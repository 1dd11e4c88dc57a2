/**
  The stop-and-wait protocol of src/jtag2io.cc (recv, sendJtagCommand, doJtagCommand)
  between the host and the ICE, over channels that keep the order of frames but lose some.
 */
module Link {
  import opened Bytes
  import opened Wrappers

  const MAX_JTAG_COMM_ATTEMPTS := 10
  const EVENT_SEQNO: uint16 := 0xffff

  /** A frame in flight: a request, or the reply to one, of a command; or an event of the ICE. */
  datatype Packet = Packet(seqno: uint16, command: nat) | Event

  function SeqnoOf(p: Packet): uint16 {
    if p.Event? then EVENT_SEQNO else p.seqno
  }

  /** The host: between commands, about to send, waiting for a frame, or stopped by the exception. */
  datatype Phase = Idle | Ready(tries: nat) | Waiting(tries: nat) | Dead

  /**
    An accepted reply: the command that waited for it, the command that it answers (0 for
    an event), and whether the frame came whole, with its CRC verified.
   */
  datatype Answer = Answer(waiting: nat, answered: nat, whole: bool)

  /**
    issued: how many commands there have been; sequence: command_sequence; sends: how often
    the last command has been sent; answers: the accepted replies.
   */
  datatype State = State(
    phase: Phase, issued: nat, sequence: uint16, sends: nat,
    requests: seq<Packet>, replies: seq<Packet>, answers: seq<Answer>)

  const INIT := State(Idle, 0, 0, 0, [], [], [])

  /** The increment of recv: 0xffff is passed over. */
  function NextSeqno(n: uint16): uint16 {
    if n + 1 >= 0xffff then 0 else n + 1
  }

  // ---------- steps ----------

  datatype Action =
    | Begin
    | Send
    | Silence
    | Garbled
    | Deliver
    | CutShort
    | Abort
    | Handle
    | LoseRequest(i: nat)
    | LoseReply(i: nat)
    | Notify
    | Abandon

  predicate Enabled(s: State, a: Action) {
    match a
    case Begin => s.phase == Idle
    case Send => s.phase.Ready? && s.phase.tries < MAX_JTAG_COMM_ATTEMPTS
    case Silence => s.phase.Waiting?
    case Garbled => s.phase.Waiting? && |s.replies| > 0
    case Deliver => s.phase.Waiting? && |s.replies| > 0
    case CutShort => s.phase.Waiting? && |s.replies| > 0
    case Abort => s.phase.Ready? && s.phase.tries >= MAX_JTAG_COMM_ATTEMPTS
    case Handle => |s.requests| > 0
    case LoseRequest(i) => i < |s.requests|
    case LoseReply(i) => i < |s.replies|
    case Notify => true
    case Abandon => s.phase.Ready? || s.phase.Waiting?
  }

  function Without<T>(q: seq<T>, i: nat): seq<T>
    requires i < |q|
  {
    q[..i] + q[i + 1..]
  }

  /** The frame that recv looks at: accepted under the current number, otherwise passed over. */
  function Taken(s: State, whole: bool): State
    requires |s.replies| > 0
  {
    var r := s.replies[0];
    if SeqnoOf(r) == s.sequence then
      s.(phase := Idle, sequence := NextSeqno(s.sequence), replies := s.replies[1..],
         answers := s.answers + [Answer(s.issued, if r.Event? then 0 else r.command, whole)])
    else
      s.(replies := s.replies[1..])
  }

  /**
    Begin: doJtagCommand is called. Send: one try. Silence, Garbled: recv gives up on a
    timeout or a bad CRC, and the try is repeated. Deliver: recv looks at a whole frame.
    CutShort: it looks at one that broke off behind its header, for which recvFrame returns
    the size announced there. Abort: too many tries. Handle: the ICE answers a request.
    Abandon: a timeout is not repeated (retryOnTimeout false), or the exception is caught,
    and the host carries on.
   */
  function Apply(s: State, a: Action): State
    requires Enabled(s, a)
  {
    match a
    case Begin => s.(phase := Ready(0), issued := s.issued + 1, sends := 0)
    case Send =>
      s.(phase := Waiting(s.phase.tries + 1), requests := s.requests + [Packet(s.sequence, s.issued)], sends := s.sends + 1)
    case Silence => s.(phase := Ready(s.phase.tries))
    case Garbled => s.(phase := Ready(s.phase.tries), replies := s.replies[1..])
    case Deliver => Taken(s, true)
    case CutShort => Taken(s, false)
    case Abort => s.(phase := Dead)
    case Handle =>
      s.(requests := s.requests[1..], replies := s.replies + [s.requests[0]])
    case LoseRequest(i) => s.(requests := Without(s.requests, i))
    case LoseReply(i) => s.(replies := Without(s.replies, i))
    case Notify => s.(replies := s.replies + [Event])
    case Abandon => s.(phase := Idle)
  }

  /** The state after a list of actions, if each is enabled in its turn. */
  function Execute(s: State, actions: seq<Action>): Option<State>
    decreases |actions|
  {
    if |actions| == 0 then Some(s)
    else if Enabled(s, actions[0]) then Execute(Apply(s, actions[0]), actions[1..])
    else None
  }

  ghost predicate Reaches(s: State, t: State) {
    exists actions :: Execute(s, actions) == Some(t)
  }

  // ---------- safety ----------

  /** The number before a number, in the order of recv. */
  function PreviousSeqno(n: uint16): uint16 {
    if n == 0 then 0xfffe else n - 1
  }

  /** All that is in flight, oldest first: the replies are ahead of the requests still to be answered. */
  function Flight(s: State): seq<Packet> {
    s.replies + s.requests
  }

  /** A frame left over from an earlier command, under the number before the current one. */
  predicate Stale(p: Packet, s: State) {
    p.Packet? && p.seqno == PreviousSeqno(s.sequence)
  }

  /** A frame of the current command, under the current number. */
  predicate Current(p: Packet, s: State) {
    p.Packet? && p.seqno == s.sequence && p.command == s.issued
  }

  /**
    While the host is idle only leftovers are in flight; while it works on a command, there
    are leftovers followed by frames of this command. So at most two numbers are in flight.
   */
  ghost predicate FlightOk(s: State) {
    var q := Flight(s);
    if s.phase == Idle then
      forall i :: 0 <= i < |q| && q[i].Packet? ==> Stale(q[i], s)
    else
      && (forall i :: 0 <= i < |q| && q[i].Packet? ==> Stale(q[i], s) || Current(q[i], s))
      && (forall i, j :: 0 <= i < j < |q| && q[j].Packet? && Current(q[i], s) ==> Current(q[j], s))
  }

  ghost predicate AnswersOk(s: State) {
    forall k :: 0 <= k < |s.answers| ==> s.answers[k].waiting == s.answers[k].answered
  }

  ghost predicate Inv(s: State) {
    && s.sequence < 0xffff
    && AnswersOk(s)
    && (s.phase != Dead ==> FlightOk(s))
    && s.sends <= MAX_JTAG_COMM_ATTEMPTS
    && ((s.phase.Ready? || s.phase.Waiting?) ==> s.phase.tries == s.sends)
  }

  /** Nothing is in flight that a reply to the next command could be mistaken for. */
  ghost predicate Drained(s: State) {
    forall i :: 0 <= i < |Flight(s)| ==> SeqnoOf(Flight(s)[i]) != s.sequence
  }

  /** Giving up on a command is safe when its frames have drained. */
  ghost predicate Careful(s: State, a: Action) {
    a == Abandon ==> Drained(s)
  }

  lemma SequenceNumbers(n: uint16)
    requires n < 0xffff
    ensures NextSeqno(n) < 0xffff && PreviousSeqno(NextSeqno(n)) == n && PreviousSeqno(n) != n
  {
  }

  lemma TakenKeepsInv(s: State, whole: bool)
    requires Inv(s) && Enabled(s, Deliver)
    ensures Inv(Taken(s, whole))
  {
    var t := Taken(s, whole);
    SequenceNumbers(s.sequence);
    assert Flight(s)[0] == s.replies[0];
    assert Flight(t) == Flight(s)[1..];
  }

  lemma LossKeepsInv(s: State, t: State, i: nat)
    requires Inv(s) && i < |Flight(s)| && Flight(t) == Without(Flight(s), i)
    requires t.sequence == s.sequence && t.issued == s.issued && t.answers == s.answers && t.sends == s.sends
    requires t.phase == s.phase || (s.phase.Waiting? && t.phase == Ready(s.phase.tries))
    ensures Inv(t)
  {
    var q, r := Flight(s), Flight(t);
    forall k | 0 <= k < |r|
      ensures r[k] == q[if k < i then k else k + 1]
    {
    }
  }

  lemma NotifyKeepsInv(s: State)
    requires Inv(s)
    ensures Inv(Apply(s, Notify))
  {
    var t, n := Apply(s, Notify), |s.replies|;
    var q, r := Flight(s), Flight(t);
    assert forall k :: 0 <= k < n ==> r[k] == q[k];
    assert r[n] == Event;
    assert forall k :: n < k < |r| ==> r[k] == q[k - 1];
    forall i, j | 0 <= i < j < |r| && r[j].Packet? && Current(r[i], t) && t.phase != Idle && t.phase != Dead
      ensures Current(r[j], t)
    {
      var i', j' := if i < n then i else i - 1, if j < n then j else j - 1;
      assert q[i'] == r[i] && q[j'] == r[j] && i' < j';
    }
  }

  lemma SendKeepsInv(s: State)
    requires Inv(s) && Enabled(s, Send)
    ensures Inv(Apply(s, Send))
  {
    assert Flight(Apply(s, Send)) == Flight(s) + [Packet(s.sequence, s.issued)];
  }

  lemma BeginKeepsInv(s: State)
    requires Inv(s) && Enabled(s, Begin)
    ensures Inv(Apply(s, Begin))
  {
    SequenceNumbers(s.sequence);
    assert Flight(Apply(s, Begin)) == Flight(s);
  }

  lemma AbandonKeepsInv(s: State)
    requires Inv(s) && Enabled(s, Abandon) && Drained(s)
    ensures Inv(Apply(s, Abandon))
  {
    assert Flight(Apply(s, Abandon)) == Flight(s);
  }

  predicate OfTheChannel(a: Action) {
    a.Handle? || a.LoseRequest? || a.LoseReply? || a.Notify?
  }

  lemma HandleKeepsInv(s: State)
    requires Inv(s) && Enabled(s, Handle)
    ensures Inv(Apply(s, Handle))
  {
    assert Flight(Apply(s, Handle)) == Flight(s);
  }

  lemma LostRequestKeepsInv(s: State, i: nat)
    requires Inv(s) && Enabled(s, LoseRequest(i))
    ensures Inv(Apply(s, LoseRequest(i)))
  {
    var t := Apply(s, LoseRequest(i));
    assert Flight(t) == Without(Flight(s), |s.replies| + i);
    LossKeepsInv(s, t, |s.replies| + i);
  }

  lemma LostReplyKeepsInv(s: State, i: nat)
    requires Inv(s) && Enabled(s, LoseReply(i))
    ensures Inv(Apply(s, LoseReply(i)))
  {
    var t := Apply(s, LoseReply(i));
    assert Flight(t) == Without(Flight(s), i);
    LossKeepsInv(s, t, i);
  }

  lemma ChannelKeepsInv(s: State, a: Action)
    requires Inv(s) && Enabled(s, a) && OfTheChannel(a)
    ensures Inv(Apply(s, a))
  {
    match a
    case Handle => HandleKeepsInv(s);
    case LoseRequest(i) => LostRequestKeepsInv(s, i);
    case LoseReply(i) => LostReplyKeepsInv(s, i);
    case Notify => NotifyKeepsInv(s);
  }

  lemma ChannelAddsOne(s: State, a: Action)
    requires Enabled(s, a) && OfTheChannel(a)
    ensures |Flight(Apply(s, a))| <= |Flight(s)| + 1
  {
  }

  lemma GarbledKeepsInv(s: State)
    requires Inv(s) && Enabled(s, Garbled)
    ensures Inv(Apply(s, Garbled))
  {
    var t := Apply(s, Garbled);
    assert Flight(t) == Without(Flight(s), 0);
    LossKeepsInv(s, t, 0);
  }

  lemma SilenceKeepsInv(s: State)
    requires Inv(s) && Enabled(s, Silence)
    ensures Inv(Apply(s, Silence))
  {
    assert Flight(Apply(s, Silence)) == Flight(s);
  }

  /** Every step keeps the invariant, as long as commands are given up only when they have drained. */
  lemma StepKeepsInv(s: State, a: Action)
    requires Inv(s) && Enabled(s, a) && Careful(s, a)
    ensures Inv(Apply(s, a))
  {
    if OfTheChannel(a) {
      ChannelKeepsInv(s, a);
    } else {
      match a
      case Begin => BeginKeepsInv(s);
      case Send => SendKeepsInv(s);
      case Silence => SilenceKeepsInv(s);
      case Garbled => GarbledKeepsInv(s);
      case Deliver => TakenKeepsInv(s, true);
      case CutShort => TakenKeepsInv(s, false);
      case Abandon => AbandonKeepsInv(s);
      case _ =>
    }
  }

  /** The states of a run are joined by careful steps. */
  ghost predicate CarefulRun(run: seq<State>, actions: seq<Action>) {
    && |run| == |actions| + 1 && run[0] == INIT
    && forall i :: 0 <= i < |actions| ==>
         Enabled(run[i], actions[i]) && Careful(run[i], actions[i]) && run[i + 1] == Apply(run[i], actions[i])
  }

  /**
    Over every run: a reply that is accepted answers the command that waits for it, even
    when the numbers wrap or the reply breaks off; the number of events is never a
    command's; and no command is sent more than ten times.
   */
  lemma {:induction false} RunIsSafe(run: seq<State>, actions: seq<Action>, n: nat)
    requires CarefulRun(run, actions) && n < |run|
    ensures Inv(run[n])
    ensures forall k :: 0 <= k < |run[n].answers| ==> run[n].answers[k].waiting == run[n].answers[k].answered
    ensures run[n].sequence != 0xffff && run[n].sends <= 10
  {
    if n > 0 {
      RunIsSafe(run, actions, n - 1);
      StepKeepsInv(run[n - 1], actions[n - 1]);
    }
  }

  // ---------- frames that break off ----------

  /** A frame that breaks off is taken for an answer: it bears the current number. */
  predicate TakenUnread(s: State, a: Action) {
    a == CutShort && Enabled(s, a) && SeqnoOf(s.replies[0]) == s.sequence
  }

  /** The k-th reply was accepted at a step that took a frame which breaks off. */
  ghost predicate UnreadAt(run: seq<State>, actions: seq<Action>, n: nat, k: nat)
    requires |run| == |actions| + 1 && n < |run|
  {
    exists i :: 0 <= i < n && |run[i].answers| == k && TakenUnread(run[i], actions[i])
  }

  lemma {:induction false} AnswersGrow(run: seq<State>, actions: seq<Action>, i: nat, n: nat)
    requires CarefulRun(run, actions) && i <= n < |run|
    ensures |run[i].answers| <= |run[n].answers| && run[n].answers[..|run[i].answers|] == run[i].answers
    decreases n
  {
    if i < n {
      AnswersGrow(run, actions, i, n - 1);
      assert run[n] == Apply(run[n - 1], actions[n - 1]);
    }
  }

  /** One step accepts at most one reply, and says whether it was whole. */
  lemma OneAnswer(s: State, a: Action)
    requires Enabled(s, a)
    ensures |Apply(s, a).answers| <= |s.answers| + 1
    ensures forall k :: 0 <= k < |s.answers| ==> Apply(s, a).answers[k] == s.answers[k]
    ensures |Apply(s, a).answers| > |s.answers| ==> (Apply(s, a).answers[|s.answers|].whole <==> !TakenUnread(s, a))
    ensures TakenUnread(s, a) ==> |Apply(s, a).answers| > |s.answers|
  {
  }

  /**
    Over every run, exactly the replies that were taken from a frame which broke off, behind
    a header with the current number, are handed over without their message having been read.
   */
  lemma {:induction false} WholeUnlessCutShort(run: seq<State>, actions: seq<Action>, n: nat, k: nat)
    requires CarefulRun(run, actions) && n < |run| && k < |run[n].answers|
    ensures run[n].answers[k].whole <==> !UnreadAt(run, actions, n, k)
  {
    if n > 0 {
      var s, a := run[n - 1], actions[n - 1];
      OneAnswer(s, a);
      if k < |s.answers| {
        WholeUnlessCutShort(run, actions, n - 1, k);
        assert UnreadAt(run, actions, n, k) == UnreadAt(run, actions, n - 1, k);
      } else {
        forall i | 0 <= i < n - 1 && TakenUnread(run[i], actions[i])
          ensures |run[i].answers| != k
        {
          OneAnswer(run[i], actions[i]);
          AnswersGrow(run, actions, i + 1, n - 1);
        }
        assert TakenUnread(s, a) == UnreadAt(run, actions, n, k);
      }
    }
  }

  // ---------- why giving up early is not safe ----------

  lemma {:induction false} ExecuteMore(s: State, actions: seq<Action>, more: seq<Action>)
    requires Execute(s, actions).Some?
    ensures Execute(s, actions + more) == Execute(Execute(s, actions).value, more)
    decreases |actions|
  {
    if |actions| == 0 {
      assert actions + more == more;
    } else {
      assert (actions + more)[1..] == actions[1..] + more;
      ExecuteMore(Apply(s, actions[0]), actions[1..], more);
    }
  }

  lemma ReachesMore(s: State, t: State, u: State)
    requires Reaches(s, t) && Reaches(t, u)
    ensures Reaches(s, u)
  {
    var a :| Execute(s, a) == Some(t);
    var b :| Execute(t, b) == Some(u);
    ExecuteMore(s, a, b);
  }

  lemma ReachesStep(s: State, a: Action)
    requires Enabled(s, a)
    ensures Reaches(s, Apply(s, a))
  {
    assert Execute(Apply(s, a), [a][1..]) == Some(Apply(s, a));
    assert Execute(s, [a]) == Some(Apply(s, a));
  }

  /** The ICE may answer everything before the host looks at a frame. */
  lemma {:induction false} HandleAll(s: State) returns (t: State)
    ensures Reaches(s, t) && t == s.(requests := [], replies := Flight(s))
    decreases |s.requests|
  {
    if |s.requests| == 0 {
      t := s;
      assert Flight(s) == s.replies;
      assert Execute(s, []) == Some(s);
    } else {
      var u := Apply(s, Handle);
      assert Flight(u) == Flight(s);
      ReachesStep(s, Handle);
      t := HandleAll(u);
      ReachesMore(s, u, t);
    }
  }

  /** The first frame under the current number is accepted, whatever it answers. */
  lemma {:induction false} DeliverFirst(s: State, i: nat) returns (t: State)
    requires s.phase.Waiting? && i < |s.replies| && s.sequence != EVENT_SEQNO
    requires SeqnoOf(s.replies[i]) == s.sequence
    requires forall j :: 0 <= j < i ==> SeqnoOf(s.replies[j]) != s.sequence
    ensures Reaches(s, t) && t.answers == s.answers + [Answer(s.issued, s.replies[i].command, true)]
    decreases i
  {
    var u := Apply(s, Deliver);
    ReachesStep(s, Deliver);
    if i == 0 {
      t := u;
    } else {
      t := DeliverFirst(u, i - 1);
      ReachesMore(s, u, t);
    }
  }

  /** The first frame in flight under the current number. */
  lemma {:induction false} FirstUnderNumber(q: seq<Packet>, n: uint16, k: nat) returns (i: nat)
    requires k < |q| && SeqnoOf(q[k]) == n
    ensures i <= k && SeqnoOf(q[i]) == n && forall j :: 0 <= j < i ==> SeqnoOf(q[j]) != n
    decreases k
  {
    if exists j :: 0 <= j < k && SeqnoOf(q[j]) == n {
      var j: nat :| j < k && SeqnoOf(q[j]) == n;
      i := FirstUnderNumber(q, n, j);
    } else {
      i := k;
    }
  }

  /**
    Giving up while a frame of the command is still in flight is unsafe: the host can go on
    to a state in which it has taken the reply to the old command for one to the new.
   */
  lemma AbandonedFrameMisleads(s: State) returns (t: State)
    requires Inv(s) && Enabled(s, Abandon) && !Drained(s)
    ensures Reaches(Apply(s, Abandon), t) && !AnswersOk(t)
  {
    var s0 := Apply(s, Abandon);
    var s1 := Apply(s0, Begin);
    var s2 := Apply(s1, Send);
    ReachesStep(s0, Begin);
    ReachesStep(s1, Send);
    ReachesMore(s0, s1, s2);
    var s3 := HandleAll(s2);
    ReachesMore(s0, s2, s3);
    var q := Flight(s);
    assert s3.replies == q + [Packet(s.sequence, s.issued + 1)];
    var k: nat :| k < |q| && SeqnoOf(q[k]) == s.sequence;
    var i := FirstUnderNumber(q, s.sequence, k);
    SequenceNumbers(s.sequence);
    assert Current(q[i], s);
    t := DeliverFirst(s3, i);
    ReachesMore(s0, s3, t);
    assert t.answers[|s.answers|] == Answer(s.issued + 1, s.issued, true);
  }

  /** The first command already can be answered by a frame whose message never came. */
  lemma FirstCommandUnread() returns (t: State)
    ensures Reaches(INIT, t) && t.phase == Idle && t.answers == [Answer(1, 1, false)]
  {
    var begun := Apply(INIT, Begin);
    var sent := Apply(begun, Send);
    var handled := Apply(sent, Handle);
    ReachesStep(INIT, Begin);
    ReachesStep(begun, Send);
    ReachesMore(INIT, begun, sent);
    ReachesStep(sent, Handle);
    ReachesMore(INIT, sent, handled);
    t := Apply(handled, CutShort);
    ReachesStep(handled, CutShort);
    ReachesMore(INIT, handled, t);
  }

  /** Such a state is reached by the first command already, and so is the mistake. */
  lemma FirstCommandMisleads() returns (s: State, t: State)
    ensures Reaches(INIT, s) && Inv(s) && Enabled(s, Abandon) && !Drained(s)
    ensures Reaches(INIT, t) && !AnswersOk(t)
  {
    var begun := Apply(INIT, Begin);
    s := Apply(begun, Send);
    ReachesStep(INIT, Begin);
    ReachesStep(begun, Send);
    ReachesMore(INIT, begun, s);
    BeginKeepsInv(INIT);
    SendKeepsInv(begun);
    assert Flight(s)[0] == Packet(0, 1);
    t := AbandonedFrameMisleads(s);
    ReachesStep(s, Abandon);
    ReachesMore(INIT, s, Apply(s, Abandon));
    ReachesMore(INIT, Apply(s, Abandon), t);
  }

  // ---------- the host's code ----------

  /** What the channel does of itself: it loses frames only if it is not lossless. */
  predicate Allowed(a: Action, lossless: bool) {
    OfTheChannel(a) && (lossless ==> !a.LoseRequest? && !a.LoseReply?)
  }

  lemma ChannelKeepsFlight(s: State, a: Action, p: Packet)
    requires Enabled(s, a) && Allowed(a, true)
    ensures p in s.replies ==> p in Apply(s, a).replies
    ensures p in Flight(s) ==> p in Flight(Apply(s, a))
  {
    if a.Handle? {
      assert Flight(Apply(s, a)) == Flight(s);
    } else {
      assert Apply(s, a).replies == s.replies + [Event];
    }
  }

  /** The loops of recv and doJtagCommand, acting on the system while the channel does as it likes. */
  class Host {
    var s: State
    /** How many things the ICE and the channel are still going to do of themselves. */
    var budget: nat
    /** Whether every frame that arrives is intact; whether every frame arrives. */
    const sound: bool
    const lossless: bool
    /** Whether the ICE answers all requests before the host gives up waiting. */
    const prompt: bool

    constructor (budget: nat, sound: bool, lossless: bool, prompt: bool)
      ensures s == INIT && Inv(s) && this.budget == budget
      ensures this.sound == sound && this.lossless == lossless && this.prompt == prompt
    {
      s, this.budget := INIT, budget;
      this.sound, this.lossless, this.prompt := sound, lossless, prompt;
    }

    /** The fields that only the host writes. */
    function Own(): (Phase, nat, uint16, nat, seq<Answer>)
      reads `s
    {
      (s.phase, s.issued, s.sequence, s.sends, s.answers)
    }

    /** The reply that the host waits for. */
    function Awaited(): Packet
      reads `s
    {
      Packet(s.sequence, s.issued)
    }

    /** The reply is there, or on its way over a link that does not lose it, from an ICE that answers in time. */
    predicate Coming()
      reads `s
    {
      Awaited() in s.replies || (prompt && Awaited() in Flight(s))
    }

    /** What the ICE and the channel do meanwhile. */
    method Environment()
      requires Inv(s)
      modifies this
      ensures Inv(s) && Own() == old(Own())
      ensures budget + |Flight(s)| <= old(budget + |Flight(s)|)
      ensures lossless && old(Coming()) ==> Awaited() in s.replies
    {
      ghost var p, there, coming := Awaited(), Awaited() in s.replies, Awaited() in Flight(s);
      var n: nat := *;
      while n > 0 && budget > 0
        invariant Inv(s) && Own() == old(Own())
        invariant budget + |Flight(s)| <= old(budget + |Flight(s)|)
        invariant lossless ==> (there ==> p in s.replies) && (coming ==> p in Flight(s))
        decreases budget
      {
        var a: Action := *;
        if Allowed(a, lossless) && Enabled(s, a) {
          ChannelKeepsInv(s, a);
          ChannelAddsOne(s, a);
          if lossless {
            ChannelKeepsFlight(s, a, p);
          }
          s := Apply(s, a);
        }
        budget := budget - 1;
      }
      if prompt {
        HandleRequests();
      }
    }

    /** The ICE answers all that has reached it. */
    method HandleRequests()
      requires Inv(s)
      modifies this`s
      ensures Inv(s) && Own() == old(Own()) && s.requests == [] && s.replies == old(Flight(s))
    {
      while s.requests != []
        invariant Inv(s) && Own() == old(Own()) && Flight(s) == old(Flight(s))
        decreases |s.requests|
      {
        HandleKeepsInv(s);
        assert Flight(Apply(s, Handle)) == Flight(s);
        s := Apply(s, Handle);
      }
      assert Flight(s) == s.replies;
    }

    /**
      Waits for the reply to the current command; passes over events and leftovers. Over a
      channel that is not sound the reply may break off, and is then accepted all the same.
     */
    method Recv() returns (answer: Option<Answer>)
      requires Inv(s) && s.phase.Waiting?
      modifies this
      ensures Inv(s) && s.issued == old(s.issued) && s.sends == old(s.sends)
      ensures answer.Some? ==>
        && answer.value == Answer(s.issued, s.issued, answer.value.whole)
        && s.phase == Idle && s.sequence == (if old(s.sequence) == 0xfffe then 0 else old(s.sequence) + 1)
        && s.answers == old(s.answers) + [answer.value]
      ensures answer.None? ==>
        s.phase == Ready(old(s.phase.tries)) && s.sequence == old(s.sequence) && s.answers == old(s.answers)
      // Over a sound channel what it accepts is whole, and it gives up only when nothing is there.
      ensures sound ==> if answer.Some? then answer.value.whole else s.replies == []
      // A reply that is there, or comes in time, it accepts, whatever events and leftovers come before.
      ensures sound && lossless && old(Coming()) ==> answer.Some?
    {
      ghost var coming := sound && lossless && Coming();
      while true
        invariant Inv(s) && Own() == old(Own()) && (coming ==> Coming())
        decreases budget + |Flight(s)|
      {
        Environment();
        if s.replies == [] {
          break;
        }
        var garbled: bool, brokenOff: bool := *, *;
        if !sound && garbled {
          GarbledKeepsInv(s);
          s := Apply(s, Garbled);
          return None;
        }
        answer := Look(sound || !brokenOff);
        if answer.Some? {
          return;
        }
      }
      SilenceKeepsInv(s);
      s := Apply(s, Silence);
      return None;
    }

    /** Looks at the number of a frame, which is all that decides whether it is accepted. */
    method Look(whole: bool) returns (answer: Option<Answer>)
      requires Inv(s) && s.phase.Waiting? && |s.replies| > 0
      modifies this`s
      ensures Inv(s) && s == Apply(old(s), if whole then Deliver else CutShort)
      ensures answer.Some? <==> SeqnoOf(old(s.replies[0])) == old(s.sequence)
      ensures answer.Some? ==> answer.value == Answer(s.issued, s.issued, whole)
      ensures if answer.Some? then s.answers == old(s.answers) + [answer.value] else Own() == old(Own())
      ensures answer.Some? ==> s.phase == Idle && s.sequence == NextSeqno(old(s.sequence))
      ensures answer.None? && old(Awaited() in s.replies) ==> Awaited() in s.replies
      ensures |Flight(s)| < old(|Flight(s)|)
    {
      TakenKeepsInv(s, whole);
      AcceptedIsCurrent(s);
      var r := s.replies[0];
      s := s.(replies := s.replies[1..]);
      if SeqnoOf(r) != s.sequence {
        return None;
      }
      var next := if s.sequence + 1 == 0xffff then 0 else s.sequence + 1;
      answer := Some(Answer(s.issued, if r.Event? then 0 else r.command, whole));
      s := s.(sequence := next, phase := Idle, answers := s.answers + [answer.value]);
    }

    /** Sends a command until it is answered; after ten tries without an answer the run is over. */
    method DoJtagCommand() returns (reply: Option<Answer>)
      requires Inv(s) && s.phase == Idle
      modifies this
      ensures Inv(s) && s.issued == old(s.issued) + 1
      ensures reply.Some? ==> s.phase == Idle && reply.value == Answer(s.issued, s.issued, reply.value.whole)
      ensures reply.Some? && sound ==> reply.value.whole
      ensures reply.Some? ==> 1 <= s.sends <= 10 && s.sequence == if old(s.sequence) == 0xfffe then 0 else old(s.sequence) + 1
      ensures reply.None? ==> s.phase == Dead && s.sends == 10
      // Over a link that keeps every frame, an ICE that answers in time is asked once only.
      ensures sound && lossless && prompt ==> reply.Some? && s.sends == 1
    {
      BeginKeepsInv(s);
      s := Apply(s, Begin);
      var tries := 0;
      while tries < MAX_JTAG_COMM_ATTEMPTS
        invariant Inv(s) && s.phase == Ready(tries) && tries <= MAX_JTAG_COMM_ATTEMPTS
        invariant s.issued == old(s.issued) + 1 && s.sequence == old(s.sequence)
        invariant sound && lossless && prompt ==> tries == 0
      {
        tries := tries + 1;
        SendKeepsInv(s);
        s := Apply(s, Send);
        assert s.requests[|s.requests| - 1] == Awaited();
        assert Awaited() in Flight(s);
        reply := Recv();
        if reply.Some? {
          return;
        }
      }
      s := Apply(s, Abort);
      return None;
    }
  }

  lemma AcceptedIsCurrent(s: State)
    requires Inv(s) && Enabled(s, Deliver)
    ensures SeqnoOf(s.replies[0]) == s.sequence ==> s.replies[0] == Packet(s.sequence, s.issued)
  {
    SequenceNumbers(s.sequence);
    assert Flight(s)[0] == s.replies[0];
  }
}
