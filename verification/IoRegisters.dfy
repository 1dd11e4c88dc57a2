/**
  The query "Ravr.io_reg" of gdb (src/remote.cc): a range of the device's I/O
  registers, read from the target in batches of neighbours.
 */
module IoRegisters {
  import opened Bytes
  import opened Hex
  import opened Slices
  import opened Wrappers

  /** A register of the device's table; reading one with a flag has a side effect. */
  datatype Register = Register(name: string, addr: byte, flags: byte)

  function Flagged(r: Register): bool { r.flags != 0x00 }

  function HexText(b: byte): string {
    [HexChar(b / 16) as char, HexChar(b % 16) as char]
  }

  /** One entry of the reply: a register with its value, or one that is not read. */
  datatype Item = Value(name: string, value: byte) | Skipped(name: string)

  function ItemText(item: Item): string {
    match item
    case Value(name, value) => name + "," + HexText(value) + ";"
    case Skipped(name) => "[-- " + name + " --],00;"
  }

  /** The texts of the entries, one after the other. */
  function Text(items: seq<Item>, show: Item -> string): string {
    if items == [] then "" else Text(items[..|items| - 1], show) + show(items[|items| - 1])
  }

  lemma TextOfOneMore(items: seq<Item>, item: Item, show: Item -> string)
    ensures Text(items + [item], show) == Text(items, show) + show(item)
  {
    assert (items + [item])[..|items|] == items;
  }

  // ---------- the reply read back ----------

  /** The entries of a reply as gdb takes it apart: a name up to a ',', two digits up to a ';'. */
  function Entries(text: string): seq<(string, byte)>
    requires Latin(text)
    decreases |text|
  {
    var end := Index(text, ';');
    if end == |text| then [] else [Entry(text[..end])] + Entries(text[end + 1..])
  }

  predicate Latin(text: string) {
    forall k :: 0 <= k < |text| ==> text[k] as int < 0x100
  }

  function Entry(text: string): (string, byte)
    requires Latin(text)
  {
    var comma := Index(text, ',');
    (text[..comma], if comma + 3 == |text| then Pair(text[comma + 1] as int, text[comma + 2] as int) else 0)
  }

  /** A name that the reply can carry. */
  predicate PlainName(name: string) {
    Latin(name) && ',' !in name && ';' !in name
  }

  /** The entry that stands for an item. */
  function Stands(item: Item): (string, byte) {
    match item
    case Value(name, value) => (name, value)
    case Skipped(name) => ("[-- " + name + " --]", 0)
  }

  lemma HexTextReads(b: byte)
    ensures var t := HexText(b); |t| == 2 && Latin(t) && Pair(t[0] as int, t[1] as int) == b
    ensures ',' !in HexText(b) && ';' !in HexText(b)
  {
    PairOfByte(b);
    HexCharIsLower(b / 16);
    HexCharIsLower(b % 16);
  }

  /** A name, a ',' and two digits are an entry. */
  lemma EntryReads(name: string, digits: string)
    requires PlainName(name) && |digits| == 2 && Latin(digits)
    ensures Latin(name + "," + digits)
    ensures Entry(name + "," + digits) == (name, Pair(digits[0] as int, digits[1] as int))
  {
    var s := name + "," + digits;
    IndexOfFirst(name, ',', digits);
    assert s[..|name|] == name && s[|name| + 1] == digits[0] && s[|name| + 2] == digits[1];
  }

  /** The entry before the first ';', and the others. */
  lemma FirstEntry(entry: string, rest: string, text: string)
    requires ';' !in entry && Latin(entry) && Latin(rest) && text == entry + ";" + rest
    ensures Latin(text) && Entries(text) == [Entry(entry)] + Entries(rest)
  {
    IndexOfFirst(entry, ';', rest);
    assert text[..|entry|] == entry && text[|entry| + 1..] == rest;
  }

  lemma ItemReads(item: Item, rest: string)
    requires PlainName(item.name) && Latin(rest)
    ensures Latin(ItemText(item) + rest) && Entries(ItemText(item) + rest) == [Stands(item)] + Entries(rest)
  {
    match item
    case Value(name, value) =>
      var entry := name + "," + HexText(value);
      HexTextReads(value);
      EntryReads(name, HexText(value));
      FirstEntry(entry, rest, ItemText(item) + rest);
    case Skipped(name) =>
      var entry := "[-- " + name + " --]" + "," + "00";
      EntryReads("[-- " + name + " --]", "00");
      assert Pair('0' as int, '0' as int) == 0;
      assert entry + ";" + rest == ItemText(item) + rest;
      FirstEntry(entry, rest, ItemText(item) + rest);
  }

  lemma {:induction false} TextFromFirst(items: seq<Item>, show: Item -> string)
    requires items != []
    ensures Text(items, show) == show(items[0]) + Text(items[1..], show)
    decreases |items|
  {
    var n := |items| - 1;
    if n == 0 {
      assert items[..0] == [] && items[1..] == [];
      assert "" + show(items[0]) == show(items[0]) + "";
    } else {
      TextFromFirst(items[..n], show);
      assert items[..n][1..] == items[1..][..n - 1] && items[..n][0] == items[0];
      Regroup(show(items[0]), Text(items[1..][..n - 1], show), show(items[n]));
    }
  }

  function AllStand(items: seq<Item>): (s: seq<(string, byte)>)
    ensures |s| == |items| && forall k :: 0 <= k < |items| ==> s[k] == Stands(items[k])
  {
    if items == [] then [] else [Stands(items[0])] + AllStand(items[1..])
  }

  /** The text of a reply reads back to its entries. */
  lemma {:induction false} TextReads(items: seq<Item>)
    requires forall k :: 0 <= k < |items| ==> PlainName(items[k].name)
    ensures Latin(Text(items, ItemText)) && Entries(Text(items, ItemText)) == AllStand(items)
    decreases |items|
  {
    if items != [] {
      TextReads(items[1..]);
      TextFromFirst(items, ItemText);
      ItemReads(items[0], Text(items[1..], ItemText));
    }
  }

  // ---------- one register at a time ----------

  /** The reply for j registers from the i-th on, each asked for alone. */
  function Reply(regs: seq<Register>, i: nat, j: nat, mem: seq<byte>): seq<Item>
    requires |mem| == 0x100
    decreases j
  {
    if j == 0 || i >= |regs| then
      []
    else
      [if Flagged(regs[i]) then Skipped(regs[i].name) else Value(regs[i].name, mem[regs[i].addr])] +
      Reply(regs, i + 1, j - 1, mem)
  }

  /** Entry by entry: the registers in order, each with its value, or as one that is not read. */
  lemma {:induction false} ReplyAt(regs: seq<Register>, i: nat, j: nat, mem: seq<byte>, k: nat)
    requires |mem| == 0x100 && k < j && i + k < |regs|
    ensures var r := regs[i + k];
      && k < |Reply(regs, i, j, mem)|
      && Stands(Reply(regs, i, j, mem)[k]) == if r.flags != 0 then ("[-- " + r.name + " --]", 0) else (r.name, mem[r.addr])
    ensures Reply(regs, i, j, mem)[k].name == regs[i + k].name
    decreases j
  {
    if k > 0 {
      ReplyAt(regs, i + 1, j - 1, mem, k - 1);
    }
  }

  lemma {:induction false} ReplyLength(regs: seq<Register>, i: nat, j: nat, mem: seq<byte>)
    requires |mem| == 0x100
    ensures |Reply(regs, i, j, mem)| == if i >= |regs| then 0 else if j < |regs| - i then j else |regs| - i
    decreases j
  {
    if j > 0 && i < |regs| {
      ReplyLength(regs, i + 1, j - 1, mem);
    }
  }

  /** gdb reads from the text the registers asked for, with the values that the target has. */
  predicate Answers(text: string, regs: seq<Register>, first: nat, number: nat, mem: seq<byte>)
    requires |mem| == 0x100
  {
    && Latin(text)
    && |Entries(text)| == (if first >= |regs| then 0 else if number < |regs| - first then number else |regs| - first)
    && forall k :: 0 <= k < |Entries(text)| ==>
         var r := regs[first + k];
         Entries(text)[k] == if r.flags != 0 then ("[-- " + r.name + " --]", 0) else (r.name, mem[r.addr])
  }

  lemma ReplyReads(regs: seq<Register>, first: nat, number: nat, mem: seq<byte>)
    requires |mem| == 0x100 && forall k :: 0 <= k < |regs| ==> PlainName(regs[k].name)
    ensures Answers(Text(Reply(regs, first, number, mem), ItemText), regs, first, number, mem)
  {
    var items := Reply(regs, first, number, mem);
    ReplyLength(regs, first, number, mem);
    forall k | 0 <= k < |items|
      ensures var r := regs[first + k];
        Stands(items[k]) == (if r.flags != 0 then ("[-- " + r.name + " --]", 0) else (r.name, mem[r.addr])) &&
        PlainName(items[k].name)
    {
      ReplyAt(regs, first, number, mem, k);
    }
    TextReads(items);
  }

  /** The addresses that takes: those of the registers without flags. */
  function Addresses(regs: seq<Register>, i: nat, j: nat): seq<byte>
    decreases j
  {
    if j == 0 || i >= |regs| then
      []
    else
      (if Flagged(regs[i]) then [] else [regs[i].addr]) + Addresses(regs, i + 1, j - 1)
  }

  /** Of registers at different addresses, those with flags are not read. */
  lemma {:induction false} FlaggedAreNotRead(regs: seq<Register>, i: nat, j: nat, k: nat)
    requires k < |regs| && Flagged(regs[k])
    requires forall a, b :: 0 <= a < b < |regs| ==> regs[a].addr != regs[b].addr
    ensures regs[k].addr !in Addresses(regs, i, j)
    decreases j
  {
    if j > 0 && i < |regs| {
      FlaggedAreNotRead(regs, i + 1, j - 1, k);
    }
  }

  /** The others are. */
  lemma {:induction false} UnflaggedAreRead(regs: seq<Register>, i: nat, j: nat, k: nat)
    requires i <= k < i + j && k < |regs| && regs[k].flags == 0
    ensures regs[k].addr in Addresses(regs, i, j)
    decreases j
  {
    if k > i {
      UnflaggedAreRead(regs, i + 1, j - 1, k);
    }
  }

  // ---------- in batches ----------

  /** The first `count` registers from the i-th on have no flags, and lie one after the other. */
  predicate Batch(regs: seq<Register>, i: nat, count: nat) {
    i + count <= |regs| && forall m :: i <= m < i + count ==> !Flagged(regs[m]) && regs[m].addr == regs[i].addr + (m - i)
  }

  function Range(addr: nat, count: nat): seq<byte>
    requires addr + count <= 0x100
  {
    if count == 0 then [] else Range(addr, count - 1) + [addr + count - 1]
  }

  lemma Regroup<T>(a: seq<T>, b: seq<T>, c: seq<T>)
    ensures a + (b + c) == (a + b) + c
  {
  }

  /** The data space of the target, and what has been read of it. */
  class Target {
    const mem: seq<byte>
    var log: seq<byte>
    /** How many more reads may give nothing. */
    var failures: nat

    ghost predicate Valid() { |mem| == 0x100 }

    constructor (mem: seq<byte>, failures: nat)
      requires |mem| == 0x100
      ensures Valid() && this.mem == mem && log == [] && this.failures == failures
    {
      this.mem, this.failures, log := mem, failures, [];
    }

    /** A read of at least one byte; nothing when it fails. */
    method JtagRead(addr: byte, count: nat) returns (bytes: Option<seq<byte>>)
      requires Valid() && 0 < count && addr + count <= 0x100
      modifies this
      ensures bytes.Some? ==>
        && |bytes.value| == count && (forall k :: 0 <= k < count ==> bytes.value[k] == mem[addr + k])
        && failures == old(failures)
        && log == old(log) + Range(addr, count)
      ensures bytes.None? ==> failures == old(failures) - 1 && log == old(log)
    {
      var fails: bool := *;
      if failures > 0 && fails {
        failures := failures - 1;
        return None;
      }
      log := log + Range(addr, count);
      return Some(mem[addr..addr + count]);
    }
  }

  lemma ReplyOfBatch(regs: seq<Register>, i: nat, j: nat, count: nat, mem: seq<byte>, done: nat)
    requires |mem| == 0x100 && Batch(regs, i, count) && done < count <= j
    ensures regs[i].addr + done < 0x100 && Reply(regs, i + done, j - done, mem) ==
      [Value(regs[i + done].name, mem[regs[i].addr + done])] + Reply(regs, i + done + 1, j - done - 1, mem)
  {
    assert regs[i + done].addr == regs[i].addr + done;
  }

  lemma {:induction false} AddressesOfBatch(regs: seq<Register>, i: nat, j: nat, count: nat)
    requires Batch(regs, i, count) && 0 < count <= j && regs[i].addr + count <= 0x100
    ensures Addresses(regs, i, j) == Range(regs[i].addr, count) + Addresses(regs, i + count, j - count)
    decreases count
  {
    var last := i + count - 1;
    var more := Addresses(regs, i + count, j - count);
    assert !Flagged(regs[last]) && regs[last].addr == regs[i].addr + count - 1;
    assert Addresses(regs, last, j - (count - 1)) == [regs[last].addr] + more;
    if count > 1 {
      AddressesOfBatch(regs, i, j, count - 1);
      Regroup(Range(regs[i].addr, count - 1), [regs[last].addr], more);
    }
  }

  /** How many of the next j registers one read can cover. */
  method CountBatch(regs: seq<Register>, i: nat, j: nat) returns (count: nat)
    requires i < |regs| && 0 < j && !Flagged(regs[i])
    ensures 0 < count <= j && Batch(regs, i, count)
    ensures count < j ==> !Batch(regs, i, count + 1)
  {
    var addr: int := regs[i].addr;
    count := 0;
    while count < j
      invariant count <= j && Batch(regs, i, count) && addr == regs[i].addr + count
    {
      if i + count == |regs| || Flagged(regs[i + count]) || regs[i + count].addr != addr {
        break;
      }
      addr := addr + 1;
      count := count + 1;
    }
  }

  lemma EntryOfBatch(regs: seq<Register>, i: nat, j: nat, count: nat, mem: seq<byte>, done: nat,
                     items: seq<Item>, item: Item, whole: seq<Item>, show: Item -> string)
    requires |mem| == 0x100 && Batch(regs, i, count) && done < count <= j
    requires regs[i].addr + count <= 0x100 && item == Value(regs[i + done].name, mem[regs[i].addr + done])
    requires whole == items + Reply(regs, i + done, j - done, mem)
    ensures whole == (items + [item]) + Reply(regs, i + done + 1, j - done - 1, mem)
    ensures Text(items + [item], show) == Text(items, show) + show(item)
  {
    ReplyOfBatch(regs, i, j, count, mem, done);
    Regroup(items, [item], Reply(regs, i + done + 1, j - done - 1, mem));
    TextOfOneMore(items, item, show);
  }

  lemma EntrySkipped(regs: seq<Register>, i: nat, j: nat, mem: seq<byte>,
                     items: seq<Item>, item: Item, whole: seq<Item>, show: Item -> string)
    requires |mem| == 0x100 && i < |regs| && j > 0 && Flagged(regs[i]) && item == Skipped(regs[i].name)
    requires whole == items + Reply(regs, i, j, mem)
    ensures whole == (items + [item]) + Reply(regs, i + 1, j - 1, mem)
    ensures Text(items + [item], show) == Text(items, show) + show(item)
    ensures Addresses(regs, i, j) == Addresses(regs, i + 1, j - 1)
  {
    Regroup(items, [item], Reply(regs, i + 1, j - 1, mem));
    TextOfOneMore(items, item, show);
  }

  /** The entries of a batch that has been read are added to the reply. */
  method AddEntries(regs: seq<Register>, i: nat, j: nat, count: nat, bytes: seq<byte>, before: string, show: Item -> string,
                    ghost mem: seq<byte>, ghost items: seq<Item>)
    returns (text: string, ghost more: seq<Item>)
    requires |mem| == 0x100 && Batch(regs, i, count) && 0 < count <= j && |bytes| == count
    requires regs[i].addr + count <= 0x100 && forall k :: 0 <= k < count ==> bytes[k] == mem[regs[i].addr + k]
    requires before == Text(items, show)
    ensures text == Text(more, show)
    ensures items + Reply(regs, i, j, mem) == more + Reply(regs, i + count, j - count, mem)
  {
    text, more := before, items;
    for k := 0 to count
      invariant text == Text(more, show)
      invariant items + Reply(regs, i, j, mem) == more + Reply(regs, i + k, j - k, mem)
    {
      var item := Value(regs[i + k].name, bytes[k]);
      EntryOfBatch(regs, i, j, count, mem, k, more, item, items + Reply(regs, i, j, mem), show);
      text, more := text + show(item), more + [item];
    }
  }

  /**
    The loop over the registers asked for: it reads just the addresses that single
    reads would, each once and in order. It ends if only finitely many reads
    fail, for a failed one is tried again.
   */
  method QueryRegisters(regs: seq<Register>, first: nat, number: nat, target: Target, show: Item -> string)
    returns (text: string)
    requires target.Valid()
    modifies target
    ensures text == Text(Reply(regs, first, number, target.mem), show)
    ensures target.log == old(target.log) + Addresses(regs, first, number)
  {
    var i: nat, j: nat := first, number;
    text := "";
    ghost var items := [];
    while j > 0 && i < |regs|
      invariant text == Text(items, show)
      invariant items + Reply(regs, i, j, target.mem) == Reply(regs, first, number, target.mem)
      invariant target.log + Addresses(regs, i, j) == old(target.log) + Addresses(regs, first, number)
      decreases j, target.failures
    {
      if Flagged(regs[i]) {
        var item := Skipped(regs[i].name);
        EntrySkipped(regs, i, j, target.mem, items, item, Reply(regs, first, number, target.mem), show);
        text, items := text + show(item), items + [item];
        i, j := i + 1, j - 1;
      } else {
        var count := CountBatch(regs, i, j);
        assert regs[i + (count - 1)].addr == regs[i].addr + (count - 1);
        ghost var log := target.log;
        var bytes := target.JtagRead(regs[i].addr, count);
        if bytes.Some? {
          AddressesOfBatch(regs, i, j, count);
          Regroup(log, Range(regs[i].addr, count), Addresses(regs, i + count, j - count));
          text, items := AddEntries(regs, i, j, count, bytes.value, text, show, target.mem, items);
          i, j := i + count, j - count;
        }
      }
    }
    assert items + [] == items;
  }

  /** The reply to a query for a range of registers is the one that single reads give. */
  method IoRegQuery(regs: seq<Register>, first: nat, number: nat, target: Target) returns (text: string)
    requires target.Valid()
    modifies target
    ensures text == Text(Reply(regs, first, number, target.mem), ItemText)
    ensures (forall k :: 0 <= k < |regs| ==> PlainName(regs[k].name)) ==> Answers(text, regs, first, number, target.mem)
    ensures target.log == old(target.log) + Addresses(regs, first, number)
  {
    if forall k :: 0 <= k < |regs| ==> PlainName(regs[k].name) {
      ReplyReads(regs, first, number, target.mem);
    }
    text := QueryRegisters(regs, first, number, target, ItemText);
  }
}
