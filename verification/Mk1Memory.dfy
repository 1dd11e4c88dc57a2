/**
  Reading program memory with the mkI emulator (src/jtagrw.cc): it reads whole words,
  and outside programming mode it sends the bytes of each word swapped.
 */
module Mk1Memory {
  import opened Bytes
  import opened Slices
  import opened Wrappers

  const JTAG_R_OK: byte := 0x41
  const MAX_LOCATIONS := 256

  /** The two bytes of each word exchanged. */
  function Swapped(s: seq<byte>): (r: seq<byte>)
    requires |s| % 2 == 0
    ensures |r| == |s|
  {
    seq<byte>(|s|, i requires 0 <= i < |s| => if i % 2 == 0 then s[i + 1] else s[i - 1])
  }

  lemma SwappedTwice(s: seq<byte>)
    requires |s| % 2 == 0
    ensures Swapped(Swapped(s)) == s
  {
    var t := Swapped(s);
    forall i | 0 <= i < |s|
      ensures Swapped(t)[i] == s[i]
    {
      if i % 2 == 0 {
        assert t[i + 1] == s[i];
      } else {
        assert t[i - 1] == s[i];
      }
    }
  }

  /** The number of words a read asks for. */
  function Locations(addr: nat, numBytes: nat): nat {
    if addr % 2 == 1 then (numBytes + 2) / 2 else (numBytes + 1) / 2
  }

  /** They cover the bytes asked for, and no word among them is there in vain. */
  lemma LocationsCover(addr: nat, numBytes: nat)
    requires numBytes > 0
    ensures var first, last := addr / 2, addr / 2 + Locations(addr, numBytes) - 1;
      && 2 * first <= addr < 2 * first + 2
      && 2 * last <= addr + numBytes - 1 < 2 * last + 2
  {
  }

  method SwapBytes(buffer: array<byte>, count: nat)
    requires count % 2 == 0 && count <= buffer.Length
    modifies buffer
    ensures buffer[..] == Swapped(old(buffer[..count])) + old(buffer[count..])
  {
    var i := 0;
    while i < count
      invariant i <= count && i % 2 == 0
      invariant forall k :: 0 <= k < i ==> buffer[k] == if k % 2 == 0 then old(buffer[k + 1]) else old(buffer[k - 1])
      invariant forall k :: i <= k < buffer.Length ==> buffer[k] == old(buffer[k])
    {
      var temp := buffer[i];
      buffer[i] := buffer[i + 1];
      buffer[i + 1] := temp;
      i := i + 2;
    }
  }

  class Jtag1 {
    const flash: seq<byte>
    var programmingEnabled: bool
    /** Whether the emulator answers reads of program memory. */
    var answers: bool

    ghost predicate Valid() { |flash| % 2 == 0 }

    constructor (flash: seq<byte>, programmingEnabled: bool, answers: bool)
      requires |flash| % 2 == 0
      ensures Valid() && this.flash == flash && this.programmingEnabled == programmingEnabled && this.answers == answers
    {
      this.flash, this.programmingEnabled, this.answers := flash, programmingEnabled, answers;
    }

    /** The emulator's reply: the words, another byte, and whether all went well. */
    method DoReadCommand(word: nat, n: nat) returns (response: array<byte>)
      requires Valid() && 2 * (word + n) <= |flash|
      ensures fresh(response) && response.Length == 2 * n + 2
      ensures response[2 * n + 1] == JTAG_R_OK <==> answers
      ensures answers ==>
        var data := flash[2 * word..2 * (word + n)];
        response[..2 * n] == if programmingEnabled then data else Swapped(data)
    {
      var data := flash[2 * word..2 * (word + n)];
      var sent := if programmingEnabled then data else Swapped(data);
      var status: byte := if answers then JTAG_R_OK else 0;
      response := new byte[2 * n + 2](_ => status);
      forall i | 0 <= i < 2 * n {
        response[i] := sent[i];
      }
      assert response[..2 * n] == sent;
    }

    /** Whole words, with their bytes in the order of the memory; none if the read fails. */
    method ReadWords(word: nat, n: nat) returns (response: Option<array<byte>>)
      requires Valid() && 2 * (word + n) <= |flash|
      ensures response.Some? <==> answers
      ensures response.Some? ==>
        fresh(response.value) && response.value.Length == 2 * n + 2 &&
        response.value[..2 * n] == flash[2 * word..2 * (word + n)]
    {
      var buffer := DoReadCommand(word, n);
      if buffer[2 * n + 1] != JTAG_R_OK {
        return None;
      }
      if !programmingEnabled {
        SwapBytes(buffer, 2 * n);
        SwappedTwice(flash[2 * word..2 * (word + n)]);
      }
      return Some(buffer);
    }

    /** The bytes asked for, from any address, in either mode; none if they are too many or the read fails. */
    method JtagRead(addr: nat, numBytes: nat) returns (response: Option<array<byte>>)
      requires Valid() && addr + numBytes <= |flash|
      ensures response.Some? && numBytes > 0 ==>
        fresh(response.value) && numBytes <= response.value.Length &&
        response.value[..numBytes] == flash[addr..addr + numBytes]
      ensures response.Some? <==> numBytes == 0 || (answers && Locations(addr, numBytes) <= MAX_LOCATIONS)
    {
      if numBytes == 0 {
        var empty := new byte[1](_ => 0);
        return Some(empty);
      }
      LocationsCover(addr, numBytes);
      var numLocations := Locations(addr, numBytes);
      if numLocations > MAX_LOCATIONS {
        return None;
      }
      var word := addr / 2;
      response := ReadWords(word, numLocations);
      if response.Some? {
        ghost var skip := addr - 2 * word;
        SliceOfSlice(flash, 2 * word, 2 * (word + numLocations), skip, skip + numBytes);
        SliceOfSlice(response.value[..], 0, 2 * numLocations, skip, skip + numBytes);
        assert response.value[skip..skip + numBytes] == flash[addr..addr + numBytes];
        if addr % 2 == 1 {
          MoveDown(response.value, numBytes);
        }
      }
    }
  }

  /** The first n bytes give way to those one place on. */
  method MoveDown(buffer: array<byte>, n: nat)
    requires n < buffer.Length
    modifies buffer
    ensures buffer[..n] == old(buffer[1..n + 1])
  {
    for i := 0 to n
      invariant forall k :: 0 <= k < i ==> buffer[k] == old(buffer[k + 1])
      invariant forall k :: i <= k < buffer.Length ==> buffer[k] == old(buffer[k])
    {
      buffer[i] := buffer[i + 1];
    }
  }
}
