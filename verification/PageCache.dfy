/**
  Paged memory access of the mkII emulator (src/jtag2rw.cc): reads that go through
  a cache of one page, and writes of whole pages.
 */
module PageCache {
  import opened Bytes
  import opened Pages
  import opened Wrappers

  /** A range that the read gets right: it starts on a page boundary, or stays inside one page. */
  predicate Regular(addr: nat, n: nat, p: nat)
    requires p > 0
  {
    addr == PageOf(addr, p) || addr + n <= PageOf(addr, p) + p
  }

  /**
    What a read has got right so far: every byte of the first chunk, every byte of a
    read from a page boundary, and otherwise the first byte after the first chunk
    comes from `offset` bytes too far on.
   */
  ghost predicate ReadSoFar(bytes: seq<byte>, device: seq<byte>, addr: nat, offset: nat, first: nat)
  {
    && addr + |bytes| <= |device|
    && (forall k :: 0 <= k < |bytes| && (offset == 0 || k < first) ==> bytes[k] == device[addr + k])
    && (offset > 0 && |bytes| > first ==>
          addr + first + offset < |device| && bytes[first] == device[addr + first + offset])
  }

  lemma ChunkExtends(bytes: seq<byte>, more: seq<byte>, all: seq<byte>, device: seq<byte>,
                     addr: nat, offset: nat, first: nat, pageAddr: nat, p: nat)
    requires ReadSoFar(bytes, device, addr, offset, first) && all == bytes + more && addr + |all| <= |device|
    requires pageAddr + p <= |device| && offset < p
    requires forall i :: 0 <= i < |more| && offset + i < p ==> more[i] == device[pageAddr + offset + i]
    requires if bytes == [] then pageAddr + offset == addr && |more| == first && offset + first <= p
             else pageAddr == addr + |bytes| && |more| <= p && |bytes| >= first
    ensures ReadSoFar(all, device, addr, offset, first)
  {
  }

  /** Where the loop of a read stands after some bytes: the page and the size of the next chunk. */
  ghost predicate Standing(addr: nat, n: nat, p: nat, first: nat, done: nat, pageAddr: nat, chunk: nat)
    requires p > 0
  {
    && done <= n && 0 < first <= n && addr - PageOf(addr, p) + first <= p
    && (first < n ==> addr - PageOf(addr, p) + first == p)
    && (done == 0 ==> pageAddr == PageOf(addr, p) && chunk == first)
    && (done > 0 ==> first <= done && chunk == if n - done > p then p else n - done)
    && (0 < done < n ==> pageAddr == addr + done && Aligned(pageAddr, p))
  }

  lemma StandingNext(addr: nat, n: nat, p: nat, first: nat, done: nat, pageAddr: nat, chunk: nat, next: nat)
    requires p > 0 && Standing(addr, n, p, first, done, pageAddr, chunk) && done < n
    requires next == if n - (done + chunk) > p then p else n - (done + chunk)
    ensures Aligned(pageAddr, p) && 0 < chunk <= p && done + chunk <= n && pageAddr <= addr + done
    ensures Standing(addr, n, p, first, done + chunk, pageAddr + p, next)
  {
  }

  /** A memory with one page of it replaced. */
  function WithPage(device: seq<byte>, base: nat, data: seq<byte>): (r: seq<byte>)
    requires base + |data| <= |device|
    ensures |r| == |device|
  {
    device[..base] + data + device[base + |data|..]
  }

  // ---------- the reader ----------

  /** The end of a read: the bytes, no answer, or a page that is too large for the cache written over its end. */
  datatype Response = Got(bytes: seq<byte>) | NoAnswer | Overrun

  class Memory {
    const pageSize: uint32
    /** The device's memory: whole pages. */
    var device: seq<byte>
    /** Whether the link is sound; over a bad one any exchange may fail. */
    const up: bool
    /** The cache; its size is the same for all devices, and may be larger or smaller than a page. */
    const cache: array<byte>
    var tag: nat

    ghost predicate Valid()
      reads this
    {
      && PageSize(pageSize) && Aligned(|device|, pageSize) && |device| <= 0xffff_ffff
      && (TooLarge() ==> Uncached())
    }

    /** The page does not fit into the cache. */
    predicate TooLarge() {
      pageSize > cache.Length
    }

    /** Nothing is cached: the tag is no page. */
    ghost predicate Uncached()
      requires pageSize > 0
      reads this
    {
      !IsPage(tag, pageSize, |device|)
    }

    /** A tag that is a page address vouches for the cache. */
    ghost predicate Coherent()
      requires Valid()
      reads this, cache
    {
      IsPage(tag, pageSize, |device|) ==> cache[..pageSize] == device[tag..tag + pageSize]
    }

    /** The tag starts as an address that no page has: 0xffffffff for flash, 0xffff for EEPROM. */
    constructor (pageSize: uint32, cacheSize: nat, noPage: nat, device: seq<byte>, up: bool)
      requires PageSize(pageSize) && Aligned(|device|, pageSize) && |device| <= noPage <= 0xffff_ffff
      ensures Valid() && Uncached() && Coherent() && fresh(cache)
      ensures this.device == device && this.pageSize == pageSize && this.up == up && cache.Length == cacheSize
    {
      this.pageSize := pageSize;
      this.device, this.up := device, up;
      cache := new byte[cacheSize](_ => 0);
      tag := noPage;
    }

    /** Whether an exchange with the device succeeds. */
    method Exchange() returns (ok: bool)
      ensures up ==> ok
    {
      ok := *;
      ok := ok || up;
    }

    /** Reads one page into the cache. */
    method FetchPage(pageAddr: nat) returns (response: Response)
      requires Valid() && IsPage(pageAddr, pageSize, |device|)
      modifies this`tag, cache
      ensures Valid()
      ensures response.Got? ==> tag == pageAddr && Coherent()
      ensures !response.Got? ==> tag == old(tag) && cache[..] == old(cache[..])
      ensures response.Got? ==> !TooLarge()
      ensures response.Overrun? ==> TooLarge()
      ensures up ==> response != NoAnswer
    {
      var ok := Exchange();
      if !ok {
        return NoAnswer;
      }
      if pageSize > cache.Length {
        return Overrun;
      }
      forall i | 0 <= i < pageSize {
        cache[i] := device[pageAddr + i];
      }
      tag := pageAddr;
      assert cache[..pageSize] == device[pageAddr..pageAddr + pageSize];
      return Got([]);
    }

    /** Copies from the cache; beyond its end there is whatever lies next to it. */
    method CopyOut(offset: nat, n: nat) returns (bytes: seq<byte>)
      ensures |bytes| == n
      ensures forall i :: 0 <= i < n && offset + i < cache.Length ==> bytes[i] == cache[offset + i]
    {
      bytes := [];
      while |bytes| < n
        invariant |bytes| <= n
        invariant forall i :: 0 <= i < |bytes| && offset + i < cache.Length ==> bytes[i] == cache[offset + i]
      {
        var b: byte := *;
        if offset + |bytes| < cache.Length {
          b := cache[offset + |bytes|];
        }
        bytes := bytes + [b];
      }
    }

    /** One chunk of a page: from the cache, after filling it if need be. */
    method ReadChunk(pageAddr: nat, offset: nat, chunk: nat) returns (response: Response)
      requires Valid() && IsPage(pageAddr, pageSize, |device|)
      modifies this`tag, cache
      ensures Valid() && (old(Coherent()) ==> Coherent())
      ensures up ==> response != NoAnswer
      ensures response.Got? ==> !TooLarge() && |response.bytes| == chunk
      ensures response.Overrun? ==> TooLarge()
      ensures old(Coherent()) && response.Got? ==> forall i :: 0 <= i < chunk && offset + i < pageSize ==>
        response.bytes[i] == device[pageAddr + offset + i]
      ensures old(tag) == pageAddr ==> response.Got? && tag == old(tag) && cache[..] == old(cache[..])
    {
      if pageAddr != tag {
        response := FetchPage(pageAddr);
        if !response.Got? {
          return;
        }
      }
      var more := CopyOut(offset, chunk);
      forall i | Coherent() && 0 <= i < chunk && offset + i < pageSize
        ensures more[i] == device[pageAddr + offset + i]
      {
        assert cache[..pageSize][offset + i] == device[tag..tag + pageSize][offset + i];
      }
      return Got(more);
    }

    /** Reads one more chunk after the bytes read so far. */
    method ReadMore(bytes: seq<byte>, pageAddr: nat, offset: nat, chunk: nat,
                    ghost addr: nat, ghost n: nat, ghost first: nat)
      returns (response: Response)
      requires Valid() && addr + n <= |device| && addr == PageOf(addr, pageSize) + offset
      requires Standing(addr, n, pageSize, first, |bytes|, pageAddr, chunk) && |bytes| < n
      modifies this`tag, cache
      ensures Valid() && (old(Coherent()) ==> Coherent())
      ensures up ==> response != NoAnswer
      ensures response.Got? ==> !TooLarge() && |response.bytes| == |bytes| + chunk <= n && chunk > 0
      ensures Standing(addr, n, pageSize, first, |bytes| + chunk, pageAddr + pageSize,
                       if n - (|bytes| + chunk) > pageSize then pageSize else n - (|bytes| + chunk))
      ensures response.Overrun? ==> TooLarge()
      ensures old(tag) == pageAddr ==> response.Got? && tag == old(tag) && cache[..] == old(cache[..])
      ensures old(Coherent()) && ReadSoFar(bytes, device, addr, offset, first) && response.Got? ==>
        ReadSoFar(response.bytes, device, addr, offset, first)
    {
      ghost var sound := Coherent() && ReadSoFar(bytes, device, addr, offset, first);
      StandingNext(addr, n, pageSize, first, |bytes|, pageAddr, chunk,
                   if n - (|bytes| + chunk) > pageSize then pageSize else n - (|bytes| + chunk));
      PagesApart(pageAddr, |device|, pageSize);
      response := ReadChunk(pageAddr, offset, chunk);
      if response.Got? {
        if sound {
          ChunkExtends(bytes, response.bytes, bytes + response.bytes, device, addr, offset, first, pageAddr, pageSize);
        }
        response := Got(bytes + response.bytes);
      }
    }

    /** The loop of jtagRead: a first chunk, then page by page. The offset of the first chunk is kept. */
    method ReadChunks(addr: nat, numBytes: nat, base: nat, first: nat) returns (response: Response)
      requires Valid() && addr + numBytes <= |device|
      requires base == PageOf(addr, pageSize) && 0 < first <= numBytes
      requires first == if addr + numBytes >= base + pageSize then base + pageSize - addr else numBytes
      modifies this`tag, cache
      ensures Valid() && (old(Coherent()) ==> Coherent())
      ensures up ==> response != NoAnswer
      ensures response.Overrun? ==> TooLarge()
      ensures response.Got? ==> !TooLarge() && |response.bytes| == numBytes
      ensures old(Coherent()) && response.Got? ==> ReadSoFar(response.bytes, device, addr, addr - base, first)
      ensures old(tag) == base && first == numBytes ==> response.Got? && tag == old(tag) && cache[..] == old(cache[..])
    {
      var pageAddr: nat, offset: nat, left: nat, chunk: nat := base, addr - base, numBytes, first;
      ghost var sound := Coherent();
      var bytes: seq<byte> := [];
      while left > 0
        invariant Valid() && |bytes| + left == numBytes && (bytes != [] ==> !TooLarge())
        invariant Standing(addr, numBytes, pageSize, first, |bytes|, pageAddr, chunk)
        invariant sound ==> Coherent() && ReadSoFar(bytes, device, addr, offset, first)
        invariant old(tag) == base && first == numBytes ==> tag == base && cache[..] == old(cache[..])
        decreases left
      {
        response := ReadMore(bytes, pageAddr, offset, chunk, addr, numBytes, first);
        if !response.Got? {
          return;
        }
        bytes := response.bytes;
        left := left - chunk;
        chunk := if left > pageSize then pageSize else left;
        pageAddr := pageAddr + pageSize;
      }
      return Got(bytes);
    }

    /** The paged branch of jtagRead. */
    method JtagRead(addr: uint32, numBytes: nat) returns (response: Response)
      requires Valid() && addr + numBytes <= |device|
      modifies this`tag, cache
      ensures Valid() && (old(Coherent()) ==> Coherent())
      ensures up ==> response != NoAnswer
      // A page that does not fit is written over the end of the cache, whatever is read.
      ensures response.Overrun? ==> numBytes > 0 && TooLarge()
      ensures response.Got? ==> numBytes == 0 || !TooLarge()
      ensures response.Got? && numBytes > 0 ==> |response.bytes| == numBytes
      // Inside the page that is cached it needs no exchange, and changes nothing.
      ensures numBytes > 0 && addr + numBytes <= PageOf(addr, pageSize) + pageSize && old(tag) == PageOf(addr, pageSize) ==>
        response.Got? && tag == old(tag) && cache[..] == old(cache[..])
      // A regular range comes back as it is in the device.
      ensures old(Coherent()) && response.Got? && numBytes > 0 && Regular(addr, numBytes, pageSize) ==>
        response.bytes == device[addr..addr + numBytes]
      // Of any other the second chunk starts too far inside its page.
      ensures old(Coherent()) && response.Got? && numBytes > 0 && !Regular(addr, numBytes, pageSize) ==>
        var next := PageOf(addr, pageSize) + pageSize;
        var first, offset := next - addr, addr + pageSize - next;
        first < numBytes && next + offset < |device| && response.bytes[first] == device[next + offset]
    {
      if numBytes == 0 {
        return Got([0]);
      }
      var pageAddr := PageAddr(addr, pageSize);
      var chunk := numBytes;
      if addr + numBytes >= pageAddr + pageSize {
        chunk := chunk - (addr + numBytes - (pageAddr + pageSize));
      }
      response := ReadChunks(addr, numBytes, pageAddr, chunk);
    }

    /** Writes one page, and leaves the cache as it is. */
    method JtagWrite(addr: uint32, data: seq<byte>) returns (ok: bool)
      requires Valid() && addr < |device|
      modifies this`device
      // Nothing to write is no error; anything but a whole page is refused.
      ensures data == [] || (up && |data| == pageSize) ==> ok
      ensures ok ==> data == [] || |data| == pageSize
      ensures PageOf(addr, pageSize) + pageSize <= |old(device)|
      ensures device == if ok && data != [] then WithPage(old(device), PageOf(addr, pageSize), data) else old(device)
      ensures Valid()
      // The cache stays true exactly when it holds another page, or the same bytes.
      ensures old(Coherent()) ==>
        (Coherent() <==> !ok || data == [] || tag != PageOf(addr, pageSize) || cache[..pageSize] == data)
    {
      var base := PageAddr(addr, pageSize);
      PagesApart(base, |device|, pageSize);
      if data == [] {
        return true;
      }
      if |data| != pageSize {
        return false;
      }
      ok := Exchange();
      if ok {
        ghost var before := device;
        device := WithPage(device, base, data);
        OtherPagesKept(before, device, data, base, tag, pageSize);
      }
    }
  }

  lemma OtherPagesKept(a: seq<byte>, b: seq<byte>, data: seq<byte>, base: nat, tag: nat, p: nat)
    requires p > 0 && IsPage(base, p, |a|) && |data| == p
    requires b == WithPage(a, base, data)
    ensures b[base..base + p] == data
    ensures IsPage(tag, p, |a|) && tag != base ==> b[tag..tag + p] == a[tag..tag + p]
  {
    if IsPage(tag, p, |a|) && tag != base {
      if tag < base {
        PagesApart(tag, base, p);
      } else {
        PagesApart(base, tag, p);
      }
    }
  }

  /** For every range that is not regular some memory exists that it reads wrongly. */
  lemma IrregularRangeGoesWrong(addr: nat, n: nat, p: nat, size: nat) returns (device: seq<byte>)
    requires p > 0 && !Regular(addr, n, p) && Aligned(size, p) && addr + n <= size
    ensures |device| == size
    ensures var next := PageOf(addr, p) + p;
      var first, offset := next - addr, addr + p - next;
      next + offset < size && device[next + offset] != device[addr..addr + n][first]
  {
    var next := PageOf(addr, p) + p;
    assert Aligned(next, p);
    PagesApart(next, size, p);
    device := seq(size, i => if i == next then 1 else 0);
  }
}
