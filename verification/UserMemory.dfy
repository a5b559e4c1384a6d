/** Bytes of an address space seen through its page map: copies cut at page boundaries are flat
    virtual copies. */
module UserMemory {
  type Contents = seq<seq<int>>

  predicate Sized(frames: Contents) { forall f :: 0 <= f < |frames| ==> |frames[f]| == 4096 }

  /** Pages have frames of their own; frame 0 is never mapped. */
  ghost predicate Laid(pages: map<nat, nat>, frames: Contents) {
    && Sized(frames)
    && (forall p {:trigger pages[p]} :: p in pages ==> 0 < pages[p] < |frames|)
    && (forall p, q {:trigger pages[p], pages[q]} :: p in pages && q in pages && pages[p] == pages[q] ==> p == q)
  }

  /** The byte at virtual address `a`. */
  function ByteAt(pages: map<nat, nat>, frames: Contents, a: nat): int
    requires Sized(frames) && a / 4096 in pages && pages[a / 4096] < |frames|
  {
    frames[pages[a / 4096]][a % 4096]
  }

  /** `data` has been written at `address`, and nothing else, in this or any other frame. */
  ghost predicate Wrote(pages: map<nat, nat>, before: Contents, after: Contents, address: nat, data: seq<int>) {
    && Laid(pages, before) && Laid(pages, after) && |before| == |after|
    && (forall a: nat {:trigger ByteAt(pages, after, a)} :: a / 4096 in pages ==>
          ByteAt(pages, after, a) == if address <= a < address + |data| then data[a - address]
            else ByteAt(pages, before, a))
    && (forall f {:trigger after[f]} :: 0 <= f < |before| && f !in pages.Values ==> after[f] == before[f])
  }

  function Patched(page: seq<int>, at: nat, data: seq<int>): (r: seq<int>)
    requires at + |data| <= |page|
    ensures |r| == |page|
    ensures forall k {:trigger r[k]} :: 0 <= k < |r| ==> r[k] == if at <= k < at + |data| then data[k - at] else page[k]
  {
    page[..at] + data + page[at + |data|..]
  }

  /** Writing within one page. */
  lemma WroteChunk(pages: map<nat, nat>, frames: Contents, address: nat, data: seq<int>)
    requires Laid(pages, frames) && address / 4096 in pages && address % 4096 + |data| <= 4096
    ensures var f := pages[address / 4096];
            Wrote(pages, frames, frames[f := Patched(frames[f], address % 4096, data)], address, data)
  {
    hide Patched;
    var p: nat := address / 4096;
    var f := pages[p];
    var after := frames[f := Patched(frames[f], address % 4096, data)];
    forall a: nat | a / 4096 in pages
      ensures ByteAt(pages, after, a) == if address <= a < address + |data| then data[a - address]
              else ByteAt(pages, frames, a)
    {
      if a / 4096 == p {
        assert a == 4096 * p + a % 4096 && address == 4096 * p + address % 4096;
        assert a % 4096 - address % 4096 == a - address;
      } else {
        assert pages[a / 4096] != f;
        if address <= a < address + |data| { InPage(address, a, |data|); assert false; }
      }
    }
  }

  lemma InPage(address: nat, a: nat, n: nat)
    requires address <= a < address + n && address % 4096 + n <= 4096
    ensures a / 4096 == address / 4096
  {
    var p: nat := address / 4096;
    assert 4096 * p <= a < 4096 * p + 4096;
  }

  lemma WroteNothing(pages: map<nat, nat>, frames: Contents, address: nat)
    requires Laid(pages, frames)
    ensures Wrote(pages, frames, frames, address, [])
  {}

  /** Two writes in a row, one behind the other. */
  lemma WroteMore(pages: map<nat, nat>, a: Contents, b: Contents, c: Contents, address: nat, d: seq<int>, e: seq<int>)
    requires Wrote(pages, a, b, address, d) && Wrote(pages, b, c, address + |d|, e)
    ensures Wrote(pages, a, c, address, d + e)
  {
    forall x: nat | x / 4096 in pages
      ensures ByteAt(pages, c, x) == if address <= x < address + |d + e| then (d + e)[x - address]
              else ByteAt(pages, a, x)
    {
      assert ByteAt(pages, b, x) == if address <= x < address + |d| then d[x - address] else ByteAt(pages, a, x);
    }
    forall f | 0 <= f < |a| && f !in pages.Values ensures c[f] == a[f] { assert b[f] == a[f]; }
  }

  /** Bytes from `address` on that are mapped without a gap, up to `length`. */
  ghost predicate Runs(pages: map<nat, nat>, address: nat, length: nat, n: nat) {
    && n <= length
    && (forall a: nat {:trigger a / 4096} :: address <= a < address + n ==> a / 4096 in pages)
    && (n < length ==> (address + n) / 4096 !in pages)
  }

  class Space {
    var pages: map<nat, nat>
    var frames: Contents

    ghost predicate Valid()
      reads this
    {
      Laid(pages, frames)
    }

    constructor (pages: map<nat, nat>, frames: Contents)
      requires Laid(pages, frames)
      ensures Valid() && this.pages == pages && this.frames == frames
    {
      this.pages, this.frames := pages, frames;
    }

    /** `task_manager_copy_memory` to the target: stops at the first page that is not mapped. */
    method CopyOut(address: nat, data: seq<int>) returns (done: nat)
      requires Valid()
      modifies this`frames
      ensures Valid() && Runs(pages, address, |data|, done) && Wrote(pages, old(frames), frames, address, data[..done])
    {
      hide Patched, Wrote;
      done := 0;
      WroteNothing(pages, frames, address);
      assert data[..0] == [];
      while done < |data|
        invariant done <= |data| && Valid() && Runs(pages, address, done, done)
        invariant Wrote(pages, old(frames), frames, address, data[..done])
      {
        var at := address + done;
        if at / 4096 !in pages { return; }
        var f: nat, offset: nat := pages[at / 4096], at % 4096;
        var chunk := 4096 - offset;
        if chunk > |data| - done { chunk := |data| - done; }
        ghost var before := frames;
        WroteChunk(pages, frames, at, data[done..done + chunk]);
        WroteLaid(pages, frames, frames[f := Patched(frames[f], offset, data[done..done + chunk])], at,
            data[done..done + chunk]);
        frames := frames[f := Patched(frames[f], offset, data[done..done + chunk])];
        WroteMore(pages, old(frames), before, frames, address, data[..done], data[done..done + chunk]);
        assert data[..done] + data[done..done + chunk] == data[..done + chunk];
        RunsOn(pages, address, done, chunk);
        done := done + chunk;
      }
    }

    /** `task_manager_copy_memory` from the target. */
    method CopyIn(address: nat, length: nat) returns (out: seq<int>)
      requires Valid()
      ensures Runs(pages, address, length, |out|)
      ensures forall k {:trigger out[k]} :: 0 <= k < |out| ==>
                (address + k) / 4096 in pages && out[k] == ByteAt(pages, frames, address + k)
    {
      out := [];
      while |out| < length
        invariant |out| <= length && Runs(pages, address, |out|, |out|)
        invariant forall k {:trigger out[k]} :: 0 <= k < |out| ==>
                    (address + k) / 4096 in pages && out[k] == ByteAt(pages, frames, address + k)
      {
        var at := address + |out|;
        if at / 4096 !in pages { return; }
        var f: nat, offset: nat := pages[at / 4096], at % 4096;
        var chunk := 4096 - offset;
        if chunk > length - |out| { chunk := length - |out|; }
        RunsOn(pages, address, |out|, chunk);
        ReadChunk(pages, frames, at, chunk);
        out := out + frames[f][offset..offset + chunk];
      }
    }

    /** `task_manager_user_range_mapped`. */
    method RangeMapped(address: nat, length: nat) returns (all: bool)
      requires Valid()
      ensures all <==> RangeChecked(pages, address, length)
    {
      var p, end := address / 4096, EndPage(address, length);
      while p < end
        invariant address / 4096 <= p
        invariant forall q: nat {:trigger q in pages} :: address / 4096 <= q < p ==> q in pages
      {
        if p !in pages { return false; }
        p := p + 1;
      }
      return true;
    }
  }

  /** The page behind the range, its end rounded up in 32 bits. */
  function EndPage(address: nat, length: nat): nat {
    ((address + length) % 0x1_0000_0000 + 4095) % 0x1_0000_0000 / 4096
  }

  /** The pages that the range check looks at are mapped. */
  ghost predicate RangeChecked(pages: map<nat, nat>, address: nat, length: nat) {
    forall p: nat {:trigger p in pages} :: address / 4096 <= p < EndPage(address, length) ==> p in pages
  }

  /** Every byte of the range is mapped. */
  ghost predicate RangeThere(pages: map<nat, nat>, address: nat, length: nat) {
    forall a: nat {:trigger a / 4096} :: address <= a < address + length ==> a / 4096 in pages
  }

  /** The check is right exactly as far as the last page of the address space: a range that ends there
      passes it whether or not it is mapped, because its rounded end is 0. */
  lemma RangeCheckExact(pages: map<nat, nat>, address: nat, length: nat)
    requires 0 < length && address + length < 0x1_0000_0000
    ensures address + length <= 0xFFFF_F000 ==>
              (RangeChecked(pages, address, length) <==> RangeThere(pages, address, length))
    ensures address + length > 0xFFFF_F000 ==> RangeChecked(pages, address, length)
  {
    if address + length <= 0xFFFF_F000 && RangeThere(pages, address, length) {
      forall p: nat | address / 4096 <= p < EndPage(address, length) ensures p in pages {
        var a := if p * 4096 < address then address else p * 4096;
        assert address <= a < address + length && a / 4096 == p;
      }
    }
  }

  lemma ReadChunk(pages: map<nat, nat>, frames: Contents, at: nat, chunk: nat)
    requires Laid(pages, frames) && at / 4096 in pages && at % 4096 + chunk <= 4096
    ensures forall x: nat {:trigger ByteAt(pages, frames, x)} :: at <= x < at + chunk ==>
              x / 4096 in pages && ByteAt(pages, frames, x) == frames[pages[at / 4096]][at % 4096 + (x - at)]
  {
    forall x: nat | at <= x < at + chunk
      ensures x / 4096 in pages && ByteAt(pages, frames, x) == frames[pages[at / 4096]][at % 4096 + (x - at)]
    {
      InPage(at, x, chunk);
      assert x % 4096 == at % 4096 + (x - at);
    }
  }

  /** What was copied out is what is copied in again, when the whole range is mapped. */
  lemma CopyRoundTrip(pages: map<nat, nat>, before: Contents, after: Contents, address: nat, data: seq<int>,
        back: seq<int>)
    requires Wrote(pages, before, after, address, data) && Runs(pages, address, |data|, |data|)
             && Runs(pages, address, |data|, |back|)
    requires forall k {:trigger back[k]} :: 0 <= k < |back| ==>
               (address + k) / 4096 in pages && back[k] == ByteAt(pages, after, address + k)
    ensures back == data
  {
    forall k | 0 <= k < |back| ensures back[k] == data[k] {
      assert ByteAt(pages, after, address + k) == data[k];
    }
  }

  lemma WroteLaid(pages: map<nat, nat>, before: Contents, after: Contents, address: nat, data: seq<int>)
    requires Wrote(pages, before, after, address, data)
    ensures Laid(pages, after)
  {}

  lemma RunsOn(pages: map<nat, nat>, address: nat, done: nat, chunk: nat)
    requires Runs(pages, address, done, done) && (address + done) / 4096 in pages
             && (address + done) % 4096 + chunk <= 4096
    ensures Runs(pages, address, done + chunk, done + chunk)
  {
    forall a: nat | address <= a < address + (done + chunk) ensures a / 4096 in pages {
      if a >= address + done { InPage(address + done, a, chunk); }
    }
  }
}
