/** The physical page bitmap: one bit per page in 32-bit words, a next-fit hint, and the marking that
    the boot code does from the memory map. */
module Bitmap {

  function Mask(i: nat): bv32
    requires i < 32
  {
    1 << (i as bv32)
  }

  predicate Hit(w: bv32, m: bv32) { w & m != 0 }

  predicate Bit(w: bv32, i: nat)
    requires i < 32
  {
    Hit(w, Mask(i))
  }

  lemma ShiftsApart(x: bv32, y: bv32)
    requires x < 32 && y < 32
    ensures (1 << x) != (0 as bv32) && (x != y ==> (1 << x) & (1 << y) == (0 as bv32))
  {}

  lemma ShiftIndex(i: nat)
    requires i < 32
    ensures i as bv32 < 32 && (i as bv32) as nat == i
  {}

  predicate Apart(m: bv32, n: bv32) { m & n == 0 }

  lemma MasksApart(i: nat, j: nat)
    requires i < 32 && j < 32
    ensures Mask(i) != 0 && (i != j ==> Apart(Mask(i), Mask(j)))
  {
    ShiftIndex(i);
    ShiftIndex(j);
    ShiftsApart(i as bv32, j as bv32);
  }

  function With(w: bv32, m: bv32): bv32 { w | m }
  function Without(w: bv32, m: bv32): bv32 { w & !m }

  lemma WithSame(w: bv32, m: bv32)
    requires m != 0
    ensures Hit(With(w, m), m)
  {}

  lemma WithoutSame(w: bv32, m: bv32)
    ensures !Hit(Without(w, m), m)
  {}

  lemma OrOther(w: bv32, m: bv32, n: bv32)
    requires Apart(m, n)
    ensures With(w, m) & n == w & n
  {}

  lemma AndNotOther(w: bv32, m: bv32, n: bv32)
    requires Apart(m, n)
    ensures Without(w, m) & n == w & n
  {}

  lemma WithOther(w: bv32, m: bv32, n: bv32)
    requires Apart(m, n)
    ensures Hit(With(w, m), n) == Hit(w, n)
  {
    hide With, Apart;
    OrOther(w, m, n);
  }

  lemma WithoutOther(w: bv32, m: bv32, n: bv32)
    requires Apart(m, n)
    ensures Hit(Without(w, m), n) == Hit(w, n)
  {
    hide Without, Apart;
    AndNotOther(w, m, n);
  }

  /** Setting bit `i` sets it, clearing it clears it, and neither changes another bit. */
  lemma BitChange(w: bv32, i: nat, j: nat)
    requires i < 32 && j < 32
    ensures Bit(With(w, Mask(i)), j) == (i == j || Bit(w, j))
    ensures Bit(Without(w, Mask(i)), j) == (i != j && Bit(w, j))
  {
    hide Mask, Hit, Apart, With, Without;
    var m, n := Mask(i), Mask(j);
    MasksApart(i, j);
    if i == j {
      WithSame(w, m);
      WithoutSame(w, m);
    } else {
      WithOther(w, m, n);
      WithoutOther(w, m, n);
    }
  }

  // ---------------------------------------------------------------- value level

  /** First page in `lo .. hi` whose mark is clear, `hi` if there is none. */
  function FirstClear(marks: seq<bool>, lo: nat, hi: nat): (p: nat)
    requires lo <= hi <= |marks|
    ensures lo <= p <= hi && (p < hi ==> !marks[p])
    ensures forall i {:trigger marks[i]} :: lo <= i < p ==> marks[i]
    decreases hi - lo
  {
    if lo == hi || !marks[lo] then lo else FirstClear(marks, lo + 1, hi)
  }

  /** The page the allocator takes: from the hint upwards, then from the bottom; `pages` if all are used. */
  function NextFree(marks: seq<bool>, pages: nat, hint: nat): (p: nat)
    requires hint <= pages <= |marks|
    ensures p <= pages
  {
    var a := FirstClear(marks, hint, pages);
    if a < pages then a
    else var b := FirstClear(marks, 0, hint); if b < hint then b else pages
  }

  /** Distance from the hint, going round. */
  function Distance(pages: nat, hint: nat, p: nat): int { if p >= hint then p - hint else p - hint + pages }

  /** The allocator is a complete next-fit: it fails exactly when every page is used, and otherwise
      takes the free page that comes first going round from the hint, wherever the hint is. */
  lemma NextFreeComplete(marks: seq<bool>, pages: nat, hint: nat)
    requires hint <= pages <= |marks|
    ensures var p := NextFree(marks, pages, hint);
            && (p == pages <==> forall i :: 0 <= i < pages ==> marks[i])
            && (p < pages ==> !marks[p] && forall i :: 0 <= i < pages && !marks[i] ==>
                   Distance(pages, hint, p) <= Distance(pages, hint, i))
  {}

  /** NULL is also what the caller sees when the page taken is page 0; boot locks that page and only
      `memory_bitmap_free(0)` could release it. */
  lemma NullExact(marks: seq<bool>, pages: nat, hint: nat)
    requires hint <= pages <= |marks| && 0 < pages
    ensures var p := NextFree(marks, pages, hint);
            (p == pages || p == 0) <==>
            if marks[0] then forall i :: 0 <= i < pages ==> marks[i]
            else hint == 0 || forall i :: hint <= i < pages ==> marks[i]
  {}

  function Painted(marks: seq<bool>, lo: nat, hi: nat, used: bool): (r: seq<bool>)
    ensures |r| == |marks|
    ensures forall p {:trigger r[p]} :: 0 <= p < |r| ==> r[p] == if lo <= p < hi then used else marks[p]
  {
    seq(|marks|, p requires 0 <= p < |marks| => if lo <= p < hi then used else marks[p])
  }

  lemma PaintOne(marks: seq<bool>, lo: nat, p: nat, used: bool)
    requires lo <= p < |marks|
    ensures Painted(marks, lo, p, used)[p := used] == Painted(marks, lo, p + 1, used)
    ensures Painted(marks, lo, lo, used) == marks
  {
    var a, b := Painted(marks, lo, p, used)[p := used], Painted(marks, lo, p + 1, used);
    forall i | 0 <= i < |a| ensures a[i] == b[i] {}
  }

  lemma SamePaint(marks: seq<bool>, lo: nat, hi: nat, p: nat, used: bool)
    requires p == if lo <= hi then hi else lo
    ensures Painted(marks, lo, hi, used) == Painted(marks, lo, p, used)
  {
    var a, b := Painted(marks, lo, hi, used), Painted(marks, lo, p, used);
    forall i | 0 <= i < |a| ensures a[i] == b[i] {}
  }

  /** A run of bytes of physical memory. */
  datatype Run = Run(start: nat, end: nat)

  /** First page of the run and the page behind its last one. */
  function Lo(r: Run): nat { r.start / 4096 }
  function Hi(r: Run): nat { (r.end + 4095) / 4096 }

  predicate Covers(r: Run, p: nat) { Lo(r) <= p < Hi(r) }

  /** A run covers the pages that hold one of its bytes. */
  lemma CoversExact(r: Run, p: nat)
    requires r.start < r.end
    ensures Covers(r, p) <==> exists a: nat {:trigger a / 4096} :: r.start <= a < r.end && a / 4096 == p
  {
    if Covers(r, p) {
      var a := if r.start < 4096 * p then 4096 * p else r.start;
      assert r.start <= a < r.end && a / 4096 == p;
    }
  }

  ghost predicate Touches(runs: seq<Run>, p: nat) {
    exists i :: 0 <= i < |runs| && Covers(runs[i], p)
  }

  /** Marks every page of every run. */
  function PaintAll(marks: seq<bool>, runs: seq<Run>, used: bool): (r: seq<bool>)
    ensures |r| == |marks|
  {
    if runs == [] then marks
    else var k := |runs| - 1; Painted(PaintAll(marks, runs[..k], used), Lo(runs[k]), Hi(runs[k]), used)
  }

  lemma {:induction false} PaintAllAt(marks: seq<bool>, runs: seq<Run>, used: bool, p: nat)
    requires p < |marks|
    ensures PaintAll(marks, runs, used)[p] == if Touches(runs, p) then used else marks[p]
  {
    if runs != [] {
      var k := |runs| - 1;
      PaintAllAt(marks, runs[..k], used, p);
      assert Touches(runs, p) <==> Touches(runs[..k], p) || Covers(runs[k], p) by {
        if Touches(runs[..k], p) {
          var i :| 0 <= i < k && Covers(runs[..k][i], p);
          assert Covers(runs[i], p);
        }
        if i :| 0 <= i < |runs| && Covers(runs[i], p) {
          if i < k { assert Covers(runs[..k][i], p); }
        }
      }
    }
  }

  lemma PaintNone(marks: seq<bool>, used: bool)
    ensures PaintAll(marks, [], used) == marks
  {}

  lemma PaintMore(marks: seq<bool>, runs: seq<Run>, r: Run, used: bool)
    ensures PaintAll(marks, runs + [r], used) == Painted(PaintAll(marks, runs, used), Lo(r), Hi(r), used)
  {
    assert (runs + [r])[..|runs|] == runs;
  }

  /** An entry of the boot loader's memory map. */
  datatype Region = Region(run: Run, available: bool)

  function Usable(map_: seq<Region>): seq<Run> {
    if map_ == [] then []
    else var k := |map_| - 1; Usable(map_[..k]) + if map_[k].available then [map_[k].run] else []
  }

  lemma {:induction false} UsableTouches(map_: seq<Region>, p: nat)
    ensures Touches(Usable(map_), p) <==> exists i :: 0 <= i < |map_| && map_[i].available && Covers(map_[i].run, p)
  {
    if map_ != [] {
      var k := |map_| - 1;
      var u, v := Usable(map_[..k]), Usable(map_);
      UsableTouches(map_[..k], p);
      if Touches(v, p) {
        var i :| 0 <= i < |v| && Covers(v[i], p);
        if i < |u| {
          assert Covers(u[i], p);
          var j :| 0 <= j < k && map_[..k][j].available && Covers(map_[..k][j].run, p);
          assert map_[j].available && Covers(map_[j].run, p);
        } else {
          assert map_[k].available && Covers(map_[k].run, p);
        }
      }
      if i :| 0 <= i < |map_| && map_[i].available && Covers(map_[i].run, p) {
        if i < k {
          assert map_[..k][i].available && Covers(map_[..k][i].run, p);
          var j :| 0 <= j < |u| && Covers(u[j], p);
          assert Covers(v[j], p);
        } else {
          assert Covers(v[|u|], p);
        }
      }
    }
  }

  /** The end of a region as the code keeps it, in 32 bits. */
  function Truncated(r: Region): (e: nat) { r.run.end % 0x1_0000_0000 }

  /** The highest end of any region, available or not, among the truncated ones. */
  function MemoryEnd(map_: seq<Region>): (m: nat)
    ensures forall i :: 0 <= i < |map_| ==> Truncated(map_[i]) <= m
    ensures m < 0x1_0000_0000 && (m == 0 || exists i :: 0 <= i < |map_| && Truncated(map_[i]) == m)
  {
    if map_ == [] then 0
    else
      var k := |map_| - 1;
      var m := MemoryEnd(map_[..k]);
      assert forall i :: 0 <= i < k ==> map_[..k][i] == map_[i];
      if Truncated(map_[k]) > m then Truncated(map_[k]) else m
  }

  /** The memory counted reaches the end of a region exactly if that end is below 4 GB. */
  lemma CountsExactly(map_: seq<Region>, i: nat)
    requires i < |map_|
    ensures map_[i].run.end <= MemoryEnd(map_) <==> map_[i].run.end < 0x1_0000_0000
  {
    assert Truncated(map_[i]) <= MemoryEnd(map_);
  }

  method HighestByte(map_: seq<Region>) returns (total: nat)
    ensures total == MemoryEnd(map_)
  {
    total := 0;
    for i := 0 to |map_|
      invariant total == MemoryEnd(map_[..i])
    {
      assert map_[..i + 1][..i] == map_[..i];
      if Truncated(map_[i]) > total { total := Truncated(map_[i]); }
    }
    assert map_[..|map_|] == map_;
  }

  function BootMarks(marks: seq<bool>, map_: seq<Region>, modules: seq<Run>, kernel: Run): (r: seq<bool>)
    ensures |r| == |marks|
  {
    var pages := MemoryEnd(map_) / 4096;
    var freed := PaintAll(Painted(marks, 0, pages, true), Usable(map_), false);
    var locked := PaintAll(Painted(freed, 0, 256, true), modules, true);
    Painted(Painted(locked, Lo(kernel), Hi(kernel), true), Hi(kernel), Hi(kernel) + LockedPages(pages), true)
  }

  /** After boot a page is free exactly when some available region reaches it and it is not in the
      first megabyte, a module, the kernel image or the pages counted for the bitmap behind it. */
  lemma BootExact(marks: seq<bool>, map_: seq<Region>, modules: seq<Run>, kernel: Run, p: nat)
    requires p < MemoryEnd(map_) / 4096 <= |marks|
    ensures !BootMarks(marks, map_, modules, kernel)[p] <==>
            && (exists i :: 0 <= i < |map_| && map_[i].available && Covers(map_[i].run, p))
            && p >= 256 && !Touches(modules, p) && !Covers(kernel, p)
            && !(Hi(kernel) <= p < Hi(kernel) + LockedPages(MemoryEnd(map_) / 4096))
  {
    hide Painted, PaintAll;
    var all := Painted(marks, 0, MemoryEnd(map_) / 4096, true);
    PaintAllAt(all, Usable(map_), false, p);
    UsableTouches(map_, p);
    PaintAllAt(Painted(PaintAll(all, Usable(map_), false), 0, 256, true), modules, true, p);
  }

  /** Pages the boot code locks for the bitmap itself, and the pages its words occupy. */
  function LockedPages(pages: nat): nat { (pages / 8 + 4095) / 4096 }
  function BitmapBytes(pages: nat): nat { 4 * ((pages + 31) / 32) }

  /** The lock covers the whole bitmap exactly unless the page count is 1 to 7 above a multiple of 32768:
      then the last word of the bitmap lies on a page that may be handed out. */
  lemma BitmapLockExact(pages: nat)
    ensures BitmapBytes(pages) <= 4096 * LockedPages(pages) <==> !(1 <= pages % 32768 <= 7)
  {
    var k, r := pages / 32768, pages % 32768;
    assert pages == 32768 * k + r;
    assert pages / 8 == 4096 * k + r / 8;
    assert (pages + 31) / 32 == 1024 * k + (r + 31) / 32;
    assert LockedPages(pages) == k + (r / 8 + 4095) / 4096;
  }

  // ---------------------------------------------------------------- in memory

  class MemoryBitmap {
    const entries: array<bv32>
    var pages: nat
    var hint: nat

    ghost predicate Valid()
      reads this
    {
      hint <= pages <= 32 * entries.Length
    }

    /** One mark per bit: set means used. */
    ghost function Marks(): (m: seq<bool>)
      reads entries
      ensures |m| == 32 * entries.Length
      ensures forall p {:trigger m[p]} :: 0 <= p < |m| ==> m[p] == Bit(entries[p / 32], p % 32)
    {
      seq(32 * entries.Length, p requires 0 <= p < 32 * entries.Length reads entries => Bit(entries[p / 32], p % 32))
    }

    /** Room for `words` words of bits, whatever they hold. */
    constructor (words: nat)
      ensures Valid() && entries.Length == words && pages == 0 && hint == 0 && fresh(entries)
    {
      entries := new bv32[words];
      pages := 0;
      hint := 0;
    }

    method Test(p: nat) returns (used: bool)
      requires p < 32 * entries.Length
      ensures used == Marks()[p]
    {
      used := Hit(entries[p / 32], Mask(p % 32));
    }

    method Set(p: nat)
      requires p < 32 * entries.Length
      modifies entries
      ensures Marks() == old(Marks())[p := true]
    {
      hide Mask, Bit, Hit, With, Without;
      ghost var m, w := Marks(), entries[p / 32];
      entries[p / 32] := With(entries[p / 32], Mask(p % 32));
      forall i | 0 <= i < |m| ensures Marks()[i] == m[p := true][i] {
        if i / 32 == p / 32 { BitChange(w, p % 32, i % 32); }
      }
    }

    method Clear(p: nat)
      requires p < 32 * entries.Length
      modifies entries
      ensures Marks() == old(Marks())[p := false]
    {
      hide Mask, Bit, Hit, With, Without;
      ghost var m, w := Marks(), entries[p / 32];
      entries[p / 32] := Without(entries[p / 32], Mask(p % 32));
      forall i | 0 <= i < |m| ensures Marks()[i] == m[p := false][i] {
        if i / 32 == p / 32 { BitChange(w, p % 32, i % 32); }
      }
    }

    /** The search loop of `memory_bitmap_allocate`. */
    method FindClear(lo: nat, hi: nat) returns (p: nat)
      requires lo <= hi <= 32 * entries.Length
      ensures p == FirstClear(Marks(), lo, hi)
    {
      hide Mask, Bit, Hit;
      p := lo;
      while p < hi
        invariant lo <= p <= hi
        invariant FirstClear(Marks(), lo, hi) == FirstClear(Marks(), p, hi)
      {
        var used := Test(p);
        if !used { return; }
        p := p + 1;
      }
    }

    /** `memory_bitmap_allocate`: the byte address of a free page, 0 for NULL. */
    method Allocate() returns (address: nat)
      requires Valid()
      modifies this`hint, entries
      ensures Valid() && pages == old(pages)
      ensures var f := NextFree(old(Marks()), pages, old(hint));
              if f == pages then address == 0 && hint == old(hint) && Marks() == old(Marks())
              else address == 4096 * f && hint == f && Marks() == old(Marks())[f := true]
    {
      hide Mask, Bit, Hit;
      var p := FindClear(hint, pages);
      var found := p < pages;
      if !found {
        p := FindClear(0, hint);
        found := p < hint;
      }
      if !found { return 0; }
      Set(p);
      hint := p;
      return p * 4096;
    }

    /** `memory_bitmap_free`. */
    method Free(address: nat)
      requires Valid() && address / 4096 < 32 * entries.Length
      modifies this`hint, entries
      ensures Valid() && pages == old(pages) && Marks() == old(Marks())[address / 4096 := false]
      ensures hint == if address / 4096 < old(hint) then address / 4096 else old(hint)
    {
      var p := address / 4096;
      var used := Test(p);
      if used { Clear(p); }
      if p < hint { hint := p; }
    }

    /** One of the locking or releasing loops of the boot code. */
    method Paint(lo: nat, hi: nat, used: bool)
      requires hi <= 32 * entries.Length
      modifies entries
      ensures Marks() == Painted(old(Marks()), lo, hi, used)
    {
      var p := lo;
      while p < hi
        invariant lo <= p && (lo <= hi ==> p <= hi) && (lo > hi ==> p == lo)
        invariant Marks() == Painted(old(Marks()), lo, p, used)
      {
        PaintOne(old(Marks()), lo, p, used);
        if used { Set(p); } else { Clear(p); }
        p := p + 1;
      }
      SamePaint(old(Marks()), lo, hi, p, used);
    }

    /** The two sweeps over lists of runs. */
    method PaintRuns(runs: seq<Run>, used: bool)
      requires forall i :: 0 <= i < |runs| ==> Hi(runs[i]) <= 32 * entries.Length
      modifies entries
      ensures Marks() == PaintAll(old(Marks()), runs, used)
    {
      hide Mask, Bit, Hit, Painted;
      for i := 0 to |runs|
        invariant Marks() == PaintAll(old(Marks()), runs[..i], used)
      {
        Paint(Lo(runs[i]), Hi(runs[i]), used);
        assert runs[..i + 1][..i] == runs[..i];
      }
      assert runs[..|runs|] == runs;
    }

    /** The sweep that releases the pages of the available regions. */
    method ReleaseUsable(map_: seq<Region>)
      requires forall i :: 0 <= i < |map_| ==> Hi(map_[i].run) <= 32 * entries.Length
      modifies entries
      ensures Marks() == PaintAll(old(Marks()), Usable(map_), false)
    {
      hide Mask, Bit, Hit, Painted, PaintAll;
      assert PaintAll(Marks(), [], false) == Marks() by { PaintNone(Marks(), false); }
      for i := 0 to |map_|
        invariant Marks() == PaintAll(old(Marks()), Usable(map_[..i]), false)
      {
        assert map_[..i + 1][..i] == map_[..i];
        if map_[i].available {
          PaintMore(old(Marks()), Usable(map_[..i]), map_[i].run, false);
          Paint(Lo(map_[i].run), Hi(map_[i].run), false);
        } else {
          assert Usable(map_[..i + 1]) == Usable(map_[..i]);
        }
      }
      assert map_[..|map_|] == map_;
    }

    /** `memory_bitmap_module_init`, for a map whose available regions end within the words of the bitmap. */
    method Boot(map_: seq<Region>, modules: seq<Run>, kernel: Run)
      requires MemoryEnd(map_) / 4096 <= 32 * entries.Length
      requires forall i :: 0 <= i < |map_| ==> Hi(map_[i].run) <= 32 * entries.Length
      requires forall i :: 0 <= i < |modules| ==> Hi(modules[i]) <= 32 * entries.Length
      requires Hi(kernel) + LockedPages(MemoryEnd(map_) / 4096) <= 32 * entries.Length
      requires 256 <= 32 * entries.Length
      modifies this, entries
      ensures Valid() && pages == MemoryEnd(map_) / 4096 && hint == 0
      ensures Marks() == BootMarks(old(Marks()), map_, modules, kernel)
    {
      hide Mask, Bit, Hit, Painted, PaintAll;
      var total := HighestByte(map_);
      pages := total / 4096;
      Paint(0, pages, true);
      ReleaseUsable(map_);
      Paint(0, 0x100000 / 4096, true);
      PaintRuns(modules, true);
      Paint(Lo(kernel), Hi(kernel), true);
      Paint(Hi(kernel), Hi(kernel) + LockedPages(pages), true);
      hint := 0;
    }
  }
}
