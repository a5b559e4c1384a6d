/** The ELF loader: maps the pages of every PT_LOAD segment in the new directory, copies its file bytes page
    chunk by page chunk, and clears the rest. */
module Elf {
  import opened Frames
  import opened PageTables
  import opened SpaceRuns
  import opened MemoryPaging
  import opened Fork
  import opened Sbrk
  import opened UserMemory
  import opened UserSpaces

  /** A program header (System V gABI, chapter 5). */
  datatype Header = Header(load: bool, offset: nat, vaddr: nat, filesz: nat, memsz: nat)

  /** First page of a segment and the page behind its last one. */
  function First(h: Header): nat { h.vaddr / 4096 }
  function Behind(h: Header): nat { (h.vaddr + h.memsz + 4095) / 4096 }

  lemma SegmentEnd(h: Header)
    ensures First(h) <= Behind(h)
  {}

  lemma SegmentBound(h: Header)
    ensures First(h) + PageCount(h) == Behind(h)
  {}

  function PageCount(h: Header): (n: nat) {
    SegmentEnd(h);
    Behind(h) - First(h)
  }

  ghost predicate Within(h: Header, p: nat) { First(h) <= p < Behind(h) }

  /** A segment with memory has the pages that hold one of its bytes. */
  lemma WithinExact(h: Header, p: nat)
    requires h.memsz > 0
    ensures Within(h, p) <==> exists a: nat {:trigger a / 4096} :: h.vaddr <= a < h.vaddr + h.memsz && a / 4096 == p
  {
    if Within(h, p) {
      var a := if h.vaddr < 4096 * p then 4096 * p else h.vaddr;
      assert h.vaddr <= a < h.vaddr + h.memsz && a / 4096 == p;
    }
  }

  /** The part of the file that a read of `n` bytes at `at` delivers. */
  function Slice(file: seq<int>, at: nat, n: nat): (r: seq<int>)
    ensures |r| <= n && (at + n <= |file| ==> |r| == n)
    ensures forall i {:trigger r[i]} :: 0 <= i < |r| ==> at + i < |file| && r[i] == file[at + i]
    ensures at + |r| < |file| ==> |r| == n
  {
    if at >= |file| then []
    else if at + n <= |file| then file[at..at + n]
    else file[at..]
  }

  lemma SliceMore(file: seq<int>, at: nat, n: nat, c: nat)
    ensures Slice(file, at, n) + Slice(file, at + n, c) == Slice(file, at, n + c)
    ensures Slice(file, at + n, c) == [] || |Slice(file, at, n)| == n
  {}

  function Zeros(n: nat): (z: seq<int>)
    ensures |z| == n && forall i {:trigger z[i]} :: 0 <= i < n ==> z[i] == 0
  {
    seq(n, _ => 0)
  }

  /** The byte at `a` is mapped; it holds what the file holds there, or zero behind the file part. */
  ghost predicate ByteOk(pages: map<nat, nat>, frames: Contents, file: seq<int>, h: Header, a: nat)
    requires Laid(pages, frames) && h.vaddr <= a
  {
    && a / 4096 in pages
    && (a < h.vaddr + h.filesz && h.offset + (a - h.vaddr) < |file| ==>
           ByteAt(pages, frames, a) == file[h.offset + (a - h.vaddr)])
    && (h.vaddr + h.filesz <= a ==> ByteAt(pages, frames, a) == 0)
  }

  ghost predicate Image(pages: map<nat, nat>, frames: Contents, file: seq<int>, h: Header) {
    Laid(pages, frames) &&
    forall a: nat {:trigger ByteOk(pages, frames, file, h, a)} :: h.vaddr <= a < h.vaddr + h.memsz ==>
        ByteOk(pages, frames, file, h, a)
  }

  lemma ImageKept(pages: map<nat, nat>, frames: Contents, pages': map<nat, nat>, frames': Contents, file: seq<int>,
        h: Header)
    requires Image(pages, frames, file, h) && Extends(pages, frames, pages', frames')
    ensures Image(pages', frames', file, h)
  {
    forall a: nat | h.vaddr <= a < h.vaddr + h.memsz ensures ByteOk(pages', frames', file, h, a) {
      assert ByteOk(pages, frames, file, h, a);
      assert ByteAt(pages', frames', a) == ByteAt(pages, frames, a);
    }
  }

  /** One turn of the copying loop: the page chunk at `at` receives `data`. */
  method Fill(s: Space, at: nat, data: seq<int>)
    requires s.Valid() && at / 4096 in s.pages && at % 4096 + |data| <= 4096
    modifies s`frames
    ensures s.Valid() && Wrote(s.pages, old(s.frames), s.frames, at, data)
  {
    hide Patched, Wrote;
    WroteChunk(s.pages, s.frames, at, data);
    var f: nat := s.pages[at / 4096];
    WroteLaid(s.pages, s.frames, s.frames[f := Patched(s.frames[f], at % 4096, data)], at, data);
    s.frames := s.frames[f := Patched(s.frames[f], at % 4096, data)];
  }

  /** Bytes to handle before the next page boundary. */
  function Chunk(at: nat, left: nat): (c: nat)
    ensures c <= left && at % 4096 + c <= 4096 && (0 < left ==> 0 < c)
  {
    if 4096 - at % 4096 > left then left else 4096 - at % 4096
  }

  /** The copying loop: what the file has for the segment ends up at its address. */
  method CopyFile(s: Space, file: seq<int>, h: Header)
    requires s.Valid() && forall a: nat {:trigger a / 4096} :: h.vaddr <= a < h.vaddr + h.filesz ==> a / 4096 in s.pages
    modifies s`frames
    ensures s.Valid() && Wrote(s.pages, old(s.frames), s.frames, h.vaddr, Slice(file, h.offset, h.filesz))
  {
    hide Wrote, Slice, Laid;
    var done := 0;
    WroteNothing(s.pages, s.frames, h.vaddr);
    assert Slice(file, h.offset, 0) == [];
    while done < h.filesz
      invariant done <= h.filesz && s.Valid()
                && Wrote(s.pages, old(s.frames), s.frames, h.vaddr, Slice(file, h.offset, done))
    {
      var at := h.vaddr + done;
      var chunk := Chunk(at, h.filesz - done);
      var data := Slice(file, h.offset + done, chunk);
      ghost var before := s.frames;
      Fill(s, at, data);
      SliceMore(file, h.offset, done, chunk);
      if data == [] { WroteAnywhere(s.pages, before, s.frames, at, h.vaddr + |Slice(file, h.offset, done)|); }
      WroteMore(s.pages, old(s.frames), before, s.frames, h.vaddr, Slice(file, h.offset, done), data);
      done := done + chunk;
    }
  }

  lemma WroteAnywhere(pages: map<nat, nat>, before: Contents, after: Contents, at: nat, to: nat)
    requires Wrote(pages, before, after, at, [])
    ensures Wrote(pages, before, after, to, [])
  {
    forall a: nat | a / 4096 in pages ensures ByteAt(pages, after, a) == ByteAt(pages, before, a) {}
  }

  /** The clearing loop. */
  method ClearRest(s: Space, start: nat, length: nat)
    requires s.Valid() && forall a: nat {:trigger a / 4096} :: start <= a < start + length ==> a / 4096 in s.pages
    modifies s`frames
    ensures s.Valid() && Wrote(s.pages, old(s.frames), s.frames, start, Zeros(length))
  {
    hide Wrote, Laid;
    var done := 0;
    WroteNothing(s.pages, s.frames, start);
    assert Zeros(0) == [];
    while done < length
      invariant done <= length && s.Valid() && Wrote(s.pages, old(s.frames), s.frames, start, Zeros(done))
    {
      var at := start + done;
      var chunk := Chunk(at, length - done);
      ghost var before := s.frames;
      Fill(s, at, Zeros(chunk));
      WroteMore(s.pages, old(s.frames), before, s.frames, start, Zeros(done), Zeros(chunk));
      assert Zeros(done) + Zeros(chunk) == Zeros(done + chunk);
      done := done + chunk;
    }
  }

  /** What one segment does to an address space in which none of its pages is mapped yet. It fails exactly
      if there are too few frames for its pages and the tables they lack; then it keeps the pages that
      the frames paid for. */
  method LoadSegment(s: Space, p: Paging, d: nat, file: seq<int>, h: Header) returns (ok: bool)
    requires Coupled(s, p, d) && h.filesz <= h.memsz && Behind(h) <= 786432
    requires forall u: nat {:trigger u in s.pages} :: Within(h, u) ==> u !in s.pages
    modifies s, p
    ensures Coupled(s, p, d) && Extends(old(s.pages), old(s.frames), s.pages, s.frames)
    ensures Shaped(old(p.ram)) && d < |old(p.ram)| == |p.ram|
    ensures ok == (Cost(old(p.M()), d, First(h), PageCount(h)) <= |Frees(old(p.marks))|)
    ensures ok ==> Image(s.pages, s.frames, file, h)
    ensures ok ==> forall u: nat {:trigger u in s.pages} :: u in s.pages <==> u in old(s.pages) || Within(h, u)
    ensures var k := Affordable(old(p.M()), d, First(h), PageCount(h), |Frees(old(p.marks))|);
            && ok == (k == PageCount(h)) && Progress(old(p.Abs()), p.Abs(), d, First(h), k)
            && (forall u: nat {:trigger u in s.pages} :: u in s.pages <==>
                   u in old(s.pages) || First(h) <= u < First(h) + k)
            && (!ok ==> |Frees(p.marks)| < if NeedsTable(old(p.M()), d, First(h), k) then 2 else 1)
  {
    hide Laid, Extends, Wrote, Slice, Image, Sound, PagesOf, Progress, Cost, Frees, Affordable, NeedsTable;
    ghost var pages, frames := s.pages, s.frames;
    ok := MapRange(s, p, d, First(h), PageCount(h));
    if !ok { return; }
    SegmentMapped(s.pages, h);
    CopyFile(s, file, h);
    ghost var mid := s.frames;
    if h.memsz > h.filesz {
      ClearRest(s, h.vaddr + h.filesz, h.memsz - h.filesz);
    } else {
      WroteNothing(s.pages, s.frames, h.vaddr + h.filesz);
      assert Zeros(h.memsz - h.filesz) == [];
    }
    SegmentLoaded(s.pages, frames, mid, s.frames, file, h);
    SegmentExtends(pages, s.pages, frames, mid, s.frames, file, h);
  }

  lemma SegmentMapped(pages: map<nat, nat>, h: Header)
    requires forall p: nat {:trigger p in pages} :: Within(h, p) ==> p in pages
    ensures forall a: nat {:trigger a / 4096} :: h.vaddr <= a < h.vaddr + h.memsz ==> a / 4096 in pages
  {
    forall a: nat | h.vaddr <= a < h.vaddr + h.memsz ensures a / 4096 in pages { assert Within(h, a / 4096); }
  }

  lemma SegmentLoaded(pages: map<nat, nat>, f0: Contents, f1: Contents, f2: Contents, file: seq<int>, h: Header)
    requires Wrote(pages, f0, f1, h.vaddr, Slice(file, h.offset, h.filesz)) && h.filesz <= h.memsz
    requires Wrote(pages, f1, f2, h.vaddr + h.filesz, Zeros(h.memsz - h.filesz))
    requires forall a: nat {:trigger a / 4096} :: h.vaddr <= a < h.vaddr + h.memsz ==> a / 4096 in pages
    ensures Image(pages, f2, file, h)
  {
    hide Slice;
    var data := Slice(file, h.offset, h.filesz);
    forall a: nat | h.vaddr <= a < h.vaddr + h.memsz ensures ByteOk(pages, f2, file, h, a) {
      assert ByteAt(pages, f1, a) == if h.vaddr <= a < h.vaddr + |data| then data[a - h.vaddr]
             else ByteAt(pages, f0, a);
    }
  }

  lemma SegmentExtends(before: map<nat, nat>, pages: map<nat, nat>, f0: Contents, f1: Contents, f2: Contents,
        file: seq<int>, h: Header)
    requires Wrote(pages, f0, f1, h.vaddr, Slice(file, h.offset, h.filesz)) && h.filesz <= h.memsz
    requires Wrote(pages, f1, f2, h.vaddr + h.filesz, Zeros(h.memsz - h.filesz))
    requires Extends(before, f0, pages, f0) && forall p {:trigger p in before} :: Within(h, p) ==> p !in before
    ensures Extends(before, f0, pages, f2) && |f2| == |f0|
  {
    hide Slice;
    forall a: nat | a / 4096 in before ensures a / 4096 in pages && ByteAt(pages, f2, a) == ByteAt(before, f0, a) {
      assert !Within(h, a / 4096);
      assert ByteAt(pages, f0, a) == ByteAt(before, f0, a);
      assert ByteAt(pages, f1, a) == ByteAt(pages, f0, a);
    }
  }

  // ---------------------------------------------------------------- the whole program

  /** No two segments touch the same page. */
  ghost predicate Disjoint(hs: seq<Header>) {
    forall k, l, p: nat {:trigger Within(hs[k], p), Within(hs[l], p)} ::
      0 <= k < l < |hs| && hs[k].load && hs[l].load && Within(hs[k], p) ==> !Within(hs[l], p)
  }

  /** Pages that the segments need. */
  function Pages(hs: seq<Header>): (n: nat) {
    if hs == [] then 0
    else
      var h := hs[|hs| - 1];
      Pages(hs[..|hs| - 1]) + if h.load then PageCount(h) else 0
  }

  /** The slots of 1024 pages that the segments lie in. */
  function SegmentSlots(hs: seq<Header>): set<nat> {
    if hs == [] then {}
    else
      var h := hs[|hs| - 1];
      SegmentSlots(hs[..|hs| - 1]) + if h.load then SlotsOf(First(h), PageCount(h)) else {}
  }

  /** All segments of `hs` are in place, and nothing else has been mapped. */
  ghost predicate Loaded(pages0: map<nat, nat>, pages: map<nat, nat>, frames: Contents, file: seq<int>,
        hs: seq<Header>) {
    && (forall k {:trigger hs[k]} :: 0 <= k < |hs| && hs[k].load ==> Image(pages, frames, file, hs[k]))
    && (forall p: nat {:trigger p in pages} :: p in pages <==>
           p in pages0 || exists k :: 0 <= k < |hs| && hs[k].load && Within(hs[k], p))
  }

  /** The largest page-aligned end of a segment, 0 without segments. */
  function LargestEnd(hs: seq<Header>): (top: nat)
    ensures forall k {:trigger hs[k]} :: 0 <= k < |hs| && hs[k].load ==> 4096 * Behind(hs[k]) <= top
    ensures top == 0 || exists k :: 0 <= k < |hs| && hs[k].load && top == 4096 * Behind(hs[k])
  {
    if hs == [] then 0
    else
      var n := |hs| - 1;
      var top := LargestEnd(hs[..n]);
      assert forall k {:trigger hs[k]} :: 0 <= k < n ==> hs[..n][k] == hs[k];
      if hs[n].load && 4096 * Behind(hs[n]) > top then 4096 * Behind(hs[n]) else top
  }

  /** What a load that stopped in segment `seg` after `kept` of its pages has mapped: the segments before, whole,
      and those pages. */
  ghost predicate Stopped(pages0: map<nat, nat>, pages: map<nat, nat>, frames: Contents, file: seq<int>,
        hs: seq<Header>, seg: nat, kept: nat) {
    && seg < |hs| && hs[seg].load && kept < PageCount(hs[seg])
    && (forall k {:trigger hs[k]} :: 0 <= k < seg && hs[k].load ==> Image(pages, frames, file, hs[k]))
    && (forall u: nat {:trigger u in pages} :: u in pages <==>
           || u in pages0 || First(hs[seg]) <= u < First(hs[seg]) + kept
           || exists k :: 0 <= k < seg && hs[k].load && Within(hs[k], u))
  }

  /** Frames for the first `seg` segments and `kept` pages of the next, in a directory with tables `had`. */
  ghost function Spent(hs: seq<Header>, seg: nat, kept: nat, had: set<nat>): nat
    requires seg < |hs|
  {
    Pages(hs[..seg]) + kept + |(SegmentSlots(hs[..seg]) + SlotsOf(First(hs[seg]), kept)) - had|
  }

  /** The first page of all lies in a slot without a table. */
  ghost predicate FirstNeedsTable(hs: seq<Header>, had: set<nat>) {
    hs != [] && if hs[0].load && PageCount(hs[0]) > 0 then First(hs[0]) / 1024 !in had
      else FirstNeedsTable(hs[1..], had)
  }

  /** The loop over the program headers. It succeeds if and only if there are frames for every page and for
      every slot of the segments that has no table; then every byte of every segment is right and the
      heap starts at the largest page-aligned segment end. What was mapped before is untouched. A load
      that fails keeps what it mapped, down to the last frame that could be used: nothing is given back, so
      the page map is as before only if not even the first page could be mapped. */
  method Load(s: Space, p: Paging, d: nat, file: seq<int>, hs: seq<Header>)
    returns (ok: bool, heapStart: nat, ghost seg: nat, ghost kept: nat)
    requires Coupled(s, p, d) && Disjoint(hs)
    requires forall k {:trigger hs[k]} :: 0 <= k < |hs| && hs[k].load ==>
               hs[k].filesz <= hs[k].memsz && Behind(hs[k]) <= 786432
    requires forall k, u: nat {:trigger Within(hs[k], u)} :: 0 <= k < |hs| && hs[k].load && Within(hs[k], u) ==>
               u !in s.pages
    modifies s, p
    ensures Coupled(s, p, d) && Extends(old(s.pages), old(s.frames), s.pages, s.frames)
    ensures Shaped(old(p.ram)) && d < |old(p.ram)| == |p.ram|
    ensures ok == (Pages(hs) + |SegmentSlots(hs) - HasTable(old(p.M()), d)| <= |Frees(old(p.marks))|)
    ensures ok ==> Loaded(old(s.pages), s.pages, s.frames, file, hs)
    ensures ok ==> heapStart == LargestEnd(hs)
    ensures Taken(old(p.Abs()), p.Abs(), d)
    ensures !ok ==> Stopped(old(s.pages), s.pages, s.frames, file, hs, seg, kept)
    ensures !ok ==> |Frees(p.marks)| + Spent(hs, seg, kept, HasTable(old(p.M()), d)) == |Frees(old(p.marks))|
    ensures !ok ==> |Frees(p.marks)| <= 1
    ensures !ok ==> (p.marks == old(p.marks) <==>
              || |Frees(old(p.marks))| == 0
              || (|Frees(old(p.marks))| == 1 && FirstNeedsTable(hs, HasTable(old(p.M()), d))))
  {
    hide Laid, Extends, Image, Behind, First, Within, Sound, PagesOf, Progress, Cost, Frees, HasTable, SlotsOf, Loaded,
         IsDir, SegmentSlots, Pages, LargestEnd, Disjoint, PageCount, Affordable, NeedsTable, Taken, Stopped, Spent,
         FirstNeedsTable, SoFar;
    ghost var pages, frames, s0 := s.pages, s.frames, p.Abs();
    heapStart, ok, seg, kept := 0, true, 0, 0;
    NothingYet(s0, pages, frames, d, file, hs);
    for i := 0 to |hs|
      invariant Coupled(s, p, d) && ok && |p.ram| == |s0.m.ram|
      invariant SoFar(s0, p.Abs(), pages, frames, s.pages, s.frames, d, file, hs, i) && heapStart == LargestEnd(hs[..i])
    {
      PrefixStep(hs, i);
      var h := hs[i];
      ghost var p1, f1, now := s.pages, s.frames, p.Abs();
      if !h.load {
        HeaderSkipped(s0, now, pages, frames, s.pages, s.frames, d, file, hs, i);
        continue;
      }
      if 4096 * Behind(h) > heapStart { heapStart := 4096 * Behind(h); }
      SoFarFree(s0, now, pages, frames, s.pages, s.frames, d, file, hs, i);
      SegmentBound(h);
      ok := LoadSegment(s, p, d, file, h);
      kept := Affordable(now.m, d, First(h), PageCount(h), |Frees(now.marks)|);
      if !ok {
        seg := i;
        SegmentFailed(s0, now, p.Abs(), pages, frames, p1, f1, s.pages, s.frames, d, file, hs, seg, kept);
        return;
      }
      SegmentDone(s0, now, p.Abs(), pages, frames, p1, f1, s.pages, s.frames, d, file, hs, i);
    }
    AllDone(s0, p.Abs(), pages, frames, s.pages, s.frames, d, file, hs);
  }

  /** The loop invariant: the first `i` segments are in place and paid for. */
  ghost predicate SoFar(s0: State, s: State, pages0: map<nat, nat>, frames0: Contents, pages: map<nat, nat>,
        frames: Contents, d: nat, file: seq<int>, hs: seq<Header>, i: nat) {
    && i <= |hs| && Shaped(s0.m.ram) && Shaped(s.m.ram) && d < |s0.m.ram| && d < |s.m.ram|
    && Extends(pages0, frames0, pages, frames) && Loaded(pages0, pages, frames, file, hs[..i])
    && HasTable(s.m, d) == HasTable(s0.m, d) + SegmentSlots(hs[..i]) && Taken(s0, s, d)
    && |Frees(s.marks)| + Pages(hs[..i]) + |SegmentSlots(hs[..i]) - HasTable(s0.m, d)| == |Frees(s0.marks)|
  }

  lemma NothingYet(s: State, pages: map<nat, nat>, frames: Contents, d: nat, file: seq<int>, hs: seq<Header>)
    requires Shaped(s.m.ram) && d < |s.m.ram| && Laid(pages, frames)
    ensures SoFar(s, s, pages, frames, pages, frames, d, file, hs, 0) && LargestEnd(hs[..0]) == 0
  {
    hide Laid, Extends, Taken, HasTable, Frees;
    ExtendsSame(pages, frames);
    LoadedNone(pages, frames, file, hs);
    NoPrefix(hs);
    TakenNothing(s, d);
    assert {} - HasTable(s.m, d) == {} && HasTable(s.m, d) + {} == HasTable(s.m, d);
  }

  lemma HeaderSkipped(s0: State, s: State, pages0: map<nat, nat>, frames0: Contents, pages: map<nat, nat>,
        frames: Contents, d: nat, file: seq<int>, hs: seq<Header>, i: nat)
    requires i < |hs| && !hs[i].load && SoFar(s0, s, pages0, frames0, pages, frames, d, file, hs, i)
    ensures SoFar(s0, s, pages0, frames0, pages, frames, d, file, hs, i + 1)
  {
    hide Extends, Taken, HasTable, Frees, Loaded, SegmentSlots, Pages;
    PrefixStep(hs, i);
    LoadedSkip(pages0, pages, frames, file, hs, i);
  }

  lemma SoFarFree(s0: State, s: State, pages0: map<nat, nat>, frames0: Contents, pages: map<nat, nat>,
        frames: Contents, d: nat, file: seq<int>, hs: seq<Header>, i: nat)
    requires i < |hs| && hs[i].load && Disjoint(hs) && SoFar(s0, s, pages0, frames0, pages, frames, d, file, hs, i)
    requires forall k, u: nat {:trigger Within(hs[k], u)} :: 0 <= k < |hs| && hs[k].load && Within(hs[k], u) ==>
               u !in pages0
    ensures forall u {:trigger u in pages} :: Within(hs[i], u) ==> u !in pages
    ensures Shaped(s.m.ram) && d < |s.m.ram|
  {
    hide Extends, Taken, HasTable, Frees, Loaded, SegmentSlots, Pages, Within;
    StillFree(pages0, pages, frames, file, hs, i);
  }

  lemma SegmentDone(s0: State, s: State, r: State, pages0: map<nat, nat>, frames0: Contents, pages: map<nat, nat>,
        frames: Contents, pages': map<nat, nat>, frames': Contents, d: nat, file: seq<int>, hs: seq<Header>, i: nat)
    requires i < |hs| && hs[i].load && Behind(hs[i]) <= 786432
    requires SoFar(s0, s, pages0, frames0, pages, frames, d, file, hs, i)
    requires Extends(pages, frames, pages', frames') && Image(pages', frames', file, hs[i])
    requires forall u: nat {:trigger u in pages'} :: u in pages' <==> u in pages || Within(hs[i], u)
    requires Progress(s, r, d, First(hs[i]), PageCount(hs[i]))
    ensures SoFar(s0, r, pages0, frames0, pages', frames', d, file, hs, i + 1)
  {
    hide Extends, Image, Behind, First, Within, Progress, Cost, Frees, HasTable, SlotsOf, Loaded, SegmentSlots, Pages,
         PageCount, Taken;
    var h := hs[i];
    PrefixStep(hs, i);
    PriceOfSegment(s.m, d, h, SegmentSlots(hs[..i]), HasTable(s0.m, d));
    ExtendsTrans(pages0, frames0, pages, frames, pages', frames');
    TakenProgress(s, r, d, First(h), PageCount(h));
    TakenTrans(s0, s, r, d);
    PaidSoFar(s, r, d, First(h), PageCount(h));
    LoadedMore(pages0, pages, frames, pages', frames', file, hs, i);
    TablesAfter(s, r, d, First(h), PageCount(h));
  }

  lemma SegmentFailed(s0: State, s: State, r: State, pages0: map<nat, nat>, frames0: Contents, pages: map<nat, nat>,
        frames: Contents, pages': map<nat, nat>, frames': Contents, d: nat, file: seq<int>, hs: seq<Header>, seg: nat,
        kept: nat)
    requires seg < |hs| && hs[seg].load && kept < PageCount(hs[seg])
    requires forall k {:trigger hs[k]} :: 0 <= k < |hs| && hs[k].load ==> Behind(hs[k]) <= 786432
    requires SoFar(s0, s, pages0, frames0, pages, frames, d, file, hs, seg) && Extends(pages, frames, pages', frames')
    requires forall u: nat {:trigger u in pages'} :: u in pages' <==>
               u in pages || First(hs[seg]) <= u < First(hs[seg]) + kept
    requires Progress(s, r, d, First(hs[seg]), kept)
    requires |Frees(s.marks)| < Cost(s.m, d, First(hs[seg]), PageCount(hs[seg]))
    requires |Frees(r.marks)| < if NeedsTable(s.m, d, First(hs[seg]), kept) then 2 else 1
    ensures Extends(pages0, frames0, pages', frames') && Taken(s0, r, d) && |Frees(r.marks)| <= 1
    ensures Pages(hs) + |SegmentSlots(hs) - HasTable(s0.m, d)| > |Frees(s0.marks)|
    ensures Stopped(pages0, pages', frames', file, hs, seg, kept)
    ensures |Frees(r.marks)| + Spent(hs, seg, kept, HasTable(s0.m, d)) == |Frees(s0.marks)|
    ensures r.marks == s0.marks <==>
              || |Frees(s0.marks)| == 0 || (|Frees(s0.marks)| == 1 && FirstNeedsTable(hs, HasTable(s0.m, d)))
  {
    hide Extends, Image, Behind, First, Within, Progress, Cost, Frees, HasTable, SlotsOf, Loaded, SegmentSlots, Pages,
         PageCount, Taken, Stopped, Spent, FirstNeedsTable, NeedsTable;
    var h, had := hs[seg], HasTable(s0.m, d);
    PrefixStep(hs, seg);
    PriceOfSegment(s.m, d, h, SegmentSlots(hs[..seg]), had);
    NoFramesLeft(hs, seg, had);
    ExtendsTrans(pages0, frames0, pages, frames, pages', frames');
    TakenProgress(s, r, d, First(h), kept);
    TakenTrans(s0, s, r, d);
    PaidSoFar(s, r, d, First(h), kept);
    StoppedHere(pages0, pages, frames, pages', frames', file, hs, seg, kept);
    LoadFailed(s.m, d, hs, seg, kept, had, |Frees(s0.marks)|, |Frees(s.marks)|, |Frees(r.marks)|);
    TakenCount(s0, r, d);
  }

  lemma AllDone(s0: State, s: State, pages0: map<nat, nat>, frames0: Contents, pages: map<nat, nat>,
        frames: Contents, d: nat, file: seq<int>, hs: seq<Header>)
    requires SoFar(s0, s, pages0, frames0, pages, frames, d, file, hs, |hs|)
    ensures hs[..|hs|] == hs && Extends(pages0, frames0, pages, frames) && Loaded(pages0, pages, frames, file, hs)
    ensures Taken(s0, s, d) && Pages(hs) + |SegmentSlots(hs) - HasTable(s0.m, d)| <= |Frees(s0.marks)|
  {
    hide Extends, Loaded, HasTable, Frees, SegmentSlots, Pages, Taken;
    assert hs[..|hs|] == hs;
  }

  lemma StoppedHere(pages0: map<nat, nat>, pages: map<nat, nat>, frames: Contents, pages': map<nat, nat>,
        frames': Contents, file: seq<int>, hs: seq<Header>, seg: nat, kept: nat)
    requires seg < |hs| && hs[seg].load && kept < PageCount(hs[seg])
    requires Loaded(pages0, pages, frames, file, hs[..seg]) && Extends(pages, frames, pages', frames')
    requires forall u: nat {:trigger u in pages'} :: u in pages' <==>
               u in pages || First(hs[seg]) <= u < First(hs[seg]) + kept
    ensures Stopped(pages0, pages', frames', file, hs, seg, kept)
  {
    hide Within, Image, Extends, PageCount;
    var a := hs[..seg];
    forall k | 0 <= k < seg && hs[k].load ensures Image(pages', frames', file, hs[k]) {
      assert a[k] == hs[k];
      ImageKept(pages, frames, pages', frames', file, a[k]);
    }
    forall u: nat ensures u in pages <==> u in pages0 || exists k :: 0 <= k < seg && hs[k].load && Within(hs[k], u) {
      if k :| 0 <= k < |a| && a[k].load && Within(a[k], u) { assert hs[k] == a[k]; }
      if k :| 0 <= k < seg && hs[k].load && Within(hs[k], u) { assert a[k] == hs[k]; }
    }
  }

  /** The account of a load that fails. It took no frame exactly if none was free, or one and the first page
      needs a table. */
  lemma LoadFailed(m: Mem, d: nat, hs: seq<Header>, seg: nat, kept: nat, had: set<nat>, all: nat, mid: nat, left: nat)
    requires Shaped(m.ram) && d < |m.ram| && seg < |hs| && hs[seg].load && kept < PageCount(hs[seg])
    requires forall k {:trigger hs[k]} :: 0 <= k < |hs| && hs[k].load ==> Behind(hs[k]) <= 786432
    requires First(hs[seg]) + kept < 786432 && HasTable(m, d) == had + SegmentSlots(hs[..seg])
    requires mid + Pages(hs[..seg]) + |SegmentSlots(hs[..seg]) - had| == all
    requires left + Cost(m, d, First(hs[seg]), kept) == mid
    requires left < if NeedsTable(m, d, First(hs[seg]), kept) then 2 else 1
    ensures left + Spent(hs, seg, kept, had) == all && left <= 1
    ensures left == all <==> all == 0 || (all == 1 && FirstNeedsTable(hs, had))
  {
    hide SlotsOf, HasTable, SegmentSlots, Pages, First, Behind, Present, PageCount, Cost, NeedsTable;
    PriceOfPart(m, d, First(hs[seg]), kept, SegmentSlots(hs[..seg]), had);
    if Pages(hs[..seg]) == 0 && kept == 0 {
      SegmentsBefore(hs, seg, had);
      NoSlots(First(hs[seg]));
      assert (SegmentSlots(hs[..seg]) + SlotsOf(First(hs[seg]), 0)) - had == {};
      FirstTable(m, d, First(hs[seg]));
    } else {
      SpentOnTable(hs, seg, kept, had);
    }
  }

  /** A prefix costs no more than the whole. */
  lemma NoFramesLeft(hs: seq<Header>, i: nat, had: set<nat>)
    requires i < |hs|
    ensures Pages(hs[..i + 1]) + |SegmentSlots(hs[..i + 1]) - had| <= Pages(hs) + |SegmentSlots(hs) - had|
  {
    PagesGrow(hs, i + 1);
    SlotsGrow(hs, i + 1);
    Fewer(SegmentSlots(hs[..i + 1]), SegmentSlots(hs), had);
  }

  /** A segment costs its pages and the slots that neither had a table nor got one from an earlier segment. */
  lemma PriceOfSegment(m: Mem, d: nat, h: Header, earlier: set<nat>, had: set<nat>)
    requires Shaped(m.ram) && d < |m.ram| && Behind(h) <= 786432 && HasTable(m, d) == had + earlier
    ensures First(h) + PageCount(h) <= 786432
    ensures Cost(m, d, First(h), PageCount(h)) + |earlier - had| ==
              PageCount(h) + |(earlier + SlotsOf(First(h), PageCount(h))) - had|
  {
    PriceOfPart(m, d, First(h), PageCount(h), earlier, had);
  }

  lemma PriceOfPart(m: Mem, d: nat, v: nat, n: nat, earlier: set<nat>, had: set<nat>)
    requires Shaped(m.ram) && d < |m.ram| && v + n <= 786432 && HasTable(m, d) == had + earlier
    ensures Cost(m, d, v, n) + |earlier - had| == n + |(earlier + SlotsOf(v, n)) - had|
  {
    hide SlotsOf, HasTable;
    var t := SlotsOf(v, n);
    CostInSlots(m, d, v, n);
    assert (earlier + t) - had == (earlier - had) + (t - (had + earlier));
    assert (earlier - had) !! (t - (had + earlier));
  }

  lemma FirstTable(m: Mem, d: nat, v: nat)
    requires Shaped(m.ram) && d < |m.ram| && v < 786432
    ensures NeedsTable(m, d, v, 0) <==> v / 1024 !in HasTable(m, d)
  {}

  /** If the segments before have no pages, the first page of all is that of segment `seg`. */
  lemma {:induction false} SegmentsBefore(hs: seq<Header>, seg: nat, had: set<nat>)
    requires seg < |hs| && hs[seg].load && PageCount(hs[seg]) > 0 && Pages(hs[..seg]) == 0
    ensures SegmentSlots(hs[..seg]) == {} && (FirstNeedsTable(hs, had) <==> First(hs[seg]) / 1024 !in had)
  {
    hide SlotsOf, PageCount, First;
    forall k | 0 <= k < seg ensures !hs[k].load || PageCount(hs[k]) == 0 { NoPagesIn(hs, seg, k); }
    NoSlotsIn(hs, seg);
    FirstIs(hs, seg, had);
  }

  lemma {:induction false} NoPagesIn(hs: seq<Header>, n: nat, k: nat)
    requires k < n <= |hs| && Pages(hs[..n]) == 0
    ensures !hs[k].load || PageCount(hs[k]) == 0
  {
    hide PageCount;
    assert hs[..n][..n - 1] == hs[..n - 1];
    if k < n - 1 { NoPagesIn(hs, n - 1, k); }
  }

  lemma {:induction false} NoSlotsIn(hs: seq<Header>, n: nat)
    requires n <= |hs| && forall k :: 0 <= k < n ==> !hs[k].load || PageCount(hs[k]) == 0
    ensures SegmentSlots(hs[..n]) == {}
  {
    hide PageCount, SlotsOf;
    if n > 0 {
      assert hs[..n][..n - 1] == hs[..n - 1];
      NoSlotsIn(hs, n - 1);
      if hs[n - 1].load { NoSlots(First(hs[n - 1])); }
    }
  }

  lemma {:induction false} FirstIs(hs: seq<Header>, n: nat, had: set<nat>)
    requires n < |hs| && hs[n].load && PageCount(hs[n]) > 0
    requires forall k :: 0 <= k < n ==> !hs[k].load || PageCount(hs[k]) == 0
    ensures FirstNeedsTable(hs, had) <==> First(hs[n]) / 1024 !in had
    decreases n
  {
    hide PageCount, First;
    if n > 0 {
      assert hs[1..][n - 1] == hs[n];
      forall k | 0 <= k < n - 1 ensures !hs[1..][k].load || PageCount(hs[1..][k]) == 0 {
        assert hs[1..][k] == hs[k + 1];
      }
      FirstIs(hs[1..], n - 1, had);
    }
  }

  /** Once a page is mapped, it has cost a frame, and two if the first page of all needs a table. */
  lemma {:induction false} SpentOnTable(hs: seq<Header>, seg: nat, kept: nat, had: set<nat>)
    requires seg < |hs| && hs[seg].load && kept < PageCount(hs[seg]) && Pages(hs[..seg]) + kept > 0
    requires forall k {:trigger hs[k]} :: 0 <= k < |hs| && hs[k].load ==> Behind(hs[k]) <= 786432
    ensures Spent(hs, seg, kept, had) >= if FirstNeedsTable(hs, had) then 2 else 1
  {
    hide SlotsOf, SegmentSlots, Pages, PageCount, First, Behind;
    var slots := SegmentSlots(hs[..seg]) + SlotsOf(First(hs[seg]), kept);
    if FirstNeedsTable(hs, had) {
      var i := FirstSlot(hs, seg, kept, had);
      assert i in slots - had;
      assert |slots - had| >= 1;
    }
  }

  /** The slot of the first page of all, which is among those paid for. */
  lemma FirstSlot(hs: seq<Header>, seg: nat, kept: nat, had: set<nat>) returns (i: nat)
    requires seg < |hs| && hs[seg].load && kept < PageCount(hs[seg]) && Pages(hs[..seg]) + kept > 0
    requires forall k {:trigger hs[k]} :: 0 <= k < |hs| && hs[k].load ==> Behind(hs[k]) <= 786432
    requires FirstNeedsTable(hs, had)
    ensures i in (SegmentSlots(hs[..seg]) + SlotsOf(First(hs[seg]), kept)) - had
  {
    hide SlotsOf, FirstNeedsTable, Pages, SegmentSlots, PageCount, Behind, First;
    if Pages(hs[..seg]) == 0 {
      SegmentsBefore(hs, seg, had);
      i := First(hs[seg]) / 1024;
      OwnFirst(hs[seg], kept);
    } else {
      var k := FirstPage(hs, seg);
      FirstIs(hs, k, had);
      i := First(hs[k]) / 1024;
      OwnFirst(hs[k], PageCount(hs[k]));
      SlotsIn(hs, seg, k);
    }
  }

  lemma OwnFirst(h: Header, n: nat)
    requires 0 < n <= PageCount(h) && Behind(h) <= 786432
    ensures First(h) / 1024 in SlotsOf(First(h), n)
  {
    assert Reaches(First(h), n, First(h) / 1024);
  }

  lemma {:induction false} FirstPage(hs: seq<Header>, n: nat) returns (k: nat)
    requires n <= |hs| && Pages(hs[..n]) > 0
    ensures k < n && hs[k].load && PageCount(hs[k]) > 0
    ensures forall l :: 0 <= l < k ==> !hs[l].load || PageCount(hs[l]) == 0
  {
    hide PageCount;
    assert hs[..n][..n - 1] == hs[..n - 1];
    if Pages(hs[..n - 1]) > 0 {
      k := FirstPage(hs, n - 1);
    } else {
      k := n - 1;
      forall l | 0 <= l < k ensures !hs[l].load || PageCount(hs[l]) == 0 { NoPagesIn(hs, n - 1, l); }
    }
  }

  lemma {:induction false} SlotsIn(hs: seq<Header>, n: nat, k: nat)
    requires k < n <= |hs| && hs[k].load
    ensures SlotsOf(First(hs[k]), PageCount(hs[k])) <= SegmentSlots(hs[..n])
  {
    hide PageCount, SlotsOf, First;
    assert hs[..n][..n - 1] == hs[..n - 1];
    if k < n - 1 { SlotsIn(hs, n - 1, k); }
  }

  lemma Fewer(a: set<nat>, b: set<nat>, c: set<nat>)
    requires a <= b
    ensures |a - c| <= |b - c|
  {
    assert b - c == (a - c) + ((b - a) - c);
  }

  lemma {:induction false} SlotsGrow(hs: seq<Header>, i: nat)
    requires i <= |hs|
    ensures SegmentSlots(hs[..i]) <= SegmentSlots(hs)
    decreases |hs| - i
  {
    if i < |hs| {
      assert hs[..i + 1][..i] == hs[..i];
      SlotsGrow(hs, i + 1);
    } else {
      assert hs[..i] == hs;
    }
  }

  lemma {:induction false} PagesGrow(hs: seq<Header>, i: nat)
    requires i <= |hs|
    ensures Pages(hs[..i]) <= Pages(hs)
    decreases |hs| - i
  {
    if i < |hs| {
      assert hs[..i + 1][..i] == hs[..i];
      PagesGrow(hs, i + 1);
    } else {
      assert hs[..i] == hs;
    }
  }

  lemma NoPrefix(hs: seq<Header>)
    ensures Pages(hs[..0]) == 0 && SegmentSlots(hs[..0]) == {} && LargestEnd(hs[..0]) == 0
  {}

  lemma PrefixStep(hs: seq<Header>, i: nat)
    requires i < |hs|
    ensures var h := hs[i]; var a, b := hs[..i], hs[..i + 1];
            && Pages(b) == Pages(a) + (if h.load then PageCount(h) else 0)
            && SegmentSlots(b) == SegmentSlots(a) + (if h.load then SlotsOf(First(h), PageCount(h)) else {})
            && LargestEnd(b) == if h.load && 4096 * Behind(h) > LargestEnd(a) then 4096 * Behind(h) else LargestEnd(a)
  {
    assert hs[..i + 1][..i] == hs[..i];
  }

  lemma LoadedNone(pages: map<nat, nat>, frames: Contents, file: seq<int>, hs: seq<Header>)
    ensures Loaded(pages, pages, frames, file, hs[..0])
  {}

  lemma LoadedSkip(pages0: map<nat, nat>, pages: map<nat, nat>, frames: Contents, file: seq<int>, hs: seq<Header>,
        i: nat)
    requires i < |hs| && !hs[i].load && Loaded(pages0, pages, frames, file, hs[..i])
    ensures Loaded(pages0, pages, frames, file, hs[..i + 1])
  {
    hide Within, Image;
    var a, b := hs[..i], hs[..i + 1];
    forall p: nat ensures p in pages <==> p in pages0 || exists k :: 0 <= k < |b| && b[k].load && Within(b[k], p) {
      if k :| 0 <= k < |a| && a[k].load && Within(a[k], p) { assert b[k] == a[k]; }
      if k :| 0 <= k < |b| && b[k].load && Within(b[k], p) { assert a[k] == b[k]; }
    }
    forall k | 0 <= k < |b| && b[k].load ensures Image(pages, frames, file, b[k]) { assert a[k] == b[k]; }
  }

  lemma StillFree(pages0: map<nat, nat>, pages: map<nat, nat>, frames: Contents, file: seq<int>, hs: seq<Header>,
        i: nat)
    requires i < |hs| && hs[i].load && Disjoint(hs) && Loaded(pages0, pages, frames, file, hs[..i])
    requires forall k, p: nat {:trigger Within(hs[k], p)} :: 0 <= k < |hs| && hs[k].load && Within(hs[k], p) ==>
               p !in pages0
    ensures forall p {:trigger p in pages} :: Within(hs[i], p) ==> p !in pages
  {
    hide Within, Image;
    var a := hs[..i];
    forall p | Within(hs[i], p) ensures p !in pages {
      forall k | 0 <= k < |a| && a[k].load ensures !Within(a[k], p) { assert a[k] == hs[k]; }
    }
  }

  lemma LoadedMore(pages0: map<nat, nat>, pages: map<nat, nat>, frames: Contents, pages': map<nat, nat>,
        frames': Contents, file: seq<int>, hs: seq<Header>, i: nat)
    requires i < |hs| && hs[i].load && Loaded(pages0, pages, frames, file, hs[..i])
             && Extends(pages, frames, pages', frames')
    requires Image(pages', frames', file, hs[i]) && forall p: nat {:trigger p in pages'} :: p in pages' <==>
               p in pages || Within(hs[i], p)
    ensures Loaded(pages0, pages', frames', file, hs[..i + 1])
  {
    hide Within, Image, Extends;
    var a, b := hs[..i], hs[..i + 1];
    forall k | 0 <= k < |b| && b[k].load ensures Image(pages', frames', file, b[k]) {
      if k < i { assert b[k] == a[k]; ImageKept(pages, frames, pages', frames', file, a[k]); }
    }
    forall p: nat ensures p in pages' <==> p in pages0 || exists k :: 0 <= k < |b| && b[k].load && Within(b[k], p) {
      assert p in pages <==> p in pages0 || exists k :: 0 <= k < |a| && a[k].load && Within(a[k], p);
      if k :| 0 <= k < |a| && a[k].load && Within(a[k], p) { assert b[k] == a[k]; }
      if k :| 0 <= k < |b| && b[k].load && Within(b[k], p) { assert k < i ==> a[k] == b[k]; }
      if Within(hs[i], p) { assert b[i] == hs[i]; }
    }
  }

  // ---------------------------------------------------------------- an exec that fails

  /** The new directory is made first, the stack takes what it takes, and a load that fails just returns. So the
      page map is as before if and only if there was no frame for the directory; otherwise the frames
      that are gone are those of the directory, and destroying it would bring back all of them. */
  lemma FailedExecLeaks(s0: State, s1: State, s2: State)
    requires Sound(s0)
    requires var (c, d) := Create(s0); if d == 0 then s2 == c else Taken(c, s1, d) && Taken(s1, s2, d)
    ensures s2.marks == s0.marks <==> |Frees(s0.marks)| == 0
    ensures var d := Create(s0).1;
            d != 0 ==>
              && |Frees(s2.marks)| < |Frees(s0.marks)| && d in s2.m.owner && s2.m.owner[d] == Directory
              && OthersMarks(s2.marks, s2.m.owner, d) == s0.marks && OthersOwners(s2.m.owner, d) == s0.m.owner
  {
    hide Backed, NewDir, OthersMarks, OthersOwners, Frees;
    Parts(s0);
    CreateOk(s0);
    var (c, d) := Create(s0);
    CreateFrees(s0);
    if d != 0 {
      TakenTrans(c, s1, s2, d);
      TakenOthers(c, s2, d);
      TakenCount(c, s2, d);
      assert c.m.owner[d] == s2.m.owner[d];
    }
  }

  lemma CreateFrees(s: State)
    requires Sound(s)
    ensures var (r, d) := Create(s);
            && (d == 0 <==> |Frees(s.marks)| == 0)
            && (d != 0 ==> |Frees(r.marks)| == |Frees(s.marks)| - 1)
  {
    hide Backed;
    Parts(s);
    AllocFrees(s);
  }
}
