/** Delivering a signal to a handler and returning from it. */
module Signals {
  import opened UserMemory

  /** Little-endian words. */
  function Le(w: nat): (b: seq<int>)
    ensures |b| == 4
  {
    [w % 256, w / 256 % 256, w / 65536 % 256, w / 16777216 % 256]
  }

  function Word(b: seq<int>, at: nat): int
    requires at + 4 <= |b|
  {
    b[at] + 256 * b[at + 1] + 65536 * b[at + 2] + 16777216 * b[at + 3]
  }

  lemma WordOfLe(w: nat)
    requires w < 0x1_0000_0000
    ensures Word(Le(w), 0) == w
  {
    var a, b := w / 256, w / 65536;
    assert a / 256 == b && b / 256 == w / 16777216;
    assert w == w % 256 + 256 * (a % 256 + 256 * (b % 256 + 256 * (b / 256)));
  }

  /** Writes a word. An interrupt frame is 72 bytes, with EIP at 52 and the user's ESP at 64. */
  function SetWord(b: seq<int>, at: nat, w: nat): (r: seq<int>)
    requires at + 4 <= |b|
    ensures |r| == |b|
  {
    Patched(b, at, Le(w))
  }

  /** mov eax, SYSCALL_SIGRETURN; int 0x80; jmp $ */
  const TRAMPOLINE: seq<int> := [0xB8, 21, 0, 0, 0, 0xCD, 0x80, 0xEB, 0xFE]

  /** The 17 bytes put on the user's stack below `esp`: return address, argument, trampoline. */
  function StackFrame(esp: nat, sig: nat): (b: seq<int>)
    requires 17 <= esp
    ensures |b| == 17
  {
    Le(esp - 9) + Le(sig) + TRAMPOLINE
  }

  /** Frame with which the handler starts. */
  function HandlerFrame(frame: seq<int>, handler: nat): (r: seq<int>)
    requires |frame| == 72 && Word(frame, 64) >= 17
    ensures |r| == 72
  {
    SetWord(SetWord(frame, 64, Word(frame, 64) - 17), 52, handler)
  }

  /** On entry the handler finds its return address at the top of its stack and its argument above
      it, and the return address leads to the trampoline right behind them. */
  lemma HandlerEntry(frame: seq<int>, handler: nat, sig: nat)
    requires |frame| == 72 && 17 <= Word(frame, 64) < 0x1_0000_0000 && handler < 0x1_0000_0000 && sig < 0x1_0000_0000
    ensures var esp := Word(frame, 64); var b := StackFrame(esp, sig); var h := HandlerFrame(frame, handler);
            && Word(h, 64) == esp - 17 && Word(h, 52) == handler
            && Word(b, 0) == (esp - 17) + 8 && Word(b, 4) == sig && b[8..] == TRAMPOLINE
            && forall k {:trigger h[k]} :: 0 <= k < 72 && !(52 <= k < 56) && !(64 <= k < 68) ==> h[k] == frame[k]
  {
    hide Patched;
    var esp := Word(frame, 64);
    var b := StackFrame(esp, sig);
    var f1 := SetWord(frame, 64, esp - 17);
    var h := SetWord(f1, 52, handler);
    WordOfLe(esp - 17);
    WordOfLe(handler);
    WordOfLe(esp - 9);
    WordOfLe(sig);
    SameWord(Le(esp - 17), 0, h, 64);
    SameWord(Le(handler), 0, h, 52);
    SameWord(Le(esp - 9), 0, b, 0);
    SameWord(Le(sig), 0, b, 4);
  }

  lemma SameWord(a: seq<int>, i: nat, b: seq<int>, j: nat)
    requires i + 4 <= |a| && j + 4 <= |b| && a[i] == b[j] && a[i + 1] == b[j + 1] && a[i + 2] == b[j + 2]
             && a[i + 3] == b[j + 3]
    ensures Word(a, i) == Word(b, j)
  {}

  /** Three writes one above the other, made from the top down, are one write. */
  lemma ThreeWrites(pages: map<nat, nat>, a: Contents, b: Contents, c: Contents, d: Contents, at: nat, x: seq<int>,
        y: seq<int>, z: seq<int>)
    requires Wrote(pages, a, b, at + |x| + |y|, z) && Wrote(pages, b, c, at + |x|, y) && Wrote(pages, c, d, at, x)
    ensures Wrote(pages, a, d, at, x + y + z)
  {
    var all := x + y + z;
    forall k: nat | k / 4096 in pages
      ensures ByteAt(pages, d, k) == if at <= k < at + |all| then all[k - at] else ByteAt(pages, a, k)
    {
      assert ByteAt(pages, b, k) == if at + |x| + |y| <= k < at + |all| then z[k - (at + |x| + |y|)]
             else ByteAt(pages, a, k);
      assert ByteAt(pages, c, k) == if at + |x| <= k < at + |x| + |y| then y[k - (at + |x|)] else ByteAt(pages, b, k);
    }
    forall f | 0 <= f < |a| && f !in pages.Values ensures d[f] == a[f] { assert b[f] == a[f] && c[f] == a[f]; }
  }

  /** The 17 bytes below the user's stack pointer exist and are mapped. */
  ghost predicate StackRoom(pages: map<nat, nat>, esp: int) { 17 <= esp && RangeThere(pages, esp - 17, 17) }

  /** The test that a delivery makes instead. */
  ghost predicate StackTest(pages: map<nat, nat>, esp: int) { 17 <= esp && RangeChecked(pages, esp - 17, 17) }

  /** The test finds out whether there is room, except for a stack pointer in the last page of the address
      space, which always passes. */
  lemma StackTestExact(pages: map<nat, nat>, esp: nat)
    requires esp < 0x1_0000_0000
    ensures esp <= 0xFFFF_F000 ==> (StackTest(pages, esp) <==> StackRoom(pages, esp))
    ensures esp > 0xFFFF_F000 ==> StackTest(pages, esp)
  {
    if 17 <= esp { RangeCheckExact(pages, esp - 17, 17); }
  }

  /** The pages that a delivery with stack pointer `esp` writes all belong to the user. */
  ghost predicate WritesUserOnly(user: set<nat>, esp: nat) {
    forall a: nat {:trigger a / 4096} :: esp - 17 <= a < esp ==> a / 4096 in user
  }

  /** The test looks for mapped pages and not for the user bit. In a task whose mapped pages are the user's exactly
      below the kernel base, a delivery that passes it writes user pages only if and only if the stack
      pointer is not above that base. */
  lemma WritesUserExact(pages: map<nat, nat>, user: set<nat>, esp: nat)
    requires esp < 0x1_0000_0000 && StackTest(pages, esp)
    requires forall p {:trigger p in user} :: p in user <==> p in pages && p < 786432
    ensures WritesUserOnly(user, esp) <==> esp <= 0xC000_0000
  {
    if esp <= 0xC000_0000 {
      StackTestExact(pages, esp);
    } else {
      assert (esp - 1) / 4096 !in user;
    }
  }

  class Task {
    const space: Space
    /** Where the interrupt frame of a task that is not running lies on its kernel stack. */
    var esp: nat
    var saved: seq<int>
    var inHandler: bool

    constructor (space: Space, esp: nat)
      ensures this.space == space && this.esp == esp && !inHandler && saved == []
    {
      this.space, this.esp, saved, inHandler := space, esp, [], false;
    }

    ghost predicate Valid()
      reads this, space
    {
      space.Valid() && (inHandler ==> |saved| == 72)
    }

    /** What the runs below speak about. */
    ghost function Abs(): Save
      reads this
    {
      Save(saved, inHandler)
    }

    /** The kernel stack is mapped and holds a whole frame. */
    ghost predicate FrameMapped()
      reads this, space
    {
      forall a: nat {:trigger a / 4096} :: esp <= a < esp + 72 ==> a / 4096 in space.pages
    }

    /** `task_manager_deliver_signal` for a task that is not running. Refused exactly if the test
        of its stack fails; otherwise the frame is saved and, if there is room, the stack frame laid out
        and the task resumes in the handler. */
    method Deliver(sig: nat, handler: nat) returns (ok: bool, ghost frame: seq<int>)
      requires Valid() && FrameMapped()
      modifies this`saved, this`inHandler, space`frames
      ensures Valid() && |frame| == 72
      ensures forall k {:trigger frame[k]} :: 0 <= k < 72 ==>
                (esp + k) / 4096 in space.pages && old(space.Valid())
                && frame[k] == ByteAt(space.pages, old(space.frames), esp + k)
      ensures ok <==> StackTest(space.pages, Word(frame, 64))
      ensures !ok ==> space.frames == old(space.frames) && Abs() == old(Abs())
      ensures ok ==> Abs() == After(old(Abs()), Interrupt(frame))
      ensures ok && StackRoom(space.pages, Word(frame, 64)) ==> exists mid ::
                Wrote(space.pages, old(space.frames), mid, Word(frame, 64) - 17, StackFrame(Word(frame, 64), sig))
                                 && Wrote(space.pages, mid, space.frames, esp, HandlerFrame(frame, handler))
    {
      hide Wrote, Patched, Laid, Le, Word;
      var f := space.CopyIn(esp, 72);
      frame := f;
      WholeRange(space.pages, esp, 72, |f|);
      var useresp := Word(f, 64);
      if useresp < 17 { return false, f; }
      var mapped := space.RangeMapped(useresp - 17, 17);
      if !mapped { return false, f; }
      saved := f;
      inHandler := true;
      var whole := PushFrame(useresp, sig);
      ghost var mid := space.frames;
      var h := HandlerFrame(f, handler);
      var n := space.CopyOut(esp, h);
      WholeRange(space.pages, esp, 72, n);
      assert h[..72] == h;
      ok := true;
    }

    /** The same for the task that runs: `frame` holds its registers, and the stack is written directly. Where the
        test passed and there is no room, a store faults (`faults`): the frame is saved by then and the
        registers are not yet changed. What the fault handler does is not modelled. */
    method DeliverSelf(frame: seq<int>, sig: nat, handler: nat)
      returns (ok: bool, faults: bool, resumed: seq<int>)
      requires Valid() && |frame| == 72
      modifies this`saved, this`inHandler, space`frames
      ensures Valid()
      ensures ok <==> StackTest(space.pages, Word(frame, 64))
      ensures !ok ==> resumed == frame && space.frames == old(space.frames) && Abs() == old(Abs())
      ensures faults <==> ok && !StackRoom(space.pages, Word(frame, 64))
      ensures ok ==> Abs() == After(old(Abs()), Interrupt(frame))
      ensures ok ==> resumed == if faults then frame else HandlerFrame(frame, handler)
      ensures ok && !faults ==>
                Wrote(space.pages, old(space.frames), space.frames, Word(frame, 64) - 17,
                    StackFrame(Word(frame, 64), sig))
    {
      hide Wrote, Patched, Laid, Le, Word;
      var useresp := Word(frame, 64);
      resumed := frame;
      if useresp < 17 { return false, false, frame; }
      var mapped := space.RangeMapped(useresp - 17, 17);
      if !mapped { return false, false, frame; }
      saved := frame;
      inHandler := true;
      var whole := PushFrame(useresp, sig);
      return true, !whole, if whole then HandlerFrame(frame, handler) else frame;
    }

    /** The three writes that lay out the stack frame; `whole` if they go through. */
    method PushFrame(useresp: int, sig: nat) returns (whole: bool)
      requires Valid() && 17 <= useresp
      modifies space`frames
      ensures Valid() && whole == StackRoom(space.pages, useresp)
      ensures whole ==>
                Wrote(space.pages, old(space.frames), space.frames, useresp - 17, StackFrame(useresp, sig))
    {
      hide Wrote, Patched, Laid, Le;
      ghost var f0 := space.frames;
      var n := space.CopyOut(useresp - 9, TRAMPOLINE);
      ghost var f1 := space.frames;
      var n1 := space.CopyOut(useresp - 13, Le(sig));
      ghost var f2 := space.frames;
      var n2 := space.CopyOut(useresp - 17, Le(useresp - 9));
      whole := n == 9 && n1 == 4 && n2 == 4;
      if StackRoom(space.pages, useresp) {
        WholeRange(space.pages, useresp - 9, 9, n);
        WholeRange(space.pages, useresp - 13, 4, n1);
        WholeRange(space.pages, useresp - 17, 4, n2);
        assert TRAMPOLINE[..9] == TRAMPOLINE && Le(sig)[..4] == Le(sig) && Le(useresp - 9)[..4] == Le(useresp - 9);
        ThreeWrites(space.pages, f0, f1, f2, space.frames, useresp - 17, Le(useresp - 9), Le(sig), TRAMPOLINE);
      }
    }

    /** `syscall_sigreturn`: `current` is the frame of the call itself. */
    method Sigreturn(current: seq<int>) returns (restored: seq<int>)
      requires Valid()
      modifies this`inHandler
      ensures Valid() && restored == Resumes(old(Abs()), current) && Abs() == After(old(Abs()), Return(current))
    {
      restored := current;
      if inHandler {
        restored := saved;
        inHandler := false;
      }
    }
  }

  lemma WholeRange(pages: map<nat, nat>, address: nat, length: nat, n: nat)
    requires Runs(pages, address, length, n) && forall a: nat {:trigger a / 4096} :: address <= a < address + length ==>
               a / 4096 in pages
    ensures n == length
  {}

  // ---------------------------------------------------------------- runs

  /** The saved frame of a task, and whether a handler is active. */
  datatype Save = Save(frame: seq<int>, busy: bool)

  /** A delivery that interrupts `frame`, or a call of sigreturn made in frame `current`. */
  datatype Step = Interrupt(frame: seq<int>) | Return(current: seq<int>)

  function After(s: Save, e: Step): Save {
    match e
    case Interrupt(f) => Save(f, true)
    case Return(_) => s.(busy := false)
  }

  /** The frame in which a sigreturn resumes. */
  function Resumes(s: Save, current: seq<int>): seq<int> { if s.busy then s.frame else current }

  function AfterAll(s: Save, es: seq<Step>): Save
    decreases |es|
  {
    if es == [] then s else AfterAll(After(s, es[0]), es[1..])
  }

  /** The state depends on the last step alone. */
  lemma {:induction false} AfterLast(s: Save, es: seq<Step>)
    requires es != []
    ensures var r := AfterAll(s, es);
            match es[|es| - 1] case Interrupt(f) => r == Save(f, true) case Return(_) => !r.busy
    decreases |es|
  {
    if |es| > 1 {
      assert es[1..][|es| - 2] == es[|es| - 1];
      AfterLast(After(s, es[0]), es[1..]);
    }
  }

  /** Whole frames. */
  predicate Frames72(es: seq<Step>) { forall i :: 0 <= i < |es| && es[i].Interrupt? ==> |es[i].frame| == 72 }

  /** In any run of deliveries and returns, a sigreturn is sure to resume frame `f`, whatever frame it is
      made in, if and only if the last step before it was the delivery that interrupted `f`. */
  lemma ReturnsTo(es: seq<Step>, f: seq<int>)
    requires |f| == 72 && Frames72(es)
    ensures (forall c {:trigger Resumes(AfterAll(Save([], false), es), c)} :: |c| == 72 ==>
                Resumes(AfterAll(Save([], false), es), c) == f)
            <==> es != [] && es[|es| - 1] == Interrupt(f)
  {
    var r := AfterAll(Save([], false), es);
    var last := if es == [] then Return(f) else es[|es| - 1];
    if es != [] { AfterLast(Save([], false), es); }
    assert last.Interrupt? ==> r == Save(last.frame, true);
    assert last.Return? ==> !r.busy;
    var other := f[0 := f[0] + 1];
    assert other[0] != f[0] && other != f;
    assert |other| == 72 && Resumes(r, other) == if r.busy then r.frame else other;
  }

  /** What nested handlers would need: every delivery stacks its frame, every return resumes the top. */
  function Stacked(stack: seq<seq<int>>, es: seq<Step>): seq<seq<int>>
    decreases |es|
  {
    if es == [] then stack
    else match es[0]
         case Interrupt(f) => Stacked([f] + stack, es[1..])
         case Return(_) => Stacked(if stack == [] then [] else stack[1..], es[1..])
  }

  function Unwinds(stack: seq<seq<int>>, current: seq<int>): seq<int> { if stack == [] then current else stack[0] }

  lemma {:induction false} StackedWhole(stack: seq<seq<int>>, es: seq<Step>)
    requires Frames72(es) && forall i :: 0 <= i < |stack| ==> |stack[i]| == 72
    ensures forall i :: 0 <= i < |Stacked(stack, es)| ==> |Stacked(stack, es)[i]| == 72
    ensures es != [] && es[|es| - 1].Interrupt? ==>
              Stacked(stack, es) != [] && Stacked(stack, es)[0] == es[|es| - 1].frame
    decreases |es|
  {
    if es != [] {
      var next := if es[0].Interrupt? then [es[0].frame] + stack else if stack == [] then [] else stack[1..];
      assert |es| > 1 ==> es[1..][|es| - 2] == es[|es| - 1];
      StackedWhole(next, es[1..]);
    }
  }

  /** One saved frame does the work of the stack exactly as long as no return left an outer handler
      active: after a run whose last step is a return with a delivery still open, the next return
      does not resume the frame of that delivery. */
  lemma OneFrameExact(es: seq<Step>)
    requires Frames72(es)
    ensures (forall c {:trigger Resumes(AfterAll(Save([], false), es), c)} ::
               |c| == 72 ==> Resumes(AfterAll(Save([], false), es), c) == Unwinds(Stacked([], es), c))
            <==> Stacked([], es) == [] || es[|es| - 1].Interrupt?
  {
    var r, stack := AfterAll(Save([], false), es), Stacked([], es);
    StackedWhole([], es);
    if es != [] { AfterLast(Save([], false), es); }
    if stack != [] && !es[|es| - 1].Interrupt? {
      var other := stack[0][0 := stack[0][0] + 1];
      assert other[0] != stack[0][0];
      assert Resumes(r, other) == other;
    }
  }

  /** A handler for `f` that is itself interrupted in frame `g`: its own return resumes `f` only with a stack; with
      one saved frame the second return goes on in whatever frame it is called from. */
  lemma NestedLoses(f: seq<int>, g: seq<int>, first: seq<int>, second: seq<int>)
    requires |f| == |g| == |first| == |second| == 72 && second != f
    ensures var es := [Interrupt(f), Interrupt(g), Return(first)]; var r := AfterAll(Save([], false), es);
            && Frames72(es) && Stacked([], es) == [f]
            && Resumes(r, second) == second != Unwinds(Stacked([], es), second)
  {
    var es := [Interrupt(f), Interrupt(g), Return(first)];
    var s0 := Save([], false);
    AfterLast(s0, es);
    var none: seq<seq<int>> := [];
    assert [f] + none == [f] && ([g] + [f])[1..] == [f];
    calc {
      Stacked(none, es);
    ==  { assert es[1..] == [Interrupt(g), Return(first)]; }
      Stacked([f], [Interrupt(g), Return(first)]);
    ==  { assert [Interrupt(g), Return(first)][1..] == [Return(first)]; }
      Stacked([g] + [f], [Return(first)]);
    ==  { assert [Return(first)][1..] == []; }
      [f];
    }
  }
}
