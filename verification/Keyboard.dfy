/** The keyboard's ring buffer: 256 bytes, a head the interrupt writes at and a tail `read` takes from. */
module Keyboard {
  const SIZE: nat := 256

  /** Position `i` places after `tail`, going round. */
  function At(tail: nat, i: nat): (k: nat)
    requires tail < 256
    ensures k < 256
  {
    (tail + i) % 256
  }

  class Ring {
    const buffer: array<int>
    var head: nat
    var tail: nat
    var count: nat

    ghost predicate Valid()
      reads this
    {
      buffer.Length == SIZE && head < SIZE && tail < SIZE && count <= SIZE && head == At(tail, count)
    }

    /** The scancodes waiting, oldest first. */
    ghost function Contents(): (s: seq<int>)
      requires Valid()
      reads this, buffer
      ensures |s| == count
    {
      seq(count, i requires 0 <= i < count && Valid() reads this, buffer => buffer[At(tail, i)])
    }

    constructor ()
      ensures Valid() && Contents() == [] && fresh(buffer)
    {
      buffer := new int[256];
      head, tail, count := 0, 0, 0;
    }

    /** `keyboard_buffer_write`: a full ring drops the new scancode. */
    method Write(scancode: int)
      requires Valid()
      modifies this`head, this`count, buffer
      ensures Valid() && Contents() == if |old(Contents())| == 256 then old(Contents())
              else old(Contents()) + [scancode]
    {
      if count == SIZE { return; }
      buffer[head] := scancode;
      head := (head + 1) % 256;
      count := count + 1;
    }

    /** One turn of the loop in `keyboard_read`. */
    method Take() returns (c: int)
      requires Valid() && count > 0
      modifies this`tail, this`count
      ensures Valid() && [c] + Contents() == old(Contents())
    {
      ghost var rest := Contents();
      c := buffer[tail];
      tail := (tail + 1) % 256;
      count := count - 1;
      assert c == rest[0];
      forall i | 0 <= i < count ensures Contents()[i] == rest[1..][i] {
        assert At(tail, i) == At(old(tail), i + 1);
      }
      assert Contents() == rest[1..];
    }

    /** `keyboard_read`: takes up to `length` scancodes from the front; nothing to take means block. */
    method Read(length: nat) returns (out: seq<int>, willBlock: bool)
      requires Valid()
      modifies this`tail, this`count
      ensures Valid() && out + Contents() == old(Contents())
      ensures |out| == if length < |old(Contents())| then length else |old(Contents())|
      ensures willBlock <==> length == 0 || old(Contents()) == []
    {
      hide At;
      out := [];
      while |out| < length && count > 0
        invariant Valid() && |out| <= length
        invariant out + Contents() == old(Contents())
        decreases count
      {
        ghost var before := out;
        ghost var rest := Contents();
        var c := Take();
        out := out + [c];
        assert out + Contents() == before + rest;
      }
      willBlock := |out| == 0;
    }
  }
}
