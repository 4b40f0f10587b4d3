/** The ring deque of src/deque.c: a `Deque_t` object over a caller-supplied byte
    buffer, with two cursors that the operations move one byte at a time. Each
    operation is proved against the byte-sequence semantics of module DequeSpec. */
module RingDeque {
  import opened Ring
  import opened DequeSpec

  /** Deque_t (src/deque_t.h:43-50). The buffer and the two sizes are fixed by
      Deque_Init; the operations move only the cursors and the buffer bytes. */
  class Deque {
    /** Front (read) cursor: the oldest byte, or SIZE_MAX when empty. */
    var front: nat
    /** Rear (write) cursor: the position the next back push writes. */
    var rear: nat
    /** The caller's buffer (`pBuf`). */
    const buf: array<bv8>
    /** Size of the buffer in bytes. */
    const bufSize: nat
    /** Size in bytes of the element type. */
    const dataSize: nat

    /** The cursors are in range for a buffer of exactly `bufSize` bytes. This
        holds at every step inside the byte loops. */
    ghost predicate InRange()
      reads this
    {
      buf.Length == bufSize && Cursors(front, rear, bufSize)
    }

    /** The object invariant between calls: cursors in range, and both the buffer
        size and the occupied byte count are whole numbers of elements. */
    ghost predicate Valid()
      reads this
    {
      InRange() && 0 < dataSize && bufSize % dataSize == 0 &&
      Occupancy(front, rear, bufSize) % dataSize == 0
    }

    /** The occupied bytes, oldest first. */
    ghost function Contents(): seq<bv8>
      reads this, buf
      requires InRange()
    {
      View(buf[..], front, rear)
    }

    /** Deque_Init: records the buffer and sizes, marks the deque empty with the
        sentinel and puts the write cursor at 0, writing no buffer byte. */
    constructor Init(pBuf: array<bv8>, bufSize: nat, dataSize: nat)
      requires pBuf.Length == bufSize && 0 < bufSize <= SIZE_MAX
      requires 0 < dataSize && bufSize % dataSize == 0
      ensures Valid()
      ensures buf == pBuf && this.bufSize == bufSize && this.dataSize == dataSize
      ensures front == SIZE_MAX && rear == 0
      ensures Contents() == [] && IsEmpty() && !IsFull()
      ensures pBuf[..] == old(pBuf[..])
    {
      this.bufSize := bufSize;
      front := SIZE_MAX;
      rear := 0;
      buf := pBuf;
      this.dataSize := dataSize;
    }

    /** Deque_IsEmpty: the sentinel in `front` means exactly that no byte is held. */
    function IsEmpty(): (empty: bool)
      reads this, buf
      requires InRange()
      ensures empty <==> Contents() == []
    {
      front == SIZE_MAX
    }

    /** Deque_IsFull: the cursors meet exactly when the occupied span covers the
        whole buffer, which never happens while the deque is empty. */
    function IsFull(): (full: bool)
      reads this
      requires InRange()
      ensures full <==> Occupancy(front, rear, bufSize) == bufSize
      ensures full ==> !IsEmpty()
    {
      rear == front
    }

    /** Deque_PushFront: writes the element's bytes last to first at decreasing
        positions, so that the new front holds its first byte. The fullness check
        runs before every byte, but since free space is a whole number of
        elements it can fire only before the first one. */
    method PushFront(data: seq<bv8>) returns (err: Status)
      requires Valid() && |data| == dataSize
      modifies this, buf
      ensures Valid()
      ensures (err, Contents()) == DequeSpec.PushFront(old(Contents()), data, bufSize)
      ensures err == Error <==> old(IsFull())
      ensures err == Error ==> front == old(front) && rear == old(rear) && buf[..] == old(buf[..])
    {
      err := Ok;
      ghost var q0 := Contents();
      assert |q0| % dataSize == 0;
      var idx := dataSize;
      while idx > 0
        invariant 0 <= idx <= dataSize
        invariant InRange() && err == Ok
        invariant idx < dataSize ==> |q0| + dataSize <= bufSize
        invariant Contents() == data[idx..] + q0
        invariant idx == dataSize ==> front == old(front) && rear == old(rear) && buf[..] == old(buf[..])
      {
        if IsFull() {
          err := Error;
          break;
        }
        AlignedRoom(|q0|, bufSize, dataSize);
        ghost var s, f, r := buf[..], front, rear;
        ghost var f' := Prev(if f == SIZE_MAX then r else f, bufSize);
        PushFrontStep(s, f, r, data[idx - 1]);
        assert View(s[f' := data[idx - 1]], f', r) == [data[idx - 1]] + data[idx..] + q0;
        if IsEmpty() {
          front := rear;
        }
        front := if front == 0 then SIZE_MAX else front - 1;
        if front == SIZE_MAX {
          front := bufSize - 1;
        }
        assert front == f';
        idx := idx - 1;
        buf[front] := data[idx];
        assert buf[..] == s[f' := data[idx]];
        assert data[idx..] == [data[idx]] + data[idx + 1..];
      }
      if err == Ok {
        AlignedShift(|q0|, dataSize);
      }
    }

    /** Deque_PushBack: writes the element's bytes first to last at `rear`,
        advancing it round the buffer; all-or-nothing for the same reason as
        PushFront. */
    method PushBack(data: seq<bv8>) returns (err: Status)
      requires Valid() && |data| == dataSize
      modifies this, buf
      ensures Valid()
      ensures (err, Contents()) == DequeSpec.PushBack(old(Contents()), data, bufSize)
      ensures err == Error <==> old(IsFull())
      ensures err == Error ==> front == old(front) && rear == old(rear) && buf[..] == old(buf[..])
    {
      err := Ok;
      ghost var q0 := Contents();
      assert |q0| % dataSize == 0;
      var idx := 0;
      while idx < dataSize
        invariant 0 <= idx <= dataSize
        invariant InRange() && err == Ok
        invariant idx > 0 ==> |q0| + dataSize <= bufSize
        invariant Contents() == q0 + data[..idx]
        invariant idx == 0 ==> front == old(front) && rear == old(rear) && buf[..] == old(buf[..])
      {
        if IsFull() {
          err := Error;
          break;
        }
        AlignedRoom(|q0|, bufSize, dataSize);
        ghost var s, f, r := buf[..], front, rear;
        PushBackStep(s, f, r, data[idx]);
        if IsEmpty() {
          front := rear;
        }
        buf[rear] := data[idx];
        rear := rear + 1;
        if rear >= bufSize {
          rear := 0;
        }
        assert buf[..] == s[r := data[idx]];
        assert data[..idx + 1] == data[..idx] + [data[idx]];
        idx := idx + 1;
      }
      if err == Ok {
        assert data[..dataSize] == data;
        AlignedShift(|q0|, dataSize);
      }
    }

    /** Deque_PopFront: copies the oldest bytes into `out` in order, advancing
        `front` and resetting it to the sentinel once it meets `rear`. The
        emptiness check runs before every byte but can fire only before the first,
        so on failure `out` is left untouched. */
    method PopFront(out: array<bv8>) returns (err: Status)
      requires Valid() && out.Length == dataSize && out != buf
      modifies this, out
      ensures Valid()
      ensures var (status, popped, rest) := DequeSpec.PopFront(old(Contents()), dataSize);
              err == status && Contents() == rest && (err == Ok ==> out[..] == popped)
      ensures err == Error <==> old(IsEmpty())
      ensures err == Error ==> out[..] == old(out[..]) && front == old(front)
      ensures rear == old(rear)
    {
      err := Ok;
      ghost var q0 := Contents();
      assert |q0| % dataSize == 0;
      var idx := 0;
      while idx < dataSize
        invariant 0 <= idx <= dataSize
        invariant InRange() && err == Ok && rear == old(rear)
        invariant idx > 0 ==> dataSize <= |q0|
        invariant idx <= |q0| && Contents() == q0[idx..]
        invariant forall k :: 0 <= k < idx ==> out[k] == q0[k]
        invariant idx == 0 ==> front == old(front) && out[..] == old(out[..])
      {
        if IsEmpty() {
          err := Error;
          break;
        }
        AlignedRoom(0, |q0|, dataSize);
        ghost var s, f := buf[..], front;
        ghost var f1 := Next(f, bufSize);
        ghost var f' := if f1 == rear then SIZE_MAX else f1;
        PopFrontStep(s, f, rear, q0[idx..]);
        assert q0[idx..][1..] == q0[idx + 1..];
        var b := buf[front];
        out[idx] := b;
        assert forall k :: 0 <= k <= idx ==> out[k] == q0[k];
        front := front + 1;
        if front >= bufSize {
          front := 0;
        }
        assert front == f1;
        if IsFull() {
          front := SIZE_MAX;
        }
        assert front == f' && buf[..] == s;
        idx := idx + 1;
      }
      if err == Ok {
        assert out[..] == q0[..dataSize];
        AlignedShift(|q0|, dataSize);
      }
    }

    /** Deque_PopBack: steps `rear` back and copies the newest bytes into `out`
        from its last position down, restoring the element's byte order; resets
        `front` to the sentinel once the cursors meet. All-or-nothing as
        PopFront. */
    method PopBack(out: array<bv8>) returns (err: Status)
      requires Valid() && out.Length == dataSize && out != buf
      modifies this, out
      ensures Valid()
      ensures var (status, popped, rest) := DequeSpec.PopBack(old(Contents()), dataSize);
              err == status && Contents() == rest && (err == Ok ==> out[..] == popped)
      ensures err == Error <==> old(IsEmpty())
      ensures err == Error ==> out[..] == old(out[..]) && front == old(front) && rear == old(rear)
    {
      err := Ok;
      ghost var q0 := Contents();
      assert |q0| % dataSize == 0;
      var idx := dataSize;
      ghost var base: int := |q0| - dataSize;
      while idx > 0
        invariant 0 <= idx <= dataSize
        invariant InRange() && err == Ok
        invariant idx < dataSize ==> 0 <= base
        invariant 0 <= base + idx && Contents() == q0[..base + idx]
        invariant forall k :: idx <= k < dataSize ==> out[..][k] == q0[base + k]
        invariant idx == dataSize ==> front == old(front) && rear == old(rear) && out[..] == old(out[..])
      {
        if IsEmpty() {
          err := Error;
          break;
        }
        AlignedRoom(0, |q0|, dataSize);
        ghost var s := buf[..];
        ghost var r' := Prev(rear, bufSize);
        ghost var f' := if r' == front then SIZE_MAX else front;
        ghost var m := base + idx;
        PopBackStep(s, front, rear, q0, m);
        rear := if rear == 0 then SIZE_MAX else rear - 1;
        if rear == SIZE_MAX {
          rear := bufSize - 1;
        }
        assert rear == r';
        idx := idx - 1;
        var b := buf[rear];
        assert b == q0[base + idx];
        ghost var o := out[..];
        out[idx] := b;
        assert out[..] == o[idx := b];
        if IsFull() {
          front := SIZE_MAX;
        }
        assert front == f' && buf[..] == s;
      }
      if err == Ok {
        assert out[..] == q0[base..];
        AlignedShift(|q0|, dataSize);
      }
    }

    /** Deque_PeekFront: a PopFront between saving and restoring the cursors. The
        pop writes no buffer byte, so the deque is exactly as before, and `out`
        receives what the next PopFront would return. */
    method PeekFront(out: array<bv8>) returns (err: Status)
      requires Valid() && out.Length == dataSize && out != buf
      modifies this, out
      ensures Valid() && front == old(front) && rear == old(rear)
      ensures Contents() == old(Contents())
      ensures var (status, popped, _) := DequeSpec.PopFront(old(Contents()), dataSize);
              err == status && (err == Ok ==> out[..] == popped)
      ensures err == Error <==> old(IsEmpty())
      ensures err == Error ==> out[..] == old(out[..])
    {
      var savedFront := front;
      var savedRear := rear;
      err := PopFront(out);
      front := savedFront;
      rear := savedRear;
    }

    /** Deque_PeekBack: a PopBack between saving and restoring the cursors. */
    method PeekBack(out: array<bv8>) returns (err: Status)
      requires Valid() && out.Length == dataSize && out != buf
      modifies this, out
      ensures Valid() && front == old(front) && rear == old(rear)
      ensures Contents() == old(Contents())
      ensures var (status, popped, _) := DequeSpec.PopBack(old(Contents()), dataSize);
              err == status && (err == Ok ==> out[..] == popped)
      ensures err == Error <==> old(IsEmpty())
      ensures err == Error ==> out[..] == old(out[..])
    {
      var savedFront := front;
      var savedRear := rear;
      err := PopBack(out);
      front := savedFront;
      rear := savedRear;
    }
  }
}
