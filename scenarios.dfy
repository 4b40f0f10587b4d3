/** The behaviours test/deque_suite.h checks, as methods that build a deque over
    a fresh buffer, drive it through the operations of class RingDeque.Deque and
    promise the outcome the suite asserts. */
module DequeScenarios {
  import opened Ring
  import opened DequeSpec
  import opened RingDeque

  /** A push at the given end of the deque. */
  method PushAt(q: Deque, end: End, data: seq<bv8>) returns (err: Status)
    requires q.Valid() && |data| == q.dataSize
    modifies q, q.buf
    ensures q.Valid()
    ensures (err, q.Contents()) == Push(old(q.Contents()), end, data, q.bufSize)
  {
    if end == Front {
      err := q.PushFront(data);
    } else {
      err := q.PushBack(data);
    }
  }

  /** A pop at the given end of the deque into `out`. */
  method PopAt(q: Deque, end: End, out: array<bv8>) returns (err: Status)
    requires q.Valid() && out.Length == q.dataSize && out != q.buf
    modifies q, out
    ensures q.Valid()
    ensures var (status, popped, rest) := Pop(old(q.Contents()), end, q.dataSize);
            err == status && q.Contents() == rest && (err == Ok ==> out[..] == popped)
    ensures err == Error ==> out[..] == old(out[..])
  {
    if end == Front {
      err := q.PopFront(out);
    } else {
      err := q.PopBack(out);
    }
  }

  /** Two one-byte pushes, at any mix of ends, fill a two-byte buffer: the deque
      reports full, and a third push at either end fails. */
  method OverflowAfterTwoPushes(first: End, second: End, third: End) returns (full: bool, err: Status)
    ensures full && err == Error
  {
    var buf := new bv8[2];
    var q := new Deque.Init(buf, 2, 1);
    var e1 := PushAt(q, first, [5]);
    var e2 := PushAt(q, second, [5]);
    full := q.IsFull();
    err := PushAt(q, third, [5]);
  }

  /** A pop at either end of a freshly initialised deque fails and leaves the
      caller's output byte as it was. */
  method UnderflowOnFreshDeque(end: End, old0: bv8) returns (err: Status, out0: bv8)
    ensures err == Error && out0 == old0
  {
    var buf := new bv8[2];
    var q := new Deque.Init(buf, 2, 1);
    var out := new bv8[1];
    out[0] := old0;
    err := PopAt(q, end, out);
    out0 := out[0];
  }

  /** One 8-byte element pushed at one end of a four-element deque and popped at
      either end comes back byte for byte, and the deque is empty again. */
  method RoundTripOfEightBytes(e: seq<bv8>, pushEnd: End, popEnd: End) returns (err: Status, got: seq<bv8>, empty: bool)
    requires |e| == 8
    ensures err == Ok && got == e && empty
  {
    var buf := new bv8[32];
    var q := new Deque.Init(buf, 32, 8);
    var pushed := PushAt(q, pushEnd, e);
    assert [] + e == e + [] == e;
    var out := new bv8[8];
    err := PopAt(q, popEnd, out);
    got := out[..];
    empty := q.IsEmpty();
  }

  /** After two 2-byte pushes at one end, a peek at either end reports the element
      that the pop at that end then returns. */
  method PeekThenPop(a: seq<bv8>, b: seq<bv8>, pushEnd: End, popEnd: End) returns (peeked: seq<bv8>, popped: seq<bv8>)
    requires |a| == 2 && |b| == 2
    ensures peeked == popped
    ensures popped == (if (pushEnd == Back) == (popEnd == Front) then a else b)
  {
    var buf := new bv8[8];
    var q := new Deque.Init(buf, 8, 2);
    var e1 := PushAt(q, pushEnd, a);
    var e2 := PushAt(q, pushEnd, b);
    var out := new bv8[2];
    var err;
    if popEnd == Front {
      err := q.PeekFront(out);
    } else {
      err := q.PeekBack(out);
    }
    peeked := out[..];
    err := PopAt(q, popEnd, out);
    popped := out[..];
  }
}
