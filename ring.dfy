/** Cursor arithmetic of the ring deque: how a `front`/`rear` cursor pair over a
    buffer of `size` bytes denotes the sequence of occupied bytes, and how one
    byte step at either end changes that sequence. */
module Ring {

  /** The largest `size_t` value. A front cursor holding it marks the deque as empty;
      no buffer position can hold it, since positions are below `size <= SIZE_MAX`. */
  const SIZE_MAX: nat := 0xFFFF_FFFF_FFFF_FFFF

  /** The cursors of a deque over `size` bytes are in range: `rear` is a buffer
      position and `front` is a buffer position or the empty sentinel. */
  predicate Cursors(front: nat, rear: nat, size: nat)
  {
    0 < size <= SIZE_MAX && rear < size && (front == SIZE_MAX || front < size)
  }

  /** `c++` followed by the C code's wrap test `if (c >= size) c = 0`. No `size_t`
      overflow can happen here, since `c < size <= SIZE_MAX`. */
  function Next(c: nat, size: nat): (r: nat)
    requires c < size
    ensures r < size
  {
    if c + 1 >= size then 0 else c + 1
  }

  /** `c--` in `size_t` arithmetic (0 wraps to SIZE_MAX) followed by the C code's
      test `if (c == SIZE_MAX) c = size - 1`: one step backwards around the buffer. */
  function Prev(c: nat, size: nat): (r: nat)
    requires c < size <= SIZE_MAX
    ensures r < size
    ensures Next(r, size) == c
  {
    var d := if c == 0 then SIZE_MAX else c - 1;
    if d == SIZE_MAX then size - 1 else d
  }

  /** The buffer position `i` bytes after `start`, going round the buffer. */
  function Offset(start: nat, i: nat, size: nat): (r: nat)
    requires start < size && i <= size
    ensures r < size
  {
    if start + i < size then start + i else start + i - size
  }

  /** The number of occupied bytes: none when `front` is the sentinel, the whole
      buffer when the cursors meet, and otherwise the circular distance from
      `front` to `rear`. */
  function Occupancy(front: nat, rear: nat, size: nat): (n: nat)
    requires Cursors(front, rear, size)
    ensures n <= size
    ensures n == 0 <==> front == SIZE_MAX
    ensures n == size <==> front == rear
    ensures front != SIZE_MAX ==> Offset(front, n, size) == rear
  {
    if front == SIZE_MAX then 0
    else if front < rear then rear - front
    else rear + size - front
  }

  /** The occupied bytes of buffer `s`, oldest first: byte `i` lies `i` positions
      after `front`. */
  function View(s: seq<bv8>, front: nat, rear: nat): (q: seq<bv8>)
    requires Cursors(front, rear, |s|)
    ensures |q| == Occupancy(front, rear, |s|)
  {
    var n := Occupancy(front, rear, |s|);
    seq(n, i requires 0 <= i < n => s[Offset(front, i, |s|)])
  }

  /** One byte of PushBack (src/deque.c:135-147): on a deque that is not full,
      taking over `rear` as the front of an empty deque, writing byte `b` at `rear`
      and advancing `rear` appends `b` to the occupied bytes. */
  lemma PushBackStep(s: seq<bv8>, front: nat, rear: nat, b: bv8)
    requires Cursors(front, rear, |s|)
    requires Occupancy(front, rear, |s|) < |s|
    ensures var f := if front == SIZE_MAX then rear else front;
            Cursors(f, Next(rear, |s|), |s|) &&
            View(s[rear := b], f, Next(rear, |s|)) == View(s, front, rear) + [b]
  {
  }

  /** One byte of PushFront (src/deque.c:94-107): on a deque that is not full,
      taking over `rear` as the front of an empty deque, stepping `front` back and
      writing byte `b` there prepends `b` to the occupied bytes. */
  lemma PushFrontStep(s: seq<bv8>, front: nat, rear: nat, b: bv8)
    requires Cursors(front, rear, |s|)
    requires Occupancy(front, rear, |s|) < |s|
    ensures var f := Prev(if front == SIZE_MAX then rear else front, |s|);
            Cursors(f, rear, |s|) &&
            View(s[f := b], f, rear) == [b] + View(s, front, rear)
  {
  }

  /** One byte of PopFront (src/deque.c:175-187): on a non-empty deque the byte at
      `front` is the oldest one, and advancing `front` (resetting it to the sentinel
      once it meets `rear`) drops it from the occupied bytes. */
  lemma PopFrontStep(s: seq<bv8>, front: nat, rear: nat, q: seq<bv8>)
    requires Cursors(front, rear, |s|) && front != SIZE_MAX && View(s, front, rear) == q
    ensures 0 < |q| && s[front] == q[0]
    ensures var f1 := Next(front, |s|);
            var f := if f1 == rear then SIZE_MAX else f1;
            Cursors(f, rear, |s|) && View(s, f, rear) == q[1..]
  {
  }

  /** One byte of PopBack (src/deque.c:219-231): on a non-empty deque the byte just
      before `rear` is the newest one, and stepping `rear` back (resetting `front`
      to the sentinel once the cursors meet) drops it from the occupied bytes. */
  lemma PopBackStep(s: seq<bv8>, front: nat, rear: nat, q: seq<bv8>, m: nat)
    requires Cursors(front, rear, |s|) && front != SIZE_MAX
    requires m <= |q| && View(s, front, rear) == q[..m]
    ensures 0 < m && s[Prev(rear, |s|)] == q[m - 1]
    ensures var r := Prev(rear, |s|);
            var f := if r == front then SIZE_MAX else front;
            Cursors(f, r, |s|) && View(s, f, r) == q[..m - 1]
  {
  }

  /** When both the occupied byte count `a` and the capacity `c` are whole numbers
      of `n`-byte elements, a deque that is not full has room for a whole element. */
  lemma AlignedRoom(a: nat, c: nat, n: nat)
    requires 0 < n && a % n == 0 && c % n == 0 && a < c
    ensures a + n <= c
  {
    var p, k := a / n, c / n;
    assert a == n * p && c == n * k;
    assert p < k;
    assert n * (p + 1) <= n * k;
  }

  /** A whole multiple of `n` leaves no remainder. */
  lemma MultipleMod(t: int, n: nat)
    requires 0 < n && 0 <= t
    ensures (n * t) % n == 0
  {
    var x := n * t;
    var d, r := x / n, x % n;
    assert x == n * d + r && 0 <= r < n;
    assert n * d <= n * t < n * (d + 1);
    assert d <= t < d + 1;
  }

  /** Adding or removing one `n`-byte element keeps a byte count a whole number of
      elements. */
  lemma AlignedShift(a: nat, n: nat)
    requires 0 < n && a % n == 0
    ensures (a + n) % n == 0
    ensures a >= n ==> (a - n) % n == 0
  {
    var p := a / n;
    assert a == n * p;
    assert a + n == n * (p + 1);
    MultipleMod(p + 1, n);
    if a >= n {
      assert p >= 1;
      assert a - n == n * (p - 1);
      MultipleMod(p - 1, n);
    }
  }
}
