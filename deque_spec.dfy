/** What the ring deque does, stated on the sequence of occupied bytes (oldest
    first) instead of on cursors: one function per operation of src/deque.c, and
    the laws the header promises of them (queue and stack disciplines, exact
    capacity, byte-identical round trips). Elements are `n`-byte sequences. */
module DequeSpec {
  import opened Ring

  /** Deque_Error_e (src/deque_t.h:28-32): `Ok` is Deque_Error_None and `Error`
      is Deque_Error, the one code used both for overflow and for underflow. */
  datatype Status = Ok | Error

  /** The end of the deque an operation works on. */
  datatype End = Front | Back

  /** Deque_PushBack: element `e` goes after the newest byte, unless the buffer of
      `cap` bytes has no room for it, in which case nothing changes. */
  function PushBack(q: seq<bv8>, e: seq<bv8>, cap: nat): (Status, seq<bv8>)
  {
    if |q| + |e| <= cap then (Ok, q + e) else (Error, q)
  }

  /** Deque_PushFront: element `e` goes before the oldest byte, its first byte
      becoming the new front, unless there is no room for it. */
  function PushFront(q: seq<bv8>, e: seq<bv8>, cap: nat): (Status, seq<bv8>)
  {
    if |q| + |e| <= cap then (Ok, e + q) else (Error, q)
  }

  /** Deque_PopFront: the `n` oldest bytes come out in order, unless fewer are
      held. The result is the status, the bytes popped (none on failure) and the
      bytes that remain. */
  function PopFront(q: seq<bv8>, n: nat): (Status, seq<bv8>, seq<bv8>)
  {
    if n <= |q| then (Ok, q[..n], q[n..]) else (Error, [], q)
  }

  /** Deque_PopBack: the `n` newest bytes come out in their original order,
      unless fewer are held. */
  function PopBack(q: seq<bv8>, n: nat): (Status, seq<bv8>, seq<bv8>)
  {
    if n <= |q| then (Ok, q[|q| - n..], q[..|q| - n]) else (Error, [], q)
  }

  /** A push at either end. */
  function Push(q: seq<bv8>, end: End, e: seq<bv8>, cap: nat): (Status, seq<bv8>)
  {
    match end
    case Front => PushFront(q, e, cap)
    case Back => PushBack(q, e, cap)
  }

  /** A pop at either end. */
  function Pop(q: seq<bv8>, end: End, n: nat): (Status, seq<bv8>, seq<bv8>)
  {
    match end
    case Front => PopFront(q, n)
    case Back => PopBack(q, n)
  }

  /** Pushing `es[i]` at end `ends[i]`, one after the other, as the test suite does
      with `err |= Deque_Push...`: the status is Ok only if every push succeeded. */
  function PushAll(q: seq<bv8>, ends: seq<End>, es: seq<seq<bv8>>, cap: nat): (Status, seq<bv8>)
    requires |ends| == |es|
    decreases |es|
  {
    if es == [] then (Ok, q)
    else
      var (s1, q1) := Push(q, ends[0], es[0], cap);
      var (s2, q2) := PushAll(q1, ends[1..], es[1..], cap);
      (if s1 == Ok then s2 else Error, q2)
  }

  /** Popping `n`-byte elements at ends `ends[0]`, `ends[1]`, ..., one after the
      other: the status is Ok only if every pop succeeded, and the elements
      returned are those of the pops that succeeded, in order. */
  function PopAll(q: seq<bv8>, ends: seq<End>, n: nat): (Status, seq<seq<bv8>>, seq<bv8>)
    decreases |ends|
  {
    if ends == [] then (Ok, [], q)
    else
      var (s1, e, q1) := Pop(q, ends[0], n);
      var (s2, es, q2) := PopAll(q1, ends[1..], n);
      (if s1 == Ok then s2 else Error, if s1 == Ok then [e] + es else es, q2)
  }

  /** The bytes of the elements `es`, one after the other. */
  function Flatten(es: seq<seq<bv8>>): seq<bv8>
    decreases |es|
  {
    if es == [] then [] else es[0] + Flatten(es[1..])
  }

  /** The elements of `xs` in the opposite order. */
  function Reverse<T>(xs: seq<T>): seq<T>
    decreases |xs|
  {
    if xs == [] then [] else Reverse(xs[1..]) + [xs[0]]
  }

  /** Every element of `es` is `n` bytes long. */
  ghost predicate Uniform(es: seq<seq<bv8>>, n: nat)
  {
    forall i :: 0 <= i < |es| ==> |es[i]| == n
  }

  /** Every operation of `ends` works on `end`. */
  ghost predicate AllAt(ends: seq<End>, end: End)
  {
    forall i :: 0 <= i < |ends| ==> ends[i] == end
  }

  // ---------------------------------------------------------------------------
  // Sequence facts

  lemma {:induction false} FlattenLength(es: seq<seq<bv8>>, n: nat)
    requires Uniform(es, n)
    ensures |Flatten(es)| == |es| * n
    decreases |es|
  {
    if es != [] {
      FlattenLength(es[1..], n);
    }
  }

  lemma {:induction false} FlattenConcat(a: seq<seq<bv8>>, b: seq<seq<bv8>>)
    ensures Flatten(a + b) == Flatten(a) + Flatten(b)
    decreases |a|
  {
    if a == [] {
      assert a + b == b;
    } else {
      assert (a + b)[1..] == a[1..] + b;
      FlattenConcat(a[1..], b);
    }
  }

  lemma {:induction false} ReverseConcat<T>(a: seq<T>, b: seq<T>)
    ensures Reverse(a + b) == Reverse(b) + Reverse(a)
    decreases |a|
  {
    if a == [] {
      assert a + b == b;
    } else {
      assert (a + b)[1..] == a[1..] + b;
      ReverseConcat(a[1..], b);
    }
  }

  lemma {:induction false} ReverseReverse<T>(xs: seq<T>)
    ensures Reverse(Reverse(xs)) == xs
    decreases |xs|
  {
    if xs != [] {
      ReverseConcat(Reverse(xs[1..]), [xs[0]]);
      assert Reverse([xs[0]]) == [xs[0]];
      ReverseReverse(xs[1..]);
    }
  }

  lemma {:induction false} ReverseUniform(es: seq<seq<bv8>>, n: nat)
    requires Uniform(es, n)
    ensures |Reverse(es)| == |es| && Uniform(Reverse(es), n)
    decreases |es|
  {
    if es != [] {
      ReverseUniform(es[1..], n);
    }
  }

  // ---------------------------------------------------------------------------
  // Laws of the operations

  /** Pushes of `n`-byte elements, at any mix of ends, all succeed as long as their
      bytes fit, and they add exactly those bytes. */
  lemma {:induction false} PushAllFits(q: seq<bv8>, ends: seq<End>, es: seq<seq<bv8>>, n: nat, cap: nat)
    requires |ends| == |es| && 0 < n && Uniform(es, n)
    requires |q| + |Flatten(es)| <= cap
    ensures PushAll(q, ends, es, cap).0 == Ok
    ensures |PushAll(q, ends, es, cap).1| == |q| + |Flatten(es)|
    decreases |es|
  {
    if es != [] {
      var q1 := Push(q, ends[0], es[0], cap).1;
      assert |q1| == |q| + n;
      PushAllFits(q1, ends[1..], es[1..], n, cap);
    }
  }

  /** Deque_PushBack is the push of a queue and of a stack (src/deque.h:77):
      repeated back pushes that fit append the elements in order. */
  lemma {:induction false} PushAllBack(q: seq<bv8>, ends: seq<End>, es: seq<seq<bv8>>, cap: nat)
    requires |ends| == |es| && AllAt(ends, Back)
    requires |q| + |Flatten(es)| <= cap
    ensures PushAll(q, ends, es, cap) == (Ok, q + Flatten(es))
    decreases |es|
  {
    if es == [] {
      assert q + Flatten(es) == q;
    } else {
      assert ends[0] == Back && AllAt(ends[1..], Back);
      assert q + es[0] + Flatten(es[1..]) == q + Flatten(es);
      PushAllBack(q + es[0], ends[1..], es[1..], cap);
    }
  }

  /** Repeated front pushes that fit put the elements before the old contents,
      the last one pushed first. */
  lemma {:induction false} PushAllFront(q: seq<bv8>, ends: seq<End>, es: seq<seq<bv8>>, cap: nat)
    requires |ends| == |es| && AllAt(ends, Front)
    requires |q| + |Flatten(es)| <= cap
    ensures PushAll(q, ends, es, cap) == (Ok, Flatten(Reverse(es)) + q)
    decreases |es|
  {
    if es == [] {
      assert Flatten(Reverse(es)) + q == q;
    } else {
      assert ends[0] == Front && AllAt(ends[1..], Front);
      PushAllFront(es[0] + q, ends[1..], es[1..], cap);
      FlattenConcat(Reverse(es[1..]), [es[0]]);
      assert Flatten([es[0]]) == es[0];
      assert Flatten(Reverse(es[1..])) + (es[0] + q) == Flatten(Reverse(es)) + q;
    }
  }

  /** Deque_PopFront is the pop of a queue (src/deque.h:89): popping at the front
      returns whole elements oldest first. */
  lemma {:induction false} PopAllFront(es: seq<seq<bv8>>, rest: seq<bv8>, ends: seq<End>, n: nat)
    requires |ends| == |es| && AllAt(ends, Front) && Uniform(es, n)
    ensures PopAll(Flatten(es) + rest, ends, n) == (Ok, es, rest)
    decreases |es|
  {
    if es == [] {
      assert Flatten(es) + rest == rest;
    } else {
      assert ends[0] == Front && AllAt(ends[1..], Front);
      assert |es[0]| == n && Uniform(es[1..], n);
      var q := Flatten(es) + rest;
      assert q == es[0] + (Flatten(es[1..]) + rest);
      assert q[..n] == es[0] && q[n..] == Flatten(es[1..]) + rest;
      PopAllFront(es[1..], rest, ends[1..], n);
      assert [es[0]] + es[1..] == es;
    }
  }

  /** Deque_PopBack is the pop of a stack (src/deque.h:101): popping at the back
      returns whole elements newest first. */
  lemma {:induction false} PopAllBack(es: seq<seq<bv8>>, rest: seq<bv8>, ends: seq<End>, n: nat)
    requires |ends| == |es| && AllAt(ends, Back) && Uniform(es, n)
    ensures PopAll(rest + Flatten(es), ends, n) == (Ok, Reverse(es), rest)
    decreases |es|
  {
    if es == [] {
      assert rest + Flatten(es) == rest;
    } else {
      var m := |es| - 1;
      var init, last := es[..m], es[m];
      assert es == init + [last];
      assert ends[0] == Back && AllAt(ends[1..], Back);
      assert |last| == n && Uniform(init, n);
      FlattenConcat(init, [last]);
      assert Flatten([last]) == last;
      var q := rest + Flatten(es);
      assert q == (rest + Flatten(init)) + last;
      assert q[|q| - n..] == last && q[..|q| - n] == rest + Flatten(init);
      PopAllBack(init, rest, ends[1..], n);
      ReverseConcat(init, [last]);
      assert Reverse([last]) == [last];
    }
  }

  /** Back pushes followed by front pops behave as a queue: the elements come out
      in the order they went in, and the deque is empty afterwards. */
  lemma QueueBackToFront(es: seq<seq<bv8>>, pushes: seq<End>, pops: seq<End>, n: nat, cap: nat)
    requires |pushes| == |es| && AllAt(pushes, Back)
    requires |pops| == |es| && AllAt(pops, Front)
    requires Uniform(es, n) && |es| * n <= cap
    ensures PushAll([], pushes, es, cap) == (Ok, Flatten(es))
    ensures PopAll(Flatten(es), pops, n) == (Ok, es, [])
  {
    FlattenLength(es, n);
    PushAllBack([], pushes, es, cap);
    assert [] + Flatten(es) == Flatten(es) + [] == Flatten(es);
    PopAllFront(es, [], pops, n);
  }

  /** Back pushes followed by back pops behave as a stack: the elements come out
      newest first. */
  lemma StackAtBack(es: seq<seq<bv8>>, pushes: seq<End>, pops: seq<End>, n: nat, cap: nat)
    requires |pushes| == |es| && AllAt(pushes, Back)
    requires |pops| == |es| && AllAt(pops, Back)
    requires Uniform(es, n) && |es| * n <= cap
    ensures PushAll([], pushes, es, cap) == (Ok, Flatten(es))
    ensures PopAll(Flatten(es), pops, n) == (Ok, Reverse(es), [])
  {
    FlattenLength(es, n);
    PushAllBack([], pushes, es, cap);
    PopAllBack(es, [], pops, n);
    assert [] + Flatten(es) == Flatten(es);
  }

  /** Front pushes followed by front pops also behave as a stack. */
  lemma StackAtFront(es: seq<seq<bv8>>, pushes: seq<End>, pops: seq<End>, n: nat, cap: nat)
    requires |pushes| == |es| && AllAt(pushes, Front)
    requires |pops| == |es| && AllAt(pops, Front)
    requires Uniform(es, n) && |es| * n <= cap
    ensures PushAll([], pushes, es, cap) == (Ok, Flatten(Reverse(es)))
    ensures PopAll(Flatten(Reverse(es)), pops, n) == (Ok, Reverse(es), [])
  {
    FlattenLength(es, n);
    PushAllFront([], pushes, es, cap);
    assert Flatten(Reverse(es)) + [] == Flatten(Reverse(es));
    ReverseUniform(es, n);
    PopAllFront(Reverse(es), [], pops, n);
  }

  /** Front pushes followed by back pops behave as a queue. */
  lemma QueueFrontToBack(es: seq<seq<bv8>>, pushes: seq<End>, pops: seq<End>, n: nat, cap: nat)
    requires |pushes| == |es| && AllAt(pushes, Front)
    requires |pops| == |es| && AllAt(pops, Back)
    requires Uniform(es, n) && |es| * n <= cap
    ensures PushAll([], pushes, es, cap) == (Ok, Flatten(Reverse(es)))
    ensures PopAll(Flatten(Reverse(es)), pops, n) == (Ok, es, [])
  {
    FlattenLength(es, n);
    PushAllFront([], pushes, es, cap);
    assert Flatten(Reverse(es)) + [] == Flatten(Reverse(es));
    ReverseUniform(es, n);
    PopAllBack(Reverse(es), [], pops, n);
    assert [] + Flatten(Reverse(es)) == Flatten(Reverse(es));
    ReverseReverse(es);
  }

  /** A buffer of `cap` bytes holds exactly `cap / n` elements of `n` bytes, with
      no slot reserved: that many pushes, at any mix of ends, all succeed and fill
      every byte, and one more push at either end fails and changes nothing. */
  lemma CapacityExact(ends: seq<End>, es: seq<seq<bv8>>, n: nat, cap: nat, e: seq<bv8>, end: End)
    requires 0 < n && cap % n == 0
    requires |ends| == |es| && Uniform(es, n) && |es| == cap / n
    requires |e| == n
    ensures PushAll([], ends, es, cap).0 == Ok
    ensures |PushAll([], ends, es, cap).1| == cap
    ensures Push(PushAll([], ends, es, cap).1, end, e, cap) == (Error, PushAll([], ends, es, cap).1)
  {
    FlattenLength(es, n);
    assert |es| * n == cap;
    PushAllFits([], ends, es, n, cap);
  }

  /** Fewer than `cap / n` pushes leave at least one whole element free, so the
      deque does not report full. */
  lemma NotFullBelowCapacity(ends: seq<End>, es: seq<seq<bv8>>, n: nat, cap: nat)
    requires 0 < n && cap % n == 0
    requires |ends| == |es| && Uniform(es, n) && |es| < cap / n
    ensures PushAll([], ends, es, cap).0 == Ok
    ensures |PushAll([], ends, es, cap).1| + n <= cap
  {
    FlattenLength(es, n);
    RoomForOneMore(|es|, n, cap);
    PushAllFits([], ends, es, n, cap);
  }

  /** Fewer than `cap / n` elements of `n` bytes leave room for one more when
      `n` divides `cap`. */
  lemma RoomForOneMore(m: nat, n: nat, cap: nat)
    requires 0 < n && cap % n == 0 && m < cap / n
    ensures m * n + n <= cap
  {
    var k := cap / n;
    assert cap == k * n;
    assert (k - (m + 1)) * n >= 0;
    assert k * n - (m * n + n) == (k - (m + 1)) * n;
  }

  /** One element pushed at either end of an empty deque and popped at either end
      comes back byte for byte, and the deque is empty again. */
  lemma RoundTrip(e: seq<bv8>, pushEnd: End, popEnd: End, cap: nat)
    requires |e| <= cap
    ensures Push([], pushEnd, e, cap) == (Ok, e)
    ensures Pop(e, popEnd, |e|) == (Ok, e, [])
  {
    assert [] + e == e + [] == e;
  }
}
