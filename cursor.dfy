/** The frame cursor of the event loop. The loop keeps a counter i; a
    frame-timer tick wraps i to 0 when it equals the number of frames,
    copies it into curr (the frame that is then drawn), and increments it.
    A new animation resets i to 0. This module states one tick as a
    function and proves what successive ticks display. */
module Cursor {

  /** The outcome of one tick: the frame index copied into curr, and the
      counter the loop keeps afterwards. */
  datatype Tick = Tick(shown: nat, next: nat)

  /** One tick with counter i and n frames. */
  function Step(i: nat, n: nat): (t: Tick)
    ensures t.next == t.shown + 1
    ensures 0 < n && i <= n ==> t.shown < n && t.next <= n
    ensures 0 < n && i <= n ==> t.shown == i % n
    ensures n == 0 ==> t.next == i + 1
  {
    var k := if i == n then 0 else i;
    Tick(k, k + 1)
  }

  /** The frame indices displayed by k successive ticks from counter i. */
  function Shown(i: nat, n: nat, k: nat): (s: seq<nat>)
    ensures |s| == k
    decreases k
  {
    if k == 0 then [] else [Step(i, n).shown] + Shown(Step(i, n).next, n, k - 1)
  }

  /** The counter after k successive ticks from counter i. */
  function After(i: nat, n: nat, k: nat): nat
    decreases k
  {
    if k == 0 then i else After(Step(i, n).next, n, k - 1)
  }

  /** k + 1 ticks are k ticks followed by one more from where they left
      the counter. */
  lemma {:induction false} ShownSnoc(i: nat, n: nat, k: nat)
    ensures Shown(i, n, k + 1) == Shown(i, n, k) + [Step(After(i, n, k), n).shown]
    ensures After(i, n, k + 1) == Step(After(i, n, k), n).next
    decreases k
  {
    if k > 0 {
      ShownSnoc(Step(i, n).next, n, k - 1);
    }
  }

  /** (i % n + 1 + j) % n == (i + j + 1) % n, the step of the cycle proof. */
  lemma ModShift(i: nat, n: nat, j: nat)
    requires 0 < n
    ensures (i % n + 1 + j) % n == (i + 1 + j) % n
  {
    var q := i / n;
    assert i == q * n + i % n;
    assert i + 1 + j == (i % n + 1 + j) + q * n;
    ModAddMultiple(i % n + 1 + j, q, n);
  }

  lemma {:induction false} ModAddMultiple(a: nat, q: nat, n: nat)
    requires 0 < n
    ensures (a + q * n) % n == a % n
    decreases q
  {
    if q > 0 {
      var b := a + (q - 1) * n;
      ModAddMultiple(a, q - 1, n);
      assert a + q * n == b + n;
      ModPlus(b, n);
    }
  }

  lemma ModPlus(b: nat, n: nat)
    requires 0 < n
    ensures (b + n) % n == b % n
  {
    var q, r := b / n, b % n;
    assert b + n == (q + 1) * n + r;
    ModUnique(b + n, n, q + 1, r);
  }

  /** Euclidean division is unique. */
  lemma ModUnique(x: int, n: int, q: int, r: int)
    requires 0 < n && x == q * n + r && 0 <= r < n
    ensures x % n == r
  {
    var q', r' := x / n, x % n;
    assert (q - q') * n == r' - r;
    if q' < q {
      MulAtLeast(q - q', n);
    } else if q < q' {
      MulAtLeast(q' - q, n);
    }
  }

  lemma MulAtLeast(d: int, n: int)
    requires 1 <= d && 0 < n
    ensures d * n >= n
  {
  }

  /** With n >= 1 frames and a counter in 0..n, successive ticks display
      frames i, i+1, ... modulo n. */
  lemma {:induction false} ShownCycles(i: nat, n: nat, k: nat)
    requires 0 < n && i <= n
    ensures forall j :: 0 <= j < k ==> Shown(i, n, k)[j] == (i + j) % n
    decreases k
  {
    if k > 0 {
      var t := Step(i, n);
      ShownCycles(t.next, n, k - 1);
      forall j | 0 <= j < k
        ensures Shown(i, n, k)[j] == (i + j) % n
      {
        if j > 0 {
          assert Shown(i, n, k)[j] == Shown(t.next, n, k - 1)[j - 1];
          ModShift(i, n, j - 1);
        }
      }
    }
  }

  /** After an update (counter 0) the ticks display 0, 1, ..., n-1, 0, ...;
      in particular the very next tick displays frame 0. */
  lemma UpdateRestartsCycle(n: nat, k: nat)
    requires 0 < n
    ensures forall j :: 0 <= j < k ==> Shown(0, n, k)[j] == j % n
    ensures 0 < k ==> Shown(0, n, k)[0] == 0
  {
    ShownCycles(0, n, k);
  }

  /** The displayed sequence repeats with period n. */
  lemma Periodic(i: nat, n: nat, k: nat)
    requires 0 < n && i <= n
    ensures forall j :: 0 <= j && j + n < k ==> Shown(i, n, k)[j + n] == Shown(i, n, k)[j]
  {
    ShownCycles(i, n, k);
    forall j | 0 <= j && j + n < k
      ensures Shown(i, n, k)[j + n] == Shown(i, n, k)[j]
    {
      ModAddMultiple(i + j, 1, n);
    }
  }

  /** With n >= 1 frames the counter stays in 1..n once a tick has
      happened, and every displayed index is a valid frame. */
  lemma {:induction false} CounterBounded(i: nat, n: nat, k: nat)
    requires 0 < n && i <= n
    ensures After(i, n, k) <= n
    ensures 0 < k ==> 1 <= After(i, n, k)
    ensures forall j :: 0 <= j < k ==> Shown(i, n, k)[j] < n
    decreases k
  {
    if k > 0 {
      CounterBounded(Step(i, n).next, n, k - 1);
    }
  }

  /** With no frames the counter grows by one per tick and is never
      wrapped after the first. */
  lemma {:induction false} EmptyCounterGrows(i: nat, k: nat)
    ensures After(i, 0, k) == i + k
    decreases k
  {
    if k > 0 {
      EmptyCounterGrows(i + 1, k - 1);
    }
  }
}
