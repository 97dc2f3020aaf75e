/** The painter's undo history: a list of snapshots used as a stack whose
    length is capped, the oldest snapshot being dropped to make room. */
module History {

  /** Push onto a stack capped at `limit` entries: when it is full, the
      oldest entry (at index 0) is dropped first. */
  function PushBounded<T>(stack: seq<T>, x: T, limit: nat): (r: seq<T>)
    requires 0 < limit
    ensures 1 <= |r| && r[|r| - 1] == x
    ensures |stack| <= limit ==> |r| == if |stack| < limit then |stack| + 1 else limit
    ensures |r| - 1 <= |stack| && r[..|r| - 1] == stack[|stack| - (|r| - 1)..]
  {
    var kept := if |stack| >= limit then stack[1..] else stack;
    var r := kept + [x];
    assert r[..|r| - 1] == kept;
    assert kept == stack[|stack| - |kept|..];
    r
  }

  /** A push adds only the pushed entry: whatever a property every entry
      and the pushed one have, the new stack's entries have too. */
  lemma PushBoundedMembers<T>(stack: seq<T>, x: T, limit: nat)
    requires 0 < limit
    ensures forall e :: e in PushBounded(stack, x, limit) ==> e in stack || e == x
  {
    var kept := if |stack| >= limit then stack[1..] else stack;
    assert PushBounded(stack, x, limit) == kept + [x];
    assert forall e :: e in kept ==> e in stack;
  }

  /** The stack after pushing each of `xs` in turn. */
  function PushAll<T>(stack: seq<T>, xs: seq<T>, limit: nat): seq<T>
    requires 0 < limit
  {
    if |xs| == 0 then stack
    else PushBounded(PushAll(stack, xs[..|xs| - 1], limit), xs[|xs| - 1], limit)
  }

  /** The last `k` entries of a sequence. */
  function Newest<T>(s: seq<T>, k: nat): seq<T>
    requires k <= |s|
  {
    s[|s| - k..]
  }

  lemma NewestStep<T>(a: seq<T>, p: seq<T>, x: T, k: nat)
    requires |p| <= |a| && p == Newest(a, |p|) && k <= |p|
    ensures Newest(p, k) + [x] == Newest(a + [x], k + 1)
  {
    assert Newest(p, k) == Newest(a, k);
  }

  lemma SplitLast<T>(stack: seq<T>, xs: seq<T>)
    requires 0 < |xs|
    ensures stack + xs == (stack + xs[..|xs| - 1]) + [xs[|xs| - 1]]
  {
    assert xs == xs[..|xs| - 1] + [xs[|xs| - 1]];
  }

  lemma {:induction false} PushAllLength<T>(stack: seq<T>, xs: seq<T>, limit: nat)
    requires 0 < limit && |stack| <= limit
    ensures |PushAll(stack, xs, limit)| == if |stack| + |xs| < limit then |stack| + |xs| else limit
  {
    if |xs| > 0 {
      PushAllLength(stack, xs[..|xs| - 1], limit);
    }
  }

  /** However many snapshots are pushed, the stack never exceeds its cap and
      holds exactly the most recent ones: the newest of everything pushed,
      as many as the cap allows. */
  lemma {:induction false} PushAllKeepsNewest<T>(stack: seq<T>, xs: seq<T>, limit: nat)
    requires 0 < limit && |stack| <= limit
    ensures |PushAll(stack, xs, limit)| == if |stack| + |xs| < limit then |stack| + |xs| else limit
    ensures PushAll(stack, xs, limit) == Newest(stack + xs, |PushAll(stack, xs, limit)|)
  {
    PushAllLength(stack, xs, limit);
    if |xs| > 0 {
      var init, x := xs[..|xs| - 1], xs[|xs| - 1];
      PushAllKeepsNewest(stack, init, limit);
      var p := PushAll(stack, init, limit);
      var r := PushBounded(p, x, limit);
      assert r == r[..|r| - 1] + [x];
      assert r[..|r| - 1] == Newest(p, |r| - 1);
      SplitLast(stack, xs);
      NewestStep(stack + init, p, x, |r| - 1);
    }
  }

  /** Undo right after a push gives back the pushed entry, and the stack as
      it was, less its oldest entry if it had been full. */
  lemma PushThenPop<T>(stack: seq<T>, x: T, limit: nat)
    requires 0 < limit && |stack| <= limit
    ensures var r := PushBounded(stack, x, limit);
      r[|r| - 1] == x && r[..|r| - 1] == (if |stack| < limit then stack else stack[1..])
  {
  }
}
