/** `escape_time`: iterate z := z * z + c from z = 0 and report the first
    iteration at which |z|^2 exceeds 4, or nothing within `limit` iterations.
    The renderers call it with limit 255. */
module Escape {
  import opened Plane
  import opened Wrappers

  /** The iteration limit both renderers pass. */
  const Limit: nat := 255

  /** z_0 = 0 and z_(k+1) = z_k * z_k + c. */
  function Orbit(c: Complex, k: nat): Complex {
    if k == 0 then Complex(0.0, 0.0) else SquarePlus(Orbit(c, k - 1), c)
  }

  /** The test the loop makes at iteration `k`: `z.norm_sqr() > 4.0`. */
  predicate Escaped(c: Complex, k: nat) {
    NormSqr(Orbit(c, k)) > 4.0
  }

  /** The first iteration below `n` that passes the escape test, if any. */
  function EscapeBefore(c: Complex, n: nat): (r: Option<nat>)
    ensures r.Some? ==> r.value < n
  {
    if n == 0 then None
    else
      var earlier := EscapeBefore(c, n - 1);
      if earlier.Some? then earlier
      else if Escaped(c, n - 1) then Some(n - 1)
      else None
  }

  /** What `EscapeBefore` finds: nothing when no iteration below `n`
      escapes, otherwise an escaping iteration with none escaping before it. */
  lemma {:induction false} EscapeBeforeCharacterised(c: Complex, n: nat)
    ensures var r := EscapeBefore(c, n);
      (r.None? ==> forall k :: 0 <= k < n ==> !Escaped(c, k)) &&
      (r.Some? ==> Escaped(c, r.value) && forall k :: 0 <= k < r.value ==> !Escaped(c, k))
  {
    if n > 0 {
      EscapeBeforeCharacterised(c, n - 1);
    }
  }

  /** An escaping iteration with none escaping before it is the one
      `EscapeBefore` finds, for every bound above it. */
  lemma {:induction false} EscapeBeforeIs(c: Complex, n: nat, i: nat)
    requires i < n && Escaped(c, i)
    requires forall k :: 0 <= k < i ==> !Escaped(c, k)
    ensures EscapeBefore(c, n) == Some(i)
  {
    if i == n - 1 {
      EscapeBeforeIsNone(c, n - 1);
    } else {
      EscapeBeforeIs(c, n - 1, i);
    }
  }

  /** With no escaping iteration below `n`, `EscapeBefore` finds none. */
  lemma {:induction false} EscapeBeforeIsNone(c: Complex, n: nat)
    requires forall k :: 0 <= k < n ==> !Escaped(c, k)
    ensures EscapeBefore(c, n) == None
  {
    if n > 0 {
      EscapeBeforeIsNone(c, n - 1);
    }
  }

  /** What `escape_time(c, limit)` returns: `None` when no iteration below
      `limit` escapes, otherwise the first one that does. `EscapeBefore` is
      the search over a growing prefix that the lemmas induct on; this is
      the name the renderers and the loop's contract use for the whole
      search up to the caller's limit. */
  function EscapeTimeOf(c: Complex, limit: nat): (r: Option<nat>)
    ensures r.Some? ==> r.value < limit
  {
    EscapeBefore(c, limit)
  }

  /** z_0 = 0 has norm 0, so the test at iteration 0 always fails. */
  lemma StartDoesNotEscape(c: Complex)
    ensures !Escaped(c, 0)
  {
    assert Orbit(c, 0) == Complex(0.0, 0.0);
  }

  /** An escaping iteration is not iteration 0. */
  lemma EscapingIsNotStart(c: Complex, i: nat)
    requires Escaped(c, i)
    ensures i != 0
  {
    StartDoesNotEscape(c);
  }

  /** Hence `escape_time` never returns `Some(0)`. */
  lemma EscapeTimeNotZero(c: Complex, limit: nat)
    ensures EscapeTimeOf(c, limit) != Some(0)
  {
    EscapeBeforeCharacterised(c, limit);
    var r := EscapeBefore(c, limit);
    if r.Some? {
      EscapingIsNotStart(c, r.value);
    }
  }

  /** The loop of `escape_time`. */
  method EscapeTime(c: Complex, limit: nat) returns (r: Option<nat>)
    ensures r == EscapeTimeOf(c, limit)
  {
    var z := Complex(0.0, 0.0);
    for i := 0 to limit
      invariant z == Orbit(c, i)
      invariant forall k :: 0 <= k < i ==> !Escaped(c, k)
    {
      if NormSqr(z) > 4.0 {
        EscapeBeforeIs(c, limit, i);
        return Some(i);
      }
      z := SquarePlus(z, c);
    }
    EscapeBeforeIsNone(c, limit);
    return None;
  }

  /** The orbit of the origin stays at the origin. */
  lemma {:induction false} OriginOrbitIsFixed(k: nat)
    ensures Orbit(Complex(0.0, 0.0), k) == Complex(0.0, 0.0)
  {
    if k > 0 {
      OriginOrbitIsFixed(k - 1);
    }
  }

  /** The origin lies in the set: it never escapes, whatever the limit. */
  lemma OriginNeverEscapes(limit: nat)
    ensures EscapeTimeOf(Complex(0.0, 0.0), limit) == None
  {
    forall k: nat | k < limit
      ensures !Escaped(Complex(0.0, 0.0), k)
    {
      OriginOrbitIsFixed(k);
    }
    EscapeBeforeIsNone(Complex(0.0, 0.0), limit);
  }

  /** 2 + 0i: |z_1|^2 = 4 is not above 4 (the test is strict), so the orbit
      escapes at iteration 2, where z_2 = 6. */
  lemma EscapeOfTwo(limit: nat)
    ensures EscapeTimeOf(Complex(2.0, 0.0), limit) == if limit <= 2 then None else Some(2)
  {
    var c := Complex(2.0, 0.0);
    assert Orbit(c, 0) == Complex(0.0, 0.0);
    assert Orbit(c, 1) == c;
    assert Orbit(c, 2) == SquarePlus(c, c);
    assert SquarePlus(c, c) == Complex(6.0, 0.0);
    assert !Escaped(c, 0) && !Escaped(c, 1);
    if limit > 2 {
      assert Escaped(c, 2);
      EscapeBeforeIs(c, limit, 2);
    } else {
      EscapeBeforeIsNone(c, limit);
    }
  }

  /** With the renderers' limit of 255 an escape count lies in [1, 254]: it
      fits a `u8` unchanged and is never 0. */
  lemma EscapeCountFitsByte(c: Complex)
    ensures var r := EscapeTimeOf(c, Limit); r.Some? ==> 1 <= r.value <= 254
  {
    EscapeTimeNotZero(c, Limit);
  }
}
