/** The two reductions numpy applies along one axis of the distance matrix:
    `np.min` and `np.max` of a non-empty sequence of reals. Values are
    mathematical reals under their total order, so there is no NaN. */
module SeqOrder {

  /** The smallest element of a non-empty sequence. */
  function Min(s: seq<real>): (m: real)
    requires |s| > 0
    ensures m in s
    ensures forall k :: 0 <= k < |s| ==> m <= s[k]
  {
    if |s| == 1 then s[0]
    else
      var rest := Min(s[1..]);
      assert forall k :: 1 <= k < |s| ==> s[k] == s[1..][k - 1];
      if s[0] <= rest then s[0] else rest
  }

  /** The largest element of a non-empty sequence. */
  function Max(s: seq<real>): (m: real)
    requires |s| > 0
    ensures m in s
    ensures forall k :: 0 <= k < |s| ==> s[k] <= m
  {
    if |s| == 1 then s[0]
    else
      var rest := Max(s[1..]);
      assert forall k :: 1 <= k < |s| ==> s[k] == s[1..][k - 1];
      if rest <= s[0] then s[0] else rest
  }

  /** Some element of `s` is at most `x`. */
  ghost predicate SomeAtMost(s: seq<real>, x: real) {
    exists k :: 0 <= k < |s| && s[k] <= x
  }

  /** Every element of `s` is at least `x`. */
  ghost predicate AllAtLeast(s: seq<real>, x: real) {
    forall k :: 0 <= k < |s| ==> x <= s[k]
  }

  /** Some element is at most `x` exactly when the minimum is, and every
      element is at least `x` exactly when the minimum is. */
  lemma MinCharacterized(s: seq<real>, x: real)
    requires |s| > 0
    ensures SomeAtMost(s, x) <==> Min(s) <= x
    ensures AllAtLeast(s, x) <==> x <= Min(s)
  {
    var m := Min(s);
    var k :| 0 <= k < |s| && s[k] == m;
    if Min(s) <= x {
      assert s[k] <= x;
    }
  }

  /** An element no larger than any other is the minimum. */
  lemma MinIsLeastElement(s: seq<real>, k: nat)
    requires k < |s|
    requires forall i :: 0 <= i < |s| ==> s[k] <= s[i]
    ensures Min(s) == s[k]
  {
    var i :| 0 <= i < |s| && s[i] == Min(s);
    assert s[k] <= s[i];
  }

  /** An element no smaller than any other is the maximum. */
  lemma MaxIsGreatestElement(s: seq<real>, k: nat)
    requires k < |s|
    requires forall i :: 0 <= i < |s| ==> s[i] <= s[k]
    ensures Max(s) == s[k]
  {
    var i :| 0 <= i < |s| && s[i] == Max(s);
    assert s[i] <= s[k];
  }

  /** Raising elements pointwise cannot lower the minimum. */
  lemma MinMonotone(s: seq<real>, t: seq<real>)
    requires |s| == |t| > 0
    requires forall k :: 0 <= k < |s| ==> s[k] <= t[k]
    ensures Min(s) <= Min(t)
  {
    var k :| 0 <= k < |t| && t[k] == Min(t);
    assert Min(s) <= s[k];
  }

  /** Raising elements pointwise cannot lower the maximum. */
  lemma MaxMonotone(s: seq<real>, t: seq<real>)
    requires |s| == |t| > 0
    requires forall k :: 0 <= k < |s| ==> s[k] <= t[k]
    ensures Max(s) <= Max(t)
  {
    var k :| 0 <= k < |s| && s[k] == Max(s);
    assert t[k] <= Max(t);
  }
}
