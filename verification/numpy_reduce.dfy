/** The two numpy reductions joke_api.py applies to the classifier's
    probabilities: `np.argmax` and `np.max`. Both raise on an empty array;
    here they require a non-empty sequence and the caller models the error. */
module NumPy {

  /** `j` holds a maximal value of `s`, and no earlier index does. */
  ghost predicate IsFirstMax(s: seq<real>, j: int) {
    && 0 <= j < |s|
    && (forall i :: 0 <= i < |s| ==> s[i] <= s[j])
    && (forall i :: 0 <= i < j ==> s[i] < s[j])
  }

  /** `np.argmax(s)`: the first index that holds the maximum. */
  function ArgMax(s: seq<real>): (j: nat)
    requires |s| >= 1
    ensures j < |s|
    ensures forall i :: 0 <= i < |s| ==> s[i] <= s[j]
    ensures forall i :: 0 <= i < j ==> s[i] < s[j]
    decreases |s|
  {
    if |s| == 1 then 0
    else
      var k := ArgMax(s[..|s| - 1]);
      if s[|s| - 1] > s[k] then |s| - 1 else k
  }

  /** `np.max(s)`: the largest value, one that `s` holds. */
  function Max(s: seq<real>): (m: real)
    requires |s| >= 1
    ensures forall i :: 0 <= i < |s| ==> s[i] <= m
    ensures m in s
    decreases |s|
  {
    if |s| == 1 then s[0]
    else
      var m := Max(s[1..]);
      if s[0] >= m then s[0] else m
  }

  /** The first-maximum property determines `argmax`: an index has it exactly
      when it is the index `argmax` returns. */
  lemma ArgMaxCharacterised(s: seq<real>, j: int)
    requires |s| >= 1
    ensures IsFirstMax(s, j) <==> j == ArgMax(s)
  {
    var a := ArgMax(s);
    if IsFirstMax(s, j) {
      assert s[a] <= s[j] && s[j] <= s[a];
      assert !(j < a) && !(a < j);
    }
  }

  /** The maximum `np.max` reports is the value at the index `np.argmax`
      selects. */
  lemma MaxAtArgMax(s: seq<real>)
    requires |s| >= 1
    ensures Max(s) == s[ArgMax(s)]
  {
    var m := Max(s);
    var j := ArgMax(s);
    var i :| 0 <= i < |s| && s[i] == m;
    assert s[i] <= s[j] && s[j] <= m;
  }
}
