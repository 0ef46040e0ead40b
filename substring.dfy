/**
 * The substring test that JavaScript's `String.prototype.includes` performs:
 * does `needle` occur somewhere inside `haystack`? The empty needle occurs
 * in every haystack, the empty one included.
 */
module Substring {

  /** Searches `haystack` from the front: `needle` is a prefix here, or occurs further on. */
  predicate Contains(haystack: string, needle: string)
    ensures needle == [] ==> Contains(haystack, needle)
    ensures needle <= haystack ==> Contains(haystack, needle)
    ensures Contains(haystack, needle) ==> |needle| <= |haystack|
    decreases |haystack|
  {
    needle <= haystack || (haystack != [] && Contains(haystack[1..], needle))
  }

  /** Reference definition: `needle` occupies the positions `k .. k + |needle|` of `haystack`. */
  ghost predicate OccursAt(haystack: string, needle: string, k: int) {
    0 <= k && k + |needle| <= |haystack| && haystack[k..k + |needle|] == needle
  }

  /** The search finds `needle` exactly when it occurs at some position. */
  lemma {:induction false} ContainsIffOccurs(haystack: string, needle: string)
    ensures Contains(haystack, needle) <==> exists k :: OccursAt(haystack, needle, k)
    decreases |haystack|
  {
    if Contains(haystack, needle) {
      if needle <= haystack {
        assert OccursAt(haystack, needle, 0);
      } else {
        ContainsIffOccurs(haystack[1..], needle);
        var k :| OccursAt(haystack[1..], needle, k);
        assert haystack[1..][k..k + |needle|] == haystack[k + 1..k + 1 + |needle|];
        assert OccursAt(haystack, needle, k + 1);
      }
    }
    if exists k :: OccursAt(haystack, needle, k) {
      var k :| OccursAt(haystack, needle, k);
      if k == 0 {
        assert needle <= haystack;
      } else {
        assert haystack[1..][k - 1..k - 1 + |needle|] == haystack[k..k + |needle|];
        assert OccursAt(haystack[1..], needle, k - 1);
        ContainsIffOccurs(haystack[1..], needle);
      }
    }
  }

  /** Every string contains the empty string. */
  lemma ContainsEmpty(haystack: string)
    ensures Contains(haystack, [])
  {
  }

  /** A string contained in something `haystack` contains is contained in `haystack` too. */
  lemma ContainsTransitive(haystack: string, middle: string, needle: string)
    requires Contains(haystack, middle) && Contains(middle, needle)
    ensures Contains(haystack, needle)
  {
    ContainsIffOccurs(haystack, middle);
    ContainsIffOccurs(middle, needle);
    var k :| OccursAt(haystack, middle, k);
    var j :| OccursAt(middle, needle, j);
    assert middle == haystack[k..k + |middle|];
    forall i | 0 <= i < |needle|
      ensures haystack[k + j..k + j + |needle|][i] == needle[i]
    {
      assert needle[i] == middle[j + i] == haystack[k + j + i];
    }
    assert OccursAt(haystack, needle, k + j);
    ContainsIffOccurs(haystack, needle);
  }

  /** In particular, a string that contains `needle` contains every prefix of it. */
  lemma ContainsPrefix(haystack: string, needle: string, prefix: string)
    requires Contains(haystack, needle) && prefix <= needle
    ensures Contains(haystack, prefix)
  {
    assert Contains(needle, prefix);
    ContainsTransitive(haystack, needle, prefix);
  }
}
