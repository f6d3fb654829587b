/** Counting facts about sequences of naturals. */
module Pigeonhole {
  ghost predicate Distinct<T>(s: seq<T>) {
    forall i, j :: 0 <= i < j < |s| ==> s[i] != s[j]
  }

  lemma {:induction false} DistinctBelow(s: seq<nat>, m: nat)
    requires Distinct(s) && forall i :: 0 <= i < |s| ==> s[i] < m
    ensures |s| <= m
    decreases m
  {
    if m == 0 {
    } else if m - 1 in s {
      var k :| 0 <= k < |s| && s[k] == m - 1;
      var t := s[..k] + s[k + 1..];
      forall i | 0 <= i < |t| ensures t[i] < m - 1 {
        assert t[i] == s[if i < k then i else i + 1];
      }
      DistinctBelow(t, m - 1);
    } else {
      forall i | 0 <= i < |s| ensures s[i] < m - 1 {
        assert s[i] in s;
      }
      DistinctBelow(s, m - 1);
    }
  }

  lemma {:induction false} IncreasingBetween(s: seq<int>, lo: int, hi: int)
    requires forall i, j :: 0 <= i < j < |s| ==> s[i] < s[j]
    requires forall i :: 0 <= i < |s| ==> lo <= s[i] <= hi
    ensures |s| == 0 || |s| <= hi - lo + 1
  {
    if |s| > 0 {
      assert lo <= s[0] <= hi;
      var t := s[1..];
      forall i | 0 <= i < |t| ensures lo + 1 <= t[i] <= hi {
        assert t[i] == s[i + 1] && s[0] < s[i + 1];
      }
      IncreasingBetween(t, lo + 1, hi);
    }
  }
}
