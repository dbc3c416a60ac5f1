/** Sequences of boolean "active" markers, one per element of a group of
    page elements (filter buttons, FAQ items). */
module Flags {

  /** Number of elements that carry the marker. */
  function CountTrue(s: seq<bool>): (n: nat)
    ensures n <= |s|
  {
    if s == [] then 0 else (if s[0] then 1 else 0) + CountTrue(s[1..])
  }

  /** No two distinct positions carry the marker. */
  predicate AtMostOne(s: seq<bool>) {
    forall x, y :: 0 <= x < |s| && 0 <= y < |s| && s[x] && s[y] ==> x == y
  }

  /** Position `k`, and only position `k`, carries the marker. */
  predicate OnlyAt(s: seq<bool>, k: int) {
    0 <= k < |s| && forall j :: 0 <= j < |s| ==> (s[j] <==> j == k)
  }

  predicate NoneTrue(s: seq<bool>) {
    forall j :: 0 <= j < |s| ==> !s[j]
  }

  lemma {:induction false} CountZeroIff(s: seq<bool>)
    ensures CountTrue(s) == 0 <==> NoneTrue(s)
  {
    if s != [] {
      CountZeroIff(s[1..]);
      assert forall j :: 0 < j < |s| ==> s[j] == s[1..][j - 1];
    }
  }

  /** The pairwise formulation of "at most one" agrees with the count. */
  lemma {:induction false} AtMostOneIffCount(s: seq<bool>)
    ensures AtMostOne(s) <==> CountTrue(s) <= 1
  {
    if s != [] {
      var t := s[1..];
      AtMostOneIffCount(t);
      CountZeroIff(t);
      assert forall j :: 0 < j < |s| ==> s[j] == t[j - 1];
      if AtMostOne(s) {
        assert AtMostOne(t) by {
          forall x, y | 0 <= x < |t| && 0 <= y < |t| && t[x] && t[y]
            ensures x == y
          {
            assert s[x + 1] && s[y + 1];
          }
        }
        if s[0] {
          forall j | 0 <= j < |t|
            ensures !t[j]
          {
            assert s[j + 1] == t[j];
          }
        }
      } else {
        var x, y :| 0 <= x < |s| && 0 <= y < |s| && s[x] && s[y] && x != y;
        if x != 0 && y != 0 {
          assert t[x - 1] && t[y - 1];
        } else if x == 0 {
          assert t[y - 1];
        } else {
          assert t[x - 1];
        }
      }
    }
  }

  /** A group marked at exactly one position has a count of one. */
  lemma OnlyAtCountsOne(s: seq<bool>, k: int)
    requires OnlyAt(s, k)
    ensures CountTrue(s) == 1
  {
    AtMostOneIffCount(s);
    CountZeroIff(s);
    assert s[k];
  }
}
