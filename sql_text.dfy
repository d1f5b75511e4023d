/**
 * The text operators SQLite applies in the queries of the model: `LIKE`
 * with its default settings (`%` matches any run of characters, `_` any one
 * character, and letters compare without regard to case for ASCII only).
 */
module SqlText {
  import opened Common

  function LowerAscii(c: char): (r: char)
    ensures 'A' <= c <= 'Z' ==> r as int == c as int + 32
    ensures !('A' <= c <= 'Z') ==> r == c
  {
    if 'A' <= c <= 'Z' then (c as int + 32) as char else c
  }

  /** ASCII lower-casing of a whole string, the comparison key of `LIKE`. */
  function Fold(s: string): (r: string)
    ensures |r| == |s|
    ensures forall i :: 0 <= i < |s| ==> r[i] == LowerAscii(s[i])
  {
    if s == [] then [] else [LowerAscii(s[0])] + Fold(s[1..])
  }

  predicate IsWildcard(c: char) {
    c == '%' || c == '_'
  }

  /** `s LIKE p`. */
  predicate Like(s: string, p: string)
    decreases |s| + |p|
  {
    if p == [] then s == []
    else if p[0] == '%' then Like(s, p[1..]) || (s != [] && Like(s[1..], p))
    else s != [] && (p[0] == '_' || LowerAscii(s[0]) == LowerAscii(p[0])) && Like(s[1..], p[1..])
  }

  lemma {:induction false} PercentMatchesAll(s: string)
    ensures Like(s, "%")
  {
    assert "%"[1..] == [];
    if s != [] {
      PercentMatchesAll(s[1..]);
    }
  }

  lemma {:induction false} FoldPrefix(s: string, n: nat)
    requires n <= |s|
    ensures Fold(s)[..n] == Fold(s[..n])
  {
  }

  /** With no wildcard in `k`, `s LIKE k || '%'` holds iff `s` starts with `k`, ignoring ASCII case. */
  lemma {:induction false} LikePrefix(s: string, k: string)
    requires forall i :: 0 <= i < |k| ==> !IsWildcard(k[i])
    ensures Like(s, k + "%") <==> |k| <= |s| && Fold(s[..|k|]) == Fold(k)
  {
    if k == [] {
      assert k + "%" == "%";
      PercentMatchesAll(s);
    } else {
      var q := k + "%";
      assert q[0] == k[0] && q[1..] == k[1..] + "%";
      if s == [] {
      } else {
        LikePrefix(s[1..], k[1..]);
        if |k| <= |s| {
          assert s[..|k|] == [s[0]] + s[1..][..|k| - 1];
          assert Fold(s[..|k|]) == [LowerAscii(s[0])] + Fold(s[1..][..|k| - 1]);
          assert Fold(k) == [LowerAscii(k[0])] + Fold(k[1..]);
        }
      }
    }
  }

  /**
   * The pattern `'%' || k || '%'` of a keyword search with no wildcard in `k`
   * matches exactly the strings that contain `k` as a substring, ignoring
   * ASCII case.
   */
  lemma {:induction false} LikeContains(s: string, k: string)
    requires forall i :: 0 <= i < |k| ==> !IsWildcard(k[i])
    ensures Like(s, "%" + k + "%") <==> Contains(Fold(s), Fold(k))
  {
    var p := "%" + k + "%";
    assert p[0] == '%' && p[1..] == k + "%";
    LikePrefix(s, k);
    if |k| <= |s| {
      FoldPrefix(s, |k|);
    }
    if s != [] {
      LikeContains(s[1..], k);
      assert Fold(s)[1..] == Fold(s[1..]);
    }
  }
}
