/** Substring containment, the `p in s` test of Python strings. */
module Text {

  /** `p` sits in `s` as a contiguous block starting at offset `k`. */
  ghost predicate OccursAt(p: string, s: string, k: int)
  {
    0 <= k && k + |p| <= |s| && s[k..k + |p|] == p
  }

  /** Python's `p in s`: plain, case-sensitive substring containment.
      The empty string is contained in every string. */
  function Contains(s: string, p: string): (b: bool)
    ensures b <==> exists k :: OccursAt(p, s, k)
    decreases |s|
  {
    if |p| > |s| then false
    else if s[..|p|] == p then (assert OccursAt(p, s, 0); true)
    else
      var rest := Contains(s[1..], p);
      assert rest ==> exists k :: OccursAt(p, s, k) by {
        if rest {
          var k :| OccursAt(p, s[1..], k);
          assert s[k + 1..k + 1 + |p|] == s[1..][k..k + |p|];
          assert OccursAt(p, s, k + 1);
        }
      }
      assert (exists k :: OccursAt(p, s, k)) ==> rest by {
        if k :| OccursAt(p, s, k) {
          assert k != 0;
          assert s[1..][k - 1..k - 1 + |p|] == s[k..k + |p|];
          assert OccursAt(p, s[1..], k - 1);
        }
      }
      rest
  }

  /** A contained string is never longer than the string containing it. */
  lemma ContainsShorter(s: string, p: string)
    requires Contains(s, p)
    ensures |p| <= |s|
  {
    var k :| OccursAt(p, s, k);
  }

  /** A string is contained in any string that extends it on either side. */
  lemma ContainsInfix(a: string, p: string, b: string)
    ensures Contains(a + p + b, p)
  {
    var s := a + p + b;
    assert s[|a|..|a| + |p|] == p;
    assert OccursAt(p, s, |a|);
  }

  /** A string holding a letter that `s` lacks does not occur in `s`. */
  lemma MissingLetter(s: string, p: string, c: char)
    requires c in p && c !in s
    ensures !Contains(s, p)
  {
    var i :| 0 <= i < |p| && p[i] == c;
    forall k
      ensures !OccursAt(p, s, k)
    {
      if 0 <= k && k + |p| <= |s| {
        assert s[k..k + |p|][i] == s[k + i] != c;
      }
    }
  }

  /** `p` is a prefix of `s`, decided character by character. */
  function StartsWith(s: string, p: string): (b: bool)
    ensures b <==> p <= s
    decreases |p|
  {
    if p == [] then true
    else if s == [] then false
    else
      assert p <= s <==> p[0] == s[0] && p[1..] <= s[1..] by {
        if p[0] == s[0] && p[1..] <= s[1..] {
          assert forall m :: 1 <= m < |p| ==> p[m] == p[1..][m - 1] == s[1..][m - 1] == s[m];
        }
      }
      p[0] == s[0] && StartsWith(s[1..], p[1..])
  }

  /** `s.endswith(q)`, decided character by character from the end. */
  function EndsWith(s: string, q: string): bool
  {
    |q| <= |s| && SameFromEnd(s, q, 0)
  }

  /** The character `m` places before the end of `s`. */
  function FromEnd(s: string, m: nat): char
    requires m < |s|
  {
    s[|s| - 1 - m]
  }

  /** `s` and `q` agree from the `k`-th character before their ends to the start of `q`. */
  function SameFromEnd(s: string, q: string, k: nat): bool
    requires k <= |q| <= |s|
    decreases |q| - k
  {
    k == |q| || (FromEnd(s, k) == FromEnd(q, k) && SameFromEnd(s, q, k + 1))
  }

  lemma {:induction false} SameFromEndMeans(s: string, q: string, k: nat)
    requires k <= |q| <= |s|
    ensures SameFromEnd(s, q, k) <==> forall m :: k <= m < |q| ==> FromEnd(s, m) == FromEnd(q, m)
    decreases |q| - k
  {
    if k < |q| {
      SameFromEndMeans(s, q, k + 1);
    }
  }

  /** `EndsWith` holds exactly when `q` is the last `|q|` characters of `s`. */
  lemma EndsWithMeans(s: string, q: string)
    ensures EndsWith(s, q) <==> |q| <= |s| && s[|s| - |q|..] == q
  {
    if |q| <= |s| {
      SameFromEndMeans(s, q, 0);
      if s[|s| - |q|..] == q {
        forall m | 0 <= m < |q| ensures FromEnd(s, m) == FromEnd(q, m) {
          assert s[|s| - |q|..][|q| - 1 - m] == s[|s| - 1 - m];
        }
      }
      if SameFromEnd(s, q, 0) {
        forall i | 0 <= i < |q| ensures s[|s| - |q|..][i] == q[i] {
          var m := |q| - 1 - i;
          assert FromEnd(s, m) == FromEnd(q, m);
        }
      }
    }
  }

  /** A string ends with whatever is appended last. */
  lemma JoinEnds(a: string, q: string)
    ensures EndsWith(a + q, q)
  {
    EndsWithMeans(a + q, q);
    assert (a + q)[|a|..] == q;
  }

  /** Every string ends with itself. */
  lemma EndsItself(s: string)
    ensures EndsWith(s, s)
  {
    EndsWithMeans(s, s);
  }

  /** Two endings of one string: the shorter ends the longer. */
  lemma TwoEnds(p: string, s: string, t: string)
    requires EndsWith(p, s) && EndsWith(p, t) && |s| <= |t|
    ensures EndsWith(t, s)
  {
    EndsWithMeans(p, s);
    EndsWithMeans(p, t);
    EndsWithMeans(t, s);
    assert t[|t| - |s|..] == p[|p| - |s|..];
  }

  /** Joins of one separator that agree, with endings that are equal or end neither
      the other, agree part by part. */
  lemma JoinsEqual(a: string, b: string, sep: string, s: string, t: string)
    requires a + sep + s == b + sep + t
    requires s != t ==> !EndsWith(s, t) && !EndsWith(t, s)
    ensures a == b && s == t
  {
    var p := a + sep + s;
    JoinEnds(a + sep, s);
    JoinEnds(b + sep, t);
    if |s| <= |t| {
      TwoEnds(p, s, t);
    } else {
      TwoEnds(p, t, s);
    }
    assert a + sep == p[..|p| - |s|] == b + sep;
    assert a == (a + sep)[..|a|] && b == (b + sep)[..|b|];
  }
}
