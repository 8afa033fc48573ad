/**
  String operations the plugin relies on: `str.lower()`, the `in` operator
  on strings and `str.strip()`. Characters are Dafny `char`s; lower-casing
  is modelled on ASCII letters only.
 */
module Text {

  /** Python's `c.lower()` restricted to ASCII: 'A'..'Z' map to 'a'..'z'. */
  function LowerChar(c: char): (d: char)
    ensures 'A' <= c <= 'Z' ==> d as int == c as int + 32
    ensures !('A' <= c <= 'Z') ==> d == c
    ensures !('A' <= d <= 'Z')
  {
    if 'A' <= c <= 'Z' then (c as int + 32) as char else c
  }

  /** `s.lower()`: every character lower-cased, length unchanged. */
  function Lower(s: string): (r: string)
    ensures |r| == |s|
    ensures forall i :: 0 <= i < |s| ==> r[i] == LowerChar(s[i])
  {
    if s == [] then [] else [LowerChar(s[0])] + Lower(s[1..])
  }

  /** Lower-casing twice is the same as lower-casing once. */
  lemma LowerIdempotent(s: string)
    ensures Lower(Lower(s)) == Lower(s)
  {
    var l := Lower(s);
    forall i | 0 <= i < |s|
      ensures Lower(l)[i] == l[i]
    {
      assert !('A' <= l[i] <= 'Z');
    }
  }

  /** A string without upper-case ASCII letters is its own lower-case form. */
  lemma LowerNoUpper(s: string)
    requires forall i :: 0 <= i < |s| ==> !('A' <= s[i] <= 'Z')
    ensures Lower(s) == s
  {
  }

  predicate StartsWith(p: string, s: string)
  {
    |p| <= |s| && s[..|p|] == p
  }

  /** Python's `q in s` on strings, scanning `s` from the left. */
  predicate Contains(q: string, s: string)
    decreases |s|
  {
    StartsWith(q, s) || (|s| > 0 && Contains(q, s[1..]))
  }

  /** `q` sits in `s` starting at index `i`. */
  ghost predicate OccursAt(q: string, s: string, i: int)
  {
    0 <= i && i + |q| <= |s| && s[i..i + |q|] == q
  }

  /** Reference definition of substring containment. */
  ghost predicate Occurs(q: string, s: string)
  {
    exists i :: OccursAt(q, s, i)
  }

  /** The left-to-right scan agrees with the reference definition. */
  lemma {:induction false} ContainsIffOccurs(q: string, s: string)
    ensures Contains(q, s) <==> Occurs(q, s)
    decreases |s|
  {
    if StartsWith(q, s) {
      assert OccursAt(q, s, 0);
    } else if |s| > 0 {
      ContainsIffOccurs(q, s[1..]);
      if Contains(q, s[1..]) {
        var i :| OccursAt(q, s[1..], i);
        OccursShift(q, s, i);
      }
      if Occurs(q, s) {
        var i :| OccursAt(q, s, i);
        assert i != 0;
        OccursShift(q, s, i - 1);
      }
    }
  }

  /** An occurrence in the tail is an occurrence one further along. */
  lemma OccursShift(q: string, s: string, i: nat)
    requires |s| > 0
    ensures OccursAt(q, s[1..], i) <==> OccursAt(q, s, i + 1)
  {
    if i + |q| <= |s| - 1 {
      var tail := s[1..];
      forall t | 1 <= t < |s|
        ensures tail[t - 1] == s[t]
      {
      }
      assert tail[i..i + |q|] == s[i + 1..i + 1 + |q|];
    }
  }

  /** Lower-casing commutes with slicing. */
  lemma LowerSlice(s: string, a: nat, b: nat)
    requires a <= b <= |s|
    ensures Lower(s)[a..b] == Lower(s[a..b])
  {
    var whole := Lower(s);
    var part := Lower(s[a..b]);
    forall t | 0 <= t < b - a
      ensures whole[a + t] == part[t]
    {
      assert part[t] == LowerChar(s[a..b][t]);
      assert whole[a + t] == LowerChar(s[a + t]);
    }
    assert whole[a..b] == part;
  }

  /** A substring of a substring is a substring. */
  lemma OccursTransitive(p: string, q: string, s: string)
    requires Occurs(p, q) && Occurs(q, s)
    ensures Occurs(p, s)
  {
    var m :| OccursAt(p, q, m);
    var k :| OccursAt(q, s, k);
    forall t | 0 <= t < |p|
      ensures s[k + m + t] == p[t]
    {
      assert p[t] == q[m + t];
      assert q[m + t] == s[k + m + t];
    }
    assert OccursAt(p, s, k + m);
  }

  /** A string is never in a shorter one. */
  lemma {:induction false} LongerNotContained(q: string, s: string)
    requires |q| > |s|
    ensures !Contains(q, s)
    decreases |s|
  {
    if |s| > 0 {
      LongerNotContained(q, s[1..]);
    }
  }

  /**
    The characters `str.isspace()` accepts: ASCII tab..carriage return,
    the four ASCII separators, space, and the Unicode spaces and line
    separators.
   */
  predicate IsSpace(c: char)
  {
    || ('\t' <= c <= '\r')
    || ('\U{1C}' <= c <= '\U{1F}')
    || c == ' '
    || c == '\U{85}'
    || c == '\U{A0}'
    || c == '\U{1680}'
    || ('\U{2000}' <= c <= '\U{200A}')
    || c == '\U{2028}'
    || c == '\U{2029}'
    || c == '\U{202F}'
    || c == '\U{205F}'
    || c == '\U{3000}'
  }

  /** Drops leading whitespace. */
  function TrimStart(s: string): (r: string)
    ensures |r| <= |s| && r == s[|s| - |r|..]
    ensures forall i :: 0 <= i < |s| - |r| ==> IsSpace(s[i])
    ensures r != [] ==> !IsSpace(r[0])
  {
    if s != [] && IsSpace(s[0]) then TrimStart(s[1..]) else s
  }

  /** Drops trailing whitespace. */
  function TrimEnd(s: string): (r: string)
    ensures |r| <= |s| && r == s[..|r|]
    ensures forall i :: |r| <= i < |s| ==> IsSpace(s[i])
    ensures r != [] ==> !IsSpace(r[|r| - 1])
  {
    if s != [] && IsSpace(s[|s| - 1]) then TrimEnd(s[..|s| - 1]) else s
  }

  /** `r` is the slice of `s` at `a` with only whitespace around it. */
  ghost predicate FramedAt(r: string, s: string, a: int)
  {
    && 0 <= a && a + |r| <= |s| && s[a..a + |r|] == r
    && (forall i :: 0 <= i < a ==> IsSpace(s[i]))
    && (forall i :: a + |r| <= i < |s| ==> IsSpace(s[i]))
  }

  /** A prefix of a suffix, with whitespace before and after, is a framed slice. */
  lemma FramedFromParts(s: string, t: string, r: string, a: nat)
    requires a <= |s| && t == s[a..]
    requires |r| <= |t| && r == t[..|r|]
    requires forall i :: 0 <= i < a ==> IsSpace(s[i])
    requires forall j :: |r| <= j < |t| ==> IsSpace(t[j])
    ensures FramedAt(r, s, a)
  {
    forall i | a + |r| <= i < |s|
      ensures IsSpace(s[i])
    {
      assert s[i] == t[i - a];
    }
    assert s[a..a + |r|] == t[..|r|];
  }

  /** Trimming both ends leaves a whitespace-framed slice of the input. */
  lemma TrimFramed(s: string)
    ensures FramedAt(TrimEnd(TrimStart(s)), s, |s| - |TrimStart(s)|)
  {
    var t := TrimStart(s);
    FramedFromParts(s, t, TrimEnd(t), |s| - |t|);
  }

  /** `str.strip()`. */
  function Strip(s: string): (r: string)
    ensures exists a :: FramedAt(r, s, a)
    ensures r != [] ==> !IsSpace(r[0]) && !IsSpace(r[|r| - 1])
  {
    TrimFramed(s);
    TrimEnd(TrimStart(s))
  }

  /** Stripping a stripped string changes nothing. */
  lemma StripIdempotent(s: string)
    ensures Strip(Strip(s)) == Strip(s)
  {
    var r := Strip(s);
    assert TrimStart(r) == r;
    assert TrimEnd(r) == r;
  }

  /** The strip of an all-whitespace string (including "") is empty. */
  lemma StripAllSpace(s: string)
    requires forall i :: 0 <= i < |s| ==> IsSpace(s[i])
    ensures Strip(s) == []
  {
  }
}
