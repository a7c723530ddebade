/**
 * The two functions of Go's `strings` package that main.go relies on:
 * `strings.TrimSpace` (with `unicode.IsSpace`) and `strings.EqualFold`
 * (modelled with ASCII case folding only).
 */
module Text {

  /** Go's `unicode.IsSpace`: the Latin-1 spaces plus the Unicode White_Space property. */
  predicate IsSpace(c: char): (r: bool)
    ensures r ==> !('!' <= c <= '~')
  {
    || c == '\t' || c == '\n' || c == '\U{0B}' || c == '\U{0C}' || c == '\r' || c == ' '
    || c == '\U{85}' || c == '\U{A0}' || c == '\U{1680}'
    || ('\U{2000}' <= c <= '\U{200A}')
    || c == '\U{2028}' || c == '\U{2029}' || c == '\U{202F}' || c == '\U{205F}' || c == '\U{3000}'
  }

  ghost predicate AllSpace(s: string) {
    forall k :: 0 <= k < |s| ==> IsSpace(s[k])
  }

  /** Drops the leading white space. */
  function TrimLeadingSpace(s: string): string {
    if s != [] && IsSpace(s[0]) then TrimLeadingSpace(s[1..]) else s
  }

  /** The result is the suffix of `s` that starts at its first non-space. */
  lemma {:induction false} TrimLeadingSpaceSpec(s: string)
    ensures var t := TrimLeadingSpace(s);
      && |t| <= |s| && t == s[|s| - |t|..]
      && AllSpace(s[..|s| - |t|])
      && (t == [] || !IsSpace(t[0]))
  {
    if s != [] && IsSpace(s[0]) {
      TrimLeadingSpaceSpec(s[1..]);
      var t := TrimLeadingSpace(s);
      assert s[1..][..|s| - 1 - |t|] == s[..|s| - |t|][1..];
    }
  }

  /** Drops the trailing white space. */
  function TrimTrailingSpace(s: string): string {
    if s != [] && IsSpace(s[|s| - 1]) then TrimTrailingSpace(s[..|s| - 1]) else s
  }

  /** The result is the prefix of `s` that ends at its last non-space. */
  lemma {:induction false} TrimTrailingSpaceSpec(s: string)
    ensures var t := TrimTrailingSpace(s);
      && |t| <= |s| && t == s[..|t|]
      && AllSpace(s[|t|..])
      && (t == [] || !IsSpace(t[|t| - 1]))
  {
    if s != [] && IsSpace(s[|s| - 1]) {
      TrimTrailingSpaceSpec(s[..|s| - 1]);
      var t := TrimTrailingSpace(s);
      assert s[..|s| - 1][|t|..] == s[|t|..][..|s| - 1 - |t|];
    }
  }

  /** Whether `t` is `s` with its leading and trailing white space cut off, stated without computing it. */
  ghost predicate IsTrimOf(t: string, s: string) {
    && (t == [] || (!IsSpace(t[0]) && !IsSpace(t[|t| - 1])))
    && exists i :: 0 <= i <= |s| - |t| && t == s[i..i + |t|] && AllSpace(s[..i]) && AllSpace(s[i + |t|..])
  }

  /** Go's `strings.TrimSpace`. */
  function TrimSpace(s: string): (t: string)
    ensures |t| <= |s|
    ensures t == [] || (!IsSpace(t[0]) && !IsSpace(t[|t| - 1]))
  {
    var l := TrimLeadingSpace(s);
    TrimLeadingSpaceSpec(s);
    TrimTrailingSpaceSpec(l);
    var t := TrimTrailingSpace(l);
    assert t != [] ==> t[0] == l[0];
    t
  }

  /** `TrimSpace` cuts off exactly the leading and trailing white space. */
  lemma TrimSpaceIsTrim(s: string)
    ensures IsTrimOf(TrimSpace(s), s)
  {
    var l := TrimLeadingSpace(s);
    var t := TrimTrailingSpace(l);
    TrimLeadingSpaceSpec(s);
    TrimTrailingSpaceSpec(l);
    var i := |s| - |l|;
    assert t == s[i..i + |t|] by {
      assert s[i..][..|t|] == s[i..i + |t|];
    }
    assert AllSpace(s[i + |t|..]) by {
      assert s[i + |t|..] == l[|t|..];
    }
  }

  /** Where the first non-space of `s` is known, `TrimLeadingSpace` cuts exactly there. */
  lemma {:induction false} TrimLeadingAt(s: string, i: nat)
    requires i <= |s| && AllSpace(s[..i]) && (i == |s| || !IsSpace(s[i]))
    ensures TrimLeadingSpace(s) == s[i..]
  {
    if i > 0 {
      assert s[..i][0] == s[0];
      assert s[1..][..i - 1] == s[..i][1..];
      TrimLeadingAt(s[1..], i - 1);
      assert s[1..][i - 1..] == s[i..];
    }
  }

  /** Where the last non-space of `s` is known, `TrimTrailingSpace` cuts exactly there. */
  lemma {:induction false} TrimTrailingAt(s: string, j: nat)
    requires j <= |s| && AllSpace(s[j..]) && (j == 0 || !IsSpace(s[j - 1]))
    ensures TrimTrailingSpace(s) == s[..j]
  {
    if j < |s| {
      assert s[j..][|s| - 1 - j] == s[|s| - 1];
      var p := s[..|s| - 1];
      assert p[j..] == s[j..][..|s| - 1 - j];
      TrimTrailingAt(p, j);
      assert p[..j] == s[..j];
    }
  }

  /** A string made only of white space trims to the empty string. */
  lemma TrimAllSpace(s: string)
    requires AllSpace(s)
    ensures TrimSpace(s) == []
  {
    assert s[..|s|] == s;
    TrimLeadingAt(s, |s|);
  }

  /** Cutting a non-empty `s[i..j]` that starts and ends with non-space out of white space is trimming. */
  lemma TrimSpaceAt(s: string, i: nat, j: nat)
    requires i < j <= |s| && AllSpace(s[..i]) && AllSpace(s[j..])
    requires !IsSpace(s[i]) && !IsSpace(s[j - 1])
    ensures TrimSpace(s) == s[i..j]
  {
    TrimLeadingAt(s, i);
    var l := s[i..];
    assert l[j - i..] == s[j..];
    assert l[j - i - 1] == s[j - 1];
    TrimTrailingAt(l, j - i);
    assert l[..j - i] == s[i..j];
  }

  /** `IsTrimOf` pins the trimmed string down: `TrimSpace` is the only string it admits. */
  lemma TrimSpaceUnique(s: string, t: string)
    requires IsTrimOf(t, s)
    ensures TrimSpace(s) == t
  {
    var i :| 0 <= i <= |s| - |t| && t == s[i..i + |t|] && AllSpace(s[..i]) && AllSpace(s[i + |t|..]);
    if t == [] {
      assert AllSpace(s) by {
        forall k | 0 <= k < |s| ensures IsSpace(s[k]) {
          if k < i { assert s[..i][k] == s[k]; } else { assert s[i..][k - i] == s[k]; }
        }
      }
      TrimAllSpace(s);
    } else {
      assert s[i] == t[0] && s[i + |t| - 1] == t[|t| - 1];
      TrimSpaceAt(s, i, i + |t|);
    }
  }

  /** Trimming twice is trimming once. */
  lemma TrimSpaceIdempotent(s: string)
    ensures TrimSpace(TrimSpace(s)) == TrimSpace(s)
  {
    var t := TrimSpace(s);
    TrimSpaceIsTrim(s);
    assert t == t[0..0 + |t|];
    assert AllSpace(t[..0]) && AllSpace(t[|t|..]);
    TrimSpaceUnique(t, t);
  }

  /** ASCII simple case folding: upper-case letters map to lower case, every other character to itself. */
  function FoldAscii(c: char): char {
    if 'A' <= c <= 'Z' then (c as int + 32) as char else c
  }

  /** The whole string folded to lower case. */
  function FoldString(s: string): (f: string)
    ensures |f| == |s| && forall k :: 0 <= k < |s| ==> f[k] == FoldAscii(s[k])
  {
    seq(|s|, k requires 0 <= k < |s| => FoldAscii(s[k]))
  }

  /**
   * Go's `strings.EqualFold`, restricted to ASCII folding: equal length and equal character
   * by character after folding, which is the same as equal once both are folded.
   */
  predicate EqualFold(a: string, b: string): (r: bool)
    ensures r <==> FoldString(a) == FoldString(b)
  {
    var r := |a| == |b| && forall k :: 0 <= k < |a| ==> FoldAscii(a[k]) == FoldAscii(b[k]);
    assert r ==> FoldString(a) == FoldString(b);
    assert FoldString(a) == FoldString(b) ==> |a| == |b| && forall k :: 0 <= k < |a| ==> FoldString(a)[k] == FoldString(b)[k];
    r
  }

  /** `EqualFold` is an equivalence relation, which is what makes it usable as "the same name" in lookups. */
  lemma EqualFoldIsEquivalence(a: string, b: string, c: string)
    ensures EqualFold(a, a)
    ensures EqualFold(a, b) ==> EqualFold(b, a)
    ensures EqualFold(a, b) && EqualFold(b, c) ==> EqualFold(a, c)
  {
  }
}
