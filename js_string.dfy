/** The JavaScript string built-ins the blog relies on. A `string` here is a sequence of
    Unicode scalar values, not of UTF-16 code units: lone surrogates cannot be written, and a
    character outside the Basic Multilingual Plane takes one position instead of two. */
module JsString {
  import opened Types

  /** `s.startsWith(prefix)` */
  predicate StartsWith(s: string, prefix: string)
  {
    |prefix| <= |s| && s[..|prefix|] == prefix
  }

  /** `s.endsWith(suffix)` */
  predicate EndsWith(s: string, suffix: string)
  {
    |suffix| <= |s| && s[|s| - |suffix|..] == suffix
  }

  /** `startsWith` holds exactly when `s` is `prefix` followed by something. */
  lemma StartsWithIffPrefix(s: string, prefix: string)
    ensures StartsWith(s, prefix) <==> exists rest :: s == prefix + rest
  {
    if StartsWith(s, prefix) {
      assert s == prefix + s[|prefix|..];
    }
  }

  /** `endsWith` holds exactly when `s` is something followed by `suffix`. */
  lemma EndsWithIffSuffix(s: string, suffix: string)
    ensures EndsWith(s, suffix) <==> exists rest :: s == rest + suffix
  {
    if EndsWith(s, suffix) {
      assert s == s[..|s| - |suffix|] + suffix;
    }
  }

  /** `pat` occurs in `s` starting at position `i`. */
  predicate OccursAt(s: string, pat: string, i: nat)
  {
    i + |pat| <= |s| && s[i..i + |pat|] == pat
  }

  /** `i` is the first position where `pat` occurs in `s`. */
  predicate FirstOccursAt(s: string, pat: string, i: nat)
  {
    OccursAt(s, pat, i) && forall j :: 0 <= j < i ==> !OccursAt(s, pat, j)
  }

  /** `s.indexOf(pat, from)`, with `None` for -1. */
  function IndexOfFrom(s: string, pat: string, from: nat): (r: Option<nat>)
    ensures r.Some? ==> from <= r.value && OccursAt(s, pat, r.value)
    ensures r.Some? ==> forall j :: from <= j < r.value ==> !OccursAt(s, pat, j)
    ensures r.None? ==> forall j :: from <= j ==> !OccursAt(s, pat, j)
    decreases |s| + 1 - from
  {
    if from + |pat| > |s| then None
    else if OccursAt(s, pat, from) then Some(from)
    else IndexOfFrom(s, pat, from + 1)
  }

  /** `s.indexOf(pat)`: the first occurrence of `pat`. */
  function IndexOf(s: string, pat: string): (r: Option<nat>)
    ensures r.Some? ==> OccursAt(s, pat, r.value) && forall j :: 0 <= j < r.value ==> !OccursAt(s, pat, j)
    ensures r.None? ==> forall j :: 0 <= j ==> !OccursAt(s, pat, j)
  {
    IndexOfFrom(s, pat, 0)
  }

  /** `s.includes(sub)` */
  function Includes(s: string, sub: string): (b: bool)
    ensures b <==> exists i: nat :: OccursAt(s, sub, i)
  {
    IndexOf(s, sub).Some?
  }

  /** `s.replace(pat, rep)` with a string pattern: only the FIRST occurrence is replaced. */
  function ReplaceFirst(s: string, pat: string, rep: string): (r: string)
    ensures (forall j: nat :: !OccursAt(s, pat, j)) ==> r == s
    ensures forall i: nat :: FirstOccursAt(s, pat, i) ==>
              r == s[..i] + rep + s[i + |pat|..]
  {
    match IndexOf(s, pat)
    case None => s
    case Some(i) => s[..i] + rep + s[i + |pat|..]
  }

  /** `toLowerCase` on one code unit, restricted to ASCII letters. */
  function LowerChar(c: char): char
  {
    if 'A' <= c <= 'Z' then (c as int + 32) as char else c
  }

  /** `s.toLowerCase()`, ASCII letters only. */
  function Lower(s: string): (r: string)
    ensures |r| == |s|
    ensures forall i :: 0 <= i < |r| ==> !('A' <= r[i] <= 'Z')
    ensures forall i :: 0 <= i < |s| && !('A' <= s[i] <= 'Z') ==> r[i] == s[i]
    ensures forall i :: 0 <= i < |s| && 'A' <= s[i] <= 'Z' ==> r[i] as int == s[i] as int + 32
  {
    seq(|s|, i requires 0 <= i < |s| => LowerChar(s[i]))
  }

  /** The code units `trim` removes: WhiteSpace and LineTerminator of the ECMAScript grammar. */
  predicate IsWhitespace(c: char)
  {
    || c == ' ' || c == '\t' || c == '\n' || c == '\r'
    || c == '\U{0B}' || c == '\U{0C}' || c == '\U{A0}' || c == '\U{1680}'
    || ('\U{2000}' <= c <= '\U{200A}')
    || c == '\U{2028}' || c == '\U{2029}' || c == '\U{202F}' || c == '\U{205F}'
    || c == '\U{3000}' || c == '\U{FEFF}'
  }

  predicate IsBlank(s: string)
  {
    forall i :: 0 <= i < |s| ==> IsWhitespace(s[i])
  }

  function TrimStart(s: string): (r: string)
    ensures |r| <= |s| && r == s[|s| - |r|..]
    ensures IsBlank(s[..|s| - |r|])
    ensures r != [] ==> !IsWhitespace(r[0])
  {
    if s != [] && IsWhitespace(s[0]) then
      var r := TrimStart(s[1..]);
      assert s[..|s| - |r|] == [s[0]] + s[1..][..|s| - 1 - |r|];
      r
    else s
  }

  function TrimEnd(s: string): (r: string)
    ensures |r| <= |s| && r == s[..|r|]
    ensures IsBlank(s[|r|..])
    ensures r != [] ==> !IsWhitespace(r[|r| - 1])
  {
    if s != [] && IsWhitespace(s[|s| - 1]) then
      var r := TrimEnd(s[..|s| - 1]);
      assert s[|r|..] == s[..|s| - 1][|r|..] + [s[|s| - 1]];
      r
    else s
  }

  /** `r` is what is left of `s` once a blank prefix and a blank suffix are cut off. */
  ghost predicate IsPaddedBy(s: string, r: string)
  {
    exists a :: 0 <= a && a + |r| <= |s| && r == s[a..a + |r|] && IsBlank(s[..a]) && IsBlank(s[a + |r|..])
  }

  /** `s.trim()`: `s` without its leading and trailing whitespace. */
  function Trim(s: string): (r: string)
    ensures r == [] <==> IsBlank(s)
    ensures r != [] ==> !IsWhitespace(r[0]) && !IsWhitespace(r[|r| - 1])
    ensures IsPaddedBy(s, r)
  {
    var t := TrimStart(s);
    var r := TrimEnd(t);
    TrimmedIsMiddle(s, t, r);
    r
  }

  /** Cutting a blank prefix and then a blank suffix leaves a middle segment, empty exactly
      when the whole string was blank. */
  lemma TrimmedIsMiddle(s: string, t: string, r: string)
    requires |t| <= |s| && t == s[|s| - |t|..] && IsBlank(s[..|s| - |t|])
    requires t != [] ==> !IsWhitespace(t[0])
    requires |r| <= |t| && r == t[..|r|] && IsBlank(t[|r|..])
    ensures IsPaddedBy(s, r)
    ensures r == [] <==> IsBlank(s)
  {
    var a := |s| - |t|;
    assert s[a + |r|..] == t[|r|..];
    if r == [] {
      assert s == s[..a] + t[|r|..];
    }
  }

  lemma {:induction false} TrimStartBlankPrefix(w: string, t: string)
    requires IsBlank(w)
    ensures TrimStart(w + t) == TrimStart(t)
  {
    if w != [] {
      assert (w + t)[1..] == w[1..] + t;
      TrimStartBlankPrefix(w[1..], t);
    } else {
      assert w + t == t;
    }
  }

  lemma {:induction false} TrimStartAppend(t: string, w: string)
    requires !IsBlank(t)
    ensures TrimStart(t + w) == TrimStart(t) + w
  {
    assert (t + w)[0] == t[0];
    if IsWhitespace(t[0]) {
      assert (t + w)[1..] == t[1..] + w;
      TrimStartAppend(t[1..], w);
    }
  }

  lemma {:induction false} TrimEndBlankSuffix(t: string, w: string)
    requires IsBlank(w)
    ensures TrimEnd(t + w) == TrimEnd(t)
  {
    if w != [] {
      assert (t + w)[..|t + w| - 1] == t + w[..|w| - 1];
      TrimEndBlankSuffix(t, w[..|w| - 1]);
    } else {
      assert t + w == t;
    }
  }

  /** Leading and trailing whitespace never reach the result of `trim`. */
  lemma TrimIgnoresPadding(lead: string, s: string, trail: string)
    requires IsBlank(lead) && IsBlank(trail)
    ensures Trim(lead + s + trail) == Trim(s)
  {
    var padded := lead + s + trail;
    if IsBlank(s) {
      assert IsBlank(padded) by {
        forall i | 0 <= i < |padded| ensures IsWhitespace(padded[i]) {
          if i < |lead| { assert padded[i] == lead[i]; }
          else if i < |lead| + |s| { assert padded[i] == s[i - |lead|]; }
          else { assert padded[i] == trail[i - |lead| - |s|]; }
        }
      }
    } else {
      assert padded == lead + (s + trail);
      TrimStartBlankPrefix(lead, s + trail);
      TrimStartAppend(s, trail);
      TrimEndBlankSuffix(TrimStart(s), trail);
    }
  }

  /** ASCII lowercasing maps whitespace to itself and everything else to non-whitespace. */
  lemma LowerKeepsBlank(s: string)
    ensures IsBlank(Lower(s)) <==> IsBlank(s)
  {
    forall i | 0 <= i < |s|
      ensures IsWhitespace(Lower(s)[i]) <==> IsWhitespace(s[i])
    {
      assert Lower(s)[i] == LowerChar(s[i]);
    }
  }
}
