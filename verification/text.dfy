/** The handful of Python `str` operations the crawler relies on. */
module Text {

  /** Python's `s.startswith(prefix)`. */
  predicate StartsWith(s: string, prefix: string) {
    |prefix| <= |s| && s[..|prefix|] == prefix
  }

  /** Python's `s.endswith(suffix)`. */
  predicate EndsWith(s: string, suffix: string) {
    |suffix| <= |s| && s[|s| - |suffix|..] == suffix
  }

  /** Python's slice `s[:n]` for a non-negative `n`. */
  function Take(s: string, n: nat): (r: string)
    ensures |r| <= n && |r| <= |s|
    ensures r == s[..|r|]
    ensures |s| <= n ==> r == s
    ensures |s| > n ==> |r| == n
  {
    if |s| <= n then s else s[..n]
  }

  /** Case folding of one character; only ASCII capitals change. */
  function LowerChar(c: char): char {
    if 'A' <= c <= 'Z' then (c as int - 'A' as int + 'a' as int) as char else c
  }

  /** `str.lower()` restricted to ASCII folding. */
  function Lower(s: string): (r: string)
    ensures |r| == |s|
    ensures forall i :: 0 <= i < |s| ==> r[i] == LowerChar(s[i])
  {
    seq(|s|, i requires 0 <= i < |s| => LowerChar(s[i]))
  }

  /** The characters Python's `str.split()` treats as separators. */
  predicate IsSpace(c: char) {
    || ('\U{9}' <= c <= '\U{D}')
    || ('\U{1C}' <= c <= '\U{20}')
    || c == '\U{85}' || c == '\U{A0}' || c == '\U{1680}'
    || ('\U{2000}' <= c <= '\U{200A}')
    || c == '\U{2028}' || c == '\U{2029}' || c == '\U{202F}' || c == '\U{205F}' || c == '\U{3000}'
  }

  /** A token produced by `str.split()`: non-empty and free of separators. */
  predicate IsWord(w: string) {
    |w| > 0 && forall i :: 0 <= i < |w| ==> !IsSpace(w[i])
  }

  /** Length of the run of separators that `s` starts with. */
  function LeadingSpaces(s: string): (n: nat)
    ensures n <= |s|
    ensures forall i :: 0 <= i < n ==> IsSpace(s[i])
    ensures n < |s| ==> !IsSpace(s[n])
  {
    if |s| == 0 || !IsSpace(s[0]) then 0 else 1 + LeadingSpaces(s[1..])
  }

  /** Length of the run of non-separators that `s` starts with. */
  function LeadingWord(s: string): (n: nat)
    ensures n <= |s|
    ensures forall i :: 0 <= i < n ==> !IsSpace(s[i])
    ensures n < |s| ==> IsSpace(s[n])
  {
    if |s| == 0 || IsSpace(s[0]) then 0 else 1 + LeadingWord(s[1..])
  }

  /** Python's `s.split()` with no argument: the maximal runs of non-separators, in order. */
  function Split(s: string): (words: seq<string>)
    ensures forall i :: 0 <= i < |words| ==> IsWord(words[i])
    decreases |s|
  {
    var k := LeadingSpaces(s);
    if k == |s| then []
    else
      var rest := s[k..];
      var n := LeadingWord(rest);
      [rest[..n]] + Split(rest[n..])
  }

  /** `s` with every separator deleted: the reference for what `Split` keeps. */
  function Squeeze(s: string): (r: string)
    ensures |r| <= |s|
  {
    if |s| == 0 then []
    else (if IsSpace(s[0]) then [] else [s[0]]) + Squeeze(s[1..])
  }

  /** Concatenation of a sequence of strings. */
  function Concat(ws: seq<string>): string {
    if |ws| == 0 then [] else ws[0] + Concat(ws[1..])
  }

  lemma {:induction false} SqueezeAppend(a: string, b: string)
    ensures Squeeze(a + b) == Squeeze(a) + Squeeze(b)
    decreases |a|
  {
    if |a| == 0 {
      assert a + b == b;
    } else {
      assert (a + b)[1..] == a[1..] + b;
      SqueezeAppend(a[1..], b);
    }
  }

  lemma {:induction false} SqueezeSpaces(s: string)
    requires forall i :: 0 <= i < |s| ==> IsSpace(s[i])
    ensures Squeeze(s) == []
    decreases |s|
  {
    if |s| > 0 {
      SqueezeSpaces(s[1..]);
    }
  }

  lemma {:induction false} SqueezeWord(s: string)
    requires forall i :: 0 <= i < |s| ==> !IsSpace(s[i])
    ensures Squeeze(s) == s
    decreases |s|
  {
    if |s| > 0 {
      SqueezeWord(s[1..]);
      assert s == [s[0]] + s[1..];
    }
  }

  /** Leading separators contribute nothing to `Squeeze`. */
  lemma SqueezeSkipsSpaces(s: string)
    ensures Squeeze(s) == Squeeze(s[LeadingSpaces(s)..])
  {
    var k := LeadingSpaces(s);
    assert s == s[..k] + s[k..];
    SqueezeAppend(s[..k], s[k..]);
    SqueezeSpaces(s[..k]);
  }

  /** A leading word survives `Squeeze` whole. */
  lemma SqueezeKeepsWord(s: string)
    ensures Squeeze(s) == s[..LeadingWord(s)] + Squeeze(s[LeadingWord(s)..])
  {
    var n := LeadingWord(s);
    assert s == s[..n] + s[n..];
    SqueezeAppend(s[..n], s[n..]);
    SqueezeWord(s[..n]);
  }

  /** `Split` loses no character except separators and invents none. */
  lemma {:induction false} SplitKeepsText(s: string)
    ensures Concat(Split(s)) == Squeeze(s)
    decreases |s|
  {
    var k := LeadingSpaces(s);
    SqueezeSkipsSpaces(s);
    if k == |s| {
      assert Squeeze(s[k..]) == [];
    } else {
      var rest := s[k..];
      var n := LeadingWord(rest);
      SqueezeKeepsWord(rest);
      SplitKeepsText(rest[n..]);
      assert Split(s) == [rest[..n]] + Split(rest[n..]);
      assert Concat(Split(s)) == rest[..n] + Concat(Split(rest[n..]));
    }
  }
}
