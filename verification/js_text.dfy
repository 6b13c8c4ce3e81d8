/** The JavaScript string primitives the extension relies on, over `seq<char>`:
    `trim`/`trimEnd`, `indexOf`/`lastIndexOf`, `split` on one character,
    `join`, `replaceAll` with a literal pattern, `substring`, and the
    character classes `\s` and `\w` of its regular expressions. */
module JsText {

  /** White space as `String.prototype.trim` and the regex class `\s` see it:
      ECMAScript's WhiteSpace and LineTerminator code points. */
  predicate IsSpace(c: char) {
    || c == '\t' || c == '\n' || c == '\U{000B}' || c == '\U{000C}' || c == '\r'
    || c == ' ' || c == '\U{00A0}' || c == '\U{1680}'
    || ('\U{2000}' <= c <= '\U{200A}')
    || c == '\U{2028}' || c == '\U{2029}' || c == '\U{202F}' || c == '\U{205F}'
    || c == '\U{3000}' || c == '\U{FEFF}'
  }

  /** The characters a regex `.` refuses when the `s` flag is absent. */
  predicate IsLineTerminator(c: char) {
    c == '\n' || c == '\r' || c == '\U{2028}' || c == '\U{2029}'
  }

  /** The regex class `\w`. */
  predicate IsWordChar(c: char) {
    ('a' <= c <= 'z') || ('A' <= c <= 'Z') || ('0' <= c <= '9') || c == '_'
  }

  predicate AllSpace(s: string) {
    forall i | 0 <= i < |s| :: IsSpace(s[i])
  }

  /** Number of white-space characters at the head of `s`. */
  function LeadingSpaces(s: string): (n: nat)
    ensures n <= |s|
    ensures forall i | 0 <= i < n :: IsSpace(s[i])
    ensures n < |s| ==> !IsSpace(s[n])
  {
    if |s| > 0 && IsSpace(s[0]) then 1 + LeadingSpaces(s[1..]) else 0
  }

  /** `s.trimEnd()`: the longest prefix of `s` that does not end in white space. */
  function TrimEnd(s: string): (r: string)
    ensures r <= s
    ensures |r| > 0 ==> !IsSpace(r[|r| - 1])
    ensures forall i | |r| <= i < |s| :: IsSpace(s[i])
  {
    if |s| > 0 && IsSpace(s[|s| - 1]) then TrimEnd(s[..|s| - 1]) else s
  }

  /** `s.trim()`: white space removed at both ends. */
  function Trim(s: string): (r: string)
    ensures LeadingSpaces(s) + |r| <= |s|
    ensures r == s[LeadingSpaces(s)..LeadingSpaces(s) + |r|]
    ensures AllSpace(s[LeadingSpaces(s) + |r|..])
    ensures |r| > 0 ==> !IsSpace(r[0]) && !IsSpace(r[|r| - 1])
    ensures r == "" <==> AllSpace(s)
  {
    var n := LeadingSpaces(s);
    var r := TrimEnd(s[n..]);
    assert r == s[n..][..|r|];
    r
  }

  /** A string that is already trimmed is its own trim. */
  lemma TrimOfTrimmed(s: string)
    requires |s| > 0 ==> !IsSpace(s[0]) && !IsSpace(s[|s| - 1])
    ensures Trim(s) == s
  {
    assert LeadingSpaces(s) == 0;
  }

  /** `pat` occurs in `s` at index `i`. */
  predicate OccursAt(s: string, pat: string, i: int) {
    0 <= i && i + |pat| <= |s| && s[i..i + |pat|] == pat
  }

  function Clamp(x: int, len: nat): (r: nat)
    ensures r <= len
    ensures 0 <= x <= len ==> r == x
  {
    if x < 0 then 0 else if x > len then len else x
  }

  /** `s.indexOf(pat, from)`: the first occurrence at or after `from`
      (clamped into the string), or -1. */
  function IndexOf(s: string, pat: string, from: int): (r: int)
    ensures r == -1 || (OccursAt(s, pat, r) && Clamp(from, |s|) <= r)
    ensures r == -1 ==> forall i | Clamp(from, |s|) <= i :: !OccursAt(s, pat, i)
    ensures r != -1 ==> forall i | Clamp(from, |s|) <= i < r :: !OccursAt(s, pat, i)
    decreases |s| - Clamp(from, |s|)
  {
    var start := Clamp(from, |s|);
    if start + |pat| > |s| then -1
    else if s[start..start + |pat|] == pat then start
    else IndexOf(s, pat, start + 1)
  }

  /** `s.lastIndexOf(pat)`: the last occurrence, or -1. */
  function LastIndexOf(s: string, pat: string): (r: int)
    ensures r == -1 || OccursAt(s, pat, r)
    ensures forall i | r < i :: !OccursAt(s, pat, i)
  {
    if |pat| > |s| then -1 else LastIndexAtOrBefore(s, pat, |s| - |pat|)
  }

  function LastIndexAtOrBefore(s: string, pat: string, i: int): (r: int)
    requires i + |pat| <= |s|
    ensures r == -1 || (OccursAt(s, pat, r) && r <= i)
    ensures forall j | r < j <= i :: !OccursAt(s, pat, j)
    decreases i + 1
  {
    if i < 0 then -1
    else if s[i..i + |pat|] == pat then i
    else LastIndexAtOrBefore(s, pat, i - 1)
  }

  /** `s.substring(a, b)`: both ends clamped into the string, swapped when reversed. */
  function Substring(s: string, a: int, b: int): (r: string)
    ensures Clamp(a, |s|) <= Clamp(b, |s|) ==> r == s[Clamp(a, |s|)..Clamp(b, |s|)]
    ensures Clamp(b, |s|) < Clamp(a, |s|) ==> r == s[Clamp(b, |s|)..Clamp(a, |s|)]
  {
    var x := Clamp(a, |s|);
    var y := Clamp(b, |s|);
    if x <= y then s[x..y] else s[y..x]
  }

  /** `parts.join(sep)`: it begins with the first part. */
  function Join(parts: seq<string>, sep: string): (r: string)
    ensures |parts| > 0 ==> parts[0] <= r
  {
    if |parts| == 0 then ""
    else if |parts| == 1 then parts[0]
    else parts[0] + sep + Join(parts[1..], sep)
  }

  /** A join ends with its last part. */
  lemma {:induction false} JoinEndsWithLast(parts: seq<string>, sep: string)
    requires |parts| > 0
    ensures var r := Join(parts, sep); var last := parts[|parts| - 1];
      |last| <= |r| && r[|r| - |last|..] == last
    decreases |parts|
  {
    if |parts| > 1 {
      JoinEndsWithLast(parts[1..], sep);
      assert parts[1..][|parts| - 2] == parts[|parts| - 1];
    }
  }

  /** Index of the first `c` in `s`, or `|s|` when there is none. */
  function CharIndex(s: string, c: char): (i: nat)
    ensures i <= |s|
    ensures forall j | 0 <= j < i :: s[j] != c
    ensures i < |s| ==> s[i] == c
  {
    if |s| == 0 then 0
    else if s[0] == c then 0
    else 1 + CharIndex(s[1..], c)
  }

  /** Index of the last `c` in `s`, or -1 when there is none. */
  function LastCharIndex(s: string, c: char): (k: int)
    ensures -1 <= k < |s|
    ensures k >= 0 ==> s[k] == c
    ensures NoneAfter(s, c, k)
  {
    LastCharBelow(s, c, |s|)
  }

  /** Index of the last `c` among the first `n` characters of `s`, or -1. */
  function LastCharBelow(s: string, c: char, n: nat): (k: int)
    requires n <= |s|
    ensures -1 <= k < n
    ensures k >= 0 ==> s[k] == c
    ensures forall j | 0 <= j < n && k < j :: s[j] != c
  {
    if n == 0 then -1
    else if s[n - 1] == c then n - 1
    else LastCharBelow(s, c, n - 1)
  }

  /** No `c` follows index `k` of `s`. */
  predicate NoneAfter(s: string, c: char, k: int) {
    forall j | 0 <= j < |s| && k < j :: s[j] != c
  }

  /** An index after which no `c` follows and that holds a `c` (or is -1) is
      the last index of `c`. */
  lemma LastCharIndexUnique(s: string, c: char, k: int)
    requires -1 <= k < |s| && (k >= 0 ==> s[k] == c)
    requires NoneAfter(s, c, k)
    ensures k == LastCharIndex(s, c)
  {
    var l := LastCharIndex(s, c);
    assert NoneAfter(s, c, l);
    assert l >= 0 ==> s[l] == c;
    assert k >= 0 ==> s[k] == c;
  }

  /** No part holds the separator. */
  predicate NoSeparatorIn(parts: seq<string>, sep: char) {
    forall k | 0 <= k < |parts| :: sep !in parts[k]
  }

  /** `s.split(sep)` for a one-character separator, built from the last
      separator backwards: the parts before it, then the text after it. */
  function Split(s: string, sep: char): (parts: seq<string>)
    ensures |parts| >= 1
    ensures NoSeparatorIn(parts, sep)
    ensures |parts| == 1 <==> sep !in s
    decreases |s|
  {
    var k := LastCharIndex(s, sep);
    if k < 0 then
      assert NoneAfter(s, sep, -1);
      [s]
    else
      var front := Split(s[..k], sep);
      var last := s[k + 1..];
      assert NoneAfter(s, sep, k);
      assert sep !in last by {
        assert forall j | 0 <= j < |last| :: last[j] == s[k + 1 + j];
      }
      assert forall i | 0 <= i < |front| :: (front + [last])[i] == front[i];
      front + [last]
  }

  /** `parts.join('')`. */
  function Concat(parts: seq<string>): string {
    if |parts| == 0 then "" else parts[0] + Concat(parts[1..])
  }

  lemma {:induction false} ConcatAppend(a: seq<string>, b: seq<string>)
    ensures Concat(a + b) == Concat(a) + Concat(b)
    decreases |a|
  {
    if |a| == 0 {
      assert a + b == b;
    } else {
      assert (a + b)[1..] == a[1..] + b;
      ConcatAppend(a[1..], b);
    }
  }

  /** Joining with a separator is concatenating the parts, each preceded by
      the separator, once a separator is put in front. */
  lemma {:induction false} JoinAsConcat(parts: seq<string>, sep: string)
    requires |parts| > 0
    ensures sep + Join(parts, sep) == Concat(seq(|parts|, i requires 0 <= i < |parts| => sep + parts[i]))
    decreases |parts|
  {
    var prefixed := seq(|parts|, i requires 0 <= i < |parts| => sep + parts[i]);
    if |parts| == 1 {
      assert prefixed[1..] == [];
    } else {
      JoinAsConcat(parts[1..], sep);
      assert prefixed[1..] == seq(|parts[1..]|, i requires 0 <= i < |parts[1..]| => sep + parts[1..][i]);
    }
  }

  lemma Around(s: string, i: nat)
    requires i < |s|
    ensures s[..i] + [s[i]] + s[i + 1..] == s
  {
  }

  /** Joining the pieces of a split with the separator gives the string back. */
  lemma {:induction false} SplitJoin(s: string, sep: char)
    ensures Join(Split(s, sep), [sep]) == s
    decreases |s|
  {
    var k := LastCharIndex(s, sep);
    if k >= 0 {
      var front := Split(s[..k], sep);
      SplitJoin(s[..k], sep);
      JoinSnoc(front, s[k + 1..], [sep]);
      Around(s, k);
    }
  }

  /** Joining one more part appends the separator and the part. */
  lemma {:induction false} JoinSnoc(parts: seq<string>, x: string, sep: string)
    requires |parts| > 0
    ensures Join(parts + [x], sep) == Join(parts, sep) + sep + x
    decreases |parts|
  {
    var ps := parts + [x];
    assert ps[0] == parts[0] && ps[1..] == parts[1..] + [x];
    if |parts| > 1 {
      JoinSnoc(parts[1..], x, sep);
      assert Join(ps, sep) == parts[0] + sep + Join(parts[1..] + [x], sep);
    } else {
      assert ps[1..] == [x];
      assert Join(ps, sep) == parts[0] + sep + Join([x], sep);
    }
  }

  /** `s.replaceAll(pat, rep)` for a literal, non-empty `pat` (and a `rep`
      without `$` patterns): leftmost non-overlapping occurrences. */
  function ReplaceAll(s: string, pat: string, rep: string): (r: string)
    requires |pat| > 0
    ensures |s| < |pat| ==> r == s
    ensures rep == pat ==> r == s
    decreases |s|
  {
    if |s| == 0 then ""
    else if pat <= s then rep + ReplaceAll(s[|pat|..], pat, rep)
    else [s[0]] + ReplaceAll(s[1..], pat, rep)
  }

  /** Text before the first occurrence is copied unchanged: `ReplaceAll`
      only starts replacing where the pattern occurs. */
  lemma {:induction false} ReplaceAllSkip(s: string, pat: string, rep: string, k: nat)
    requires |pat| > 0 && k <= |s|
    requires forall i | 0 <= i < k :: !OccursAt(s, pat, i)
    ensures ReplaceAll(s, pat, rep) == s[..k] + ReplaceAll(s[k..], pat, rep)
    decreases k
  {
    if k == 0 {
      assert s[..0] == [] && s[0..] == s;
    } else {
      var tail := s[1..];
      var rest := ReplaceAll(s[k..], pat, rep);
      assert ReplaceAll(s, pat, rep) == [s[0]] + ReplaceAll(tail, pat, rep) by {
        ReplaceAllCopies(s, pat, rep);
      }
      assert ReplaceAll(tail, pat, rep) == tail[..k - 1] + rest by {
        NoneBeforeShift(s, pat, k);
        ReplaceAllSkip(tail, pat, rep, k - 1);
        assert tail[k - 1..] == s[k..];
      }
      ConsPrefix(s, k, rest);
    }
  }

  lemma ConsPrefix(s: string, k: nat, rest: string)
    requires 0 < k <= |s|
    ensures [s[0]] + (s[1..][..k - 1] + rest) == s[..k] + rest
  {
    assert [s[0]] + s[1..][..k - 1] == s[..k];
  }

  /** Where the pattern does not occur, the first character is copied. */
  lemma {:induction false} ReplaceAllCopies(s: string, pat: string, rep: string)
    requires |pat| > 0 && |s| > 0 && !OccursAt(s, pat, 0)
    ensures ReplaceAll(s, pat, rep) == [s[0]] + ReplaceAll(s[1..], pat, rep)
  {
    if |pat| <= |s| {
      assert s[0..|pat|] == s[..|pat|];
    }
  }

  /** No occurrence before `k` in `s` means none before `k - 1` in its tail. */
  lemma {:induction false} NoneBeforeShift(s: string, pat: string, k: nat)
    requires 0 < k <= |s|
    requires forall i | 0 <= i < k :: !OccursAt(s, pat, i)
    ensures forall i | 0 <= i < k - 1 :: !OccursAt(s[1..], pat, i)
  {
    forall i | 0 <= i < k - 1
      ensures !OccursAt(s[1..], pat, i)
    {
      assert !OccursAt(s, pat, i + 1);
      if i + |pat| <= |s[1..]| {
        assert s[1..][i..i + |pat|] == s[i + 1..i + 1 + |pat|];
      }
    }
  }

  /** A string in which the pattern does not occur comes through unchanged. */
  lemma {:induction false} ReplaceAllNone(s: string, pat: string, rep: string)
    requires |pat| > 0
    requires forall i | 0 <= i :: !OccursAt(s, pat, i)
    ensures ReplaceAll(s, pat, rep) == s
  {
    ReplaceAllSkip(s, pat, rep, |s|);
    assert s[..|s|] == s && s[|s|..] == [];
  }

  /** `replaceAll` at the first occurrence `k`: the text before it is kept,
      the occurrence becomes `rep`, and the search resumes after it, so
      replacements never overlap. */
  lemma {:induction false} ReplaceAllAt(s: string, pat: string, rep: string, k: nat)
    requires |pat| > 0 && OccursAt(s, pat, k)
    requires forall i | 0 <= i < k :: !OccursAt(s, pat, i)
    ensures ReplaceAll(s, pat, rep) == s[..k] + rep + ReplaceAll(s[k + |pat|..], pat, rep)
  {
    var t := s[k..];
    var rest := ReplaceAll(s[k + |pat|..], pat, rep);
    assert ReplaceAll(s, pat, rep) == s[..k] + ReplaceAll(t, pat, rep) by {
      ReplaceAllSkip(s, pat, rep, k);
    }
    assert ReplaceAll(t, pat, rep) == rep + rest by {
      assert t[..|pat|] == s[k..k + |pat|];
      assert t[|pat|..] == s[k + |pat|..];
      ReplaceAllReplaces(t, pat, rep);
    }
  }

  /** Where the pattern occurs, it is replaced and the search resumes after it. */
  lemma {:induction false} ReplaceAllReplaces(s: string, pat: string, rep: string)
    requires |pat| > 0 && |pat| <= |s| && s[..|pat|] == pat
    ensures ReplaceAll(s, pat, rep) == rep + ReplaceAll(s[|pat|..], pat, rep)
  {
    assert pat <= s;
  }

  /** A string of `n` spaces: `' '.repeat(n)`. */
  function Spaces(n: nat): (r: string)
    ensures |r| == n
    ensures forall i | 0 <= i < n :: r[i] == ' '
  {
    seq(n, _ => ' ')
  }

  /** Replacing with a string of the same length keeps the length. */
  lemma {:induction false} ReplaceAllSameLength(s: string, pat: string, rep: string)
    requires |pat| > 0 && |rep| == |pat|
    ensures |ReplaceAll(s, pat, rep)| == |s|
    decreases |s|
  {
    if |s| == 0 {
    } else if pat <= s {
      ReplaceAllSameLength(s[|pat|..], pat, rep);
    } else {
      ReplaceAllSameLength(s[1..], pat, rep);
    }
  }

  /** A string without the pattern's first character comes through unchanged. */
  lemma {:induction false} ReplaceAllAbsent(s: string, pat: string, rep: string)
    requires |pat| > 0 && pat[0] !in s
    ensures ReplaceAll(s, pat, rep) == s
    decreases |s|
  {
    if |s| > 0 {
      assert !(pat <= s);
      ReplaceAllAbsent(s[1..], pat, rep);
      assert [s[0]] + s[1..] == s;
    }
  }

  /** Replacing `"\n"` by `"\n" + tab` and then `"\n" + tab` by `"\n"` gives
      back the original, whatever `tab` is. */
  lemma {:induction false} IndentRoundTrip(s: string, tab: string)
    ensures ReplaceAll(ReplaceAll(s, "\n", "\n" + tab), "\n" + tab, "\n") == s
    decreases |s|
  {
    var nt := "\n" + tab;
    if |s| == 0 {
    } else if "\n" <= s {
      var e := ReplaceAll(s[1..], "\n", nt);
      assert ReplaceAll(s, "\n", nt) == nt + e;
      assert nt <= nt + e;
      assert (nt + e)[|nt|..] == e;
      IndentRoundTrip(s[1..], tab);
      assert "\n" + s[1..] == s;
    } else {
      var e := ReplaceAll(s[1..], "\n", nt);
      assert ReplaceAll(s, "\n", nt) == [s[0]] + e;
      assert s[0] != '\n' && nt[0] == '\n';
      assert ([s[0]] + e)[0] != nt[0];
      assert !(nt <= [s[0]] + e);
      assert ([s[0]] + e)[1..] == e;
      IndentRoundTrip(s[1..], tab);
      assert [s[0]] + s[1..] == s;
    }
  }
}
