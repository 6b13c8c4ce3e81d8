/** File-path helpers of `src/tools.ts`: `formatFilePath`, `getRootPath` and
    `getFileName`. */
module Paths {
  import opened Wrappers
  import opened JsText

  /** `'\\'` becomes `'/'`, everything else is kept. */
  function SlashOf(c: char): char {
    if c == '\\' then '/' else c
  }

  /** `path.replace(/\\/g, '/')`. */
  function Slashes(path: string): (r: string)
    ensures |r| == |path|
    ensures forall i | 0 <= i < |path| :: r[i] == SlashOf(path[i])
    ensures '\\' !in r
    ensures '\\' !in path ==> r == path
  {
    seq(|path|, i requires 0 <= i < |path| => SlashOf(path[i]))
  }

  predicate IsAsciiLetter(c: char) {
    ('a' <= c <= 'z') || ('A' <= c <= 'Z')
  }

  predicate IsAsciiLower(c: char) {
    'a' <= c <= 'z'
  }

  function ToUpper(c: char): char {
    if IsAsciiLower(c) then (c as int - 32) as char else c
  }

  /** The path starts with a slash before a drive, as in `/c:/x`. */
  predicate SlashedDrive(s: string) {
    |s| >= 3 && s[0] == '/' && IsAsciiLetter(s[1]) && s[2] == ':'
  }

  /** The path starts with a lower-case drive, as in `c:/x`. */
  predicate LowerDrive(s: string) {
    |s| >= 2 && IsAsciiLower(s[0]) && s[1] == ':'
  }

  /** `formatFilePath`: unify slashes, drop the slash before a drive letter and
      upper-case the drive letter. */
  function FormatFilePath(path: string): (r: string)
    ensures '\\' !in r
    ensures SlashedDrive(Slashes(path)) ==>
      |r| == |path| - 1 && r[0] == ToUpper(path[1]) && r[1..] == Slashes(path)[2..]
    ensures !SlashedDrive(Slashes(path)) && LowerDrive(path) ==>
      |r| == |path| && r[0] == ToUpper(path[0]) && r[1..] == Slashes(path)[1..]
    ensures !SlashedDrive(Slashes(path)) && !LowerDrive(path) ==> r == Slashes(path)
    ensures !LowerDrive(r)
  {
    var s1 := Slashes(path);
    var s2 := if SlashedDrive(s1) then s1[1..] else s1;
    if LowerDrive(s2) then [ToUpper(s2[0])] + s2[1..] else s2
  }

  /** Formatting a formatted path changes nothing. */
  lemma FormatFilePathIdempotent(path: string)
    ensures FormatFilePath(FormatFilePath(path)) == FormatFilePath(path)
  {
    var r := FormatFilePath(path);
    assert Slashes(r) == r;
  }

  /** A path that ends in a slash still ends in one once formatted. */
  lemma FormatKeepsTrailingSlash(path: string)
    requires |path| > 0 && SlashOf(path[|path| - 1]) == '/'
    ensures |FormatFilePath(path)| > 0
    ensures FormatFilePath(path)[|FormatFilePath(path)| - 1] == '/'
  {
  }

  /** The part of `s` after its last `c` (all of `s` without one). */
  function LastSegment(s: string, c: char): string {
    s[LastCharIndex(s, c) + 1..]
  }

  /** The part of `s` before its last `c`. */
  function BeforeLast(s: string, c: char): string
    requires c in s
  {
    s[..LastCharIndex(s, c)]
  }

  /** A text without `c` is its own last segment. */
  lemma NoSeparatorLastSegment(s: string, c: char)
    requires NoneAfter(s, c, -1)
    ensures LastSegment(s, c) == s
  {
    LastCharIndexUnique(s, c, -1);
  }

  /** The last element of `s.split(c)` is the text after the last `c`. */
  lemma SplitLast(s: string, c: char)
    ensures Split(s, c)[|Split(s, c)| - 1] == LastSegment(s, c)
  {
  }

  /** With a separator present, the last-but-one element of `s.split(c)` is the
      text between the last two separators. */
  lemma SplitSecondLast(s: string, c: char)
    requires c in s
    ensures |Split(s, c)| >= 2
    ensures Split(s, c)[|Split(s, c)| - 2] == LastSegment(BeforeLast(s, c), c)
  {
    HasLastCharIndex(s, c);
    var k := LastCharIndex(s, c);
    SecondLastIsFrontLast(s, c);
    SplitLast(s[..k], c);
  }

  /** The last-but-one part is the last part of the text before the last `c`. */
  lemma SecondLastIsFrontLast(s: string, c: char)
    requires LastCharIndex(s, c) >= 0
    ensures var front := Split(s[..LastCharIndex(s, c)], c);
      |Split(s, c)| >= 2 && Split(s, c)[|Split(s, c)| - 2] == front[|front| - 1]
  {
    var k := LastCharIndex(s, c);
    SplitUnfold(s, c);
    SecondLastOfSnoc(Split(s, c), Split(s[..k], c), s[k + 1..]);
  }

  lemma HasLastCharIndex(s: string, c: char)
    requires c in s
    ensures LastCharIndex(s, c) >= 0
  {
    var j :| 0 <= j < |s| && s[j] == c;
    assert NoneAfter(s, c, LastCharIndex(s, c));
  }

  lemma SplitUnfold(s: string, c: char)
    requires LastCharIndex(s, c) >= 0
    ensures Split(s, c) == Split(s[..LastCharIndex(s, c)], c) + [s[LastCharIndex(s, c) + 1..]]
  {
  }

  lemma SecondLastOfSnoc<T>(w: seq<T>, front: seq<T>, x: T)
    requires w == front + [x] && |front| > 0
    ensures |w| >= 2 && w[|w| - 2] == front[|front| - 1]
  {
  }

  /** The formatted `root` is a prefix of the formatted file path `fp`. */
  predicate UnderRoot(fp: string, root: string) {
    FormatFilePath(root) <= fp
  }

  /** None of the first `n` roots holds `fp`. */
  predicate NoRootBefore(fp: string, roots: seq<string>, n: int)
    requires n <= |roots|
  {
    forall j | 0 <= j < n :: !UnderRoot(fp, roots[j])
  }

  /** `roots[k]` is the first root holding `fp`, and `value` is its formatted
      path. */
  predicate FirstRootAt(fp: string, roots: seq<string>, k: int, value: string) {
    && 0 <= k < |roots|
    && value == FormatFilePath(roots[k])
    && UnderRoot(fp, roots[k])
    && NoRootBefore(fp, roots, k)
  }

  /** `getRootPath`: the first workspace root whose formatted path prefixes the
      formatted file path (`roots` are the folders' `uri.path`). */
  function RootPath(path: string, roots: seq<string>): (r: Option<string>)
    ensures r.None? <==> NoRootBefore(FormatFilePath(path), roots, |roots|)
    ensures r.Some? ==> exists k :: FirstRootAt(FormatFilePath(path), roots, k, r.value)
  {
    FirstRoot(FormatFilePath(path), roots)
  }

  /** The search of `getRootPath` for an already formatted file path. */
  function FirstRoot(fp: string, roots: seq<string>): (r: Option<string>)
    ensures r.None? <==> NoRootBefore(fp, roots, |roots|)
    ensures r.Some? ==> exists k :: FirstRootAt(fp, roots, k, r.value)
  {
    if |roots| == 0 then None
    else if UnderRoot(fp, roots[0]) then
      assert FirstRootAt(fp, roots, 0, FormatFilePath(roots[0]));
      Some(FormatFilePath(roots[0]))
    else
      var r := FirstRoot(fp, roots[1..]);
      assert forall k | 1 <= k < |roots| :: roots[k] == roots[1..][k - 1];
      if r.Some? then
        var k :| FirstRootAt(fp, roots[1..], k, r.value);
        assert FirstRootAt(fp, roots, k + 1, r.value);
        r
      else
        r
  }

  /** The index of the first line terminator in `s`, or `|s|`. */
  function LineTerminatorIndex(s: string): (q: nat)
    ensures q <= |s|
    ensures forall i | 0 <= i < q :: !IsLineTerminator(s[i])
    ensures q < |s| ==> IsLineTerminator(s[q])
  {
    if |s| == 0 || IsLineTerminator(s[0]) then 0 else 1 + LineTerminatorIndex(s[1..])
  }

  /** `name.replace(/(.+)\..*&#47;, '$1')`: the first line (run between line
      terminators) that has a `.` after its first character loses the text from
      its last such `.` to the end of that line. */
  function StripExtension(s: string): (r: string)
    ensures (forall i | 0 <= i < |s| :: !IsLineTerminator(s[i])) && LastIndexOf(s, ".") >= 1 ==>
      r == s[..LastIndexOf(s, ".")]
    ensures (forall i | 0 <= i < |s| :: !IsLineTerminator(s[i])) && LastIndexOf(s, ".") < 1 ==>
      r == s
    ensures '/' !in s ==> '/' !in r
    decreases |s|
  {
    var q := LineTerminatorIndex(s);
    var d := LastIndexOf(s[..q], ".");
    if d >= 1 then
      assert q == |s| ==> s[..q] == s;
      assert q == |s| ==> LastIndexOf(s, ".") == d;
      s[..d] + s[q..]
    else if q == |s| then
      assert s[..q] == s;
      s
    else
      var r := s[..q + 1] + StripExtension(s[q + 1..]);
      assert '/' !in s ==> '/' !in s[..q + 1] && '/' !in s[q + 1..];
      r
  }

  /** `fp.split('/')`'s last element. */
  function SplitLastPart(fp: string): (r: string)
    ensures r == LastSegment(fp, '/')
  {
    var parts := Split(fp, '/');
    SplitLast(fp, '/');
    parts[|parts| - 1]
  }

  /** `fp.split('/')`'s last element but one, when `fp` holds a `/`. */
  function SplitSecondLastPart(fp: string): (r: string)
    requires '/' in fp
    ensures r == LastSegment(BeforeLast(fp, '/'), '/')
  {
    var parts := Split(fp, '/');
    SplitSecondLast(fp, '/');
    parts[|parts| - 2]
  }

  /** `getFileName`: the last path segment without its extension, or the parent
      segment when that is `index`; nothing for a bare `index`. */
  function FileName(path: string): (r: Option<string>)
    ensures var fp := FormatFilePath(path);
      var stem := StripExtension(LastSegment(fp, '/'));
      && (stem != "index" ==> r == Some(stem))
      && (stem == "index" && '/' in fp ==> r == Some(LastSegment(BeforeLast(fp, '/'), '/')))
      && (stem == "index" && '/' !in fp ==> r == None)
  {
    NameOf(FormatFilePath(path))
  }

  /** `getFileName` after the path is formatted. */
  function NameOf(fp: string): (r: Option<string>)
    ensures var stem := StripExtension(LastSegment(fp, '/'));
      && (stem != "index" ==> r == Some(stem))
      && (stem == "index" && '/' in fp ==> r == Some(LastSegment(BeforeLast(fp, '/'), '/')))
      && (stem == "index" && '/' !in fp ==> r == None)
  {
    var name := StripExtension(SplitLastPart(fp));
    if name != "index" then Some(name)
    else if '/' in fp then Some(SplitSecondLastPart(fp))
    else None
  }
}
