/** The nearest-item rule of `src/tools.ts`: `xs.indexOf(Math.min(...xs))`
    over a list of distances, used by `getNearPosition`, `getNearHtmlAttr` and
    `getNearMatch`. */
module Nearest {
  import opened Wrappers
  import opened Offsets

  function Abs(x: int): nat {
    if x < 0 then -x else x
  }

  /** Distance from `at` to the nearer end of the span `[start, end]`. */
  function SpanDistance(at: int, start: int, end: int): (d: nat)
    ensures d <= Abs(at - start) && d <= Abs(at - end)
    ensures d == Abs(at - start) || d == Abs(at - end)
  {
    if Abs(at - start) <= Abs(at - end) then Abs(at - start) else Abs(at - end)
  }

  /** `k` is a smallest element of `xs` and no earlier element is as small. */
  predicate IsFirstMin(xs: seq<int>, k: int) {
    && 0 <= k < |xs|
    && (forall j | 0 <= j < |xs| :: xs[k] <= xs[j])
    && (forall j | 0 <= j < k :: xs[k] < xs[j])
  }

  /** At most one index is the first smallest one. */
  lemma FirstMinUnique(xs: seq<int>, a: int, b: int)
    requires IsFirstMin(xs, a) && IsFirstMin(xs, b)
    ensures a == b
  {
    assert xs[a] == xs[b];
  }

  /** `Math.min(...xs)` for a non-empty list. */
  function Min(xs: seq<int>): (m: int)
    requires |xs| > 0
    ensures m in xs
    ensures forall j | 0 <= j < |xs| :: m <= xs[j]
  {
    if |xs| == 1 then xs[0]
    else
      var m := Min(xs[1..]);
      assert forall j | 1 <= j < |xs| :: xs[j] == xs[1..][j - 1];
      if xs[0] <= m then xs[0] else m
  }

  /** `xs.indexOf(v)`: the first position holding `v`, or -1. */
  function FirstIndex(xs: seq<int>, v: int): (k: int)
    ensures k == -1 <==> v !in xs
    ensures k != -1 ==> 0 <= k < |xs| && xs[k] == v && forall j | 0 <= j < k :: xs[j] != v
  {
    if |xs| == 0 then -1
    else if xs[0] == v then 0
    else
      var k := FirstIndex(xs[1..], v);
      assert forall j | 1 <= j < |xs| :: xs[j] == xs[1..][j - 1];
      if k == -1 then -1 else k + 1
  }

  /** `xs.indexOf(Math.min(...xs))`: the first smallest element. */
  function ArgMin(xs: seq<int>): (k: nat)
    requires |xs| > 0
    ensures IsFirstMin(xs, k)
  {
    FirstIndex(xs, Min(xs))
  }

  function PointDistances(at: int, points: seq<int>): (ds: seq<int>)
    ensures |ds| == |points|
    ensures forall i | 0 <= i < |points| :: ds[i] == Abs(at - points[i])
    ensures forall i | 0 <= i < |points| :: ds[i] == 0 <==> points[i] == at
  {
    seq(|points|, i requires 0 <= i < |points| => Abs(at - points[i]))
  }

  /** `getNearPosition`, with positions given as document offsets: the first of
      the positions closest to `at`; nothing for an empty list. */
  function NearPosition(at: int, positions: seq<int>): (r: Option<int>)
    ensures r.None? <==> |positions| == 0
    ensures r.Some? ==> exists k :: IsFirstMin(PointDistances(at, positions), k) && r.value == positions[k]
    ensures r.Some? ==> r.value in positions && forall p | p in positions :: Abs(at - r.value) <= Abs(at - p)
  {
    if |positions| == 0 then None
    else
      var ds := PointDistances(at, positions);
      var k := ArgMin(ds);
      Some(positions[k])
  }

  /** One element of `text.matchAll(reg)`: where it starts and what it matched. */
  datatype RegexMatch = RegexMatch(index: nat, value: string)

  /** What `getNearMatch` returns: the matched text and its document range. */
  datatype NearMatchResult = NearMatchResult(value: string, start: nat, end: nat)

  /** The text `getNearMatch` searches: from the start of the line above the
      cursor (of the cursor's line when it is the first) to the start of the
      second line below it, or the end of the document. */
  function MatchWindow(doc: string, cursor: nat): (w: (nat, nat))
    requires cursor <= |doc|
    ensures IsMatchWindow(doc, cursor, w.0, w.1)
  {
    var line := LineOf(doc, cursor);
    var first := if line == 0 then 0 else line - 1;
    var a := LineStart(doc, first);
    var b := LineStart(doc, line + 2);
    WindowFacts(doc, cursor, line, first, a, b);
    (a, b)
  }

  /** `[a, b)` is `Range(line - 1, 0, line + 2, 0)` for the cursor's line:
      `a` starts the line above (line 0 when there is none) and `b` starts
      the second line below, or is the end of a document without one. */
  predicate IsMatchWindow(doc: string, cursor: nat, a: nat, b: nat) {
    var line := LineOf(doc, cursor);
    && a <= cursor <= b <= |doc|
    && LineOf(doc, a) == (if line == 0 then 0 else line - 1)
    && (a == 0 || doc[a - 1] == '\n')
    && (CountNewlines(doc) >= line + 2 ==> LineOf(doc, b) == line + 2 && 0 < b && doc[b - 1] == '\n')
    && (CountNewlines(doc) < line + 2 ==> b == |doc|)
  }

  lemma WindowFacts(doc: string, cursor: nat, line: nat, first: nat, a: nat, b: nat)
    requires cursor <= |doc| && line == LineOf(doc, cursor)
    requires first == (if line == 0 then 0 else line - 1)
    requires a == LineStart(doc, first) && b == LineStart(doc, line + 2)
    ensures IsMatchWindow(doc, cursor, a, b)
  {
    WindowStart(doc, cursor, first);
    WindowEnd(doc, cursor, line);
    if CountNewlines(doc) >= line + 2 {
      WindowEndBelow(doc, line, b);
    } else {
      WindowEndShort(doc, line, b);
    }
  }

  /** The window starts at or before the cursor, at the start of line
      `first`. */
  lemma WindowStart(doc: string, cursor: nat, first: nat)
    requires cursor <= |doc| && first <= LineOf(doc, cursor)
    ensures LineStart(doc, first) <= cursor
    ensures LineOf(doc, LineStart(doc, first)) == first
    ensures LineStart(doc, first) == 0 || doc[LineStart(doc, first) - 1] == '\n'
  {
    LineStartBefore(doc, first, cursor);
    LineOfLineStart(doc, first, cursor);
  }

  /** The window ends at or after the cursor. */
  lemma WindowEnd(doc: string, cursor: nat, line: nat)
    requires cursor <= |doc| && line == LineOf(doc, cursor)
    ensures cursor <= LineStart(doc, line + 2)
  {
    LineStartAfter(doc, line + 2, cursor);
  }

  /** When the document has a second line below the cursor's, the window
      ends just after the line break that starts it. */
  lemma WindowEndBelow(doc: string, line: nat, b: nat)
    requires b == LineStart(doc, line + 2) && CountNewlines(doc) >= line + 2
    ensures LineOf(doc, b) == line + 2 && 0 < b && doc[b - 1] == '\n'
  {
    CountNewlinesMono(doc, b, |doc|);
    assert doc[..|doc|] == doc;
    assert LineOf(doc, b) == CountNewlines(doc[..b]);
  }

  /** Otherwise the window runs to the end of the document. */
  lemma WindowEndShort(doc: string, line: nat, b: nat)
    requires b == LineStart(doc, line + 2) && CountNewlines(doc) < line + 2
    ensures b == |doc|
  {
    CountNewlinesMono(doc, b, |doc|);
    assert doc[..|doc|] == doc;
  }

  function MatchDistances(at: int, matches: seq<RegexMatch>): (ds: seq<int>)
    ensures |ds| == |matches|
    ensures forall i | 0 <= i < |matches| ::
      ds[i] == SpanDistance(at, matches[i].index, matches[i].index + |matches[i].value|)
  {
    seq(|matches|, i requires 0 <= i < |matches| =>
      SpanDistance(at, matches[i].index, matches[i].index + |matches[i].value|))
  }

  /** Offset where the line holding `off` ends: its line break, or the end
      of the document. */
  function LineEnd(doc: string, off: nat): (e: nat)
    requires off <= |doc|
    ensures off <= e <= |doc|
    ensures '\n' !in doc[off..e]
    ensures e < |doc| ==> doc[e] == '\n'
  {
    var b := LineBegin(doc, off);
    var e := b + |LineText(doc, off)|;
    assert doc[off..e] == LineText(doc, off)[off - b..];
    e
  }

  /** `startPosition.translate(0, length)` once the host validates it: the
      character moves by `length` but stays on the start's line. */
  function TranslateOnLine(doc: string, start: nat, length: nat): (e: nat)
    requires start <= |doc|
    ensures start <= e <= |doc|
    ensures '\n' !in doc[start..e]
    ensures e == start + length || (e < start + length && (e == |doc| || doc[e] == '\n'))
  {
    var lineEnd := LineEnd(doc, start);
    if start + length <= lineEnd then
      assert forall j | 0 <= j < length :: doc[start..start + length][j] == doc[start..lineEnd][j];
      start + length
    else lineEnd
  }

  /** `res` reports match `k`: the first nearest to the cursor, measured
      within the window starting at offset `ws`. */
  predicate ReportsMatch(doc: string, ws: nat, cursor: nat, matches: seq<RegexMatch>, k: int, res: NearMatchResult) {
    && IsFirstMin(MatchDistances(cursor - ws, matches), k)
    && 0 <= k < |matches|
    && res.value == matches[k].value
    && res.start == Validate(|doc|, ws + matches[k].index)
  }

  /** The range `getNearMatch` reports lies on one line: it runs `|value|`
      characters from its start, or stops early at the end of that line. */
  predicate OnStartLine(doc: string, res: NearMatchResult) {
    && res.start <= res.end <= |doc|
    && '\n' !in doc[res.start..res.end]
    && (res.end == res.start + |res.value| || (res.end < res.start + |res.value| && (res.end == |doc| || doc[res.end] == '\n')))
  }

  /** `getNearMatch` for matches found in the text from offset `ws` on. */
  function NearMatchIn(doc: string, ws: nat, cursor: nat, matches: seq<RegexMatch>): (r: Option<NearMatchResult>)
    requires ws <= cursor <= |doc|
    ensures r.None? <==> |matches| == 0
    ensures r.Some? ==> exists k :: ReportsMatch(doc, ws, cursor, matches, k, r.value)
    ensures r.Some? ==> OnStartLine(doc, r.value)
  {
    if |matches| == 0 then None
    else
      var k := ArgMin(MatchDistances(cursor - ws, matches));
      var m := matches[k];
      var startPosition := Validate(|doc|, ws + m.index);
      var res := NearMatchResult(m.value, startPosition, TranslateOnLine(doc, startPosition, |m.value|));
      assert ReportsMatch(doc, ws, cursor, matches, k, res);
      Some(res)
  }

  /** `getNearMatch`: `matches` are the regular expression's matches in the
      text of `MatchWindow(doc, cursor)`; the result is the first match whose
      start or end is nearest the cursor, with its document range, which
      ends `|value|` characters on or at the end of the start's line. */
  function NearMatch(doc: string, cursor: nat, matches: seq<RegexMatch>): (r: Option<NearMatchResult>)
    requires cursor <= |doc|
    ensures r.None? <==> |matches| == 0
    ensures r.Some? ==> exists k :: ReportsMatch(doc, MatchWindow(doc, cursor).0, cursor, matches, k, r.value)
    ensures r.Some? ==> OnStartLine(doc, r.value)
  {
    NearMatchIn(doc, MatchWindow(doc, cursor).0, cursor, matches)
  }
}
