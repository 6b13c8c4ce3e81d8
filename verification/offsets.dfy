/** The editor's document reduced to its text: positions are offsets into it,
    the host's `positionAt` clamps an offset into `[0, |doc|]`, and a line
    number counts the `'\n'` characters before an offset. */
module Offsets {
  import opened JsText

  /** `document.offsetAt(document.positionAt(off))`: the host clamps an offset
      into the document. */
  function Validate(len: nat, off: int): (r: nat)
    ensures r <= len
    ensures 0 <= off <= len ==> r == off
    ensures off < 0 ==> r == 0
    ensures off > len ==> r == len
  {
    Clamp(off, len)
  }

  /** `positionOffset`: the cursor offset `at` moved by `delta`, kept on a
      character of the document. */
  function PositionOffset(len: nat, at: nat, delta: int): (r: nat)
    requires at <= len
    ensures len > 0 ==> r < len
    ensures len > 0 && 0 <= at + delta < len ==> r == at + delta
    ensures at + delta < 0 ==> r == 0
    ensures at + delta >= len ==> r == if len == 0 then 0 else len - 1
  {
    var max := len - 1;
    var index := at + delta;
    var index' := if index < 0 then 0 else if index > max then max else index;
    Validate(len, index')
  }

  /** Number of line breaks in `s`. */
  function CountNewlines(s: string): nat {
    if |s| == 0 then 0 else CountNewlines(s[..|s| - 1]) + (if s[|s| - 1] == '\n' then 1 else 0)
  }

  lemma {:induction false} CountNewlinesAppend(a: string, b: string)
    ensures CountNewlines(a + b) == CountNewlines(a) + CountNewlines(b)
    decreases |b|
  {
    if |b| > 0 {
      assert (a + b)[..|a + b| - 1] == a + b[..|b| - 1];
      CountNewlinesAppend(a, b[..|b| - 1]);
    } else {
      assert a + b == a;
    }
  }

  lemma {:induction false} CountNewlinesZero(s: string)
    ensures CountNewlines(s) == 0 <==> '\n' !in s
    decreases |s|
  {
    if |s| > 0 {
      CountNewlinesZero(s[..|s| - 1]);
      assert s == s[..|s| - 1] + [s[|s| - 1]];
    }
  }

  /** Zero-based line of an offset (`document.positionAt(off).line`). */
  function LineOf(doc: string, off: int): (r: nat)
    ensures r == 0 <==> '\n' !in doc[..Validate(|doc|, off)]
    ensures r <= CountNewlines(doc)
  {
    CountNewlinesZero(doc[..Validate(|doc|, off)]);
    CountNewlinesMono(doc, Validate(|doc|, off), |doc|);
    assert doc[..|doc|] == doc;
    CountNewlines(doc[..Validate(|doc|, off)])
  }

  /** Two offsets lie on the same line exactly when no line break separates them. */
  lemma SameLineIff(doc: string, a: nat, b: nat)
    requires a <= b <= |doc|
    ensures LineOf(doc, a) == LineOf(doc, b) <==> '\n' !in doc[a..b]
  {
    assert doc[..b] == doc[..a] + doc[a..b];
    CountNewlinesAppend(doc[..a], doc[a..b]);
    CountNewlinesZero(doc[a..b]);
  }

  /** Line breaks before `a` are line breaks before any later `b`. */
  lemma CountNewlinesMono(doc: string, a: nat, b: nat)
    requires a <= b <= |doc|
    ensures CountNewlines(doc[..a]) <= CountNewlines(doc[..b])
  {
    assert doc[..b] == doc[..a] + doc[a..b];
    CountNewlinesAppend(doc[..a], doc[a..b]);
  }

  /** A stretch without line breaks adds none to the count. */
  lemma CountNewlinesFlat(doc: string, a: nat, b: nat)
    requires a <= b <= |doc|
    requires forall j | a <= j < b :: doc[j] != '\n'
    ensures CountNewlines(doc[..b]) == CountNewlines(doc[..a])
  {
    assert doc[..b] == doc[..a] + doc[a..b];
    CountNewlinesAppend(doc[..a], doc[a..b]);
    CountNewlinesZero(doc[a..b]);
  }

  /** Every offset before `r` lies on a line before `line`. */
  predicate BeforeLine(doc: string, r: nat, line: nat)
    requires r <= |doc|
  {
    forall j | 0 <= j < r :: CountNewlines(doc[..j]) < line
  }

  /** Offset where line `line` begins (`new Position(line, 0)`, validated): the
      first offset with `line` line breaks before it, or the end of the
      document when it has fewer lines. */
  function LineStart(doc: string, line: nat): (r: nat)
    ensures r <= |doc|
    ensures CountNewlines(doc[..r]) == line || (r == |doc| && CountNewlines(doc) < line)
    ensures BeforeLine(doc, r, line)
    ensures 0 < r && CountNewlines(doc[..r]) == line ==> doc[r - 1] == '\n'
  {
    if line == 0 then 0
    else
      var p := LineStart(doc, line - 1);
      NextLineStartStep(doc, line, p);
      NextLineStart(doc, p)
  }

  /** Offset just past the first line break at or after `p`, or the end of
      the document when there is none. */
  function NextLineStart(doc: string, p: nat): nat
    requires p <= |doc|
  {
    var i := p + CharIndex(doc[p..], '\n');
    if i == |doc| then i else i + 1
  }

  /** From the start of line `line - 1`, the next line start begins line
      `line`. */
  lemma NextLineStartStep(doc: string, line: nat, p: nat)
    requires 0 < line && p <= |doc|
    requires CountNewlines(doc[..p]) == line - 1 || (p == |doc| && CountNewlines(doc) < line - 1)
    requires BeforeLine(doc, p, line - 1)
    ensures NextLineStart(doc, p) <= |doc|
    ensures var r := NextLineStart(doc, p);
      CountNewlines(doc[..r]) == line || (r == |doc| && CountNewlines(doc) < line)
    ensures BeforeLine(doc, NextLineStart(doc, p), line)
    ensures var r := NextLineStart(doc, p);
      0 < r && CountNewlines(doc[..r]) == line ==> doc[r - 1] == '\n'
  {
    NoBreakBefore(doc, p);
    NextLineCount(doc, line, p);
    NextLineBefore(doc, line, p);
  }

  /** No line break lies between `p` and the first one at or after it. */
  lemma NoBreakBefore(doc: string, p: nat)
    requires p <= |doc|
    ensures var i := p + CharIndex(doc[p..], '\n');
      forall j | p <= j < i :: doc[j] != '\n'
  {
    var i := p + CharIndex(doc[p..], '\n');
    forall j | p <= j < i
      ensures doc[j] != '\n'
    {
      assert doc[j] == doc[p..][j - p];
    }
  }

  lemma NextLineCount(doc: string, line: nat, p: nat)
    requires 0 < line && p <= |doc|
    requires CountNewlines(doc[..p]) == line - 1 || (p == |doc| && CountNewlines(doc) < line - 1)
    requires var i := p + CharIndex(doc[p..], '\n');
      forall j | p <= j < i :: doc[j] != '\n'
    ensures var r := NextLineStart(doc, p);
      CountNewlines(doc[..r]) == line || (r == |doc| && CountNewlines(doc) < line)
    ensures var r := NextLineStart(doc, p);
      0 < r && CountNewlines(doc[..r]) == line ==> doc[r - 1] == '\n'
  {
    var i := p + CharIndex(doc[p..], '\n');
    if i == |doc| {
      NoLaterBreak(doc, p);
      LastLineCount(doc, line, p);
    } else {
      assert doc[i] == doc[p..][i - p];
      NextBreakCounts(doc, p, i);
    }
  }

  /** On the last line the next line start is the end of the document, on a
      line that does not exist. */
  lemma LastLineCount(doc: string, line: nat, p: nat)
    requires 0 < line && p <= |doc|
    requires CountNewlines(doc[..p]) == line - 1 || (p == |doc| && CountNewlines(doc) < line - 1)
    requires NextLineStart(doc, p) == |doc|
    requires CountNewlines(doc) == CountNewlines(doc[..p])
    ensures CountNewlines(doc[..NextLineStart(doc, p)]) < line
    ensures CountNewlines(doc) < line
  {
    assert doc[..|doc|] == doc;
  }

  /** Past the last line break the count stays where it was at `p`. */
  lemma NoLaterBreak(doc: string, p: nat)
    requires p <= |doc|
    requires forall j | p <= j < |doc| :: doc[j] != '\n'
    ensures CountNewlines(doc) == CountNewlines(doc[..p])
  {
    CountNewlinesFlat(doc, p, |doc|);
    assert doc[..|doc|] == doc;
  }

  /** Just past the first line break after `p` the count is one more. */
  lemma NextBreakCounts(doc: string, p: nat, i: nat)
    requires p <= i < |doc| && doc[i] == '\n'
    requires forall j | p <= j < i :: doc[j] != '\n'
    ensures CountNewlines(doc[..i + 1]) == CountNewlines(doc[..p]) + 1
  {
    CountNewlinesFlat(doc, p, i);
    PrefixStep(doc, i);
    CountNewlinesAppend(doc[..i], ['\n']);
  }

  lemma NextLineBefore(doc: string, line: nat, p: nat)
    requires 0 < line && p <= |doc|
    requires CountNewlines(doc[..p]) == line - 1 || (p == |doc| && CountNewlines(doc) < line - 1)
    requires BeforeLine(doc, p, line - 1)
    requires var i := p + CharIndex(doc[p..], '\n');
      forall j | p <= j < i :: doc[j] != '\n'
    ensures BeforeLine(doc, NextLineStart(doc, p), line)
  {
    var i := p + CharIndex(doc[p..], '\n');
    forall j | 0 <= j < NextLineStart(doc, p)
      ensures CountNewlines(doc[..j]) < line
    {
      if j < p {
        assert BeforeLine(doc, p, line - 1);
      } else {
        CountNewlinesFlat(doc, p, j);
      }
    }
  }

  lemma PrefixStep(doc: string, i: nat)
    requires i < |doc|
    ensures doc[..i + 1] == doc[..i] + [doc[i]]
  {
  }

  /** A line whose start comes before a line break count is reached starts no
      later than that offset. */
  lemma LineStartBefore(doc: string, line: nat, off: nat)
    requires off <= |doc| && line <= CountNewlines(doc[..off])
    ensures LineStart(doc, line) <= off
  {
  }

  /** A line that begins at or before `off` begins on that very line number. */
  lemma LineOfLineStart(doc: string, line: nat, off: nat)
    requires off <= |doc| && line <= CountNewlines(doc[..off])
    ensures LineOf(doc, LineStart(doc, line)) == line
  {
    CountNewlinesMono(doc, off, |doc|);
    assert doc[..|doc|] == doc;
  }

  /** A line below the one holding `off` starts after `off`, or at the end. */
  lemma LineStartAfter(doc: string, line: nat, off: nat)
    requires off <= |doc| && CountNewlines(doc[..off]) < line
    ensures off <= LineStart(doc, line)
  {
    var r := LineStart(doc, line);
    if r < off {
      CountNewlinesMono(doc, r, off);
    }
  }

  /** Offset of the first character of the line holding `off`. */
  function LineBegin(doc: string, off: nat): (r: nat)
    requires off <= |doc|
    ensures r <= off
    ensures '\n' !in doc[r..off]
    ensures r > 0 ==> doc[r - 1] == '\n'
  {
    if off == 0 || doc[off - 1] == '\n' then off
    else
      var r := LineBegin(doc, off - 1);
      assert doc[r..off] == doc[r..off - 1] + [doc[off - 1]];
      r
  }

  /** Text of the line holding `off`, without its line break
      (`document.lineAt(line).text`). */
  function LineText(doc: string, off: nat): (r: string)
    requires off <= |doc|
    ensures var b := LineBegin(doc, off);
      && off <= b + |r| <= |doc|
      && r == doc[b..b + |r|]
      && (b + |r| < |doc| ==> doc[b + |r|] == '\n')
    ensures '\n' !in r
  {
    var b := LineBegin(doc, off);
    var n := CharIndex(doc[b..], '\n');
    assert forall j | 0 <= j < off - b :: doc[b..][j] == doc[b..off][j];
    doc[b..b + n]
  }

  /** The indentation of a line: its leading white space, as
      `text.substring(0, firstNonWhitespaceCharacterIndex)`. */
  function Indentation(lineText: string): (r: string)
    ensures r <= lineText
    ensures AllSpace(r)
    ensures |r| < |lineText| ==> !IsSpace(lineText[|r|])
  {
    lineText[..LeadingSpaces(lineText)]
  }
}
