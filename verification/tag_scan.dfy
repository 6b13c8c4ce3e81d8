/** Locating the open tag around the cursor (`src/tools.ts`):
    `getHtmlStartIndex`, `getHtmlEndIndex` and `getNowHtmlTagRange`. The HTML
    check `parser(tag)[0]?.tag` of posthtml-parser is the oracle `accepts`. */
module TagScan {
  import opened Wrappers
  import opened JsText

  /** A `<` at `i` followed, inside `text`, by a word character: where the
      regular expression `/<\w+/` can match. */
  predicate IsTagOpen(text: string, i: int) {
    0 <= i && i + 1 < |text| && text[i] == '<' && IsWordChar(text[i + 1])
  }

  /** End of the run of word characters that starts at `j`. */
  function WordEnd(text: string, j: nat): (e: nat)
    requires j <= |text|
    ensures j <= e <= |text|
    ensures forall i | j <= i < e :: IsWordChar(text[i])
    ensures e < |text| ==> !IsWordChar(text[e])
    decreases |text| - j
  {
    if j < |text| && IsWordChar(text[j]) then WordEnd(text, j + 1) else j
  }

  /** One match of `/<\w+/g`: where it starts and the text it covers. */
  datatype TagOpenMatch = TagOpenMatch(index: nat, text: string)

  /** Every match starts at or after `p` where `/<\w+/` can match, covers
      the whole word there, and the matches run left to right. */
  predicate WellPlacedMatches(text: string, p: nat, ms: seq<TagOpenMatch>) {
    && (forall k | 0 <= k < |ms| :: PlacedMatch(text, p, ms[k]))
    && (forall j, k | 0 <= j < k < |ms| :: ms[j].index < ms[k].index)
  }

  /** `m` starts at or after `p` where `/<\w+/` can match and covers the
      whole word there. */
  predicate PlacedMatch(text: string, p: nat, m: TagOpenMatch) {
    p <= m.index && IsTagOpen(text, m.index) && m.text == text[m.index..WordEnd(text, m.index + 1)]
  }

  /** The matches of `/<\w+/g` in `text` from position `p` on, left to right. */
  function TagOpenMatches(text: string, p: nat): (ms: seq<TagOpenMatch>)
    ensures WellPlacedMatches(text, p, ms)
    decreases |text| - p
  {
    if p >= |text| then []
    else if IsTagOpen(text, p) then
      var e := WordEnd(text, p + 1);
      var rest := TagOpenMatches(text, e);
      WellPlacedCons(text, p, rest);
      [TagOpenMatch(p, text[p..e])] + rest
    else TagOpenMatches(text, p + 1)
  }

  /** A match at `p` put before well-placed matches from the end of its word
      on keeps the matches well placed. */
  lemma WellPlacedCons(text: string, p: nat, rest: seq<TagOpenMatch>)
    requires IsTagOpen(text, p)
    requires WellPlacedMatches(text, WordEnd(text, p + 1), rest)
    ensures WellPlacedMatches(text, p, [TagOpenMatch(p, text[p..WordEnd(text, p + 1)])] + rest)
  {
    var e := WordEnd(text, p + 1);
    var first := TagOpenMatch(p, text[p..e]);
    var ms := [first] + rest;
    forall k | 0 <= k < |ms|
      ensures PlacedMatch(text, p, ms[k])
    {
      if k > 0 {
        assert ms[k] == rest[k - 1] && PlacedMatch(text, e, rest[k - 1]);
      }
    }
    forall j, k | 0 <= j < k < |ms|
      ensures ms[j].index < ms[k].index
    {
      assert ms[k] == rest[k - 1] && PlacedMatch(text, e, rest[k - 1]);
      if j > 0 {
        assert ms[j] == rest[j - 1];
      }
    }
  }

  /** `ms`, the matches from `p` on, are empty exactly when no `<` followed
      by a word character lies at or after `p`, and otherwise end with the
      match at the rightmost such `<`. */
  predicate LastOf(text: string, p: nat, ms: seq<TagOpenMatch>) {
    && (|ms| == 0 <==> NoTagOpenAfter(text, p - 1))
    && (|ms| > 0 ==> IsLastTagOpen(text, p, ms[|ms| - 1]))
  }

  /** The last match of `/<\w+/g` starts at the rightmost `<` followed by a
      word character, and there is none exactly when no such `<` exists. */
  lemma {:induction false} LastTagOpenMatch(text: string, p: nat)
    ensures LastOf(text, p, TagOpenMatches(text, p))
    decreases |text| - p
  {
    if p < |text| {
      if IsTagOpen(text, p) {
        LastTagOpenMatch(text, WordEnd(text, p + 1));
        LastMatchFromOpen(text, p);
      } else {
        LastTagOpenMatch(text, p + 1);
        LastMatchPastOther(text, p);
      }
    }
  }

  /** The step of `LastTagOpenMatch` at a position where `/<\w+/` does not
      match. */
  lemma LastMatchPastOther(text: string, p: nat)
    requires p < |text| && !IsTagOpen(text, p)
    requires LastOf(text, p + 1, TagOpenMatches(text, p + 1))
    ensures LastOf(text, p, TagOpenMatches(text, p))
  {
    assert TagOpenMatches(text, p) == TagOpenMatches(text, p + 1);
  }

  /** The step of `LastTagOpenMatch` at a position where `/<\w+/` matches. */
  lemma LastMatchFromOpen(text: string, p: nat)
    requires IsTagOpen(text, p)
    requires LastOf(text, WordEnd(text, p + 1), TagOpenMatches(text, WordEnd(text, p + 1)))
    ensures LastOf(text, p, TagOpenMatches(text, p))
  {
    var e := WordEnd(text, p + 1);
    var rest := TagOpenMatches(text, e);
    var first := TagOpenMatch(p, text[p..e]);
    assert TagOpenMatches(text, p) == [first] + rest;
    if |rest| == 0 {
      OnlyOpenFrom(text, p, e);
      LastOfSingle(text, p, first);
    } else {
      LastOfLater(text, p, e, first, rest);
    }
  }

  lemma LastOfSingle(text: string, p: nat, first: TagOpenMatch)
    requires IsTagOpen(text, p) && IsLastTagOpen(text, p, first)
    ensures LastOf(text, p, [first])
  {
    assert !NoTagOpenAfter(text, p - 1) by { assert IsTagOpen(text, p); }
  }

  lemma LastOfLater(text: string, p: nat, e: nat, first: TagOpenMatch, rest: seq<TagOpenMatch>)
    requires IsTagOpen(text, p) && p <= e
    requires |rest| > 0 && IsLastTagOpen(text, e, rest[|rest| - 1])
    ensures LastOf(text, p, [first] + rest)
  {
    assert !NoTagOpenAfter(text, p - 1) by { assert IsTagOpen(text, p); }
    assert ([first] + rest)[|rest|] == rest[|rest| - 1];
  }

  /** A match with no other match after its word is the last one. */
  lemma OnlyOpenFrom(text: string, p: nat, e: nat)
    requires IsTagOpen(text, p) && e == WordEnd(text, p + 1)
    requires NoTagOpenAfter(text, e - 1)
    ensures IsLastTagOpen(text, p, TagOpenMatch(p, text[p..e]))
  {
    NoTagOpenInWord(text, p, e);
  }

  /** `/<\w+/` cannot match after index `i`. */
  predicate NoTagOpenAfter(text: string, i: int) {
    forall j | i < j < |text| :: !IsTagOpen(text, j)
  }

  /** `m` is the match of `/<\w+/` that starts at the rightmost possible place
      at or after `p`. */
  predicate IsLastTagOpen(text: string, p: nat, m: TagOpenMatch) {
    && p <= m.index && IsTagOpen(text, m.index)
    && NoTagOpenAfter(text, m.index)
    && m.text == text[m.index..WordEnd(text, m.index + 1)]
  }

  /** No match starts inside the word of a match. */
  lemma NoTagOpenInWord(text: string, p: nat, e: nat)
    requires IsTagOpen(text, p) && e == WordEnd(text, p + 1)
    ensures forall j | p < j < e :: !IsTagOpen(text, j)
  {
    forall j | p < j < e
      ensures !IsTagOpen(text, j)
    {
      assert IsWordChar(text[j]);
    }
  }

  /** `text.lastIndexOf(m)` for the last match `m` finds that match again. */
  lemma LastIndexOfLastMatch(text: string, i: nat)
    requires IsTagOpen(text, i)
    requires NoTagOpenAfter(text, i)
    ensures LastIndexOf(text, text[i..WordEnd(text, i + 1)]) == i
  {
    var e := WordEnd(text, i + 1);
    var m := text[i..e];
    assert OccursAt(text, m, i);
    var r := LastIndexOf(text, m);
    if r > i {
      CopyOfMatchIsTagOpen(text, i, r);
    }
  }

  /** Wherever the text of a match occurs, `/<\w+/` could match too. */
  lemma CopyOfMatchIsTagOpen(text: string, i: nat, r: nat)
    requires IsTagOpen(text, i)
    requires OccursAt(text, text[i..WordEnd(text, i + 1)], r)
    ensures IsTagOpen(text, r)
  {
    var m := text[i..WordEnd(text, i + 1)];
    assert text[r] == m[0] && text[r + 1] == m[1];
  }

  /** The text `getHtmlStartIndex` searches: the document up to and including
      the character at the cursor. */
  function UpToCursor(doc: string, cursor: nat): string
    requires cursor <= |doc|
  {
    doc[..Clamp(cursor + 1, |doc|)]
  }

  /** The start of the last `/<\w+/` match in `text`, found back with
      `lastIndexOf` (which always finds it, so its `-1` branch is dead). */
  function LastTagOpen(text: string): (r: Option<nat>)
    ensures r.None? <==> NoTagOpenAfter(text, -1)
    ensures r.Some? ==> IsTagOpen(text, r.value) && NoTagOpenAfter(text, r.value)
  {
    var matchArr := TagOpenMatches(text, 0);
    LastTagOpenMatch(text, 0);
    if |matchArr| == 0 then None
    else
      var last := matchArr[|matchArr| - 1];
      LastIndexOfLastMatch(text, last.index);
      Some(LastIndexOf(text, last.text))
  }

  /** `getHtmlStartIndex`: the cursor itself when the searched text ends in
      `<`, otherwise the start of the last `/<\w+/` match. */
  function StartIndex(doc: string, cursor: nat): (r: Option<nat>)
    requires cursor <= |doc|
    ensures var text := UpToCursor(doc, cursor);
      && (|text| > 0 && text[|text| - 1] == '<' ==> r == Some(cursor))
      && (!(|text| > 0 && text[|text| - 1] == '<') ==>
            && (r.None? <==> NoTagOpenAfter(text, -1))
            && (r.Some? ==> IsTagOpen(text, r.value) && NoTagOpenAfter(text, r.value)))
    ensures r.Some? ==> r.value <= cursor && (r.value == |doc| || doc[r.value] == '<')
  {
    var text := UpToCursor(doc, cursor);
    if |text| > 0 && text[|text| - 1] == '<' then
      assert cursor < |doc| ==> doc[cursor] == text[|text| - 1];
      Some(cursor)
    else
      var r := LastTagOpen(text);
      assert r.Some? ==> doc[r.value] == text[r.value];
      r
  }

  /** A start found is found again when the search starts from it. */
  lemma StartIndexFixedPoint(doc: string, cursor: nat, s: nat)
    requires cursor <= |doc| && StartIndex(doc, cursor) == Some(s)
    ensures StartIndex(doc, s) == Some(s)
  {
    if s < cursor {
      assert UpToCursor(doc, s)[s] == doc[s] == '<';
    }
  }

  /** No `>` at index `k - 1`, for `lo < k < hi`, closes a text from `from`
      that the HTML check accepts. */
  predicate NoEndBetween(text: string, from: nat, lo: nat, hi: int, accepts: string -> bool) {
    forall k | lo < k < hi && from <= k <= |text| :: text[k - 1] == '>' ==> !accepts(text[from..k])
  }

  /** The loop of `getHtmlEndIndex` over `text` (the document from the tag's
      start), resumed at `lastIndex`: the offset just past the first `>` whose
      prefix the HTML check accepts. */
  function EndScan(text: string, lastIndex: nat, accepts: string -> bool): (r: Option<nat>)
    requires lastIndex <= |text|
    ensures r.Some? ==> lastIndex < r.value <= |text| && text[r.value - 1] == '>' && accepts(text[..r.value])
    ensures NoEndBetween(text, 0, lastIndex, if r.None? then |text| + 1 else r.value, accepts)
    decreases |text| - lastIndex
  {
    var m := lastIndex + CharIndex(text[lastIndex..], '>');
    if m == |text| then None
    else if accepts(text[..m + 1]) then Some(m + 1)
    else if m + 1 < |text| then EndScan(text, m + 1, accepts)
    else None
  }

  /** `getHtmlEndIndex`: one past the first `>` at or after `before` whose
      prefix (from `before`) the HTML check accepts as an element. */
  function EndIndex(doc: string, before: nat, accepts: string -> bool): (r: Option<nat>)
    requires before <= |doc|
    ensures r.Some? ==> before < r.value <= |doc| && doc[r.value - 1] == '>' && accepts(doc[before..r.value])
    ensures NoEndBetween(doc, before, before, if r.None? then |doc| + 1 else r.value, accepts)
  {
    var text := doc[before..];
    var scan := EndScan(text, 0, accepts);
    var res := if scan.None? then None else Some(before + scan.value);
    ShiftNoEnd(doc, before, if scan.None? then |text| + 1 else scan.value, accepts);
    assert scan.Some? ==> text[..scan.value] == doc[before..before + scan.value];
    res
  }

  /** Moving the scanned text's origin to `before` in the document. */
  lemma ShiftNoEnd(doc: string, before: nat, hi: int, accepts: string -> bool)
    requires before <= |doc|
    requires NoEndBetween(doc[before..], 0, 0, hi, accepts)
    ensures NoEndBetween(doc, before, before, before + hi, accepts)
  {
    var text := doc[before..];
    forall k | before < k < before + hi && before <= k <= |doc|
      ensures doc[k - 1] == '>' ==> !accepts(doc[before..k])
    {
      assert text[0..k - before] == doc[before..k];
      assert text[k - before - 1] == doc[k - 1];
    }
  }

  /** The range of one open tag: `[start, end)` in the document. */
  datatype TagRange = TagRange(start: nat, end: nat)

  /** `getNowHtmlTagRange` exactly as written, cut off after `fuel` rounds:
      `None` means the rounds ran out, `Some(None)` the early return. A failed
      end search resumes the start search from the start just found. */
  function NowTagRangeAsWritten(doc: string, cursor: nat, accepts: string -> bool, fuel: nat)
    : (r: Option<Option<TagRange>>)
    requires cursor <= |doc|
    ensures r.Some? && r.value.Some? ==> StartIndex(doc, cursor) == Some(r.value.value.start)
    decreases fuel
  {
    if fuel == 0 then None
    else
      match StartIndex(doc, cursor)
      case None => Some(None)
      case Some(before) =>
        match EndIndex(doc, before, accepts)
        case Some(after) => Some(Some(TagRange(before, after)))
        case None =>
          var r := NowTagRangeAsWritten(doc, before, accepts, fuel - 1);
          StartIndexFixedPoint(doc, cursor, before);
          r
  }

  /** Once the end search fails, the written loop never finishes: every round
      finds the same start again and fails again. */
  lemma {:induction false} NowTagRangeAsWrittenStalls(doc: string, cursor: nat, accepts: string -> bool, fuel: nat)
    requires cursor <= |doc|
    requires StartIndex(doc, cursor).Some?
    requires EndIndex(doc, StartIndex(doc, cursor).value, accepts).None?
    ensures NowTagRangeAsWritten(doc, cursor, accepts, fuel).None?
    decreases fuel
  {
    if fuel > 0 {
      var before := StartIndex(doc, cursor).value;
      StartIndexFixedPoint(doc, cursor, before);
      NowTagRangeAsWrittenStalls(doc, before, accepts, fuel - 1);
    }
  }

  /** An unterminated tag: with the cursor inside `<a`, the written loop runs
      out of every budget of rounds. */
  lemma UnterminatedTagStalls(accepts: string -> bool, fuel: nat)
    ensures NowTagRangeAsWritten("<a", 1, accepts, fuel).None?
  {
    assert UpToCursor("<a", 1) == "<a";
    assert IsTagOpen("<a", 0);
    assert StartIndex("<a", 1) == Some(0);
    assert CharIndex("<a", '>') == 2;
    assert EndIndex("<a", 0, accepts).None?;
    NowTagRangeAsWrittenStalls("<a", 1, accepts, fuel);
  }

  /** `getNowHtmlTagRange` with the retry moved one character before the `<`
      just found. The written loop retries from that `<` itself, and
      `StartIndexFixedPoint` shows the start search then returns the same
      `<` again, so the only retry that can make progress is one that moves
      back; the corrected search walks backwards and stops at the start of
      the document. A range found is the nearest one: no `<` followed by a
      word character between its start and the cursor has an accepted end,
      and when nothing is found, none at or before the cursor has one. */
  function NowTagRange(doc: string, cursor: nat, accepts: string -> bool): (r: Option<TagRange>)
    requires cursor <= |doc|
    ensures r.Some? ==> r.value.start <= cursor && IsTagRange(doc, r.value, accepts)
    ensures r.Some? ==> NoTagCloses(doc, r.value.start, cursor, accepts)
    ensures r.None? ==> NoTagCloses(doc, -1, cursor, accepts)
    decreases cursor
  {
    StartIndexSkips(doc, cursor);
    match StartIndex(doc, cursor)
    case None => None
    case Some(before) =>
      match EndIndex(doc, before, accepts)
      case Some(after) =>
        FoundRange(doc, cursor, before, after, accepts);
        Some(TagRange(before, after))
      case None =>
        if before == 0 then
          ClosesJoin(doc, -1, before, cursor, accepts);
          None
        else
          var r := NowTagRange(doc, before - 1, accepts);
          ClosesJoin(doc, if r.None? then -1 else r.value.start, before, cursor, accepts);
          r
  }

  /** No `/<\w+/` match can start in `(lo, hi]` of the document. */
  predicate NoTagOpenIn(doc: string, lo: int, hi: int) {
    forall p | lo < p <= hi :: !IsTagOpen(doc, p)
  }

  /** No `<` followed by a word character in `(lo, hi]` has an end that the
      HTML check accepts. */
  predicate NoTagCloses(doc: string, lo: int, hi: int, accepts: string -> bool) {
    forall p | lo < p <= hi && IsTagOpen(doc, p) :: EndIndex(doc, p, accepts).None?
  }

  /** `getHtmlStartIndex` skips no `<` followed by a word character: between
      the start it returns and the cursor there is none, and when it returns
      nothing there is none at or before the cursor. */
  lemma StartIndexSkips(doc: string, c: nat)
    requires c <= |doc|
    ensures StartIndex(doc, c).None? ==> NoTagOpenIn(doc, -1, c)
    ensures StartIndex(doc, c).Some? ==> NoTagOpenIn(doc, StartIndex(doc, c).value, c)
  {
    var text := UpToCursor(doc, c);
    if !(|text| > 0 && text[|text| - 1] == '<') {
      var s: int := if StartIndex(doc, c).None? then -1 else StartIndex(doc, c).value;
      assert NoTagOpenAfter(text, s);
      forall p | s < p <= c
        ensures !IsTagOpen(doc, p)
      {
        if p < c && p + 1 < |text| {
          assert text[p] == doc[p] && text[p + 1] == doc[p + 1];
          assert !IsTagOpen(text, p);
        }
      }
    }
  }

  /** Joining what the retry established below `before`, the failed end
      search at `before`, and the skipped stretch up to the cursor. */
  lemma ClosesJoin(doc: string, lo: int, before: nat, hi: nat, accepts: string -> bool)
    requires lo < before <= hi <= |doc|
    requires lo + 1 == before || NoTagCloses(doc, lo, before - 1, accepts)
    requires EndIndex(doc, before, accepts).None?
    requires NoTagOpenIn(doc, before, hi)
    ensures NoTagCloses(doc, lo, hi, accepts)
  {
    forall p | lo < p <= hi
      ensures IsTagOpen(doc, p) ==> EndIndex(doc, p, accepts).None?
    {
      if before < p {
        assert !IsTagOpen(doc, p);
      } else if p < before && lo + 1 < before {
        assert NoTagCloses(doc, lo, before - 1, accepts);
      }
    }
  }

  /** A start and an end found make a range with the promised properties. */
  lemma FoundRange(doc: string, cursor: nat, before: nat, after: nat, accepts: string -> bool)
    requires cursor <= |doc| && StartIndex(doc, cursor) == Some(before)
    requires before <= |doc| && EndIndex(doc, before, accepts) == Some(after)
    ensures before <= cursor && IsTagRange(doc, TagRange(before, after), accepts)
  {
  }

  /** `range` runs from a `<` to a `>` of `doc`, its text is accepted, and no
      shorter text from the same `<` ending in `>` is. */
  predicate IsTagRange(doc: string, range: TagRange, accepts: string -> bool) {
    && range.start < range.end <= |doc|
    && doc[range.start] == '<' && doc[range.end - 1] == '>'
    && accepts(doc[range.start..range.end])
    && NoEndBetween(doc, range.start, range.start, range.end, accepts)
  }

  /** Whenever the written loop does finish, the corrected search gives the
      same answer. */
  lemma NowTagRangeAgrees(doc: string, cursor: nat, accepts: string -> bool, fuel: nat)
    requires cursor <= |doc|
    requires NowTagRangeAsWritten(doc, cursor, accepts, fuel).Some?
    ensures NowTagRange(doc, cursor, accepts) == NowTagRangeAsWritten(doc, cursor, accepts, fuel).value
  {
    var s := StartIndex(doc, cursor);
    if s.Some? && EndIndex(doc, s.value, accepts).None? {
      NowTagRangeAsWrittenStalls(doc, cursor, accepts, fuel);
    }
  }
}
