/** The `dawn-tools.html.format` command (`src/html.ts`): the tag around the
    cursor is rewritten with its attributes either one per line (when the
    first attribute sits on the tag's own line) or all on one line. */
module HtmlFormat {
  import opened Wrappers
  import opened JsText
  import opened Offsets
  import opened TagAst
  import opened TagScan

  /** The ways the command throws on the hyntax node. */
  datatype FormatFault =
    | NoAttributes      // `ast.attributes.flatMap` on a tag without attributes
    | KeyMissing        // `attr.key.content` on an attribute without a key
    | WrapperMissing    // `attr.startWrapper.content` or `attr.endWrapper.content` on an unquoted value
    | NoKeyedAttribute  // `firstAttr.key` when no attribute has a non-blank key

  /** Reading this attribute's text throws. */
  predicate Broken(a: RawAttr) {
    a.key.None? || (a.value.Some? && (a.startWrapper.None? || a.endWrapper.None?))
  }

  function FaultOf(a: RawAttr): FormatFault
    requires Broken(a)
  {
    if a.key.None? then KeyMissing else WrapperMissing
  }

  /** The trimmed text of an attribute that is not broken. */
  function FormatText(a: RawAttr): string {
    if a.key.None? then "" else Trim(AttrText(a.key.value.content, a.startWrapper, a.value, a.endWrapper))
  }

  function FormatTexts(attrs: seq<RawAttr>): (r: seq<string>)
    ensures |r| == |attrs| && forall i | 0 <= i < |attrs| :: r[i] == FormatText(attrs[i])
  {
    seq(|attrs|, i requires 0 <= i < |attrs| => FormatText(attrs[i]))
  }

  /** Number of attributes with non-blank text. */
  function CountNonBlank(attrs: seq<RawAttr>): nat {
    if |attrs| == 0 then 0 else (if FormatText(attrs[0]) != "" then 1 else 0) + CountNonBlank(attrs[1..])
  }

  /** A string with no white space at either end. */
  predicate IsTrimmed(s: string) {
    |s| > 0 ==> !IsSpace(s[0]) && !IsSpace(s[|s| - 1])
  }

  /** None of the first `n` attributes is broken. */
  predicate NoneBroken(attrs: seq<RawAttr>, n: int)
    requires n <= |attrs|
  {
    forall j | 0 <= j < n :: !Broken(attrs[j])
  }

  /** The first attribute whose text throws when read. */
  function FirstBroken(attrs: seq<RawAttr>): (r: Option<nat>)
    ensures r.None? <==> NoneBroken(attrs, |attrs|)
    ensures r.Some? ==> r.value < |attrs| && Broken(attrs[r.value]) && NoneBroken(attrs, r.value)
  {
    if |attrs| == 0 then None
    else if Broken(attrs[0]) then Some(0)
    else
      var r := FirstBroken(attrs[1..]);
      assert forall i | 1 <= i < |attrs| :: attrs[i] == attrs[1..][i - 1];
      if r.None? then
        assert NoneBroken(attrs, |attrs|);
        None
      else
        assert NoneBroken(attrs, r.value + 1);
        Some(r.value + 1)
  }

  /** `xs` with its blank strings left out, the others kept in order. */
  function NonBlank(xs: seq<string>): (r: seq<string>)
    ensures |r| <= |xs|
    ensures forall k | 0 <= k < |r| :: r[k] != ""
    ensures forall x :: x in r <==> x in xs && x != ""
  {
    if |xs| == 0 then []
    else (if xs[0] == "" then [] else [xs[0]]) + NonBlank(xs[1..])
  }

  /** One string is kept exactly when it is not blank. */
  lemma NonBlankSingle(x: string)
    ensures NonBlank([x]) == if x == "" then [] else [x]
  {
    assert [x][1..] == [];
  }

  /** Filtering a concatenation filters each part: with `NonBlankSingle`
      this fixes the result as the non-blank strings in their input order. */
  lemma {:induction false} NonBlankAppend(xs: seq<string>, ys: seq<string>)
    ensures NonBlank(xs + ys) == NonBlank(xs) + NonBlank(ys)
    decreases |xs|
  {
    if |xs| == 0 {
      assert xs + ys == ys;
    } else {
      assert (xs + ys)[0] == xs[0];
      assert (xs + ys)[1..] == xs[1..] + ys;
      NonBlankAppend(xs[1..], ys);
    }
  }

  /** Leaving out blank strings loses no text. */
  lemma {:induction false} NonBlankKeepsText(xs: seq<string>)
    ensures Concat(NonBlank(xs)) == Concat(xs)
    decreases |xs|
  {
    if |xs| > 0 {
      var first := if xs[0] == "" then [] else [xs[0]];
      NonBlankKeepsText(xs[1..]);
      ConcatAppend(first, NonBlank(xs[1..]));
      ConcatDropsBlank(xs[0]);
      ConcatFront(xs);
    }
  }

  /** The `flatMap` of the command over the attributes: each attribute's text,
      trimmed, blank ones dropped, the others kept in order; the first broken
      attribute throws. */
  function AttrStrings(attrs: seq<RawAttr>): (r: Result<seq<string>, FormatFault>)
    ensures r.Fail? <==> FirstBroken(attrs).Some?
    ensures r.Ok? ==> r.value == NonBlank(FormatTexts(attrs))
    ensures r.Ok? ==> |r.value| == CountNonBlank(attrs)
  {
    if |attrs| == 0 then Ok([])
    else if Broken(attrs[0]) then Fail(FaultOf(attrs[0]))
    else
      var s := FormatText(attrs[0]);
      var rest := AttrStrings(attrs[1..]);
      assert forall i | 1 <= i < |attrs| :: attrs[i] == attrs[1..][i - 1];
      if rest.Fail? then Fail(rest.error)
      else
        var first := if s == "" then [] else [s];
        assert FormatTexts(attrs)[0] == s && FormatTexts(attrs)[1..] == FormatTexts(attrs[1..]);
        Ok(first + rest.value)
  }

  /** Every string is non-blank and trimmed. */
  predicate AllTrimmed(strs: seq<string>) {
    forall k | 0 <= k < |strs| :: strs[k] != "" && IsTrimmed(strs[k])
  }

  /** Every string laid out is non-blank and trimmed. */
  lemma {:induction false} AttrStringsTrimmed(attrs: seq<RawAttr>)
    requires AttrStrings(attrs).Ok?
    ensures AllTrimmed(AttrStrings(attrs).value)
    decreases |attrs|
  {
    if |attrs| > 0 {
      var s := FormatText(attrs[0]);
      var first := if s == "" then [] else [s];
      var rest := AttrStrings(attrs[1..]).value;
      AttrStringsTrimmed(attrs[1..]);
      assert AttrStrings(attrs).value == first + rest;
      TrimIsTrimmed(attrs[0]);
      AllTrimmedAppend(first, rest);
    }
  }

  /** The trimmed text of an attribute is trimmed. */
  lemma TrimIsTrimmed(a: RawAttr)
    ensures IsTrimmed(FormatText(a))
  {
  }

  lemma AllTrimmedAppend(a: seq<string>, b: seq<string>)
    requires AllTrimmed(a) && AllTrimmed(b)
    ensures AllTrimmed(a + b)
  {
    assert forall k | |a| <= k < |a + b| :: (a + b)[k] == b[k - |a|];
  }

  /** No attribute text is lost: the strings laid out, put together, are the
      attributes' trimmed texts put together. */
  lemma AttrStringsKeepText(attrs: seq<RawAttr>)
    requires AttrStrings(attrs).Ok?
    ensures Concat(AttrStrings(attrs).value) == Concat(FormatTexts(attrs))
  {
    NonBlankKeepsText(FormatTexts(attrs));
  }

  /** Leaving out a blank string does not change a concatenation. */
  lemma ConcatDropsBlank(s: string)
    ensures Concat(if s == "" then [] else [s]) == s
  {
    if s != "" {
      assert Concat([s]) == s + Concat([]);
    }
  }

  lemma ConcatFront(xs: seq<string>)
    requires |xs| > 0
    ensures Concat(xs) == xs[0] + Concat(xs[1..])
  {
  }

  /** The command throws on the first broken attribute. */
  lemma {:induction false} AttrStringsFault(attrs: seq<RawAttr>)
    requires FirstBroken(attrs).Some?
    ensures AttrStrings(attrs) == Fail(FaultOf(attrs[FirstBroken(attrs).value]))
    decreases |attrs|
  {
    if !Broken(attrs[0]) {
      AttrStringsFault(attrs[1..]);
      assert attrs[FirstBroken(attrs).value] == attrs[1..][FirstBroken(attrs[1..]).value];
    }
  }

  /** The attribute `find` picks to decide the layout: one whose key is not blank. */
  predicate Keyed(a: RawAttr) {
    a.key.Some? && Trim(a.key.value.content) != ""
  }

  /** None of the first `n` attributes is keyed. */
  predicate NoneKeyed(attrs: seq<RawAttr>, n: int)
    requires n <= |attrs|
  {
    forall j | 0 <= j < n :: !Keyed(attrs[j])
  }

  /** `attributes.find(attr => attr.key.content.trim())`. */
  function FirstKeyed(attrs: seq<RawAttr>): (r: Option<nat>)
    ensures r.None? <==> NoneKeyed(attrs, |attrs|)
    ensures r.Some? ==> r.value < |attrs| && Keyed(attrs[r.value]) && NoneKeyed(attrs, r.value)
  {
    if |attrs| == 0 then None
    else if Keyed(attrs[0]) then Some(0)
    else
      var r := FirstKeyed(attrs[1..]);
      assert forall i | 1 <= i < |attrs| :: attrs[i] == attrs[1..][i - 1];
      if r.None? then
        assert NoneKeyed(attrs, |attrs|);
        None
      else
        assert NoneKeyed(attrs, r.value + 1);
        Some(r.value + 1)
  }

  /** An attribute string re-indented for the one-per-line layout. */
  function ExpandAttr(s: string, tab: string): string {
    ReplaceAll(s, "\n", "\n" + tab)
  }

  /** An attribute string de-indented for the one-line layout. */
  function CollapseAttr(s: string, tab: string): string {
    ReplaceAll(s, "\n" + tab, "\n")
  }

  function ExpandAttrs(attrs: seq<string>, tab: string): (r: seq<string>)
    ensures |r| == |attrs| && forall i | 0 <= i < |attrs| :: r[i] == ExpandAttr(attrs[i], tab)
  {
    seq(|attrs|, i requires 0 <= i < |attrs| => ExpandAttr(attrs[i], tab))
  }

  function CollapseAttrs(attrs: seq<string>, tab: string): (r: seq<string>)
    ensures |r| == |attrs| && forall i | 0 <= i < |attrs| :: r[i] == CollapseAttr(attrs[i], tab)
  {
    seq(|attrs|, i requires 0 <= i < |attrs| => CollapseAttr(attrs[i], tab))
  }

  /** The new tag text: `openStart` and `end` are the trimmed open start and
      open end, `baseTab` the indentation of the tag's line and `tab` one
      indentation unit. */
  function Reflow(openStart: string, attrs: seq<string>, end: string, baseTab: string, tab: string, expand: bool): (r: string)
    ensures |openStart| + |end| <= |r|
    ensures r[..|openStart|] == openStart && r[|r| - |end|..] == end
  {
    if expand then
      var attrTab := "\n" + baseTab + tab;
      openStart + (attrTab + Join(ExpandAttrs(attrs, tab), attrTab) + "\n" + baseTab + end)
    else
      openStart + (" " + Join(CollapseAttrs(attrs, tab), " ") + (if |end| > 0 && end[0] == '/' then " " else "") + end)
  }

  /** One attribute per line: each attribute follows a line break and the tag's
      indentation plus one unit, and the open end gets a line of its own at the
      tag's indentation. */
  lemma ExpandLayout(openStart: string, attrs: seq<string>, end: string, baseTab: string, tab: string)
    requires |attrs| > 0
    ensures var attrTab := "\n" + baseTab + tab;
      Reflow(openStart, attrs, end, baseTab, tab, true)
      == openStart
         + Concat(seq(|attrs|, i requires 0 <= i < |attrs| => attrTab + ExpandAttr(attrs[i], tab)))
         + "\n" + baseTab + end
  {
    var attrTab := "\n" + baseTab + tab;
    var xs := ExpandAttrs(attrs, tab);
    JoinAsConcat(xs, attrTab);
    assert seq(|xs|, i requires 0 <= i < |xs| => attrTab + xs[i])
      == seq(|attrs|, i requires 0 <= i < |attrs| => attrTab + ExpandAttr(attrs[i], tab));
  }

  /** All on one line: a space before each attribute, and one more before a
      self-closing `/>`. */
  lemma CollapseLayout(openStart: string, attrs: seq<string>, end: string, baseTab: string, tab: string)
    requires |attrs| > 0
    ensures Reflow(openStart, attrs, end, baseTab, tab, false)
      == openStart
         + Concat(seq(|attrs|, i requires 0 <= i < |attrs| => " " + CollapseAttr(attrs[i], tab)))
         + (if |end| > 0 && end[0] == '/' then " " else "") + end
  {
    var xs := CollapseAttrs(attrs, tab);
    JoinAsConcat(xs, " ");
    assert seq(|xs|, i requires 0 <= i < |xs| => " " + xs[i])
      == seq(|attrs|, i requires 0 <= i < |attrs| => " " + CollapseAttr(attrs[i], tab));
  }

  /** Collapsing undoes the re-indentation of expanding, whatever the unit. */
  lemma CollapseUndoesExpand(attrs: seq<string>, tab: string)
    ensures CollapseAttrs(ExpandAttrs(attrs, tab), tab) == attrs
  {
    forall i | 0 <= i < |attrs|
      ensures CollapseAttr(ExpandAttr(attrs[i], tab), tab) == attrs[i]
    {
      IndentRoundTrip(attrs[i], tab);
    }
  }

  /** Laying the re-indented attributes of an expanded tag out on one line
      again lists the original attribute strings, space-separated. */
  lemma CollapseOfExpanded(openStart: string, attrs: seq<string>, end: string, baseTab: string, tab: string)
    ensures Reflow(openStart, ExpandAttrs(attrs, tab), end, baseTab, tab, false)
         == openStart + " " + Join(attrs, " ") + (if |end| > 0 && end[0] == '/' then " " else "") + end
  {
    var xs := ExpandAttrs(attrs, tab);
    ReflowCollapsed(openStart, xs, end, baseTab, tab);
    CollapseUndoesExpand(attrs, tab);
  }

  /** The one-line layout spelled out with the collapsed attributes. */
  lemma ReflowCollapsed(openStart: string, xs: seq<string>, end: string, baseTab: string, tab: string)
    ensures Reflow(openStart, xs, end, baseTab, tab, false)
         == openStart + " " + Join(CollapseAttrs(xs, tab), " ") + (if |end| > 0 && end[0] == '/' then " " else "") + end
  {
  }

  /** The offset the command reads the layout from: just inside the first
      keyed attribute's key. */
  function FirstKeyOffset(doc: string, tagStart: nat, key: Token): nat {
    Validate(|doc|, tagStart + key.startPosition + 1)
  }

  /** No line break lies between the tag's `<` and the key: the key is on
      the tag's line. */
  predicate KeyOnTagLine(doc: string, tagStart: nat, key: Token)
    requires tagStart <= |doc|
  {
    '\n' !in doc[tagStart..FirstKeyOffset(doc, tagStart, key)]
  }

  /** The line comparison the command makes is the same as "no line break
      between the tag's `<` and the key". */
  lemma KeyLineIff(doc: string, tagStart: nat, key: Token)
    requires tagStart <= |doc|
    ensures (LineOf(doc, tagStart + key.startPosition + 1) == LineOf(doc, tagStart)) == KeyOnTagLine(doc, tagStart, key)
  {
    var b := FirstKeyOffset(doc, tagStart, key);
    SameLineIff(doc, tagStart, b);
    assert Validate(|doc|, b) == Validate(|doc|, tagStart + key.startPosition + 1);
  }

  /** The command's new tag text for the tag starting at `tagStart` whose
      hyntax node is `raw`; `tab` is the editor's indentation unit. */
  function Format(doc: string, tagStart: nat, raw: RawTag, tab: string): (r: Result<string, FormatFault>)
    requires tagStart <= |doc|
    ensures raw.attributes.None? ==> r == Fail(NoAttributes)
    ensures raw.attributes.Some? ==> var attrs := raw.attributes.value;
      && (FirstBroken(attrs).Some? ==> r == Fail(FaultOf(attrs[FirstBroken(attrs).value])))
      && (FirstBroken(attrs).None? && FirstKeyed(attrs).None? ==> r == Fail(NoKeyedAttribute))
      && (FirstBroken(attrs).None? && FirstKeyed(attrs).Some? ==> r.Ok?)
    ensures r.Ok? ==> var attrs := raw.attributes.value;
      var k := FirstKeyed(attrs).value;
      r.value == Reflow(Trim(raw.openStart.content), AttrStrings(attrs).value, Trim(raw.openEnd.content),
                        Indentation(LineText(doc, tagStart)), tab, KeyOnTagLine(doc, tagStart, attrs[k].key.value))
  {
    if raw.attributes.None? then Fail(NoAttributes)
    else
      var attrs := raw.attributes.value;
      match AttrStrings(attrs)
      case Fail(e) =>
        AttrStringsFault(attrs);
        Fail(e)
      case Ok(strs) =>
        match FirstKeyed(attrs)
        case None => Fail(NoKeyedAttribute)
        case Some(k) =>
          var firstKey := attrs[k].key.value;
          var firstAttrLine := LineOf(doc, tagStart + firstKey.startPosition + 1);
          KeyLineIff(doc, tagStart, firstKey);
          var expand := firstAttrLine == LineOf(doc, tagStart);
          var baseTab := Indentation(LineText(doc, tagStart));
          Ok(Reflow(Trim(raw.openStart.content), strs, Trim(raw.openEnd.content), baseTab, tab, expand))
  }

  /** A formatted tag always has attributes to lay out. */
  lemma FormatHasAttributes(doc: string, tagStart: nat, raw: RawTag, tab: string)
    requires tagStart <= |doc| && Format(doc, tagStart, raw, tab).Ok?
    ensures |AttrStrings(raw.attributes.value).value| > 0
  {
    var attrs := raw.attributes.value;
    var k := FirstKeyed(attrs).value;
    var a := attrs[k];
    var text := AttrText(a.key.value.content, a.startWrapper, a.value, a.endWrapper);
    assert a.key.value.content <= text;
    TrimKeepsContent(a.key.value.content, text);
    CountNonBlankPositive(attrs, k);
  }

  /** A string with non-blank text at its head is not blank once trimmed. */
  lemma TrimKeepsContent(p: string, s: string)
    requires p <= s && Trim(p) != ""
    ensures Trim(s) != ""
  {
    var i :| 0 <= i < |p| && !IsSpace(p[i]);
    assert s[i] == p[i];
  }

  lemma {:induction false} CountNonBlankPositive(attrs: seq<RawAttr>, k: nat)
    requires k < |attrs| && FormatText(attrs[k]) != ""
    ensures CountNonBlank(attrs) > 0
    decreases k
  {
    if k > 0 {
      CountNonBlankPositive(attrs[1..], k - 1);
    }
  }

  /** The `dawn-tools.html.format` command on the document: `None` when no tag
      surrounds the cursor, a fault when the command throws, and otherwise the
      document with the tag replaced by its new text. `parse` stands for
      hyntax's node of a tag's text and `accepts` for the HTML check. */
  function FormatCommand(doc: string, cursor: nat, accepts: string -> bool, parse: string -> RawTag, tab: string)
    : (r: Option<Result<string, FormatFault>>)
    requires cursor <= |doc|
    ensures r.None? <==> NowTagRange(doc, cursor, accepts).None?
    ensures r.Some? ==> var range := NowTagRange(doc, cursor, accepts).value;
      var newTag := Format(doc, range.start, parse(doc[range.start..range.end]), tab);
      && (r.value.Fail? <==> newTag.Fail?)
      && (r.value.Ok? ==>
            && doc[..range.start] <= r.value.value
            && |r.value.value| == |doc| - (range.end - range.start) + |newTag.value|
            && r.value.value[range.start..range.start + |newTag.value|] == newTag.value
            && r.value.value[range.start + |newTag.value|..] == doc[range.end..])
  {
    match NowTagRange(doc, cursor, accepts)
    case None => None
    case Some(range) =>
      var tag := doc[range.start..range.end];
      match Format(doc, range.start, parse(tag), tab)
      case Fail(e) => Some(Fail(e))
      case Ok(newTag) =>
        var edited := doc[..range.start] + newTag + doc[range.end..];
        SpliceParts(doc[..range.start], newTag, doc[range.end..]);
        Some(Ok(edited))
  }

  /** Where the parts of a spliced text lie. */
  lemma SpliceParts(before: string, x: string, after: string)
    ensures before <= before + x + after
    ensures (before + x + after)[|before|..|before| + |x|] == x
    ensures (before + x + after)[|before| + |x|..] == after
  {
  }
}
