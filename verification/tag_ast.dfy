/** The tag's syntax tree as the extension post-processes it (`src/tools.ts`):
    `getHtmlAst`, `isTagWrap` and `getNearHtmlAttr`. The hyntax tokenizer
    and tree builder are not modelled; their node for the tag is the input
    `RawTag`, with every part the library may leave out made optional. */
module TagAst {
  import opened Wrappers
  import opened JsText
  import opened Offsets
  import opened Nearest

  /** A hyntax token: its text and its start and end offsets within the tag. */
  datatype Token = Token(content: string, startPosition: nat, endPosition: int)

  /** A hyntax attribute node; any part may be absent. */
  datatype RawAttr = RawAttr(
    key: Option<Token>,
    startWrapper: Option<Token>,
    value: Option<Token>,
    endWrapper: Option<Token>)

  /** The hyntax node of the tag's open part (`children[0].content`). */
  datatype RawTag = RawTag(openStart: Token, attributes: Option<seq<RawAttr>>, openEnd: Token)

  /** An attribute after post-processing: the key trimmed at its end, the
      attribute's text as `assembly`, and where the attribute ends. */
  datatype Attr = Attr(
    key: Token,
    startWrapper: Option<Token>,
    value: Option<Token>,
    endWrapper: Option<Token>,
    assembly: string,
    endPosition: int)

  /** What `getHtmlAst` returns. */
  datatype TagAst = TagAst(openStart: Token, attributes: Option<seq<Attr>>, openEnd: Token, isClose: bool)

  /** `attr.key.content` on an attribute without a key throws. */
  datatype Fault = MissingKey

  /** `t.content = t.content.trimEnd()` with `t.endPosition` moved back by the
      number of characters removed. */
  function TrimEndToken(t: Token): (r: Token)
    ensures r.content <= t.content
    ensures |r.content| > 0 ==> !IsSpace(r.content[|r.content| - 1])
    ensures AllSpace(t.content[|r.content|..])
    ensures r.startPosition == t.startPosition
    ensures r.endPosition - |r.content| == t.endPosition - |t.content|
  {
    var c := TrimEnd(t.content);
    Token(c, t.startPosition, t.endPosition - (|t.content| - |c|))
  }

  /** `w?.content || ''`. */
  function WrapperText(w: Option<Token>): string {
    if w.Some? then w.value.content else ""
  }

  /** The text of an attribute: the key, then `=`, the wrappers and the value
      when there is a value. */
  function AttrText(key: string, startWrapper: Option<Token>, value: Option<Token>, endWrapper: Option<Token>): string {
    key + if value.Some? then "=" + WrapperText(startWrapper) + value.value.content + WrapperText(endWrapper) else ""
  }

  /** The last token an attribute has: end wrapper, else value, else key. */
  function LastToken(a: Attr): Token {
    if a.endWrapper.Some? then a.endWrapper.value
    else if a.value.Some? then a.value.value
    else a.key
  }

  /** A post-processed attribute is consistent: its text is non-empty and
      assembled from its parts, its key ends in no white space, and it ends
      where its last token ends. */
  predicate Consistent(a: Attr) {
    && a.assembly == AttrText(a.key.content, a.startWrapper, a.value, a.endWrapper)
    && a.assembly != ""
    && (|a.key.content| > 0 ==> !IsSpace(a.key.content[|a.key.content| - 1]))
    && a.endPosition == LastToken(a).endPosition
  }

  /** The text a raw attribute contributes (nothing when it has no key). */
  function RawText(a: RawAttr): string {
    if a.key.None? then "" else AttrText(TrimEnd(a.key.value.content), a.startWrapper, a.value, a.endWrapper)
  }

  /** The callback of `flatMap` in `getHtmlAst` for one attribute with a key. */
  function PostAttr(a: RawAttr): (r: seq<Attr>)
    requires a.key.Some?
    ensures |r| <= 1
    ensures |r| == 1 <==> TrimEnd(a.key.value.content) != "" || a.value.Some?
    ensures |r| == 1 ==> Consistent(r[0]) && r[0].assembly == RawText(a)
    ensures |r| == 1 ==> r[0].key.startPosition == a.key.value.startPosition
    ensures |r| == 1 ==> r[0].value == a.value && r[0].startWrapper == a.startWrapper && r[0].endWrapper == a.endWrapper
  {
    var key := TrimEndToken(a.key.value);
    var assembly := AttrText(key.content, a.startWrapper, a.value, a.endWrapper);
    if assembly == "" then []
    else
      var last := if a.endWrapper.Some? then a.endWrapper.value else if a.value.Some? then a.value.value else key;
      [Attr(key, a.startWrapper, a.value, a.endWrapper, assembly, last.endPosition)]
  }

  function Assemblies(attrs: seq<Attr>): (r: seq<string>)
    ensures |r| == |attrs| && forall i | 0 <= i < |attrs| :: r[i] == attrs[i].assembly
  {
    seq(|attrs|, i requires 0 <= i < |attrs| => attrs[i].assembly)
  }

  function RawTexts(attrs: seq<RawAttr>): (r: seq<string>)
    ensures |r| == |attrs| && forall i | 0 <= i < |attrs| :: r[i] == RawText(attrs[i])
  {
    seq(|attrs|, i requires 0 <= i < |attrs| => RawText(attrs[i]))
  }

  /** Number of attributes that contribute text. */
  function CountKept(attrs: seq<RawAttr>): nat {
    if |attrs| == 0 then 0 else (if RawText(attrs[0]) != "" then 1 else 0) + CountKept(attrs[1..])
  }

  /** Every attribute is consistent. */
  predicate AllConsistent(attrs: seq<Attr>) {
    forall i | 0 <= i < |attrs| :: Consistent(attrs[i])
  }

  /** Some attribute has no key. */
  predicate SomeKeyless(attrs: seq<RawAttr>) {
    exists i | 0 <= i < |attrs| :: attrs[i].key.None?
  }

  /** The indices are strictly increasing. */
  predicate Increasing(ks: seq<nat>) {
    forall j, k | 0 <= j < k < |ks| :: ks[j] < ks[k]
  }

  /** Every index is an attribute with text. */
  predicate OnlyWithText(attrs: seq<RawAttr>, ks: seq<nat>) {
    forall j | 0 <= j < |ks| :: ks[j] < |attrs| && RawText(attrs[ks[j]]) != ""
  }

  /** Every attribute with text is listed. */
  predicate AllWithText(attrs: seq<RawAttr>, ks: seq<nat>) {
    forall i | 0 <= i < |attrs| && RawText(attrs[i]) != "" :: i in ks
  }

  /** `ks` with every index moved one on. */
  function Shift(ks: seq<nat>): (r: seq<nat>)
    ensures |r| == |ks| && forall j | 0 <= j < |ks| :: r[j] == ks[j] + 1
  {
    seq(|ks|, j requires 0 <= j < |ks| => ks[j] + 1)
  }

  /** The indices of the attributes that contribute text, in increasing
      order: exactly the attributes with text, each once. */
  function Kept(attrs: seq<RawAttr>): (ks: seq<nat>)
    ensures Increasing(ks) && OnlyWithText(attrs, ks) && AllWithText(attrs, ks)
  {
    if |attrs| == 0 then []
    else
      var rest := Kept(attrs[1..]);
      var first: seq<nat> := if RawText(attrs[0]) != "" then [0] else [];
      KeptStep(attrs, first, rest);
      first + Shift(rest)
  }

  /** The step of `Kept`: the first attribute's index, if it has text, then
      the indices kept from the rest, moved one on. */
  lemma KeptStep(attrs: seq<RawAttr>, first: seq<nat>, rest: seq<nat>)
    requires |attrs| > 0 && first == (if RawText(attrs[0]) != "" then [0] else [])
    requires Increasing(rest) && OnlyWithText(attrs[1..], rest) && AllWithText(attrs[1..], rest)
    ensures Increasing(first + Shift(rest))
    ensures OnlyWithText(attrs, first + Shift(rest))
    ensures AllWithText(attrs, first + Shift(rest))
  {
    KeptStepIncreasing(first, rest);
    KeptStepOnly(attrs, first, rest);
    KeptStepAll(attrs, first, rest);
  }

  lemma KeptStepIncreasing(first: seq<nat>, rest: seq<nat>)
    requires first == [] || first == [0]
    requires Increasing(rest)
    ensures Increasing(first + Shift(rest))
  {
    var ks := first + Shift(rest);
    forall j, k | 0 <= j < k < |ks|
      ensures ks[j] < ks[k]
    {
      assert ks[k] == rest[k - |first|] + 1;
      if j >= |first| {
        assert ks[j] == rest[j - |first|] + 1;
      }
    }
  }

  lemma KeptStepOnly(attrs: seq<RawAttr>, first: seq<nat>, rest: seq<nat>)
    requires |attrs| > 0 && first == (if RawText(attrs[0]) != "" then [0] else [])
    requires OnlyWithText(attrs[1..], rest)
    ensures OnlyWithText(attrs, first + Shift(rest))
  {
    var ks := first + Shift(rest);
    forall j | 0 <= j < |ks|
      ensures ks[j] < |attrs| && RawText(attrs[ks[j]]) != ""
    {
      if j >= |first| {
        assert ks[j] == rest[j - |first|] + 1;
        assert attrs[ks[j]] == attrs[1..][rest[j - |first|]];
      }
    }
  }

  lemma KeptStepAll(attrs: seq<RawAttr>, first: seq<nat>, rest: seq<nat>)
    requires |attrs| > 0 && first == (if RawText(attrs[0]) != "" then [0] else [])
    requires AllWithText(attrs[1..], rest)
    ensures AllWithText(attrs, first + Shift(rest))
  {
    var ks := first + Shift(rest);
    forall i | 0 <= i < |attrs| && RawText(attrs[i]) != ""
      ensures i in ks
    {
      if i == 0 {
        assert ks[0] == 0;
      } else {
        assert attrs[1..][i - 1] == attrs[i];
        var j :| 0 <= j < |rest| && rest[j] == i - 1;
        assert ks[|first| + j] == i;
      }
    }
  }

  /** `kept` lists, in order, the attribute built from each attribute with
      text: its `j`th entry comes from the `j`th such raw attribute. */
  predicate KeptInOrder(attrs: seq<RawAttr>, kept: seq<Attr>) {
    var ks := Kept(attrs);
    && |kept| == |ks|
    && forall j | 0 <= j < |kept| :: attrs[ks[j]].key.Some? && kept[j] in PostAttr(attrs[ks[j]])
  }

  /** The attributes kept from the first one, followed by those kept from
      the rest, come in the order of the attributes they were built from. */
  lemma KeptInOrderStep(attrs: seq<RawAttr>, first: seq<Attr>, rest: seq<Attr>)
    requires |attrs| > 0 && attrs[0].key.Some? && first == PostAttr(attrs[0])
    requires KeptInOrder(attrs[1..], rest)
    ensures KeptInOrder(attrs, first + rest)
  {
    PostAttrText(attrs[0]);
    var ks := Kept(attrs);
    var kr := Kept(attrs[1..]);
    var f: seq<nat> := if RawText(attrs[0]) != "" then [0] else [];
    assert ks == f + Shift(kr);
    var kept := first + rest;
    forall j | 0 <= j < |kept|
      ensures attrs[ks[j]].key.Some? && kept[j] in PostAttr(attrs[ks[j]])
    {
      if j < |first| {
        assert ks[j] == 0 && kept[j] == first[j];
      } else {
        assert ks[j] == kr[j - |first|] + 1;
        assert attrs[ks[j]] == attrs[1..][kr[j - |first|]];
        assert kept[j] == rest[j - |first|];
      }
    }
  }

  /** The `flatMap` of `getHtmlAst` over the attributes: blank attributes are
      dropped, the others kept in order, and no attribute text is lost. */
  function PostAttrs(attrs: seq<RawAttr>): (r: Result<seq<Attr>, Fault>)
    ensures r.Fail? <==> SomeKeyless(attrs)
    ensures r.Ok? ==> AllConsistent(r.value)
    ensures r.Ok? ==> |r.value| == CountKept(attrs)
    ensures r.Ok? ==> Concat(Assemblies(r.value)) == Concat(RawTexts(attrs))
    ensures r.Ok? ==> KeptInOrder(attrs, r.value)
  {
    if |attrs| == 0 then Ok([])
    else
      KeylessStep(attrs);
      if attrs[0].key.None? then Fail(MissingKey)
      else
        var rest := PostAttrs(attrs[1..]);
        if rest.Fail? then Fail(MissingKey)
        else
          var first := PostAttr(attrs[0]);
          PostAttrsStep(attrs, first, rest.value);
          KeptInOrderStep(attrs, first, rest.value);
          Ok(first + rest.value)
  }

  /** Some attribute has no key exactly when the first has none or some later
      one has none. */
  lemma KeylessStep(attrs: seq<RawAttr>)
    requires |attrs| > 0
    ensures SomeKeyless(attrs) <==> attrs[0].key.None? || SomeKeyless(attrs[1..])
  {
    if SomeKeyless(attrs[1..]) {
      var i :| 0 <= i < |attrs[1..]| && attrs[1..][i].key.None?;
      assert attrs[i + 1] == attrs[1..][i];
    }
    if SomeKeyless(attrs) && attrs[0].key.Some? {
      var i :| 0 <= i < |attrs| && attrs[i].key.None?;
      assert attrs[1..][i - 1] == attrs[i];
    }
  }

  /** One attribute's post-processing keeps its text, and keeps the attribute
      exactly when it has text. */
  lemma PostAttrText(a: RawAttr)
    requires a.key.Some?
    ensures Concat(Assemblies(PostAttr(a))) == RawText(a)
    ensures |PostAttr(a)| == (if RawText(a) != "" then 1 else 0)
    ensures AllConsistent(PostAttr(a))
  {
    var r := PostAttr(a);
    if |r| == 1 {
      assert Assemblies(r) == [RawText(a)];
      assert Concat([RawText(a)]) == RawText(a) + Concat([]);
    } else {
      assert Assemblies(r) == [];
    }
  }

  /** The attributes kept from the first one and from the rest, put together,
      are the attributes kept from all. */
  lemma PostAttrsStep(attrs: seq<RawAttr>, first: seq<Attr>, rest: seq<Attr>)
    requires |attrs| > 0 && attrs[0].key.Some? && first == PostAttr(attrs[0])
    requires AllConsistent(rest) && |rest| == CountKept(attrs[1..])
    requires Concat(Assemblies(rest)) == Concat(RawTexts(attrs[1..]))
    ensures AllConsistent(first + rest)
    ensures |first + rest| == CountKept(attrs)
    ensures Concat(Assemblies(first + rest)) == Concat(RawTexts(attrs))
  {
    PostAttrText(attrs[0]);
    assert RawTexts(attrs) == [RawText(attrs[0])] + RawTexts(attrs[1..]);
    assert Assemblies(first + rest) == Assemblies(first) + Assemblies(rest);
    ConcatAppend(Assemblies(first), Assemblies(rest));
    ConcatAppend([RawText(attrs[0])], RawTexts(attrs[1..]));
    assert Concat([RawText(attrs[0])]) == RawText(attrs[0]) + Concat([]);
  }

  /** What `getHtmlAst` guarantees its callers: an attribute list, when
      present, is non-empty and every attribute in it is consistent. */
  predicate WellFormed(ast: TagAst) {
    ast.attributes.Some? ==> |ast.attributes.value| > 0 && AllConsistent(ast.attributes.value)
  }

  /** `getHtmlAst`: trims the end of the open start and of every key, marks a
      closing open end, and keeps only the attributes with text. */
  function HtmlAst(raw: RawTag): (r: Result<TagAst, Fault>)
    ensures r.Fail? <==> raw.attributes.Some? && SomeKeyless(raw.attributes.value)
    ensures r.Ok? ==> WellFormed(r.value)
    ensures r.Ok? ==> r.value.openStart == TrimEndToken(raw.openStart) && r.value.openEnd == raw.openEnd
    ensures r.Ok? ==> (r.value.isClose <==> |raw.openEnd.content| > 0 && raw.openEnd.content[0] == '/')
    ensures r.Ok? ==> (r.value.attributes.None? <==> raw.attributes.None? || CountKept(raw.attributes.value) == 0)
    ensures r.Ok? && r.value.attributes.Some? ==>
      Concat(Assemblies(r.value.attributes.value)) == Concat(RawTexts(raw.attributes.value))
    ensures r.Ok? && r.value.attributes.Some? ==> KeptInOrder(raw.attributes.value, r.value.attributes.value)
  {
    var openStart := TrimEndToken(raw.openStart);
    var isClose := |raw.openEnd.content| > 0 && raw.openEnd.content[0] == '/';
    if raw.attributes.None? then Ok(TagAst(openStart, None, raw.openEnd, isClose))
    else
      match PostAttrs(raw.attributes.value)
      case Fail(e) => Fail(e)
      case Ok(attrs) =>
        Ok(TagAst(openStart, if |attrs| == 0 then None else Some(attrs), raw.openEnd, isClose))
  }

  /** Position within the tag of its first attribute's key, or of the open end
      when there are no attributes. */
  function FirstNodePosition(ast: TagAst): nat
    requires WellFormed(ast)
  {
    if ast.attributes.Some? then ast.attributes.value[0].key.startPosition else ast.openEnd.startPosition
  }

  /** `isTagWrap`: whether the tag's first node lies on a later line than the
      tag's `<`, which is the case exactly when a line break lies between
      them. `tagStart` is the tag's document offset. */
  function IsTagWrap(doc: string, tagStart: nat, ast: TagAst): (r: bool)
    requires tagStart <= |doc| && WellFormed(ast)
    ensures var firstNode := Validate(|doc|, tagStart + FirstNodePosition(ast) + 1);
      r <==> '\n' in doc[tagStart..firstNode]
  {
    var firstNodeLine := LineOf(doc, tagStart + FirstNodePosition(ast) + 1);
    SameLineIff(doc, tagStart, Validate(|doc|, tagStart + FirstNodePosition(ast) + 1));
    firstNodeLine != LineOf(doc, tagStart)
  }

  /** Distance from `at` (relative to the tag) to the nearer end of an attribute. */
  function AttrDistance(at: int, a: Attr): nat {
    SpanDistance(at, a.key.startPosition, a.endPosition)
  }

  function AttrDistances(at: int, attrs: seq<Attr>): (ds: seq<int>)
    ensures |ds| == |attrs| && forall i | 0 <= i < |attrs| :: ds[i] == AttrDistance(at, attrs[i])
  {
    seq(|attrs|, i requires 0 <= i < |attrs| => AttrDistance(at, attrs[i]))
  }

  /** What `getNearHtmlAttr` returns: the cursor relative to the tag and the
      attribute nearest it. */
  datatype NearAttr = NearAttr(startIndex: int, attr: Attr)

  /** `getNearHtmlAttr`: the first attribute whose key start or end is nearest
      the cursor; nothing for a tag without attributes. */
  function NearHtmlAttr(tagStart: nat, cursor: nat, ast: TagAst): (r: Option<NearAttr>)
    requires WellFormed(ast)
    ensures r.None? <==> ast.attributes.None?
    ensures r.Some? ==> r.value.startIndex == cursor - tagStart
    ensures r.Some? ==> exists k ::
      IsFirstMin(AttrDistances(cursor - tagStart, ast.attributes.value), k) && r.value.attr == ast.attributes.value[k]
    ensures r.Some? ==> r.value.attr in ast.attributes.value && forall a | a in ast.attributes.value ::
      AttrDistance(r.value.startIndex, r.value.attr) <= AttrDistance(r.value.startIndex, a)
  {
    if ast.attributes.None? then None
    else
      var startIndex := cursor - tagStart;
      var attrs := ast.attributes.value;
      var k := ArgMin(AttrDistances(startIndex, attrs));
      Some(NearAttr(startIndex, attrs[k]))
  }
}
