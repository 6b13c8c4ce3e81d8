/** `getBracketAst` of `src/tools.ts`: the text the editor selected up to the
    matching bracket is handed to the TypeScript parser in a form that makes
    its elements a node list, and each node's trimmed text is then located
    in the bracket text with `indexOf`, searching on from where the previous
    node ended. The parser is the input `parse`; what the model uses of its
    result is the `Syntax` record. */
module Bracket {
  import opened Wrappers
  import opened JsText
  import opened Offsets

  /** A TypeScript node's `pos` and `end` within the parsed text. */
  datatype Span = Span(pos: int, end: int)

  /** The node lists of `statements[0].expression` that `getBracketAst`
      reads; `None` is `undefined`. `properties` is that of the first
      element of an array literal. */
  datatype Syntax = Syntax(
    parameters: Option<seq<Span>>,
    arguments: Option<seq<Span>>,
    elements: Option<seq<Span>>,
    properties: Option<seq<Span>>,
    typeArguments: Option<seq<Span>>)

  /** The text parsed last (`_text`) and the node list taken from it. */
  datatype Parsed = Parsed(source: string, nodes: seq<Span>)

  predicate IsOpenBracket(c: char) {
    c == '(' || c == '[' || c == '{' || c == '<'
  }

  /** `text.replace(/^.(.+).$/s, '$1')`: the text without its first and last
      characters when at least one lies between them, else the text itself. */
  function Interior(text: string): (r: string)
    ensures |text| >= 3 ==> |r| == |text| - 2 && forall i | 0 <= i < |r| :: r[i] == text[i + 1]
    ensures |text| < 3 ==> r == text
  {
    if |text| >= 3 then text[1..|text| - 1] else text
  }

  /** What the parser is asked and which node list is taken, by the opening
      bracket: the parameters of `(...)` parsed as an arrow function's, or
      else the arguments of the call `fn(...)`; the elements of `[...]`; the
      properties of `{...}` wrapped as `[{...}]`; the type arguments of
      `fn<...>`. */
  function ParsedNodes(text: string, parse: string -> Syntax): (r: Option<Parsed>)
    requires |text| > 0 && IsOpenBracket(text[0])
    ensures text[0] == '(' && parse(text).parameters.Some? ==> r == Some(Parsed(text, parse(text).parameters.value))
    ensures text[0] == '(' && parse(text).parameters.None? ==>
      r == if parse("fn" + text).arguments.Some? then Some(Parsed("fn" + text, parse("fn" + text).arguments.value)) else None
    ensures text[0] == '[' ==>
      r == if parse(text).elements.Some? then Some(Parsed(text, parse(text).elements.value)) else None
    ensures text[0] == '{' ==>
      r == if parse("[" + text + "]").properties.Some? then Some(Parsed("[" + text + "]", parse("[" + text + "]").properties.value)) else None
    ensures text[0] == '<' ==>
      r == if parse("fn" + text).typeArguments.Some? then Some(Parsed("fn" + text, parse("fn" + text).typeArguments.value)) else None
  {
    var source :=
      if text[0] == '(' then (if parse(text).parameters.Some? then text else "fn" + text)
      else if text[0] == '[' then text
      else if text[0] == '{' then "[" + text + "]"
      else "fn" + text;
    var syntax := parse(source);
    var nodes :=
      if text[0] == '(' then (if source == text then syntax.parameters else syntax.arguments)
      else if text[0] == '[' then syntax.elements
      else if text[0] == '{' then syntax.properties
      else syntax.typeArguments;
    if nodes.Some? then Some(Parsed(source, nodes.value)) else None
  }

  /** `_text.substring(item.pos, item.end).trim()` for every node. */
  function NodeTexts(p: Parsed): (r: seq<string>)
    ensures |r| == |p.nodes|
    ensures forall i | 0 <= i < |r| :: r[i] == Trim(Substring(p.source, p.nodes[i].pos, p.nodes[i].end))
  {
    seq(|p.nodes|, i requires 0 <= i < |p.nodes| => Trim(Substring(p.source, p.nodes[i].pos, p.nodes[i].end)))
  }

  /** A node's text and where `indexOf` put it: `index` is -1 when it was not
      found, and `finish` is `index + content.length` either way. */
  datatype Located = Located(content: string, index: int, finish: int)

  /** Where the search for node `i` begins: `currentIndex` before it. */
  function SearchFrom(r: seq<Located>, i: int): int
    requires 0 <= i <= |r|
  {
    if i == 0 then 0 else r[i - 1].finish
  }

  /** Node `i` was located as `indexOf` does: at the first occurrence of its
      text at or after the search start (clamped into the text), or not at
      all when there is none. */
  predicate LocatedAt(text: string, r: seq<Located>, i: int)
    requires 0 <= i < |r|
  {
    var from := Clamp(SearchFrom(r, i), |text|);
    && r[i].finish == r[i].index + |r[i].content|
    && (r[i].index == -1 ==> forall j | from <= j <= |text| :: !OccursAt(text, r[i].content, j))
    && (r[i].index != -1 ==>
          && from <= r[i].index
          && OccursAt(text, r[i].content, r[i].index)
          && forall j | from <= j < r[i].index :: !OccursAt(text, r[i].content, j))
  }

  predicate AllLocated(text: string, r: seq<Located>) {
    forall i | 0 <= i < |r| :: LocatedAt(text, r, i)
  }

  /** The `map` callback of `getBracketAst` over all nodes, advancing
      `currentIndex` from 0. */
  function Locate(text: string, contents: seq<string>): (r: seq<Located>)
    ensures |r| == |contents|
    ensures forall i | 0 <= i < |r| :: r[i].content == contents[i]
    ensures AllLocated(text, r)
  {
    if |contents| == 0 then []
    else
      var prefix := Locate(text, contents[..|contents| - 1]);
      var content := contents[|contents| - 1];
      var index := IndexOf(text, content, SearchFrom(prefix, |prefix|));
      var last := Located(content, index, index + |content|);
      assert forall i | 0 <= i < |prefix| :: prefix[i].content == contents[i];
      LocatedExtend(text, contents, prefix, last);
      prefix + [last]
  }

  /** Appending a node located from the end of the previous ones keeps every
      node located. */
  lemma LocatedExtend(text: string, contents: seq<string>, prefix: seq<Located>, last: Located)
    requires |prefix| + 1 == |contents|
    requires forall i | 0 <= i < |prefix| :: prefix[i].content == contents[i]
    requires AllLocated(text, prefix)
    requires last.content == contents[|prefix|]
    requires last.index == IndexOf(text, last.content, SearchFrom(prefix, |prefix|))
    requires last.finish == last.index + |last.content|
    ensures forall i | 0 <= i < |contents| :: (prefix + [last])[i].content == contents[i]
    ensures AllLocated(text, prefix + [last])
  {
    var r := prefix + [last];
    forall i | 0 <= i < |prefix|
      ensures LocatedAt(text, r, i)
    {
      assert r[i] == prefix[i] && SearchFrom(r, i) == SearchFrom(prefix, i);
      assert LocatedAt(text, prefix, i);
    }
    assert SearchFrom(r, |prefix|) == SearchFrom(prefix, |prefix|);
  }

  /** Nodes that were found lie in the text in their order and do not
      overlap: each starts at or after the previous one's end. */
  lemma LocatedInOrder(text: string, contents: seq<string>, i: int)
    requires 0 < i < |contents|
    requires Locate(text, contents)[i - 1].index != -1 && Locate(text, contents)[i].index != -1
    ensures var r := Locate(text, contents);
      0 <= r[i - 1].index <= r[i - 1].finish <= r[i].index && r[i].finish <= |text|
  {
    var r := Locate(text, contents);
    assert LocatedAt(text, r, i - 1) && LocatedAt(text, r, i);
  }

  /** A node of the result: its text and its document range. */
  datatype BracketNode = BracketNode(text: string, start: nat, end: nat)

  /** `n` covers its text inside the selection `[selStart, selEnd)`. */
  predicate Covers(doc: string, selStart: nat, selEnd: nat, n: BracketNode) {
    selStart <= n.start <= n.end <= selEnd <= |doc| && doc[n.start..n.end] == n.text
  }

  /** A found node's range is its `indexOf` result and the end of its text,
      moved by the selection's start. */
  predicate At(selStart: nat, l: Located, n: BracketNode) {
    n.start == selStart + l.index && n.end == selStart + l.finish
  }

  /** The nodes carry the located texts; a found node sits at its `indexOf`
      result within the selection and covers its text there, and found
      neighbours keep their order without overlapping. */
  predicate Placed(doc: string, selStart: nat, selEnd: nat, located: seq<Located>, nodes: seq<BracketNode>) {
    && |nodes| == |located|
    && (forall i | 0 <= i < |nodes| :: nodes[i].text == located[i].content)
    && (forall i | 0 <= i < |nodes| :: located[i].index != -1 ==> Covers(doc, selStart, selEnd, nodes[i]))
    && (forall i | 0 <= i < |nodes| :: located[i].index != -1 ==> At(selStart, located[i], nodes[i]))
    && (forall i | 0 < i < |nodes| :: located[i - 1].index != -1 && located[i].index != -1 ==> nodes[i - 1].end <= nodes[i].start)
  }

  /** `getBracketAst` after the editor selected `[selStart, selEnd)` up to the
      matching bracket. Nothing for an empty selection, a text that does not
      start with an opening bracket, or a parse without the node list; no
      nodes when only white space lies between the brackets. */
  function BracketAst(doc: string, selStart: nat, selEnd: nat, parse: string -> Syntax): (r: Option<seq<BracketNode>>)
    requires selStart <= selEnd <= |doc|
    ensures selStart == selEnd ==> r.None?
    ensures selStart < selEnd && !IsOpenBracket(doc[selStart]) ==> r.None?
    ensures selStart < selEnd && IsOpenBracket(doc[selStart]) && AllSpace(Interior(doc[selStart..selEnd])) ==> r == Some([])
    ensures selStart < selEnd && IsOpenBracket(doc[selStart]) && !AllSpace(Interior(doc[selStart..selEnd])) ==>
      (r.None? <==> ParsedNodes(doc[selStart..selEnd], parse).None?)
    ensures r.Some? && |r.value| > 0 ==>
      && ParsedNodes(doc[selStart..selEnd], parse).Some?
      && Placed(doc, selStart, selEnd, Locate(doc[selStart..selEnd], NodeTexts(ParsedNodes(doc[selStart..selEnd], parse).value)), r.value)
  {
    var text := doc[selStart..selEnd];
    if |text| == 0 || !IsOpenBracket(text[0]) then None
    else if Trim(Interior(text)) == "" then Some([])
    else
      match ParsedNodes(text, parse)
      case None => None
      case Some(p) =>
        var located := Locate(text, NodeTexts(p));
        FoundNodesCover(doc, selStart, selEnd, located);
        Some(ToNodes(|doc|, selStart, located))
  }

  /** The nodes with their ranges turned into document offsets, clamped
      into the document as `positionAt` does. */
  function ToNodes(docLen: nat, selStart: nat, located: seq<Located>): (r: seq<BracketNode>)
    ensures |r| == |located|
    ensures forall i | 0 <= i < |r| :: r[i].text == located[i].content && r[i].start <= docLen && r[i].end <= docLen
    ensures forall i | 0 <= i < |r| :: 0 <= located[i].index <= located[i].finish && selStart + located[i].finish <= docLen ==> At(selStart, located[i], r[i])
  {
    seq(|located|, i requires 0 <= i < |located| =>
      BracketNode(located[i].content, Validate(docLen, selStart + located[i].index), Validate(docLen, selStart + located[i].finish)))
  }

  /** Each found node's document range holds its text, and found neighbours
      keep their order. */
  lemma FoundNodesCover(doc: string, selStart: nat, selEnd: nat, located: seq<Located>)
    requires selStart <= selEnd <= |doc|
    requires AllLocated(doc[selStart..selEnd], located)
    ensures Placed(doc, selStart, selEnd, located, ToNodes(|doc|, selStart, located))
  {
    var nodes := ToNodes(|doc|, selStart, located);
    forall i | 0 <= i < |nodes| && located[i].index != -1
      ensures Covers(doc, selStart, selEnd, nodes[i]) && At(selStart, located[i], nodes[i])
    {
      FoundNodeCovers(doc, selStart, selEnd, located, i);
    }
    forall i | 0 < i < |nodes| && located[i - 1].index != -1 && located[i].index != -1
      ensures nodes[i - 1].end <= nodes[i].start
    {
      FoundNodesOrdered(doc, selStart, selEnd, located, i);
    }
  }

  lemma FoundNodeCovers(doc: string, selStart: nat, selEnd: nat, located: seq<Located>, i: int)
    requires selStart <= selEnd <= |doc|
    requires AllLocated(doc[selStart..selEnd], located)
    requires 0 <= i < |located| && located[i].index != -1
    ensures Covers(doc, selStart, selEnd, ToNodes(|doc|, selStart, located)[i])
    ensures At(selStart, located[i], ToNodes(|doc|, selStart, located)[i])
  {
    var text := doc[selStart..selEnd];
    assert LocatedAt(text, located, i);
    var a := located[i].index;
    var b := located[i].finish;
    assert OccursAt(text, located[i].content, a);
    assert 0 <= a <= b <= |text| && text[a..b] == located[i].content;
    SliceOfSlice(doc, selStart, selEnd, a, b);
    var n := ToNodes(|doc|, selStart, located)[i];
    assert n.start == selStart + a && n.end == selStart + b;
  }

  lemma FoundNodesOrdered(doc: string, selStart: nat, selEnd: nat, located: seq<Located>, i: int)
    requires selStart <= selEnd <= |doc|
    requires AllLocated(doc[selStart..selEnd], located)
    requires 0 < i < |located| && located[i - 1].index != -1 && located[i].index != -1
    ensures ToNodes(|doc|, selStart, located)[i - 1].end <= ToNodes(|doc|, selStart, located)[i].start
  {
    var text := doc[selStart..selEnd];
    assert LocatedAt(text, located, i - 1);
    assert LocatedAt(text, located, i);
    assert located[i - 1].finish <= |text|;
    assert SearchFrom(located, i) == located[i - 1].finish;
  }

  lemma SliceOfSlice(s: string, lo: nat, hi: nat, a: nat, b: nat)
    requires lo <= hi <= |s| && a <= b <= hi - lo
    ensures s[lo..hi][a..b] == s[lo + a..lo + b]
  {
    assert forall k | 0 <= k < b - a :: s[lo..hi][a..b][k] == s[lo + a + k];
  }

}
