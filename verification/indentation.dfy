/** Indentation helpers of `src/tools.ts`: `getIndentationMode` and
    `getLineIndent`, with the editor options passed in as values. */
module Indentation {
  import opened JsText

  datatype Mode = Space | Tab
  datatype Eol = LF | CRLF

  /** The result of `getIndentationMode`: `tab` is one indentation unit and
      `br` the document's line break. */
  datatype IndentationMode = IndentationMode(mode: Mode, size: nat, tab: string, br: string)

  /** `getIndentationMode` for the editor options `insertSpaces` and `tabSize`
      (at least one in the editor) and the document's end-of-line setting. */
  function GetIndentationMode(insertSpaces: bool, tabSize: nat, eol: Eol): (r: IndentationMode)
    requires tabSize >= 1
    ensures r.size == tabSize && |r.tab| > 0
    ensures insertSpaces ==> r.mode == Space && |r.tab| == tabSize && forall i | 0 <= i < |r.tab| :: r.tab[i] == ' '
    ensures !insertSpaces ==> r.mode == Tab && r.tab == "\t"
    ensures r.br == "\n" || r.br == "\r\n"
    ensures r.br == "\n" <==> eol == LF
  {
    IndentationMode(
      if insertSpaces then Space else Tab,
      tabSize,
      if insertSpaces then Spaces(tabSize) else "\t",
      if eol == LF then "\n" else "\r\n")
  }

  /** The result of `getLineIndent`: the line's leading white space and its
      width counted in indentation units (`text.replaceAll(tab, ' ').length`). */
  datatype LineIndent = LineIndent(text: string, tabSize: nat)

  /** `getLineIndent` for a line's text and the current indentation unit
      (never empty: the editor's tab size is at least one). */
  function GetLineIndent(lineText: string, tab: string): (r: LineIndent)
    requires |tab| > 0
    ensures r.text <= lineText && AllSpace(r.text)
    ensures |r.text| < |lineText| ==> !IsSpace(lineText[|r.text|])
    ensures tab == "\t" ==> r.tabSize == |r.text|
    ensures tab == Spaces(|tab|) && r.text == Spaces(|r.text|) ==>
      r.tabSize == Units(|r.text|, |tab|)
  {
    var text := lineText[..LeadingSpaces(lineText)];
    IndentWidth(text, tab);
    LineIndent(text, |ReplaceAll(text, tab, " ")|)
  }

  /** The width `replaceAll(tab, ' ').length` of an indentation: its length
      for a tab unit, and whole units plus the spaces left over for space
      indentation under a space unit. */
  lemma IndentWidth(text: string, tab: string)
    requires |tab| > 0
    ensures tab == "\t" ==> |ReplaceAll(text, tab, " ")| == |text|
    ensures tab == Spaces(|tab|) && text == Spaces(|text|) ==> |ReplaceAll(text, tab, " ")| == Units(|text|, |tab|)
  {
    if tab == "\t" {
      ReplaceAllSameLength(text, tab, " ");
    }
    if tab == Spaces(|tab|) && text == Spaces(|text|) {
      SpaceUnits(|text|, |tab|);
    }
  }

  /** Width of `l` spaces when every whole run of `n` of them counts as one
      and the spaces left over count one each. */
  function Units(l: nat, n: nat): nat
    requires n >= 1
  {
    if l >= n then 1 + Units(l - n, n) else l
  }

  /** `l` spaces, with every run of `n` spaces counted once: whole units plus
      the spaces left over. */
  lemma {:induction false} SpaceUnits(l: nat, n: nat)
    requires n >= 1
    ensures |ReplaceAll(Spaces(l), Spaces(n), " ")| == Units(l, n)
    decreases l
  {
    var s := Spaces(l);
    if l == 0 {
    } else if n <= l {
      assert Spaces(n) <= s;
      assert s[n..] == Spaces(l - n);
      SpaceUnits(l - n, n);
    } else {
      assert !(Spaces(n) <= s);
      assert s[1..] == Spaces(l - 1);
      SpaceUnits(l - 1, n);
      assert Units(l - 1, n) == l - 1;
    }
  }
}
