/** The `dawn-tools.vue.scrollTo` command of `src/vue.ts`: the document is
    split at `'\n'` and the first line that opens a `<type ...>` tag is
    searched with the regular expression `^\s*<type[^>]*>`. `type` is taken
    as literal text. */
module VueScroll {
  import opened Wrappers
  import opened JsText

  /** The regular expression matches `line`: white space, then `<` and `type`,
      then a `>` somewhere after them. */
  predicate OpensTag(line: string, tagType: string) {
    exists w | 0 <= w <= |line| ::
      && AllSpace(line[..w])
      && OccursAt(line, "<" + tagType, w)
      && '>' in line[w + 1 + |tagType|..]
  }

  /** The test the matcher performs: `\s*` can only stop at the first
      character that is not white space, so one position needs checking. */
  function TestLine(line: string, tagType: string): (b: bool) {
    var w := LeadingSpaces(line);
    OccursAt(line, "<" + tagType, w) && '>' in line[w + 1 + |tagType|..]
  }

  /** A run of white space that stops at a character other than white space
      is the text's leading white space. */
  lemma SpaceRunEnd(line: string, w: nat)
    requires w <= |line| && AllSpace(line[..w])
    requires w < |line| ==> !IsSpace(line[w])
    ensures w == LeadingSpaces(line)
  {
    assert forall i | 0 <= i < w :: IsSpace(line[i]) by {
      assert forall i | 0 <= i < w :: line[i] == line[..w][i];
    }
  }

  /** The test agrees with the regular expression's meaning, both ways. */
  lemma TestLineIff(line: string, tagType: string)
    ensures TestLine(line, tagType) <==> OpensTag(line, tagType)
  {
    var n := LeadingSpaces(line);
    if TestLine(line, tagType) {
      assert AllSpace(line[..n]);
    }
    if OpensTag(line, tagType) {
      var w :| 0 <= w <= |line| && AllSpace(line[..w]) && OccursAt(line, "<" + tagType, w)
        && '>' in line[w + 1 + |tagType|..];
      assert line[w] == ("<" + tagType)[0];
      SpaceRunEnd(line, w);
    }
  }

  /** `lines.findIndex(test)`: the first line passing the test, or -1. */
  function FindLine(lines: seq<string>, tagType: string): (r: int)
    ensures -1 <= r < |lines|
    ensures r == -1 <==> forall i | 0 <= i < |lines| :: !OpensTag(lines[i], tagType)
    ensures r != -1 ==> OpensTag(lines[r], tagType)
    ensures r != -1 ==> forall i | 0 <= i < r :: !OpensTag(lines[i], tagType)
  {
    if |lines| == 0 then -1
    else
      TestLineIff(lines[0], tagType);
      if TestLine(lines[0], tagType) then 0
      else
        var r := FindLine(lines[1..], tagType);
        assert forall i | 1 <= i < |lines| :: lines[i] == lines[1..][i - 1];
        if r == -1 then -1 else r + 1
  }

  /** None of the first `n` lines opens the tag. */
  predicate NoneOpens(lines: seq<string>, tagType: string, n: int)
    requires n <= |lines|
  {
    forall i | 0 <= i < n :: !OpensTag(lines[i], tagType)
  }

  /** The command's return value: one past the index of the first line that
      opens the tag (the line the editor is scrolled to), nothing when no
      line does. */
  function ScrollTo(doc: string, tagType: string): (r: Option<nat>)
    ensures r.None? <==> NoneOpens(Split(doc, '\n'), tagType, |Split(doc, '\n')|)
    ensures r.Some? ==> 1 <= r.value <= |Split(doc, '\n')| && OpensTag(Split(doc, '\n')[r.value - 1], tagType)
    ensures r.Some? ==> NoneOpens(Split(doc, '\n'), tagType, r.value - 1)
  {
    LineToScroll(Split(doc, '\n'), tagType)
  }

  /** The 1-based number of the first of `lines` that opens the tag. */
  function LineToScroll(lines: seq<string>, tagType: string): (r: Option<nat>)
    ensures r.None? <==> NoneOpens(lines, tagType, |lines|)
    ensures r.Some? ==> 1 <= r.value <= |lines| && OpensTag(lines[r.value - 1], tagType)
    ensures r.Some? ==> NoneOpens(lines, tagType, r.value - 1)
  {
    var i := FindLine(lines, tagType);
    if i == -1 then None else Some(i + 1)
  }

  /** Nothing ends the type name, so `<templateX>` opens `template`. */
  lemma NoWordBoundary()
    ensures OpensTag("<templateX>", "template")
  {
    var line := "<templateX>";
    assert AllSpace(line[..0]);
    assert line[0..9] == "<" + "template";
    assert line[9..] == "X>";
    assert line[10] == '>';
  }

  /** A text without a line break is a single line. */
  lemma SplitWithoutSeparator(s: string, sep: char)
    requires sep !in s
    ensures Split(s, sep) == [s]
  {
    assert NoneAfter(s, sep, -1);
    LastCharIndexUnique(s, sep, -1);
  }

  /** A tag on the first line scrolls to line 1: the value is one past the
      line's index. */
  lemma FirstLineGivesOne()
    ensures ScrollTo("<template>", "template") == Some(1)
  {
    TemplateIsOneLine();
    TemplateLineOpens();
    TestLineIff("<template>", "template");
  }

  lemma TemplateIsOneLine()
    ensures Split("<template>", '\n') == ["<template>"]
  {
    var doc := "<template>";
    assert forall i | 0 <= i < |doc| :: doc[i] != '\n';
    SplitWithoutSeparator(doc, '\n');
  }

  lemma TemplateLineOpens()
    ensures TestLine("<template>", "template")
  {
    var doc := "<template>";
    assert LeadingSpaces(doc) == 0;
    assert doc[0..9] == "<" + "template";
    assert doc[9..] == ">";
  }
}
