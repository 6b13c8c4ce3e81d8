/** The `dawn-tools.file.name.copy` command of `src/file.ts`. Its file-name
    computation is the one of `getFileName`, written out a second time in the
    source; here it is defined once, as `Paths.FileName`. */
module FileCommand {
  import opened Wrappers
  import opened JsText
  import opened Paths

  /** The name the command copies: `Some(n)` is both the text written to the
      clipboard and the command's return value, `None` the early return that
      writes nothing. */
  function CopyFileName(path: string): (r: Option<string>)
    ensures r.Some? <==> FileName(path).Some? && FileName(path).value != ""
    ensures r.Some? ==> r == FileName(path) && r.value != "" && '/' !in r.value
  {
    var name := FileName(path);
    if name.None? || name.value == "" then None else name
  }

  /** A path naming a folder (ending in a slash) copies nothing. */
  lemma TrailingSlashCopiesNothing(path: string)
    requires |path| > 0 && SlashOf(path[|path| - 1]) == '/'
    ensures CopyFileName(path) == None
  {
    var fp := FormatFilePath(path);
    FormatKeepsTrailingSlash(path);
    assert NoneAfter(fp, '/', |fp| - 1);
    LastCharIndexUnique(fp, '/', |fp| - 1);
    assert StripExtension("") == "";
  }

  /** A bare `index` has no parent segment to fall back on, so nothing is copied. */
  lemma BareIndexCopiesNothing()
    ensures CopyFileName("index") == None
  {
    IndexHasNoName();
  }

  lemma IndexHasNoName()
    ensures FileName("index") == None
  {
    IndexIsFormatted();
    IndexIsLastSegment();
    IndexHasNoExtension();
    assert '/' !in "index" by { assert NoneAfter("index", '/', -1); }
  }

  lemma IndexIsLastSegment()
    ensures LastSegment("index", '/') == "index"
  {
    assert NoneAfter("index", '/', -1);
    NoSeparatorLastSegment("index", '/');
  }

  lemma IndexIsFormatted()
    ensures FormatFilePath("index") == "index"
  {
    assert Slashes("index") == "index";
  }

  lemma IndexHasNoExtension()
    ensures StripExtension("index") == "index"
  {
    forall i | 0 <= i < 5
      ensures !IsLineTerminator("index"[i]) && !OccursAt("index", ".", i)
    {
      assert i == 0 || i == 1 || i == 2 || i == 3 || i == 4;
      assert "index"[i..i + 1] == ["index"[i]];
    }
    assert LastIndexOf("index", ".") == -1;
  }
}
