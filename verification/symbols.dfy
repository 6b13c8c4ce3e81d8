/** Full-width punctuation to ASCII (`src/other.ts`): `symbol_map`,
    `symbol_map_get` and the `dawn-tools.other.symbol` command, which turns
    the last full-width symbol of the cursor's line into its ASCII twin. */
module Symbols {
  import opened Wrappers
  import opened JsText

  /** One entry of `symbol_map`. */
  datatype SymbolEntry = SymbolEntry(key: string, value: char)

  /** `symbol_map`, in the order `Object.keys` lists it. */
  const SymbolMap: seq<SymbolEntry> := [
    SymbolEntry("\U{00B7}", '`'),
    SymbolEntry("\U{FF01}", '!'),
    SymbolEntry("\U{FFE5}", '$'),
    SymbolEntry("\U{2026}\U{2026}", '^'),
    SymbolEntry("\U{FF08}", '('),
    SymbolEntry("\U{FF09}", ')'),
    SymbolEntry("\U{2014}\U{2014}", '_'),
    SymbolEntry("\U{3010}", '['),
    SymbolEntry("\U{3011}", ']'),
    SymbolEntry("\U{3001}", '\\'),
    SymbolEntry("\U{FF1B}", ';'),
    SymbolEntry("\U{FF1A}", ':'),
    SymbolEntry("\U{2018}", '\''),
    SymbolEntry("\U{2019}", '\''),
    SymbolEntry("\U{201C}", '"'),
    SymbolEntry("\U{201D}", '"'),
    SymbolEntry("\U{FF0C}", ','),
    SymbolEntry("\U{300A}", '<'),
    SymbolEntry("\U{3002}", '.'),
    SymbolEntry("\U{300B}", '>'),
    SymbolEntry("\U{FF1F}", '?')
  ]

  /** The characters the keys are made of. */
  predicate IsKeyChar(c: char) {
    || c == '\U{00B7}' || c == '\U{FF01}' || c == '\U{FFE5}' || c == '\U{2026}'
    || c == '\U{FF08}' || c == '\U{FF09}' || c == '\U{2014}' || c == '\U{3010}'
    || c == '\U{3011}' || c == '\U{3001}' || c == '\U{FF1B}' || c == '\U{FF1A}'
    || c == '\U{2018}' || c == '\U{2019}' || c == '\U{201C}' || c == '\U{201D}'
    || c == '\U{FF0C}' || c == '\U{300A}' || c == '\U{3002}' || c == '\U{300B}'
    || c == '\U{FF1F}'
  }

  /** An entry the search can use: a non-empty key of key characters and an
      ASCII value. */
  predicate ValidEntry(e: SymbolEntry) {
    && |e.key| > 0
    && (forall j | 0 <= j < |e.key| :: IsKeyChar(e.key[j]))
    && e.value < '\U{0080}'
  }

  predicate ValidTable(table: seq<SymbolEntry>) {
    forall k | 0 <= k < |table| :: ValidEntry(table[k])
  }

  lemma SymbolMapValid()
    ensures ValidTable(SymbolMap)
  {
    KeysAreKeyChars();
    ValuesAreAscii();
    forall k | 0 <= k < |SymbolMap|
      ensures ValidEntry(SymbolMap[k])
    {
    }
  }

  lemma KeysAreKeyChars()
    ensures forall k | 0 <= k < |SymbolMap| :: |SymbolMap[k].key| > 0
    ensures forall k, j | 0 <= k < |SymbolMap| && 0 <= j < |SymbolMap[k].key| :: IsKeyChar(SymbolMap[k].key[j])
  {
    forall k | 0 <= k < |SymbolMap|
      ensures |SymbolMap[k].key| > 0
      ensures forall j | 0 <= j < |SymbolMap[k].key| :: IsKeyChar(SymbolMap[k].key[j])
    {
      assert SymbolMap[k].key in {
        "\U{00B7}", "\U{FF01}", "\U{FFE5}", "\U{2026}\U{2026}", "\U{FF08}", "\U{FF09}", "\U{2014}\U{2014}",
        "\U{3010}", "\U{3011}", "\U{3001}", "\U{FF1B}", "\U{FF1A}", "\U{2018}", "\U{2019}", "\U{201C}",
        "\U{201D}", "\U{FF0C}", "\U{300A}", "\U{3002}", "\U{300B}", "\U{FF1F}"};
    }
  }

  lemma ValuesAreAscii()
    ensures forall k | 0 <= k < |SymbolMap| :: SymbolMap[k].value < '\U{0080}'
  {
    forall k | 0 <= k < |SymbolMap|
      ensures SymbolMap[k].value < '\U{0080}'
    {
      assert SymbolMap[k] in SymbolMap;
    }
  }

  /** An ASCII character is no key character. */
  lemma AsciiIsNoKeyChar(c: char)
    requires c < '\U{0080}'
    ensures !IsKeyChar(c)
  {
  }

  /** Characters the negated class `[^...]` of the regular expression refuses.
      As written the class is built from the alternation group `(k1|k2|...)`,
      so `(`, `)` and `|` are refused as well as the key characters. */
  predicate Blocks(c: char, asWritten: bool) {
    IsKeyChar(c) || (asWritten && (c == '(' || c == ')' || c == '|'))
  }

  /** No character of `s` is refused. */
  predicate Clear(s: string, asWritten: bool) {
    forall i | 0 <= i < |s| :: !Blocks(s[i], asWritten)
  }

  /** The regular expression built from `table` can match with its `k`th key
      at `q`: the key occurs there and nothing after it up to the end of the
      text is refused. */
  predicate Candidate(table: seq<SymbolEntry>, text: string, q: int, k: int, asWritten: bool) {
    && 0 <= k < |table|
    && OccursAt(text, table[k].key, q)
    && Clear(text[q + |table[k].key|..], asWritten)
  }

  /** A match starts with a key character of the text. */
  lemma CandidateStart(table: seq<SymbolEntry>, text: string, q: int, k: int, asWritten: bool)
    requires ValidTable(table)
    ensures Candidate(table, text, q, k, asWritten) ==> 0 <= q < |text| && IsKeyChar(text[q])
  {
    if 0 <= k < |table| && OccursAt(text, table[k].key, q) {
      assert text[q] == table[k].key[0];
    }
  }

  /** What `symbol_map_get` returns: the key found, its value and where it starts. */
  datatype SymbolMatch = SymbolMatch(key: string, value: char, index: nat)

  /** The first alternative, from `k0` on, that matches at `q`. */
  function KeyAt(table: seq<SymbolEntry>, text: string, q: nat, k0: nat, asWritten: bool): (r: Option<nat>)
    ensures r.None? ==> forall k | k0 <= k :: !Candidate(table, text, q, k, asWritten)
    ensures r.Some? ==> k0 <= r.value && Candidate(table, text, q, r.value, asWritten)
    ensures r.Some? ==> forall k | k0 <= k < r.value :: !Candidate(table, text, q, k, asWritten)
    decreases |table| - k0
  {
    if k0 >= |table| then None
    else if Candidate(table, text, q, k0, asWritten) then Some(k0)
    else KeyAt(table, text, q, k0 + 1, asWritten)
  }

  /** `m` is what the regular expression reports for key `k` at `m.index`:
      the first alternative that matches there. */
  predicate FirstKeyAt(table: seq<SymbolEntry>, text: string, m: SymbolMatch, k: int, asWritten: bool) {
    && Candidate(table, text, m.index, k, asWritten)
    && (forall k' | 0 <= k' < k :: !Candidate(table, text, m.index, k', asWritten))
    && m.key == table[k].key && m.value == table[k].value
  }

  /** The regular expression cannot match anywhere in `[from, to)`. */
  predicate NoMatchBetween(table: seq<SymbolEntry>, text: string, from: int, to: int, asWritten: bool) {
    forall q, k | from <= q < to && 0 <= k < |table| :: !Candidate(table, text, q, k, asWritten)
  }

  /** The leftmost match at or after `p`. */
  function FindFrom(table: seq<SymbolEntry>, text: string, p: nat, asWritten: bool): (r: Option<SymbolMatch>)
    ensures r.None? ==> NoMatchBetween(table, text, p, |text| + 1, asWritten)
    ensures r.Some? ==> p <= r.value.index && exists k :: FirstKeyAt(table, text, r.value, k, asWritten)
    ensures r.Some? ==> NoMatchBetween(table, text, p, r.value.index, asWritten)
    decreases |text| - p
  {
    if p > |text| then None
    else
      match KeyAt(table, text, p, 0, asWritten)
      case Some(k) =>
        var m := SymbolMatch(table[k].key, table[k].value, p);
        assert FirstKeyAt(table, text, m, k, asWritten);
        Some(m)
      case None => FindFrom(table, text, p + 1, asWritten)
  }

  /** `symbol_map_get` as written: `(`, `)` and `|` after a symbol keep it
      from being found. */
  function SymbolMapGetAsWritten(text: string): (r: Option<SymbolMatch>)
    ensures r.None? <==> NoMatchBetween(SymbolMap, text, 0, |text| + 1, true)
    ensures r.Some? ==> exists k :: FirstKeyAt(SymbolMap, text, r.value, k, true)
    ensures r.Some? ==> NoMatchBetween(SymbolMap, text, 0, r.value.index, true)
  {
    FindFrom(SymbolMap, text, 0, true)
  }

  /** `symbol_map_get` with the negated class made of the key characters
      only: the leftmost symbol after which the text holds no full-width
      symbol, that is, the last symbol of the text. */
  function SymbolMapGet(text: string): (r: Option<SymbolMatch>)
    ensures r.None? <==> NoMatchBetween(SymbolMap, text, 0, |text| + 1, false)
    ensures r.Some? ==> exists k :: FirstKeyAt(SymbolMap, text, r.value, k, false)
    ensures r.Some? ==> NoMatchBetween(SymbolMap, text, 0, r.value.index, false)
    ensures r.Some? ==> forall i | r.value.index + |r.value.key| <= i < |text| :: !IsKeyChar(text[i])
  {
    var r := FindFrom(SymbolMap, text, 0, false);
    if r.Some? then
      NothingAfterMatch(SymbolMap, text, r.value);
      r
    else r
  }

  /** With the corrected class, no full-width symbol follows a match. */
  lemma NothingAfterMatch(table: seq<SymbolEntry>, text: string, m: SymbolMatch)
    requires exists k :: FirstKeyAt(table, text, m, k, false)
    ensures forall i | m.index + |m.key| <= i < |text| :: !IsKeyChar(text[i])
  {
    var k :| FirstKeyAt(table, text, m, k, false);
    var rest := text[m.index + |m.key|..];
    assert forall i | m.index + |m.key| <= i < |text| :: text[i] == rest[i - m.index - |m.key|];
  }

  /** A text without full-width symbols has nothing to convert, whichever
      class is used. */
  lemma NoSymbolNoMatch(text: string, asWritten: bool)
    requires forall i | 0 <= i < |text| :: !IsKeyChar(text[i])
    ensures FindFrom(SymbolMap, text, 0, asWritten).None?
  {
    SymbolMapValid();
    forall q, k | 0 <= q < |text| + 1 && 0 <= k < |SymbolMap|
      ensures !Candidate(SymbolMap, text, q, k, asWritten)
    {
      CandidateStart(SymbolMap, text, q, k, asWritten);
    }
  }

  /** A key character at the end cannot be part of a key that runs past the
      end of `t`. */
  lemma OccursInPrefix(t: string, c: char, key: string, q: int)
    requires !IsKeyChar(c) && |key| > 0 && IsKeyChar(key[|key| - 1])
    requires OccursAt(t + [c], key, q)
    ensures OccursAt(t, key, q)
  {
    assert (t + [c])[q..q + |key|] == t[q..q + |key|];
  }

  lemma ClearAppend(u: string, c: char, asWritten: bool)
    ensures Clear(u + [c], asWritten) <==> Clear(u, asWritten) && !Blocks(c, asWritten)
  {
    assert (u + [c])[|u|] == c;
    assert forall i | 0 <= i < |u| :: (u + [c])[i] == u[i];
  }

  /** Appending a character that is not a symbol leaves every way of matching
      a key at `q` intact, except that a refused character blocks them all. */
  lemma CandidateAppend(table: seq<SymbolEntry>, t: string, c: char, q: int, k: int, asWritten: bool)
    requires ValidTable(table) && !IsKeyChar(c)
    ensures Candidate(table, t + [c], q, k, asWritten) <==> Candidate(table, t, q, k, asWritten) && !Blocks(c, asWritten)
  {
    if 0 <= k < |table| {
      var key := table[k].key;
      assert ValidEntry(table[k]);
      if OccursAt(t + [c], key, q) {
        OccursInPrefix(t, c, key, q);
      }
      if OccursAt(t, key, q) {
        assert (t + [c])[q..q + |key|] == t[q..q + |key|];
        assert (t + [c])[q + |key|..] == t[q + |key|..] + [c];
        ClearAppend(t[q + |key|..], c, asWritten);
      }
    }
  }

  /** Two texts with the same ways of matching get the same answer. */
  lemma FindDetermined(table: seq<SymbolEntry>, t1: string, t2: string, asWritten: bool)
    requires forall q, k :: Candidate(table, t1, q, k, asWritten) <==> Candidate(table, t2, q, k, asWritten)
    ensures FindFrom(table, t1, 0, asWritten) == FindFrom(table, t2, 0, asWritten)
  {
    var r1 := FindFrom(table, t1, 0, asWritten);
    var r2 := FindFrom(table, t2, 0, asWritten);
    if r1.Some? && r2.Some? {
      var k1 :| FirstKeyAt(table, t1, r1.value, k1, asWritten);
      var k2 :| FirstKeyAt(table, t2, r2.value, k2, asWritten);
      assert r1.value.index == r2.value.index by {
        assert !(r1.value.index < r2.value.index) by { assert Candidate(table, t2, r1.value.index, k1, asWritten); }
        assert !(r2.value.index < r1.value.index) by { assert Candidate(table, t1, r2.value.index, k2, asWritten); }
      }
      assert k1 == k2 by {
        assert !(k1 < k2) by { assert Candidate(table, t2, r2.value.index, k1, asWritten); }
        assert !(k2 < k1) by { assert Candidate(table, t1, r1.value.index, k2, asWritten); }
      }
    }
  }

  /** As written, a line that ends in `(`, `)` or `|` has no symbol found,
      whatever full-width symbols it holds. */
  lemma AsWrittenAsciiBracketBlocks(t: string, c: char)
    requires c == '(' || c == ')' || c == '|'
    ensures SymbolMapGetAsWritten(t + [c]).None?
  {
    SymbolMapValid();
    BlockedTail(SymbolMap, t, c);
  }

  /** For any valid table, a blocking last character leaves no match. */
  lemma BlockedTail(table: seq<SymbolEntry>, t: string, c: char)
    requires ValidTable(table)
    requires c == '(' || c == ')' || c == '|'
    ensures NoMatchBetween(table, t + [c], 0, |t + [c]| + 1, true)
  {
    assert Blocks(c, true) && !IsKeyChar(c);
    forall q, k | 0 <= q < |t + [c]| + 1 && 0 <= k < |table|
      ensures !Candidate(table, t + [c], q, k, true)
    {
      CandidateAppend(table, t, c, q, k, true);
    }
  }

  /** `（x)`: the full-width bracket is never converted by the command as
      written. */
  lemma FullWidthBracketAsWritten()
    ensures SymbolMapGetAsWritten("\U{FF08}x)").None?
  {
    AsWrittenAsciiBracketBlocks("\U{FF08}x", ')');
    assert "\U{FF08}x" + [')'] == "\U{FF08}x)";
  }

  /** `（x)`: the corrected search converts the full-width bracket. */
  lemma FullWidthBracketCorrected()
    ensures SymbolMapGet("\U{FF08}x)") == Some(SymbolMatch("\U{FF08}", '(', 0))
  {
    var text := "\U{FF08}x)";
    BracketCandidates();
    var r := SymbolMapGet(text);
    assert r.Some? && r.value.index == 0;
    var k :| FirstKeyAt(SymbolMap, text, r.value, k, false);
    assert k == 4;
  }

  /** In `（x)` the fifth key, and no earlier one, matches at the start. */
  lemma BracketCandidates()
    ensures Candidate(SymbolMap, "\U{FF08}x)", 0, 4, false)
    ensures forall k | 0 <= k < 4 :: !Candidate(SymbolMap, "\U{FF08}x)", 0, k, false)
  {
    var text := "\U{FF08}x)";
    assert text[0..1] == "\U{FF08}";
    assert text[1..] == "x)";
    assert text[0] == '\U{FF08}';
  }

  /** With the corrected class, characters other than full-width symbols typed
      after the last symbol do not change what is found. */
  lemma TrailingAsciiIgnored(t: string, c: char)
    requires !IsKeyChar(c)
    ensures SymbolMapGet(t + [c]) == SymbolMapGet(t)
  {
    SymbolMapValid();
    forall q, k
      ensures Candidate(SymbolMap, t + [c], q, k, false) <==> Candidate(SymbolMap, t, q, k, false)
    {
      CandidateAppend(SymbolMap, t, c, q, k, false);
    }
    FindDetermined(SymbolMap, t + [c], t, false);
  }

  /** A lone `…` is no key (only `……` is), yet as a key character it keeps
      the `！` before it from being found, with either class. */
  lemma LoneEllipsisBlocks(asWritten: bool)
    ensures FindFrom(SymbolMap, "\U{FF01}\U{2026}", 0, asWritten).None?
  {
    NoKeyIsLoneEllipsis();
    SymbolMapValid();
    EllipsisBlocksAny(SymbolMap, asWritten);
  }

  /** For any valid table without `…` or `！…` as a key, nothing in `！…` matches. */
  lemma EllipsisBlocksAny(table: seq<SymbolEntry>, asWritten: bool)
    requires ValidTable(table)
    requires forall k | 0 <= k < |table| :: table[k].key != "\U{2026}" && table[k].key != "\U{FF01}\U{2026}"
    ensures NoMatchBetween(table, "\U{FF01}\U{2026}", 0, 3, asWritten)
  {
    var text := "\U{FF01}\U{2026}";
    forall q, k | 0 <= q < 3 && 0 <= k < |table|
      ensures !Candidate(table, text, q, k, asWritten)
    {
      var key := table[k].key;
      assert ValidEntry(table[k]);
      if OccursAt(text, key, q) && q + |key| < |text| {
        assert text[q + |key|..][|text| - 1 - q - |key|] == '\U{2026}';
      }
    }
  }

  /** No key is a lone `…`, and no two-character key starts with `！`. */
  lemma NoKeyIsLoneEllipsis()
    ensures forall k | 0 <= k < |SymbolMap| :: SymbolMap[k].key != "\U{2026}" && SymbolMap[k].key != "\U{FF01}\U{2026}"
  {
  }

  /** Number of full-width symbol characters in `s`. */
  function CountKeyChars(s: string): nat {
    if |s| == 0 then 0 else (if IsKeyChar(s[0]) then 1 else 0) + CountKeyChars(s[1..])
  }

  lemma {:induction false} CountKeyCharsAppend(a: string, b: string)
    ensures CountKeyChars(a + b) == CountKeyChars(a) + CountKeyChars(b)
    decreases |a|
  {
    if |a| == 0 {
      assert a + b == b;
    } else {
      assert (a + b)[1..] == a[1..] + b;
      CountKeyCharsAppend(a[1..], b);
    }
  }

  lemma {:induction false} CountKeyCharsAll(s: string)
    requires forall i | 0 <= i < |s| :: IsKeyChar(s[i])
    ensures CountKeyChars(s) == |s|
    decreases |s|
  {
    if |s| > 0 {
      CountKeyCharsAll(s[1..]);
    }
  }

  /** Replacing a key by its value removes the key's symbol characters. */
  lemma ReplaceLowersCount(before: string, e: SymbolEntry, after: string)
    requires ValidEntry(e)
    ensures CountKeyChars(before + [e.value] + after) < CountKeyChars(before + e.key + after)
  {
    CountKeyCharsAppend(before + e.key, after);
    CountKeyCharsAppend(before, e.key);
    CountKeyCharsAppend(before + [e.value], after);
    CountKeyCharsAppend(before, [e.value]);
    CountKeyCharsAll(e.key);
    AsciiIsNoKeyChar(e.value);
  }

  lemma ReplaceAtLowersCount(line: string, m: SymbolMatch)
    requires ValidEntry(SymbolEntry(m.key, m.value)) && OccursAt(line, m.key, m.index)
    ensures CountKeyChars(line[..m.index] + [m.value] + line[m.index + |m.key|..]) < CountKeyChars(line)
  {
    var before := line[..m.index];
    var after := line[m.index + |m.key|..];
    assert line == before + m.key + after;
    ReplaceLowersCount(before, SymbolEntry(m.key, m.value), after);
  }

  /** What the search finds, with either class, is an entry of the table
      occurring at the index reported. */
  lemma FoundEntry(text: string, m: SymbolMatch, asWritten: bool)
    requires exists k :: FirstKeyAt(SymbolMap, text, m, k, asWritten)
    ensures ValidEntry(SymbolEntry(m.key, m.value)) && OccursAt(text, m.key, m.index)
  {
    SymbolMapValid();
    var k :| FirstKeyAt(SymbolMap, text, m, k, asWritten);
    assert ValidEntry(SymbolMap[k]);
  }

  /** What a found match gives the command: the key occurs where reported,
      the text is not free of matches, and replacing the key by its value
      lowers the count of symbol characters. */
  lemma ReplaceFound(table: seq<SymbolEntry>, line: string, m: SymbolMatch, asWritten: bool)
    requires ValidTable(table)
    requires exists k :: FirstKeyAt(table, line, m, k, asWritten)
    ensures OccursAt(line, m.key, m.index)
    ensures !NoMatchBetween(table, line, 0, |line| + 1, asWritten)
    ensures CountKeyChars(line[..m.index] + [m.value] + line[m.index + |m.key|..]) < CountKeyChars(line)
  {
    var k :| FirstKeyAt(table, line, m, k, asWritten);
    assert ValidEntry(table[k]) && Candidate(table, line, m.index, k, asWritten);
    ReplaceAtLowersCount(line, m);
  }

  /** The `dawn-tools.other.symbol` command on the cursor's line, with the
      symbol table `table`: the symbol found is replaced by its ASCII value
      and nothing else changes; nothing happens when there is none. With
      `asWritten` the search is `symbol_map_get` as the source writes it,
      otherwise the corrected one. */
  function CommandWith(table: seq<SymbolEntry>, line: string, asWritten: bool): (r: Option<string>)
    requires ValidTable(table)
    ensures r.None? <==> NoMatchBetween(table, line, 0, |line| + 1, asWritten)
    ensures r.Some? ==> var m := FindFrom(table, line, 0, asWritten).value;
      && OccursAt(line, m.key, m.index)
      && r.value == line[..m.index] + [m.value] + line[m.index + |m.key|..]
    ensures r.Some? ==> CountKeyChars(r.value) < CountKeyChars(line)
  {
    match FindFrom(table, line, 0, asWritten)
    case None => None
    case Some(m) =>
      ReplaceFound(table, line, m, asWritten);
      Some(line[..m.index] + [m.value] + line[m.index + |m.key|..])
  }

  /** The command with the extension's own table `symbol_map`. */
  function SymbolCommand(line: string, asWritten: bool): Option<string> {
    SymbolMapValid();
    CommandWith(SymbolMap, line, asWritten)
  }

  /** On `（x)` the command as written leaves the line alone, while the
      corrected search turns the full-width bracket into `(`. */
  lemma BracketLineCommand()
    ensures SymbolCommand("\U{FF08}x)", true).None?
    ensures SymbolCommand("\U{FF08}x)", false) == Some("(x)")
  {
    BracketLineAsWritten();
    BracketLineCorrected();
  }

  lemma BracketLineAsWritten()
    ensures SymbolCommand("\U{FF08}x)", true).None?
  {
    FullWidthBracketAsWritten();
  }

  lemma BracketLineCorrected()
    ensures SymbolCommand("\U{FF08}x)", false) == Some("(x)")
  {
    FullWidthBracketCorrected();
    var line := "\U{FF08}x)";
    assert line[..0] + ['('] + line[1..] == "(x)";
  }
}
