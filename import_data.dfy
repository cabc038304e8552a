/** The Import Data page: the loops that turn an uploaded table, a pasted word list or a
    corpus of lines into `add_term` and `add_sentence` calls, and the line lists built for the
    vector index. A table is given as the cells of its chosen columns, read as pandas gives
    them to `str()` and `int()`. */
module ImportData {
  import opened Basics
  import opened Text
  import opened Store

  // ---------------------------------------------------------------- table cells

  /** One cell of an uploaded table: text, an integer, or a missing value (NaN). */
  datatype Cell = TextCell(text: string) | IntCell(n: int) | EmptyCell

  /** `str(cell)`. */
  function CellText(c: Cell): string {
    match c
    case TextCell(s) => s
    case IntCell(n) => IntToString(n)
    case EmptyCell => "nan"
  }

  /** `int(s)` on a string: whitespace around, an optional sign, then decimal digits; `None`
      where `int` raises. */
  function ParseIntText(s: string): Option<int> {
    var t := Strip(s);
    if t != [] && (t[0] == '-' || t[0] == '+') then
      var digits := t[1..];
      if digits != [] && AllDigits(digits)
      then var v: int := ParseNat(digits); Some(if t[0] == '-' then -v else v)
      else None
    else if t != [] && AllDigits(t) then Some(ParseNat(t))
    else None
  }

  /** `int(cell)`; `int` of a missing value raises. */
  function CellInt(c: Cell): Option<int> {
    match c
    case TextCell(s) => ParseIntText(s)
    case IntCell(n) => Some(n)
    case EmptyCell => None
  }

  lemma IntTextBounds(n: int)
    ensures var r := IntToString(n);
            !IsSpace(r[0]) && !IsSpace(r[|r| - 1])
            && (n < 0 ==> r == "-" + NatToString(-n)) && (n >= 0 ==> r == NatToString(n))
  {
    var r := IntToString(n);
    var digits := if n < 0 then NatToString(-n) else NatToString(n);
    assert IsDigit(digits[|digits| - 1]);
    assert r[|r| - 1] == digits[|digits| - 1];
  }

  /** `int(str(n)) == n`: a number written out as text reads back as itself. */
  lemma ParseIntTextRoundTrip(n: int)
    ensures ParseIntText(IntToString(n)) == Some(n)
  {
    var r := IntToString(n);
    IntTextBounds(n);
    assert TrimLeft(r) == r;
    assert TrimRight(r) == r;
    assert Strip(r) == r;
    if n < 0 {
      var digits := NatToString(-n);
      assert r[0] == '-' && r[1..] == digits;
      assert digits != [] && AllDigits(digits);
      NatToStringRoundTrip(-n);
    } else {
      assert r[0] != '-' && r[0] != '+' && AllDigits(r);
      NatToStringRoundTrip(n);
    }
  }

  // ---------------------------------------------------------------- vocabulary from a table

  /** The two chosen columns of one table row. */
  datatype VocabRow = VocabRow(word: Cell, freq: Cell)

  function RowWord(row: VocabRow): string {
    Strip(CellText(row.word))
  }

  /** `if word and word.lower() != 'nan'`. */
  predicate Accepted(word: string) {
    word != [] && AsciiLower(word) != "nan"
  }

  /** The frequency: 1 with no frequency column, else `int(cell)`, and 1 where that raises. */
  function RowFreq(row: VocabRow, hasFreq: bool): int {
    if !hasFreq then 1
    else match CellInt(row.freq)
      case Some(n) => n
      case None => 1
  }

  function RowAccepted(row: VocabRow): bool {
    Accepted(RowWord(row))
  }

  function RowEntry(hasFreq: bool): VocabRow -> (string, int) {
    (row: VocabRow) => (RowWord(row), RowFreq(row, hasFreq))
  }

  /** The `(word, frequency)` pairs `add_term` is called with, in row order. */
  function TableEntries(rows: seq<VocabRow>, hasFreq: bool): seq<(string, int)> {
    MapSeq(Filter(rows, RowAccepted), RowEntry(hasFreq))
  }

  /** A missing word cell prints as "nan" and is skipped. */
  lemma RowWordSpec(row: VocabRow)
    ensures row.word == EmptyCell ==> !RowAccepted(row)
  {
    NanIsSkipped();
  }

  /** A kept word is non-empty and already stripped. */
  lemma AcceptedWordIsStripped(row: VocabRow)
    ensures RowAccepted(row) ==> RowWord(row) != [] && Strip(RowWord(row)) == RowWord(row)
  {
    StripIdempotent(CellText(row.word));
  }

  lemma NanIsSkipped()
    ensures !Accepted(Strip("nan"))
  {
    var nan := "nan";
    assert !IsSpace(nan[0]) && !IsSpace(nan[2]);
    assert TrimLeft(nan) == nan;
    assert TrimRight(nan) == nan;
    var lower := AsciiLower(nan);
    assert lower[0] == 'n' && lower[1] == 'a' && lower[2] == 'n';
    assert lower == nan;
  }

  /** Without a frequency column every frequency is 1; with one, a cell holding the number `n`
      (as an integer or as its text) gives `n`, and a cell `int` rejects gives 1. */
  lemma RowFreqSpec(row: VocabRow, hasFreq: bool, n: int)
    ensures !hasFreq ==> RowFreq(row, hasFreq) == 1
    ensures hasFreq && (row.freq == IntCell(n) || row.freq == TextCell(IntToString(n))) ==> RowFreq(row, hasFreq) == n
    ensures hasFreq && CellInt(row.freq).None? ==> RowFreq(row, hasFreq) == 1
    ensures hasFreq && row.freq == EmptyCell ==> RowFreq(row, hasFreq) == 1
  {
    ParseIntTextRoundTrip(n);
  }

  // ---------------------------------------------------------------- vocabulary from pasted text

  /** The length of the run of decimal digits at the end of `s`. */
  function DigitRun(s: string): (d: nat)
    ensures d <= |s|
    ensures forall k :: |s| - d <= k < |s| ==> IsDigit(s[k])
    ensures d < |s| ==> !IsDigit(s[|s| - d - 1])
  {
    if s != [] && IsDigit(s[|s| - 1]) then DigitRun(s[..|s| - 1]) + 1 else 0
  }

  /** The length of the run of whitespace at the end of `s`. */
  function SpaceRun(s: string): (w: nat)
    ensures w <= |s|
    ensures forall k :: |s| - w <= k < |s| ==> IsSpace(s[k])
    ensures w < |s| ==> !IsSpace(s[|s| - w - 1])
  {
    if s != [] && IsSpace(s[|s| - 1]) then SpaceRun(s[..|s| - 1]) + 1 else 0
  }

  /** The pattern `\s+\d+$` matches `s[i..]`, its digits starting at `j`. */
  predicate CountAt(s: string, i: int, j: int) {
    0 <= i < j < |s|
    && (forall k :: i <= k < j ==> IsSpace(s[k]))
    && (forall k :: j <= k < |s| ==> IsDigit(s[k]))
  }

  /** `re.sub(r'\s+\d+$', '', line)`: a trailing run of whitespace then digits is cut off. */
  function RemoveTrailingCount(line: string): string {
    var d := DigitRun(line);
    var rest := line[..|line| - d];
    var w := SpaceRun(rest);
    if d > 0 && w > 0 then rest[..|rest| - w] else line
  }

  lemma DigitIsNotSpace(c: char)
    ensures IsDigit(c) ==> !IsSpace(c)
  {
  }

  lemma {:induction false} DigitRunCovers(s: string, j: nat)
    requires j <= |s| && forall k :: j <= k < |s| ==> IsDigit(s[k])
    ensures |s| - DigitRun(s) <= j
  {
    if j < |s| {
      DigitRunCovers(s[..|s| - 1], j);
    }
  }

  lemma {:induction false} SpaceRunCovers(s: string, i: nat)
    requires i <= |s| && forall k :: i <= k < |s| ==> IsSpace(s[k])
    ensures |s| - SpaceRun(s) <= i
  {
    if i < |s| {
      SpaceRunCovers(s[..|s| - 1], i);
    }
  }

  /** Where the pattern matches, it starts at the whitespace run before the trailing digits. */
  lemma {:induction false} CountAtIsRuns(s: string, i: int, j: int)
    requires CountAt(s, i, j)
    ensures var d := DigitRun(s);
            var w := SpaceRun(s[..|s| - d]);
            j == |s| - d && d > 0 && w > 0 && |s| - d - w <= i
  {
    var d := DigitRun(s);
    DigitRunCovers(s, j);
    assert IsSpace(s[j - 1]);
    DigitIsNotSpace(s[j - 1]);
    assert j == |s| - d;
    var rest := s[..j];
    assert rest[|rest| - 1] == s[j - 1];
    assert SpaceRun(rest) > 0;
    forall k | i <= k < |rest| ensures IsSpace(rest[k]) {
      assert rest[k] == s[k];
    }
    SpaceRunCovers(rest, i);
  }

  /** What is cut is a match of the pattern: the result is a prefix of the line, and when
      something was cut the pattern matches where the result ends. */
  lemma RemoveTrailingCountSpec(line: string)
    ensures var r := RemoveTrailingCount(line);
            r <= line && (r != line ==> CountAt(line, |r|, |line| - DigitRun(line)))
  {
    var d := DigitRun(line);
    var rest := line[..|line| - d];
    var w := SpaceRun(rest);
    if d > 0 && w > 0 {
      var r := rest[..|rest| - w];
      assert r == line[..|r|];
      forall k | |r| <= k < |line| - d ensures IsSpace(line[k]) {
        assert line[k] == rest[k];
      }
      assert RemoveTrailingCount(line) == r;
      assert CountAt(line, |r|, |line| - d);
    }
  }

  /** What is cut is the leftmost match, and nothing is cut when the pattern matches nowhere: no
      match starts before the end of the result. */
  lemma RemoveTrailingCountLeftmost(line: string)
    ensures forall i, j :: CountAt(line, i, j) ==> |RemoveTrailingCount(line)| <= i
  {
    forall i, j | CountAt(line, i, j) ensures |RemoveTrailingCount(line)| <= i {
      CountAtIsRuns(line, i, j);
    }
  }

  /** The word a pasted line contributes: the count removed, then stripped. */
  function ManualWord(line: string): string {
    Strip(RemoveTrailingCount(line))
  }

  function HasManualWord(line: string): bool {
    ManualWord(line) != []
  }

  function ManualEntry(line: string): (string, int) {
    (ManualWord(line), 1)
  }

  /** The `(word, frequency)` pairs `add_term` is called with for a pasted list: one per line
      that leaves a word, all with the default frequency 1. */
  function ManualEntries(raw: string): seq<(string, int)> {
    MapSeq(Filter(SplitOn(raw, '\n'), HasManualWord), ManualEntry)
  }

  // ---------------------------------------------------------------- term import loops

  predicate HasTerm(ts: seq<Term>, domainId: int, word: string) {
    FirstIndex(ts, TermMatcher(domainId, word)).Some?
  }

  /** The word of an imported `(word, frequency)` entry. */
  function EntryWord(e: (string, int)): string {
    e.0
  }

  /** A row `add_term` inserted for the entry `e`: its word and frequency, empty definition,
      level 1, active, no audio or images. */
  predicate NewTermFrom(t: Term, domainId: int, e: (string, int)) {
    t == Term(t.id, domainId, e.0, "", e.1, 1, None, None, 1)
  }

  /** From `start` to `now` exactly one row was appended per entry of `NewFirsts`, in order:
      for the first spelling and frequency of each lower-cased word the domain did not hold
      in `start`, each for a word no earlier row of the domain holds up to case; and every
      word of `entries` has a row in the domain. */
  predicate TermsAdded(start: seq<Term>, now: seq<Term>, domainId: int, entries: seq<(string, int)>) {
    var added := NewFirsts(start, domainId, entries, EntryWord);
    start <= now
    && (forall k :: 0 <= k < |entries| ==> HasTerm(now, domainId, entries[k].0))
    && |now| == |start| + |added|
    && (forall i :: |start| <= i < |now| ==> NewTermFrom(now[i], domainId, added[i - |start|]))
    && forall i :: |start| <= i < |now| ==> FreshWordAt(now, i)
  }

  /** One `add_term(domainId, word, "", freq, 1)` call keeps `TermsAdded` with its entry
      appended: it changed nothing when the domain held the word, else appended that row. */
  lemma {:induction false} AddTermStep(start: seq<Term>, before: seq<Term>, after: seq<Term>, domainId: int,
                                       entries: seq<(string, int)>, id: int, word: string, freq: int)
    requires TermsAdded(start, before, domainId, entries)
    requires after == before || after == before + [Term(id, domainId, word, "", freq, 1, None, None, 1)]
    requires after == before <==> HasTerm(before, domainId, word)
    requires HasTerm(after, domainId, word)
    requires |after| == |before| + 1 ==> FreshWordAt(after, |before|)
    ensures TermsAdded(start, after, domainId, entries + [(word, freq)])
  {
    var more := entries + [(word, freq)];
    var added := NewFirsts(start, domainId, entries, EntryWord);
    forall i | |start| <= i < |before| ensures before[i].word == EntryWord(added[i - |start|]) {
      assert NewTermFrom(before[i], domainId, added[i - |start|]);
    }
    assert RowsForNew(start, before, domainId, entries, EntryWord);
    NewFirstsSnoc(start, before, domainId, entries, EntryWord, (word, freq));
    var added' := NewFirsts(start, domainId, more, EntryWord);
    assert added' == added + (if HasTerm(before, domainId, word) then [] else [(word, freq)]);
    forall k | 0 <= k < |more| ensures HasTerm(after, domainId, more[k].0) {
      if k < |entries| {
        assert more[k] == entries[k];
        FirstIndexPrefix(before, after, TermMatcher(domainId, entries[k].0));
      }
    }
    forall i | |start| <= i < |after| ensures NewTermFrom(after[i], domainId, added'[i - |start|]) && FreshWordAt(after, i) {
      if i < |before| {
        assert after[i] == before[i] && added'[i - |start|] == added[i - |start|];
        FreshWordPrefix(before, after, i);
      }
    }
  }

  /** Only the first spelling of a word is stored, with its own frequency: of "Apple" at 5 and
      then "apple" at 3, imported into a domain without that word, only ("Apple", 5) inserts. */
  lemma FirstSpellingWins(start: seq<Term>, domainId: int)
    requires forall t :: t in start ==> t.domainId != domainId
    ensures NewFirsts(start, domainId, [("Apple", 5), ("apple", 3)], EntryWord) == [("Apple", 5)]
  {
    var first, second := ("Apple", 5), ("apple", 3);
    assert forall j :: 0 <= j < |start| ==> start[j] in start;
    NewFirstsUnfold(start, domainId, [], EntryWord, first);
    assert [] + [first] == [first];
    assert NewFirsts(start, domainId, [first], EntryWord) == [first];
    assert AsciiLower("apple") == AsciiLower("Apple") by {
      assert LowerChar('A') == 'a';
    }
    NewFirstsUnfold(start, domainId, [first], EntryWord, second);
    assert !FirstOfWord([first] + [second], EntryWord, 1) by {
      assert ([first] + [second])[0] == first && ([first] + [second])[1] == second;
    }
    assert [first] + [second] == [("Apple", 5), ("apple", 3)];
  }

  /** So an import of those two entries leaves one new row, "Apple" at frequency 5. */
  lemma FirstSpellingStored(start: seq<Term>, now: seq<Term>, domainId: int)
    requires forall t :: t in start ==> t.domainId != domainId
    requires TermsAdded(start, now, domainId, [("Apple", 5), ("apple", 3)])
    ensures |now| == |start| + 1
    ensures now[|start|].word == "Apple" && now[|start|].frequency == 5
  {
    FirstSpellingWins(start, domainId);
    assert NewTermFrom(now[|start|], domainId, ("Apple", 5));
  }

  /** The entries an import loop has produced after the items `xs`, item by item. */
  function Entries<A>(xs: seq<A>, keep: A -> bool, f: A -> (string, int)): seq<(string, int)> {
    if xs == [] then []
    else
      var last := xs[|xs| - 1];
      Entries(xs[..|xs| - 1], keep, f) + (if keep(last) then [f(last)] else [])
  }

  lemma EntriesStep<A>(xs: seq<A>, i: nat, keep: A -> bool, f: A -> (string, int))
    requires i < |xs|
    ensures Entries(xs[..i + 1], keep, f) == Entries(xs[..i], keep, f) + (if keep(xs[i]) then [f(xs[i])] else [])
  {
    assert xs[..i + 1][..i] == xs[..i];
  }

  /** Item by item, the loop builds the comprehension `[f(x) for x in xs if keep(x)]`. */
  lemma {:induction false} EntriesIsComprehension<A(!new)>(xs: seq<A>, keep: A -> bool, f: A -> (string, int))
    ensures Entries(xs, keep, f) == MapSeq(Filter(xs, keep), f)
  {
    if xs != [] {
      var init := xs[..|xs| - 1];
      EntriesIsComprehension(init, keep, f);
      FilterSnoc(xs, keep);
      MapSeqAppend(Filter(init, keep), Filter([xs[|xs| - 1]], keep), f);
    }
  }

  /** One `add_term(domainId, word, "", freq, 1)` call of an import loop: it appends at most one
      row, and afterwards the imported entries include `(word, freq)`. */
  method AddImportedTerm(db: Database, domainId: int, word: string, freq: int,
                         ghost start: seq<Term>, ghost entries: seq<(string, int)>)
    requires db.Valid() && TermsAdded(start, db.terms, domainId, entries)
    modifies db
    ensures db.Valid()
    ensures db.domains == old(db.domains) && db.sentences == old(db.sentences) && db.matches == old(db.matches)
    ensures old(db.terms) <= db.terms && |db.terms| <= |old(db.terms)| + 1
    ensures TermsAdded(start, db.terms, domainId, entries + [(word, freq)])
  {
    ghost var before := db.terms;
    var id := db.AddTerm(domainId, word, "", freq, 1);
    assert HasTerm(db.terms, domainId, word);
    assert db.terms == before <==> HasTerm(before, domainId, word);
    AddTermStep(start, before, db.terms, domainId, entries, id, word, freq);
  }

  /** "Import Vocabulary": one `add_term` per row with an accepted word, at the row's frequency;
      the reported count is the number of those calls. */
  method ImportVocabularyTable(db: Database, domainId: int, rows: seq<VocabRow>, hasFreq: bool)
    returns (count: nat)
    requires db.Valid()
    modifies db
    ensures db.Valid()
    ensures db.domains == old(db.domains) && db.sentences == old(db.sentences) && db.matches == old(db.matches)
    ensures count == |TableEntries(rows, hasFreq)|
    ensures TermsAdded(old(db.terms), db.terms, domainId, TableEntries(rows, hasFreq))
    ensures WordsUnique(old(db.terms)) ==> WordsUnique(db.terms)
  {
    count := 0;
    ghost var entries: seq<(string, int)> := [];
    for i := 0 to |rows|
      invariant db.Valid()
      invariant db.domains == old(db.domains) && db.sentences == old(db.sentences) && db.matches == old(db.matches)
      invariant entries == Entries(rows[..i], RowAccepted, RowEntry(hasFreq))
      invariant count == |entries|
      invariant TermsAdded(old(db.terms), db.terms, domainId, entries)
    {
      var word := RowWord(rows[i]);
      var freq := RowFreq(rows[i], hasFreq);
      EntriesStep(rows, i, RowAccepted, RowEntry(hasFreq));
      if Accepted(word) {
        assert RowAccepted(rows[i]) && RowEntry(hasFreq)(rows[i]) == (word, freq);
        AddImportedTerm(db, domainId, word, freq, old(db.terms), entries);
        entries := entries + [(word, freq)];
        count := count + 1;
      } else {
        assert !RowAccepted(rows[i]);
      }
    }
    assert rows[..|rows|] == rows;
    EntriesIsComprehension(rows, RowAccepted, RowEntry(hasFreq));
    if WordsUnique(old(db.terms)) {
      AppendFreshKeepsUnique(old(db.terms), db.terms);
    }
  }

  /** One pasted line's step of the text import loop. */
  lemma ManualLineStep(lines: seq<string>, i: nat, entries: seq<(string, int)>, cleanWord: string)
    requires i < |lines| && entries == Entries(lines[..i], HasManualWord, ManualEntry)
    requires cleanWord == Strip(RemoveTrailingCount(lines[i]))
    ensures Entries(lines[..i + 1], HasManualWord, ManualEntry)
            == entries + (if cleanWord != [] then [(cleanWord, 1)] else [])
  {
    EntriesStep(lines, i, HasManualWord, ManualEntry);
  }

  /** The loop of "Import Text": one `add_term` per line that leaves a word, at frequency 1;
      the reported count is the number of those calls. */
  method ImportWordLines(db: Database, domainId: int, lines: seq<string>) returns (count: nat)
    requires db.Valid()
    modifies db
    ensures db.Valid()
    ensures db.domains == old(db.domains) && db.sentences == old(db.sentences) && db.matches == old(db.matches)
    ensures count == |Entries(lines, HasManualWord, ManualEntry)|
    ensures TermsAdded(old(db.terms), db.terms, domainId, Entries(lines, HasManualWord, ManualEntry))
    ensures WordsUnique(old(db.terms)) ==> WordsUnique(db.terms)
  {
    count := 0;
    ghost var entries: seq<(string, int)> := [];
    for i := 0 to |lines|
      invariant db.Valid()
      invariant db.domains == old(db.domains) && db.sentences == old(db.sentences) && db.matches == old(db.matches)
      invariant entries == Entries(lines[..i], HasManualWord, ManualEntry)
      invariant count == |entries|
      invariant TermsAdded(old(db.terms), db.terms, domainId, entries)
    {
      var cleanWord := Strip(RemoveTrailingCount(lines[i]));
      ManualLineStep(lines, i, entries, cleanWord);
      if cleanWord != [] {
        AddImportedTerm(db, domainId, cleanWord, 1, old(db.terms), entries);
        entries := entries + [(cleanWord, 1)];
        count := count + 1;
      }
    }
    assert lines[..|lines|] == lines;
    if WordsUnique(old(db.terms)) {
      AppendFreshKeepsUnique(old(db.terms), db.terms);
    }
  }

  /** "Import Text": the pasted text split on `'\n'`. */
  method ImportVocabularyText(db: Database, domainId: int, raw: string) returns (count: nat)
    requires db.Valid()
    modifies db
    ensures db.Valid()
    ensures db.domains == old(db.domains) && db.sentences == old(db.sentences) && db.matches == old(db.matches)
    ensures count == |ManualEntries(raw)|
    ensures TermsAdded(old(db.terms), db.terms, domainId, ManualEntries(raw))
    ensures WordsUnique(old(db.terms)) ==> WordsUnique(db.terms)
  {
    count := ImportWordLines(db, domainId, SplitOn(raw, '\n'));
    EntriesIsComprehension(SplitOn(raw, '\n'), HasManualWord, ManualEntry);
  }

  // ---------------------------------------------------------------- sentence lines

  /** A line or cell a sentence import keeps: longer than five characters once stripped. */
  function IsLongLine(line: string): bool {
    |Strip(line)| > 5
  }

  function LongText(x: string): bool {
    |x| > 5
  }

  /** `[l.strip() for l in lines if len(l.strip()) > 5]`: the texts a sentence import adds, in
      input order. */
  function LongLines(lines: seq<string>): seq<string> {
    MapSeq(Filter(lines, IsLongLine), Strip)
  }

  /** Every kept text is stripped and longer than five characters. */
  lemma LongLinesSpec(lines: seq<string>)
    ensures forall i :: 0 <= i < |LongLines(lines)| ==>
              |LongLines(lines)[i]| > 5 && Strip(LongLines(lines)[i]) == LongLines(lines)[i]
  {
    var f := Filter(lines, IsLongLine);
    FilterMembers(lines, IsLongLine);
    forall i | 0 <= i < |f| ensures IsLongLine(f[i]) && Strip(Strip(f[i])) == Strip(f[i]) {
      assert f[i] in f;
      StripIdempotent(f[i]);
    }
  }

  /** Every line that is long once stripped contributes its stripped form. */
  lemma LongLinesKeepsLong(lines: seq<string>)
    ensures forall l :: l in lines && IsLongLine(l) ==> Strip(l) in LongLines(lines)
  {
    var f := Filter(lines, IsLongLine);
    FilterMembers(lines, IsLongLine);
    forall l | l in lines && IsLongLine(l) ensures Strip(l) in LongLines(lines) {
      var j :| 0 <= j < |f| && f[j] == l;
      assert LongLines(lines)[j] == Strip(l);
    }
  }

  /** Reference definition: strip every line first, then keep the texts longer than five. */
  lemma {:induction false} LongLinesStripFirst(lines: seq<string>)
    ensures LongLines(lines) == Filter(MapSeq(lines, Strip), LongText)
  {
    if lines != [] {
      var tail := lines[1..];
      LongLinesStripFirst(tail);
      var m := MapSeq(lines, Strip);
      assert m[1..] == MapSeq(tail, Strip);
      var fm := Filter(m[1..], LongText);
      assert Filter(m, LongText) == if LongText(m[0]) then [m[0]] + fm else fm;
      var rest := Filter(tail, IsLongLine);
      assert MapSeq(rest, Strip) == fm;
      if IsLongLine(lines[0]) {
        assert Filter(lines, IsLongLine) == [lines[0]] + rest;
        MapSeqAppend([lines[0]], rest, Strip);
        assert MapSeq([lines[0]], Strip) == [m[0]];
      } else {
        assert Filter(lines, IsLongLine) == rest;
      }
    }
  }

  lemma {:induction false} LongLinesSnoc(xs: seq<string>, i: nat)
    requires i < |xs|
    ensures LongLines(xs[..i + 1]) == LongLines(xs[..i]) + (if IsLongLine(xs[i]) then [Strip(xs[i])] else [])
  {
    assert xs[..i + 1][..i] == xs[..i];
    FilterSnoc(xs[..i + 1], IsLongLine);
    MapSeqAppend(Filter(xs[..i], IsLongLine), Filter([xs[i]], IsLongLine), Strip);
  }

  /** The TXT corpus sent to the vector index: the long lines of `str.splitlines()`. */
  function TxtVectorLines(data: string): seq<string> {
    LongLines(SplitLines(data))
  }

  /** The pasted corpus sent to the vector index: the long lines of `split('\n')`. */
  function ManualVectorLines(raw: string): seq<string> {
    LongLines(SplitOn(raw, '\n'))
  }

  /** The TXT corpus holds stripped texts longer than five characters, only those, every long
      line of the file contributes, and it is the file's lines stripped first and then filtered. */
  lemma TxtVectorLinesSpec(data: string)
    ensures forall i :: 0 <= i < |TxtVectorLines(data)| ==>
              |TxtVectorLines(data)[i]| > 5 && Strip(TxtVectorLines(data)[i]) == TxtVectorLines(data)[i]
    ensures forall l :: l in SplitLines(data) && IsLongLine(l) ==> Strip(l) in TxtVectorLines(data)
    ensures TxtVectorLines(data) == Filter(MapSeq(SplitLines(data), Strip), LongText)
  {
    LongLinesSpec(SplitLines(data));
    LongLinesKeepsLong(SplitLines(data));
    LongLinesStripFirst(SplitLines(data));
  }

  /** The pasted corpus has the same three properties over the `split('\n')` pieces. */
  lemma ManualVectorLinesSpec(raw: string)
    ensures forall i :: 0 <= i < |ManualVectorLines(raw)| ==>
              |ManualVectorLines(raw)[i]| > 5 && Strip(ManualVectorLines(raw)[i]) == ManualVectorLines(raw)[i]
    ensures forall l :: l in SplitOn(raw, '\n') && IsLongLine(l) ==> Strip(l) in ManualVectorLines(raw)
    ensures ManualVectorLines(raw) == Filter(MapSeq(SplitOn(raw, '\n'), Strip), LongText)
  {
    LongLinesSpec(SplitOn(raw, '\n'));
    LongLinesKeepsLong(SplitOn(raw, '\n'));
    LongLinesStripFirst(SplitOn(raw, '\n'));
  }

  /** The table corpus sent to the vector index, built by appending each long cell text. */
  method TableVectorLines(cells: seq<Cell>) returns (lines: seq<string>)
    ensures lines == LongLines(MapSeq(cells, CellText))
  {
    ghost var texts := MapSeq(cells, CellText);
    lines := [];
    for i := 0 to |cells|
      invariant lines == LongLines(texts[..i])
    {
      var val := Strip(CellText(cells[i]));
      LongLinesSnoc(texts, i);
      if |val| > 5 {
        lines := lines + [val];
      }
    }
    assert texts[..|cells|] == texts;
  }

  // ---------------------------------------------------------------- sentence import loops

  predicate HasSentence(ss: seq<Sentence>, content: string) {
    FirstIndex(ss, SentenceWithContent(content)).Some?
  }

  /** A row `add_sentence` inserted for one of `texts`: in the target domain, with no
      translation, audio or explanation. */
  predicate NewSentenceFrom(s: Sentence, domainId: int, texts: seq<string>) {
    s == Sentence(s.id, domainId, s.contentEn, None, None, None) && s.contentEn in texts
  }

  /** From `start` to `now` only rows were appended, each for one of `texts`, and every text has
      a row (in whatever domain first stored it). */
  predicate SentencesAdded(start: seq<Sentence>, now: seq<Sentence>, domainId: int, texts: seq<string>) {
    start <= now
    && (forall x :: x in texts ==> HasSentence(now, x))
    && forall i :: |start| <= i < |now| ==> NewSentenceFrom(now[i], domainId, texts)
  }

  lemma {:induction false} AddSentenceStep(start: seq<Sentence>, before: seq<Sentence>, after: seq<Sentence>,
                                           domainId: int, texts: seq<string>, id: int, content: string)
    requires SentencesAdded(start, before, domainId, texts)
    requires after == before || after == before + [Sentence(id, domainId, content, None, None, None)]
    requires HasSentence(after, content)
    ensures SentencesAdded(start, after, domainId, texts + [content])
  {
    var more := texts + [content];
    forall x | x in more ensures HasSentence(after, x) {
      if x in texts {
        FirstIndexPrefix(before, after, SentenceWithContent(x));
      }
    }
    forall i | |start| <= i < |after| ensures NewSentenceFrom(after[i], domainId, more) {
      if i < |before| {
        assert after[i] == before[i];
      }
    }
  }

  /** One `add_sentence(domainId, content)` call of an import loop. */
  method AddImportedSentence(db: Database, domainId: int, content: string,
                             ghost start: seq<Sentence>, ghost texts: seq<string>)
    requires db.Valid() && SentencesAdded(start, db.sentences, domainId, texts)
    modifies db
    ensures db.Valid()
    ensures db.domains == old(db.domains) && db.terms == old(db.terms) && db.matches == old(db.matches)
    ensures SentencesAdded(start, db.sentences, domainId, texts + [content])
  {
    ghost var before := db.sentences;
    var id := db.AddSentence(domainId, content);
    assert db.FindSentence(content).Some?;
    assert HasSentence(db.sentences, content);
    AddSentenceStep(start, before, db.sentences, domainId, texts, id, content);
  }

  /** The loop shared by the three SQLite sentence imports: one `add_sentence` per line that is
      long once stripped, with its stripped text; the reported count is the number of calls. */
  method ImportSentences(db: Database, domainId: int, lines: seq<string>) returns (c: nat)
    requires db.Valid()
    modifies db
    ensures db.Valid()
    ensures db.domains == old(db.domains) && db.terms == old(db.terms) && db.matches == old(db.matches)
    ensures c == |LongLines(lines)|
    ensures SentencesAdded(old(db.sentences), db.sentences, domainId, LongLines(lines))
  {
    c := 0;
    ghost var texts: seq<string> := [];
    for i := 0 to |lines|
      invariant db.Valid()
      invariant db.domains == old(db.domains) && db.terms == old(db.terms) && db.matches == old(db.matches)
      invariant texts == LongLines(lines[..i])
      invariant c == |texts|
      invariant SentencesAdded(old(db.sentences), db.sentences, domainId, texts)
    {
      LongLinesSnoc(lines, i);
      if |Strip(lines[i])| > 5 {
        AddImportedSentence(db, domainId, Strip(lines[i]), old(db.sentences), texts);
        texts := texts + [Strip(lines[i])];
        c := c + 1;
      }
    }
    assert lines[..|lines|] == lines;
  }

  /** "Import TXT": the lines of `str.splitlines()`. */
  method ImportSentencesText(db: Database, domainId: int, data: string) returns (c: nat)
    requires db.Valid()
    modifies db
    ensures db.Valid()
    ensures db.domains == old(db.domains) && db.terms == old(db.terms) && db.matches == old(db.matches)
    ensures c == |LongLines(SplitLines(data))|
    ensures SentencesAdded(old(db.sentences), db.sentences, domainId, LongLines(SplitLines(data)))
  {
    c := ImportSentences(db, domainId, SplitLines(data));
  }

  /** "Import Table Data": `str(row[col])` of every row of the chosen column. */
  method ImportSentencesTable(db: Database, domainId: int, cells: seq<Cell>) returns (c: nat)
    requires db.Valid()
    modifies db
    ensures db.Valid()
    ensures db.domains == old(db.domains) && db.terms == old(db.terms) && db.matches == old(db.matches)
    ensures c == |LongLines(MapSeq(cells, CellText))|
    ensures SentencesAdded(old(db.sentences), db.sentences, domainId, LongLines(MapSeq(cells, CellText)))
  {
    c := ImportSentences(db, domainId, MapSeq(cells, CellText));
  }

  /** "Save to SQLite": the pasted text split on `'\n'`. */
  method ImportSentencesManual(db: Database, domainId: int, raw: string) returns (c: nat)
    requires db.Valid()
    modifies db
    ensures db.Valid()
    ensures db.domains == old(db.domains) && db.terms == old(db.terms) && db.matches == old(db.matches)
    ensures c == |LongLines(SplitOn(raw, '\n'))|
    ensures SentencesAdded(old(db.sentences), db.sentences, domainId, LongLines(SplitOn(raw, '\n')))
  {
    c := ImportSentences(db, domainId, SplitOn(raw, '\n'));
  }
}
