/** `IngestionEngine.process`: register the user's terms in a domain, split an article into
    sentences at whitespace after `.`, `!` or `?`, and keep the stripped sentences of at least
    five characters that contain one of the terms as a whole word, ignoring case. */
module Ingestion {
  import opened Basics
  import opened Text
  import opened Store

  // ---------------------------------------------------------------- sentence splitting

  predicate IsTerminator(c: char) { c == '.' || c == '!' || c == '?' }

  /** The pattern `(?<=[.!?])\s+` can start matching at position `i` of `s`. */
  predicate SplitsAt(s: string, i: int) {
    0 < i < |s| && IsTerminator(s[i - 1]) && IsSpace(s[i])
  }

  /** No split point strictly inside `s`. */
  predicate Unsplit(s: string) {
    forall k :: 0 < k < |s| ==> !SplitsAt(s, k)
  }

  predicate AllSpace(s: string) {
    forall k :: 0 <= k < |s| ==> IsSpace(s[k])
  }

  /** The end of the whitespace run that starts at `i` (the greedy `\s+`). */
  function RunEnd(s: string, i: nat): (j: nat)
    requires i <= |s|
    ensures i <= j <= |s|
    ensures forall k :: i <= k < j ==> IsSpace(s[k])
    ensures j == |s| || !IsSpace(s[j])
    decreases |s| - i
  {
    if i < |s| && IsSpace(s[i]) then RunEnd(s, i + 1) else i
  }

  /** A piece of the split: the part `re.split` returns and the separator it consumed after it. */
  datatype Piece = Piece(text: string, gap: string)

  function Flatten(ps: seq<Piece>): string {
    if ps == [] then [] else ps[0].text + ps[0].gap + Flatten(ps[1..])
  }

  /** The left-to-right scan of `re.split`: the current part began at `start`; positions before
      `i` are known not to start a separator. */
  function Pieces(s: string, start: nat, i: nat): (r: seq<Piece>)
    requires start <= i <= |s|
    ensures |r| >= 1
    decreases |s| - i
  {
    if i == |s| then [Piece(s[start..], [])]
    else if SplitsAt(s, i) then
      var e := RunEnd(s, i);
      [Piece(s[start..i], s[i..e])] + Pieces(s, e, e)
    else Pieces(s, start, i + 1)
  }

  /** `re.split(r'(?<=[.!?])\s+', s)`. */
  function SplitSentences(s: string): (r: seq<string>)
  {
    var ps := Pieces(s, 0, 0);
    seq(|ps|, k requires 0 <= k < |ps| => ps[k].text)
  }

  /** The shape `re.split` leaves: every part but the last ends with a terminator and is followed
      by the whole whitespace run after it; the last part has no separator; no part holds a
      split point. */
  predicate WellSplit(ps: seq<Piece>) {
    |ps| >= 1 && ps[|ps| - 1].gap == []
    && (forall k :: 0 <= k < |ps| - 1 ==>
          ps[k].gap != [] && AllSpace(ps[k].gap)
          && ps[k].text != [] && IsTerminator(ps[k].text[|ps[k].text| - 1]))
    && (forall k :: 0 < k < |ps| ==> ps[k].text == [] || !IsSpace(ps[k].text[0]))
    && (forall k :: 0 <= k < |ps| ==> Unsplit(ps[k].text))
  }

  /** Gluing the parts and separators back together gives the text scanned. */
  lemma {:induction false} PiecesFlatten(s: string, start: nat, i: nat)
    requires start <= i <= |s|
    ensures Flatten(Pieces(s, start, i)) == s[start..]
    decreases |s| - i
  {
    if i == |s| {
      assert Flatten([Piece(s[start..], [])]) == s[start..] + [] + Flatten([]);
    } else if SplitsAt(s, i) {
      var e := RunEnd(s, i);
      PiecesFlatten(s, e, e);
      var r := [Piece(s[start..i], s[i..e])] + Pieces(s, e, e);
      assert r[1..] == Pieces(s, e, e);
      assert s[start..] == s[start..i] + s[i..e] + s[e..];
    } else {
      PiecesFlatten(s, start, i + 1);
    }
  }

  /** A slice holds no split point when the scanned text has none strictly inside it. */
  lemma {:induction false} SliceUnsplit(s: string, start: nat, i: nat)
    requires start <= i <= |s|
    requires forall k :: start < k < i ==> !SplitsAt(s, k)
    ensures Unsplit(s[start..i])
  {
    var t := s[start..i];
    forall k | 0 < k < |t| ensures !SplitsAt(t, k) {
      assert !SplitsAt(s, start + k);
      assert t[k - 1] == s[start + k - 1] && t[k] == s[start + k];
    }
  }

  /** A finished part in front of a well-split rest. */
  lemma {:induction false} ConsWellSplit(p: Piece, rest: seq<Piece>)
    requires p.gap != [] && AllSpace(p.gap) && p.text != [] && IsTerminator(p.text[|p.text| - 1])
    requires Unsplit(p.text)
    requires WellSplit(rest) && (rest[0].text == [] || !IsSpace(rest[0].text[0]))
    ensures WellSplit([p] + rest)
  {
    var r := [p] + rest;
    assert forall k :: 0 < k < |r| ==> r[k] == rest[k - 1];
  }

  /** The first part of a scan starts where the scan's current part started. */
  lemma {:induction false} PiecesFirst(s: string, start: nat, i: nat)
    requires start <= i <= |s|
    ensures Pieces(s, start, i)[0].text <= s[start..]
    decreases |s| - i
  {
    if i < |s| && !SplitsAt(s, i) {
      PiecesFirst(s, start, i + 1);
    }
  }

  /** The scan produces a well-split list. */
  lemma {:induction false} PiecesWellSplit(s: string, start: nat, i: nat)
    requires start <= i <= |s|
    requires start == i ==> !SplitsAt(s, i)
    requires forall k :: start < k < i ==> !SplitsAt(s, k)
    ensures WellSplit(Pieces(s, start, i))
    decreases |s| - i
  {
    if i == |s| {
      SliceUnsplit(s, start, i);
      assert s[start..i] == s[start..];
      assert Pieces(s, start, i) == [Piece(s[start..], [])];
    } else if SplitsAt(s, i) {
      var e := RunEnd(s, i);
      PiecesWellSplit(s, e, e);
      PiecesFirst(s, e, e);
      var rest := Pieces(s, e, e);
      var p := Piece(s[start..i], s[i..e]);
      SliceUnsplit(s, start, i);
      assert rest[0].text != [] ==> rest[0].text[0] == s[e];
      ConsWellSplit(p, rest);
    } else {
      PiecesWellSplit(s, start, i + 1);
    }
  }

  lemma {:induction false} WellSplitTail(ps: seq<Piece>)
    requires WellSplit(ps) && |ps| > 1
    ensures WellSplit(ps[1..])
  {
    var r := ps[1..];
    assert forall k :: 0 <= k < |r| ==> r[k] == ps[k + 1];
  }

  /** Reading the first part and its separator off a flattened list. */
  lemma {:induction false} FlattenParts(s: string, start: nat, ps: seq<Piece>)
    requires start <= |s| && ps != [] && Flatten(ps) == s[start..]
    ensures start + |ps[0].text| + |ps[0].gap| <= |s|
    ensures ps[0].text == s[start..start + |ps[0].text|]
    ensures ps[0].gap == s[start + |ps[0].text|..start + |ps[0].text| + |ps[0].gap|]
    ensures Flatten(ps[1..]) == s[start + |ps[0].text| + |ps[0].gap|..]
  {
    var t, g := ps[0].text, ps[0].gap;
    var u := s[start..];
    assert u == t + g + Flatten(ps[1..]);
    assert u[..|t|] == t;
    assert u[|t|..|t| + |g|] == g;
    assert u[|t| + |g|..] == Flatten(ps[1..]);
  }

  /** A part ends at the end of the text or at a split point; only the last part reaches the end. */
  lemma {:induction false} PartEnd(s: string, start: nat, ps: seq<Piece>)
    requires start <= |s| && WellSplit(ps) && Flatten(ps) == s[start..]
    ensures |ps| == 1 ==> start + |ps[0].text| == |s|
    ensures |ps| > 1 ==> start + |ps[0].text| < |s| && SplitsAt(s, start + |ps[0].text|)
  {
    FlattenParts(s, start, ps);
    var t, g := ps[0].text, ps[0].gap;
    if |ps| > 1 {
      assert s[start + |t| - 1] == t[|t| - 1];
      assert s[start + |t|] == g[0];
    } else {
      assert Flatten(ps[1..]) == [];
    }
  }

  /** Inside a part, a split point of the part is one of the whole text. */
  lemma {:induction false} PartSplitPoint(s: string, start: nat, t: string, k: nat)
    requires start + |t| <= |s| && t == s[start..start + |t|]
    ensures 0 < k < |t| ==> (SplitsAt(t, k) <==> SplitsAt(s, start + k))
  {
    if 0 < k < |t| {
      assert t[k - 1] == s[start + k - 1] && t[k] == s[start + k];
    }
  }

  /** A part without split points that starts at `start` cannot reach past a split point. */
  lemma {:induction false} PartBeforeSplit(s: string, start: nat, t: string, i: nat)
    requires start + |t| <= |s| && t == s[start..start + |t|] && Unsplit(t)
    requires start < i && SplitsAt(s, i)
    ensures |t| <= i - start
  {
    PartSplitPoint(s, start, t, i - start);
  }

  /** A non-empty flattened list starts with a non-empty part. */
  lemma {:induction false} FirstPartNonEmpty(qs: seq<Piece>)
    requires WellSplit(qs) && Flatten(qs) != []
    ensures qs[0].text != []
  {
    if |qs| == 1 {
      assert Flatten(qs) == qs[0].text + Flatten(qs[1..]);
    }
  }

  /** `RunEnd` is the first non-space position at or after `i`. */
  lemma {:induction false} RunEndAt(s: string, i: nat, m: nat)
    requires i <= m <= |s|
    requires forall k :: i <= k < m ==> IsSpace(s[k])
    requires m == |s| || !IsSpace(s[m])
    ensures RunEnd(s, i) == m
    decreases m - i
  {
    if i < m {
      RunEndAt(s, i + 1, m);
    }
  }

  /** A separator of a well-split list is the whole whitespace run after its part. */
  lemma {:induction false} GapIsRun(s: string, start: nat, ps: seq<Piece>)
    requires start <= |s| && |ps| > 1 && WellSplit(ps) && Flatten(ps) == s[start..]
    requires start + |ps[0].text| < |s|
    ensures ps[0].gap == s[start + |ps[0].text|..RunEnd(s, start + |ps[0].text|)]
  {
    FlattenParts(s, start, ps);
    var i := start + |ps[0].text|;
    var g := ps[0].gap;
    var m := i + |g|;
    forall k | i <= k < m ensures IsSpace(s[k]) {
      assert s[k] == g[k - i];
    }
    var rest := ps[1..];
    WellSplitTail(ps);
    if m < |s| {
      FirstPartNonEmpty(rest);
      assert s[m] == rest[0].text[0];
      assert rest[0] == ps[1];
    }
    RunEndAt(s, i, m);
  }

  /** A well-split list whose first part reaches a split point ends that part there. */
  lemma {:induction false} SplitHead(s: string, start: nat, i: nat, ps: seq<Piece>)
    requires start < i < |s| && SplitsAt(s, i)
    requires WellSplit(ps) && Flatten(ps) == s[start..]
    requires start + |ps[0].text| >= i
    ensures |ps| > 1 && ps[0].text == s[start..i]
  {
    var t := ps[0].text;
    FlattenParts(s, start, ps);
    PartEnd(s, start, ps);
    PartBeforeSplit(s, start, t, i);
  }

  /** The scan and the shape agree: any well-split list that flattens to the scanned text, and
      whose first part reaches at least the scan position, is the one the scan produces. */
  lemma {:induction false} PiecesUnique(s: string, start: nat, i: nat, ps: seq<Piece>)
    requires start <= i <= |s|
    requires start == i ==> !SplitsAt(s, i)
    requires WellSplit(ps) && Flatten(ps) == s[start..]
    requires start + |ps[0].text| >= i
    ensures ps == Pieces(s, start, i)
    decreases |s| - i, 1
  {
    if i == |s| {
      PiecesUniqueAtEnd(s, start, ps);
    } else if SplitsAt(s, i) {
      PiecesUniqueAtSplit(s, start, i, ps);
    } else {
      PiecesUnique(s, start, i + 1, ps);
    }
  }

  /** At the end of the text the first part is all that is left. */
  lemma {:induction false} PiecesUniqueAtEnd(s: string, start: nat, ps: seq<Piece>)
    requires start <= |s|
    requires WellSplit(ps) && Flatten(ps) == s[start..]
    requires start + |ps[0].text| >= |s|
    ensures ps == Pieces(s, start, |s|)
  {
    FlattenParts(s, start, ps);
    PartEnd(s, start, ps);
    var t, g := ps[0].text, ps[0].gap;
    assert |ps| == 1 && g == [] && t == s[start..];
    assert ps == [Piece(t, g)];
  }

  /** At a split point the first part ends, its separator is the whitespace run, and the rest of
      the list is the scan from the end of that run. */
  lemma {:induction false} PiecesUniqueAtSplit(s: string, start: nat, i: nat, ps: seq<Piece>)
    requires start < i < |s| && SplitsAt(s, i)
    requires WellSplit(ps) && Flatten(ps) == s[start..]
    requires start + |ps[0].text| >= i
    ensures ps == Pieces(s, start, i)
    decreases |s| - i, 0
  {
    SplitHead(s, start, i, ps);
    GapIsRun(s, start, ps);
    FlattenParts(s, start, ps);
    WellSplitTail(ps);
    var e := RunEnd(s, i);
    PiecesUnique(s, e, e, ps[1..]);
    assert ps == [Piece(s[start..i], s[i..e])] + ps[1..];
  }

  /** `re.split` is determined by the shape: the scan yields a well-split list that glues back to
      the input, and it is the only such list. */
  lemma {:induction false} SplitSentencesSpec(s: string, ps: seq<Piece>)
    ensures WellSplit(Pieces(s, 0, 0)) && Flatten(Pieces(s, 0, 0)) == s
    ensures WellSplit(ps) && Flatten(ps) == s ==> ps == Pieces(s, 0, 0)
  {
    PiecesWellSplit(s, 0, 0);
    PiecesFlatten(s, 0, 0);
    if WellSplit(ps) && Flatten(ps) == s {
      PiecesUnique(s, 0, 0, ps);
    }
  }

  // ---------------------------------------------------------------- the term map

  /** The stripped, non-empty input terms, in input order. */
  function Cleaned(terms: seq<string>): (r: seq<string>)
    ensures forall k :: 0 <= k < |r| ==> r[k] != [] && r[k] == Strip(r[k])
  {
    if terms == [] then []
    else
      var c := Strip(terms[|terms| - 1]);
      var init := Cleaned(terms[..|terms| - 1]);
      var r := init + (if c != [] then [c] else []);
      StripIdempotent(terms[|terms| - 1]);
      assert forall k :: 0 <= k < |init| ==> r[k] == init[k];
      r
  }

  lemma {:induction false} CleanedSnoc(terms: seq<string>, j: nat)
    requires j < |terms|
    ensures Cleaned(terms[..j + 1]) == Cleaned(terms[..j]) + (if Strip(terms[j]) != [] then [Strip(terms[j])] else [])
  {
    assert terms[..j + 1][..j] == terms[..j];
  }

  /** The first term of the domain under the same lower-cased word as `key` (the row `add_term`
      looks up) has the id `id`. */
  predicate KeyRegistered(ts: seq<Term>, domainId: int, key: string, id: int) {
    var f := FirstIndex(ts, TermMatcher(domainId, key));
    f.Some? && ts[f.value].id == id
  }

  /** Every key of the term map is registered under the id the map holds. */
  ghost predicate Registered(ts: seq<Term>, domainId: int, keys: seq<string>, termMap: map<string, int>) {
    (forall k :: k in termMap <==> k in keys)
    && forall k :: k in termMap ==> KeyRegistered(ts, domainId, k, termMap[k])
  }

  /** Appending rows keeps a key registered. */
  lemma {:induction false} KeyKept(before: seq<Term>, after: seq<Term>, domainId: int, key: string, id: int)
    requires KeyRegistered(before, domainId, key, id) && before <= after
    ensures KeyRegistered(after, domainId, key, id)
  {
    FirstIndexPrefix(before, after, TermMatcher(domainId, key));
  }

  /** One `add_term` call keeps the earlier keys registered and registers the new one. */
  lemma {:induction false} RegisterStep(before: seq<Term>, after: seq<Term>, domainId: int, keys: seq<string>,
                                        termMap: map<string, int>, clean: string, id: int)
    requires Registered(before, domainId, keys, termMap) && before <= after
    requires KeyRegistered(after, domainId, clean, id)
    ensures Registered(after, domainId, if clean in keys then keys else keys + [clean], termMap[clean := id])
  {
    var m := termMap[clean := id];
    forall k | k in m ensures KeyRegistered(after, domainId, k, m[k]) {
      if k != clean {
        KeyKept(before, after, domainId, k, termMap[k]);
      }
    }
  }

  /** A key of the term map is its own word. */
  function KeyWord(key: string): string {
    key
  }

  /** One `add_term(domainId, clean, "", 1, 1)` call keeps `AddedRows`: a key already in the map
      was registered, so the call changed nothing; a new key appends a row exactly when the domain
      does not hold its word. */
  lemma {:induction false} AddedStep(start: seq<Term>, before: seq<Term>, after: seq<Term>, domainId: int,
                                     keys: seq<string>, clean: string, id: int)
    requires AddedRows(start, before, domainId, keys)
    requires forall k :: 0 <= k < |keys| ==> FirstIndex(before, TermMatcher(domainId, keys[k])).Some?
    requires after == before || after == before + [Term(id, domainId, clean, "", 1, 1, None, None, 1)]
    requires after == before <==> FirstIndex(before, TermMatcher(domainId, clean)).Some?
    requires |after| == |before| + 1 ==> FreshWordAt(after, |before|)
    ensures AddedRows(start, after, domainId, if clean in keys then keys else keys + [clean])
  {
    if clean in keys {
      var k :| 0 <= k < |keys| && keys[k] == clean;
    } else {
      var added := NewFirsts(start, domainId, keys, KeyWord);
      forall i | |start| <= i < |before| ensures before[i].word == KeyWord(added[i - |start|]) {
      }
      assert RowsForNew(start, before, domainId, keys, KeyWord);
      NewFirstsSnoc(start, before, domainId, keys, KeyWord, clean);
      var added' := NewFirsts(start, domainId, keys + [clean], KeyWord);
      assert added' == added + (if after == before then [] else [clean]);
      forall i | |start| <= i < |after|
        ensures after[i] == Term(after[i].id, domainId, added'[i - |start|], "", 1, 1, None, None, 1)
        ensures FreshWordAt(after, i)
      {
        if i < |before| {
          assert after[i] == before[i] && added'[i - |start|] == added[i - |start|];
          FreshWordPrefix(before, after, i);
        }
      }
    }
  }

  /** The rows the term loop added, exactly one per key of `NewFirsts` in key order (the first
      spelling of each lower-cased word the domain did not hold before): active, in the domain,
      with an empty definition, frequency 1 and star level 1, each for a word no earlier row of
      the domain holds up to case. */
  predicate AddedRows(before: seq<Term>, after: seq<Term>, domainId: int, keys: seq<string>) {
    var added := NewFirsts(before, domainId, keys, KeyWord);
    before <= after
    && |after| == |before| + |added|
    && forall i :: |before| <= i < |after| ==>
         after[i] == Term(after[i].id, domainId, added[i - |before|], "", 1, 1, None, None, 1)
         && FreshWordAt(after, i)
  }

  /** Of the keys "Wafer" and "wafer" only the first inserts a row into a domain that lacks the word;
      the second key maps to that row's id. */
  lemma FirstKeySpellingWins(start: seq<Term>, domainId: int)
    requires forall t :: t in start ==> t.domainId != domainId
    ensures NewFirsts(start, domainId, ["Wafer", "wafer"], KeyWord) == ["Wafer"]
  {
    var first, second := "Wafer", "wafer";
    assert forall j :: 0 <= j < |start| ==> start[j] in start;
    NewFirstsUnfold(start, domainId, [], KeyWord, first);
    assert [] + [first] == [first];
    assert NewFirsts(start, domainId, [first], KeyWord) == [first];
    assert AsciiLower(second) == AsciiLower(first) by {
      assert LowerChar('W') == 'w';
    }
    NewFirstsUnfold(start, domainId, [first], KeyWord, second);
    assert !FirstOfWord([first] + [second], KeyWord, 1) by {
      assert ([first] + [second])[0] == first && ([first] + [second])[1] == second;
    }
    assert [first] + [second] == ["Wafer", "wafer"];
  }

  /** Step 1: `add_term` for every stripped non-empty term, remembering the returned ids by the
      stripped text. */
  method BuildTermMap(db: Database, domainId: int, terms: seq<string>)
    returns (keys: seq<string>, termMap: map<string, int>)
    requires db.Valid()
    modifies db
    ensures db.Valid()
    ensures db.domains == old(db.domains) && db.sentences == old(db.sentences) && db.matches == old(db.matches)
    ensures keys == Distinct(Cleaned(terms))
    ensures Registered(db.terms, domainId, keys, termMap)
    ensures AddedRows(old(db.terms), db.terms, domainId, keys)
    ensures WordsUnique(old(db.terms)) ==> WordsUnique(db.terms)
  {
    keys, termMap := [], map[];
    ghost var start := db.terms;
    for j := 0 to |terms|
      invariant db.Valid()
      invariant db.domains == old(db.domains) && db.sentences == old(db.sentences) && db.matches == old(db.matches)
      invariant start == old(db.terms)
      invariant keys == Distinct(Cleaned(terms[..j]))
      invariant Registered(db.terms, domainId, keys, termMap)
      invariant AddedRows(start, db.terms, domainId, keys)
    {
      ghost var xs := Cleaned(terms[..j]);
      CleanedSnoc(terms, j);
      var clean := Strip(terms[j]);
      if clean == [] {
        assert Cleaned(terms[..j + 1]) == xs;
      } else {
        assert Cleaned(terms[..j + 1]) == xs + [clean];
        DistinctSnoc(xs, clean);
        ghost var before := db.terms;
        var id := db.AddTerm(domainId, clean, "", 1, 1);
        assert KeyRegistered(db.terms, domainId, clean, id);
        assert db.terms == before <==> FirstIndex(before, TermMatcher(domainId, clean)).Some?;
        forall k | 0 <= k < |keys| ensures FirstIndex(before, TermMatcher(domainId, keys[k])).Some? {
          assert keys[k] in termMap;
        }
        RegisterStep(before, db.terms, domainId, keys, termMap, clean, id);
        AddedStep(start, before, db.terms, domainId, keys, clean, id);
        keys := if clean in keys then keys else keys + [clean];
        termMap := termMap[clean := id];
      }
    }
    assert terms[..|terms|] == terms;
    if WordsUnique(old(db.terms)) {
      AppendFreshKeepsUnique(old(db.terms), db.terms);
    }
  }

  // ---------------------------------------------------------------- matching

  /** One kept sentence: its stripped text and the terms found in it, in term-map order. */
  datatype Processed = Processed(text: string, matchedTerms: seq<string>)

  function MatchesIn(sentence: string): string -> bool {
    (t: string) => WholeWordMatch(t, sentence)
  }

  /** The keys found in the sentence as whole words, ignoring case, in key order. */
  function FoundTerms(sentence: string, keys: seq<string>): seq<string> {
    Filter(keys, MatchesIn(sentence))
  }

  /** The sentence is kept: its stripped text has at least five characters and holds a term. */
  predicate Keeps(keys: seq<string>, sentence: string) {
    |Strip(sentence)| >= 5 && FoundTerms(Strip(sentence), keys) != []
  }

  /** The entry a kept sentence becomes. */
  function Entry(keys: seq<string>, sentence: string): Processed {
    Processed(Strip(sentence), FoundTerms(Strip(sentence), keys))
  }

  function Keeper(keys: seq<string>): string -> bool {
    (sentence: string) => Keeps(keys, sentence)
  }

  function ToEntry(keys: seq<string>): string -> Processed {
    (sentence: string) => Entry(keys, sentence)
  }

  /** What one sentence contributes to `processed_sentences`. */
  function KeepOne(sentence: string, keys: seq<string>): seq<Processed> {
    var c := Strip(sentence);
    if |c| < 5 then []
    else
      var f := FoundTerms(c, keys);
      if f == [] then [] else [Processed(c, f)]
  }

  /** The `processed_sentences` list for the given sentences, one turn of the loop at a time. */
  function Kept(sentences: seq<string>, keys: seq<string>): seq<Processed> {
    if sentences == [] then []
    else Kept(sentences[..|sentences| - 1], keys) + KeepOne(sentences[|sentences| - 1], keys)
  }

  lemma KeptStep(sentences: seq<string>, keys: seq<string>, i: nat)
    requires i < |sentences|
    ensures Kept(sentences[..i + 1], keys) == Kept(sentences[..i], keys) + KeepOne(sentences[i], keys)
  {
    assert sentences[..i + 1][..i] == sentences[..i];
  }

  lemma FoundTermsStep(clean: string, keys: seq<string>, j: nat)
    requires j < |keys|
    ensures FoundTerms(clean, keys[..j + 1])
            == FoundTerms(clean, keys[..j]) + (if WholeWordMatch(keys[j], clean) then [keys[j]] else [])
  {
    FilterAppend(keys[..j], [keys[j]], MatchesIn(clean));
    assert keys[..j + 1] == keys[..j] + [keys[j]];
  }

  /** Step 3: for each sentence, test every key of the term map and keep the sentence when a key
      matched. */
  method MatchSentences(sentences: seq<string>, keys: seq<string>) returns (processed: seq<Processed>)
    ensures processed == Kept(sentences, keys)
  {
    processed := [];
    for i := 0 to |sentences|
      invariant processed == Kept(sentences[..i], keys)
    {
      KeptStep(sentences, keys, i);
      var clean := Strip(sentences[i]);
      if |clean| >= 5 {
        var found := [];
        for j := 0 to |keys|
          invariant found == FoundTerms(clean, keys[..j])
        {
          FoundTermsStep(clean, keys, j);
          if WholeWordMatch(keys[j], clean) {
            found := found + [keys[j]];
          }
        }
        assert keys[..|keys|] == keys;
        if found != [] {
          processed := processed + [Processed(clean, found)];
        }
      }
    }
    assert sentences[..|sentences|] == sentences;
  }

  /** The terms found are exactly the keys that occur as whole words, in key order. */
  lemma {:induction false} FoundTermsSpec(sentence: string, keys: seq<string>)
    ensures forall t :: t in FoundTerms(sentence, keys) <==> t in keys && WholeWordMatch(t, sentence)
    ensures IsSubsequence(FoundTerms(sentence, keys), keys)
  {
    FilterMembers(keys, MatchesIn(sentence));
    FilterIsSubsequence(keys, MatchesIn(sentence));
  }

  /** The loop keeps, in order, the entries of exactly the sentences that qualify:
      `[entry(s) for s in sentences if keeps(s)]`. */
  lemma {:induction false} KeptIsComprehension(sentences: seq<string>, keys: seq<string>)
    ensures Kept(sentences, keys) == MapSeq(Filter(sentences, Keeper(keys)), ToEntry(keys))
  {
    if sentences != [] {
      var n := |sentences| - 1;
      var front, last := sentences[..n], sentences[n];
      KeptIsComprehension(front, keys);
      FilterSnoc(sentences, Keeper(keys));
      KeepOneStep(last, keys);
      MapSeqAppend(Filter(front, Keeper(keys)), Filter([last], Keeper(keys)), ToEntry(keys));
    }
  }

  /** One sentence: the loop body and the comprehension agree. */
  lemma {:induction false} KeepOneStep(sentence: string, keys: seq<string>)
    ensures KeepOne(sentence, keys) == MapSeq(Filter([sentence], Keeper(keys)), ToEntry(keys))
  {
    var kept := if Keeps(keys, sentence) then [sentence] else [];
    assert Filter([sentence], Keeper(keys)) == kept by {
      assert [sentence][1..] == [];
    }
    assert MapSeq(kept, ToEntry(keys)) == if Keeps(keys, sentence) then [Entry(keys, sentence)] else [];
  }

  /** An entry is a stripped text of at least five characters with the non-empty list of the
      terms found in it. */
  lemma {:induction false} EntryShape(keys: seq<string>, sentence: string)
    requires Keeps(keys, sentence)
    ensures |Entry(keys, sentence).text| >= 5
    ensures Strip(Entry(keys, sentence).text) == Entry(keys, sentence).text
    ensures Entry(keys, sentence).matchedTerms != []
    ensures Entry(keys, sentence).matchedTerms == FoundTerms(Entry(keys, sentence).text, keys)
  {
    StripIdempotent(sentence);
  }

  /** Everything kept comes from a qualifying sentence; there is at most one entry per sentence. */
  lemma {:induction false} KeptSound(sentences: seq<string>, keys: seq<string>)
    ensures |Kept(sentences, keys)| <= |sentences|
    ensures forall p :: p in Kept(sentences, keys) ==>
              exists s :: s in sentences && Keeps(keys, s) && p == Entry(keys, s)
  {
    KeptIsComprehension(sentences, keys);
    var f := Filter(sentences, Keeper(keys));
    FilterMembers(sentences, Keeper(keys));
    forall p | p in Kept(sentences, keys) ensures exists s :: s in sentences && Keeps(keys, s) && p == Entry(keys, s) {
      var k :| 0 <= k < |f| && MapSeq(f, ToEntry(keys))[k] == p;
      assert f[k] in f;
    }
  }

  /** Every qualifying sentence is kept. */
  lemma {:induction false} KeptComplete(sentences: seq<string>, keys: seq<string>, s: string)
    requires s in sentences && Keeps(keys, s)
    ensures Entry(keys, s) in Kept(sentences, keys)
  {
    KeptIsComprehension(sentences, keys);
    var f := Filter(sentences, Keeper(keys));
    FilterMembers(sentences, Keeper(keys));
    assert Keeper(keys)(s);
    var k :| 0 <= k < |f| && f[k] == s;
    assert MapSeq(f, ToEntry(keys))[k] == Entry(keys, s);
  }

  // ---------------------------------------------------------------- the whole run

  /** `process`: register the terms, split the text, match, and return the number of kept
      sentences. The term map (`keys` in insertion order with `termMap`) and `processed` are
      what is handed to `insert_processed_data`, which the store does not define; that call is
      not modelled. */
  method Process(db: Database, projectId: int, rawText: string, terms: seq<string>)
    returns (count: int, keys: seq<string>, termMap: map<string, int>, processed: seq<Processed>)
    requires db.Valid()
    modifies db
    ensures db.Valid()
    ensures db.domains == old(db.domains) && db.sentences == old(db.sentences) && db.matches == old(db.matches)
    ensures keys == Distinct(Cleaned(terms))
    ensures Registered(db.terms, projectId, keys, termMap)
    ensures AddedRows(old(db.terms), db.terms, projectId, keys)
    ensures WordsUnique(old(db.terms)) ==> WordsUnique(db.terms)
    ensures processed == Kept(SplitSentences(rawText), keys)
    ensures count == |processed|
  {
    keys, termMap := BuildTermMap(db, projectId, terms);
    var sentences := SplitSentences(rawText);
    processed := MatchSentences(sentences, keys);
    count := |processed|;
  }
}
