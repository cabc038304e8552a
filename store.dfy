/** The relational store of `DBManager`: four tables (domains, terms, sentences, matches)
    held as sequences in insertion order, with the check-then-insert operations, the
    field-wise updates, the exact-text search and the hybrid search that falls back to the
    vector store. The vector store itself is an oracle answer passed in as a `Recall`. */
module Store {
  import opened Basics
  import opened Text

  datatype Domain = Domain(id: int, name: string)

  datatype Term = Term(id: int, domainId: int, word: string, definition: string,
                       frequency: int, starLevel: int, audioHash: Option<string>,
                       imagePaths: Option<string>, isActive: int)

  datatype Sentence = Sentence(id: int, domainId: int, contentEn: string,
                               contentCn: Option<string>, audioHash: Option<string>,
                               cnExplanation: Option<string>)

  datatype Match = Match(id: int, termId: int, sentenceId: int)

  /** One element of the list given to `bulk_update_terms`. */
  datatype TermUpdate = TermUpdate(id: int, word: string, definition: string,
                                   starLevel: int, isActive: int)

  /** The `id` of a candidate sentence: a relational row id, or the i-th vector-store hit,
      whose id is the string `"vdb_<i>"`. */
  datatype SentenceId = RowId(n: int) | VdbId(i: nat)

  /** A candidate sentence as the dialog handles it: a sentence row turned into a dict, or a
      vector hit wrapped as `{"id", "content_en", "domain_id"}` (its other keys are missing). */
  datatype Candidate = Candidate(id: SentenceId, domainId: int, contentEn: string,
                                 contentCn: Option<string>, audioHash: Option<string>,
                                 cnExplanation: Option<string>)

  /** What the vector store answered to a similarity query: its texts in rank order, or an
      exception (the store being unreachable, or the query method missing). */
  datatype Recall = Unavailable | Hits(texts: seq<string>)

  /** `str(id)`. */
  function IdText(id: SentenceId): string {
    match id
    case RowId(n) => IntToString(n)
    case VdbId(i) => "vdb_" + NatToString(i)
  }

  /** The dialog's test `str(id).startswith("vdb_")` recognises exactly the vector hits. */
  lemma VdbPrefixIffVirtual(id: SentenceId)
    ensures ("vdb_" <= IdText(id)) <==> id.VdbId?
  {
    if id.RowId? {
      var t := IdText(id);
      assert t[0] == '-' || IsDigit(t[0]);
      assert t[0] != 'v';
    }
  }

  /** Distinct hits get distinct `"vdb_<i>"` keys, so the dialog's id-keyed map keeps them apart. */
  lemma VdbIdTextsDistinct(i: nat, j: nat)
    requires i != j
    ensures IdText(VdbId(i)) != IdText(VdbId(j))
  {
    if IdText(VdbId(i)) == IdText(VdbId(j)) {
      var a, b := NatToString(i), NatToString(j);
      assert a == ("vdb_" + a)[4..] && b == ("vdb_" + b)[4..];
      NatToStringInjective(i, j);
    }
  }

  function FromRow(s: Sentence): (c: Candidate)
    ensures c.id == RowId(s.id) && c.contentEn == s.contentEn && c.domainId == s.domainId
  {
    Candidate(RowId(s.id), s.domainId, s.contentEn, s.contentCn, s.audioHash, s.cnExplanation)
  }

  /** The i-th vector hit wrapped for the dialog. */
  function Virtual(i: nat, text: string, domainId: int): Candidate {
    Candidate(VdbId(i), domainId, text, None, None, None)
  }

  // ---------------------------------------------------------------- row predicates

  function DomainNamed(name: string): Domain -> bool {
    (d: Domain) => d.name == name
  }

  /** `WHERE domain_id=? AND LOWER(word)=LOWER(?)` */
  function TermMatcher(domainId: int, word: string): Term -> bool {
    (t: Term) => t.domainId == domainId && AsciiLower(t.word) == AsciiLower(word)
  }

  function TermWithId(id: int): Term -> bool {
    (t: Term) => t.id == id
  }

  function SentenceWithContent(content: string): Sentence -> bool {
    (s: Sentence) => s.contentEn == content
  }

  function SentenceWithId(id: int): Sentence -> bool {
    (s: Sentence) => s.id == id
  }

  /** `WHERE domain_id = ? AND content_en LIKE '%text%'` */
  function SentenceMatcher(domainId: int, text: string): Sentence -> bool {
    (s: Sentence) => s.domainId == domainId && ContainsIgnoreCase(s.contentEn, text)
  }

  function TermInDomain(domainId: int, onlyActive: bool): Term -> bool {
    (t: Term) => t.domainId == domainId && (!onlyActive || t.isActive == 1)
  }

  // ---------------------------------------------------------------- table invariants

  /** Domain ids are row ids below the next one to be handed out; names are UNIQUE. */
  predicate DomainTableOk(ds: seq<Domain>, next: int) {
    1 <= next
    && (forall i :: 0 <= i < |ds| ==> 1 <= ds[i].id < next)
    && (forall i, j :: 0 <= i < j < |ds| ==> ds[i].id != ds[j].id && ds[i].name != ds[j].name)
  }

  predicate TermTableOk(ts: seq<Term>, next: int) {
    1 <= next
    && (forall i :: 0 <= i < |ts| ==> 1 <= ts[i].id < next)
    && (forall i, j :: 0 <= i < j < |ts| ==> ts[i].id != ts[j].id)
  }

  /** Rows `i` and `j` hold the same word of the same domain, up to ASCII case. */
  predicate SameWord(ts: seq<Term>, i: int, j: int)
    requires 0 <= i < |ts| && 0 <= j < |ts|
  {
    ts[i].domainId == ts[j].domainId && AsciiLower(ts[i].word) == AsciiLower(ts[j].word)
  }

  /** No row before `i` holds row `i`'s word in row `i`'s domain, up to case. */
  predicate FreshWordAt(ts: seq<Term>, i: int) {
    0 <= i < |ts| && forall j :: 0 <= j < i ==> !SameWord(ts, j, i)
  }

  /** `lower(word)` is unique per domain: every row is fresh. */
  predicate WordsUnique(ts: seq<Term>) {
    forall i :: 0 <= i < |ts| ==> FreshWordAt(ts, i)
  }

  /** Appending rows does not change whether an existing row is fresh. */
  lemma FreshWordPrefix(before: seq<Term>, after: seq<Term>, i: int)
    requires before <= after && FreshWordAt(before, i)
    ensures FreshWordAt(after, i)
  {
    assert forall j :: 0 <= j < i ==> SameWord(after, j, i) == SameWord(before, j, i);
  }

  /** Appending only fresh rows keeps `lower(word)` unique per domain. */
  lemma {:induction false} AppendFreshKeepsUnique(before: seq<Term>, after: seq<Term>)
    requires before <= after && WordsUnique(before)
    requires forall i :: |before| <= i < |after| ==> FreshWordAt(after, i)
    ensures WordsUnique(after)
  {
    forall i | 0 <= i < |before| ensures FreshWordAt(after, i) {
      FreshWordPrefix(before, after, i);
    }
  }

  /** Appending a row with the next id keeps the term table well formed. */
  lemma AppendTermOk(ts: seq<Term>, next: int, t: Term)
    requires TermTableOk(ts, next) && t.id == next
    ensures TermTableOk(ts + [t], next + 1)
    ensures forall u :: u in ts ==> u.id != t.id
  {
  }

  /** A row whose word no row of its domain holds, ignoring case, is fresh when appended and
      keeps words unique per domain. */
  lemma {:induction false} AppendNewWord(ts: seq<Term>, t: Term)
    requires forall u :: u in ts ==> !(u.domainId == t.domainId && AsciiLower(u.word) == AsciiLower(t.word))
    ensures FreshWordAt(ts + [t], |ts|)
    ensures WordsUnique(ts) ==> WordsUnique(ts + [t])
  {
    var after := ts + [t];
    forall j | 0 <= j < |ts| ensures !SameWord(after, j, |ts|) {
      assert after[j] == ts[j] && ts[j] in ts;
    }
    if WordsUnique(ts) {
      AppendFreshKeepsUnique(ts, after);
    }
  }

  /** Rows that keep their ids keep the term table well formed. */
  lemma SameIdsKeepTable(before: seq<Term>, after: seq<Term>, next: int)
    requires |before| == |after| && TermTableOk(before, next)
    requires forall i :: 0 <= i < |after| ==> after[i].id == before[i].id
    ensures TermTableOk(after, next)
  {
  }

  /** Rows that keep their domain and word keep words unique per domain. */
  lemma {:induction false} SameWordsKeepUnique(before: seq<Term>, after: seq<Term>)
    requires |before| == |after| && WordsUnique(before)
    requires forall i :: 0 <= i < |after| ==> after[i].domainId == before[i].domainId && after[i].word == before[i].word
    ensures WordsUnique(after)
  {
    forall i | 0 <= i < |after| ensures FreshWordAt(after, i) {
      assert FreshWordAt(before, i);
      assert forall j :: 0 <= j < i ==> SameWord(after, j, i) == SameWord(before, j, i);
    }
  }

  // ---------------------------------------------------------------- which `add_term` calls insert

  /** `es[k]` is the first item of `es` whose word, lower-cased, is that word. */
  predicate FirstOfWord<E>(es: seq<E>, word: E -> string, k: int) {
    0 <= k < |es| && forall k' :: 0 <= k' < k ==> AsciiLower(word(es[k'])) != AsciiLower(word(es[k]))
  }

  /** The items of a loop that calls `add_term` once per item of `es`, in the domain
      `domainId`, on the table `start`, that insert a row, in order: the first item of each
      lower-cased word the domain did not hold in `start`. Every later spelling of that word
      finds the row the first one inserted. */
  function NewFirsts<E>(start: seq<Term>, domainId: int, es: seq<E>, word: E -> string): seq<E> {
    if es == [] then []
    else
      var n := |es| - 1;
      NewFirsts(start, domainId, es[..n], word)
      + (if FirstOfWord(es, word, n) && FirstIndex(start, TermMatcher(domainId, word(es[n]))).None?
         then [es[n]] else [])
  }

  /** Being the first of its word does not depend on the items after it. */
  lemma FirstOfWordPrefix<E>(es: seq<E>, word: E -> string, n: nat, k: nat)
    requires k < n <= |es|
    ensures FirstOfWord(es[..n], word, k) == FirstOfWord(es, word, k) && es[..n][k] == es[k]
  {
    assert forall k' :: 0 <= k' <= k ==> es[..n][k'] == es[k'];
  }

  /** An item inserts a row exactly when it is the first item of its lower-cased word and the
      domain did not hold that word before the loop. */
  lemma {:induction false} NewFirstsSpec<E>(start: seq<Term>, domainId: int, es: seq<E>, word: E -> string, x: E)
    ensures x in NewFirsts(start, domainId, es, word) <==>
            exists k :: FirstOfWord(es, word, k) && es[k] == x
                        && FirstIndex(start, TermMatcher(domainId, word(x))).None?
  {
    if es != [] {
      var n := |es| - 1;
      var init := es[..n];
      var isNew := FirstOfWord(es, word, n) && FirstIndex(start, TermMatcher(domainId, word(es[n]))).None?;
      var tail := if isNew then [es[n]] else [];
      assert NewFirsts(start, domainId, es, word) == NewFirsts(start, domainId, init, word) + tail;
      NewFirstsSpec(start, domainId, init, word, x);
      if x in NewFirsts(start, domainId, init, word) {
        var k :| FirstOfWord(init, word, k) && init[k] == x;
        FirstOfWordPrefix(es, word, n, k);
      } else if x in tail {
        assert FirstOfWord(es, word, n) && es[n] == x;
      }
      if exists k :: FirstOfWord(es, word, k) && es[k] == x && FirstIndex(start, TermMatcher(domainId, word(x))).None? {
        var k :| FirstOfWord(es, word, k) && es[k] == x && FirstIndex(start, TermMatcher(domainId, word(x))).None?;
        if k < n {
          FirstOfWordPrefix(es, word, n, k);
        } else {
          assert x in tail;
        }
      }
    }
  }

  /** The inserting items of `es + [e]`: those of `es`, then `e` when it is new. */
  lemma NewFirstsUnfold<E>(start: seq<Term>, domainId: int, es: seq<E>, word: E -> string, e: E)
    ensures NewFirsts(start, domainId, es + [e], word)
            == NewFirsts(start, domainId, es, word)
               + (if FirstOfWord(es + [e], word, |es|) && FirstIndex(start, TermMatcher(domainId, word(e))).None?
                  then [e] else [])
  {
    assert (es + [e])[..|es|] == es;
  }

  /** The rows the loop has inserted so far after `start`: one per inserting item, with its word. */
  predicate RowsForNew<E>(start: seq<Term>, before: seq<Term>, domainId: int, es: seq<E>, word: E -> string) {
    start <= before
    && (forall k :: 0 <= k < |es| ==> FirstIndex(before, TermMatcher(domainId, word(es[k]))).Some?)
    && |before| == |start| + |NewFirsts(start, domainId, es, word)|
    && forall i :: |start| <= i < |before| ==>
         before[i].word == word(NewFirsts(start, domainId, es, word)[i - |start|])
  }

  /** A word the table already holds is not new: it was in `start`, or an earlier item has it. */
  lemma {:induction false} HeldIsNotNew<E>(start: seq<Term>, before: seq<Term>, domainId: int, es: seq<E>,
                                          word: E -> string, e: E)
    requires RowsForNew(start, before, domainId, es, word)
    requires FirstIndex(before, TermMatcher(domainId, word(e))).Some?
    ensures !(FirstOfWord(es + [e], word, |es|) && FirstIndex(start, TermMatcher(domainId, word(e))).None?)
  {
    var j := FirstIndex(before, TermMatcher(domainId, word(e))).value;
    if j < |start| {
      assert start[j] == before[j];
    } else {
      var x := NewFirsts(start, domainId, es, word)[j - |start|];
      NewFirstsSpec(start, domainId, es, word, x);
      var k :| FirstOfWord(es, word, k) && es[k] == x;
      assert (es + [e])[k] == x;
    }
  }

  /** A word the table does not hold is new: not in `start`, and no earlier item has it. */
  lemma {:induction false} UnheldIsNew<E>(start: seq<Term>, before: seq<Term>, domainId: int, es: seq<E>,
                                         word: E -> string, e: E)
    requires start <= before
    requires forall k :: 0 <= k < |es| ==> FirstIndex(before, TermMatcher(domainId, word(es[k]))).Some?
    requires FirstIndex(before, TermMatcher(domainId, word(e))).None?
    ensures FirstOfWord(es + [e], word, |es|) && FirstIndex(start, TermMatcher(domainId, word(e))).None?
  {
    var more := es + [e];
    forall j | 0 <= j < |start| ensures !TermMatcher(domainId, word(e))(start[j]) {
      assert start[j] == before[j];
    }
    forall k' | 0 <= k' < |es| ensures AsciiLower(word(more[k'])) != AsciiLower(word(more[|es|])) {
      assert more[k'] == es[k'];
      var q := FirstIndex(before, TermMatcher(domainId, word(es[k']))).value;
      assert !TermMatcher(domainId, word(e))(before[q]);
    }
  }

  /** One more item of the loop inserts a row exactly when the table before its call does not
      hold its word. */
  lemma {:induction false} NewFirstsSnoc<E>(start: seq<Term>, before: seq<Term>, domainId: int, es: seq<E>,
                                           word: E -> string, e: E)
    requires RowsForNew(start, before, domainId, es, word)
    ensures NewFirsts(start, domainId, es + [e], word)
            == NewFirsts(start, domainId, es, word)
               + (if FirstIndex(before, TermMatcher(domainId, word(e))).Some? then [] else [e])
  {
    NewFirstsUnfold(start, domainId, es, word, e);
    if FirstIndex(before, TermMatcher(domainId, word(e))).Some? {
      HeldIsNotNew(start, before, domainId, es, word, e);
    } else {
      UnheldIsNew(start, before, domainId, es, word, e);
    }
  }

  /** `content_en` is UNIQUE across the whole table, not per domain. */
  predicate SentenceTableOk(ss: seq<Sentence>, next: int) {
    1 <= next
    && (forall i :: 0 <= i < |ss| ==> 1 <= ss[i].id < next)
    && (forall i, j :: 0 <= i < j < |ss| ==> ss[i].id != ss[j].id && ss[i].contentEn != ss[j].contentEn)
  }

  /** At most one match row per (term, sentence) pair. */
  predicate MatchTableOk(ms: seq<Match>, next: int) {
    1 <= next
    && (forall i :: 0 <= i < |ms| ==> 1 <= ms[i].id < next)
    && (forall i, j :: 0 <= i < j < |ms| ==>
          ms[i].id != ms[j].id && (ms[i].termId, ms[i].sentenceId) != (ms[j].termId, ms[j].sentenceId))
  }

  /** Some match row links the term to the sentence. */
  predicate Linked(ms: seq<Match>, termId: int, sentenceId: int) {
    exists m :: m in ms && m.termId == termId && m.sentenceId == sentenceId
  }

  predicate HasTermId(ts: seq<Term>, id: int) {
    exists t :: t in ts && t.id == id
  }

  predicate HasSentenceId(ss: seq<Sentence>, id: int) {
    exists s :: s in ss && s.id == id
  }

  /** `WHERE term_id = ? AND sentence_id = ?` */
  function PairMatcher(termId: int, sentenceId: int): Match -> bool {
    (m: Match) => m.termId == termId && m.sentenceId == sentenceId
  }

  /** The existence check of `add_match` finds a row exactly when the pair is linked. */
  lemma LinkedIffFound(ms: seq<Match>, termId: int, sentenceId: int)
    ensures Linked(ms, termId, sentenceId) <==> FirstIndex(ms, PairMatcher(termId, sentenceId)).Some?
  {
    var k := FirstIndex(ms, PairMatcher(termId, sentenceId));
    if k.Some? {
      assert ms[k.value] in ms;
    } else {
      assert forall m :: m in ms ==> !PairMatcher(termId, sentenceId)(m);
    }
  }

  /** Appending an unlinked pair under the next id keeps the match table well formed and links it. */
  lemma AppendMatchOk(ms: seq<Match>, next: int, termId: int, sentenceId: int)
    requires MatchTableOk(ms, next) && !Linked(ms, termId, sentenceId)
    ensures MatchTableOk(ms + [Match(next, termId, sentenceId)], next + 1)
    ensures Linked(ms + [Match(next, termId, sentenceId)], termId, sentenceId)
  {
    var after := ms + [Match(next, termId, sentenceId)];
    assert after[|ms|] in after;
    forall i | 0 <= i < |ms| ensures (after[i].termId, after[i].sentenceId) != (termId, sentenceId) {
      assert after[i] == ms[i] && ms[i] in ms;
    }
  }

  /** The number of match rows linking `termId` to `sentenceId`. */
  function PairCount(ms: seq<Match>, termId: int, sentenceId: int): nat {
    if ms == [] then 0
    else (if ms[0].termId == termId && ms[0].sentenceId == sentenceId then 1 else 0)
         + PairCount(ms[1..], termId, sentenceId)
  }

  /** A match table without duplicate pairs holds each pair at most once. */
  lemma {:induction false} PairCountAtMostOne(ms: seq<Match>, next: int, termId: int, sentenceId: int)
    requires MatchTableOk(ms, next)
    ensures PairCount(ms, termId, sentenceId) <= 1
    ensures PairCount(ms, termId, sentenceId) == 1 <==>
            exists m :: m in ms && m.termId == termId && m.sentenceId == sentenceId
  {
    if ms != [] {
      assert MatchTableOk(ms[1..], next) by {
        forall i, j | 0 <= i < j < |ms[1..]|
          ensures (ms[1..][i].termId, ms[1..][i].sentenceId) != (ms[1..][j].termId, ms[1..][j].sentenceId)
        {
          assert ms[1..][i] == ms[i + 1] && ms[1..][j] == ms[j + 1];
        }
      }
      PairCountAtMostOne(ms[1..], next, termId, sentenceId);
      if ms[0].termId == termId && ms[0].sentenceId == sentenceId {
        forall m | m in ms[1..] ensures !(m.termId == termId && m.sentenceId == sentenceId) {
          var j :| 0 <= j < |ms[1..]| && ms[1..][j] == m;
          assert ms[j + 1] == m;
        }
      }
      assert ms == [ms[0]] + ms[1..];
    }
  }

  // ---------------------------------------------------------------- field updates

  /** `update_sentence_info` on one row: each field given as non-None is overwritten. The
      ensures are this exact per-field rule and nothing more; `UpdateSentenceInfo` relies on it. */
  function ApplySentenceInfo(s: Sentence, contentCn: Option<string>, audioPath: Option<string>,
                             cnExplanation: Option<string>): (r: Sentence)
    ensures r.id == s.id && r.domainId == s.domainId && r.contentEn == s.contentEn
    ensures r.contentCn == (if contentCn.Some? then contentCn else s.contentCn)
    ensures r.audioHash == (if audioPath.Some? then audioPath else s.audioHash)
    ensures r.cnExplanation == (if cnExplanation.Some? then cnExplanation else s.cnExplanation)
  {
    s.(contentCn := if contentCn.Some? then contentCn else s.contentCn,
       audioHash := if audioPath.Some? then audioPath else s.audioHash,
       cnExplanation := if cnExplanation.Some? then cnExplanation else s.cnExplanation)
  }

  /** `update_term_info` on one row: each field given as non-None is overwritten. The ensures
      are this exact per-field rule and nothing more; `UpdateTermInfo` relies on it. */
  function ApplyTermInfo(t: Term, definition: Option<string>, audioPath: Option<string>,
                         starLevel: Option<int>, imagePaths: Option<string>): (r: Term)
    ensures r.id == t.id && r.domainId == t.domainId && r.word == t.word
    ensures r.frequency == t.frequency && r.isActive == t.isActive
    ensures r.definition == (if definition.Some? then definition.value else t.definition)
    ensures r.audioHash == (if audioPath.Some? then audioPath else t.audioHash)
    ensures r.starLevel == (if starLevel.Some? then starLevel.value else t.starLevel)
    ensures r.imagePaths == (if imagePaths.Some? then imagePaths else t.imagePaths)
  {
    t.(definition := if definition.Some? then definition.value else t.definition,
       audioHash := if audioPath.Some? then audioPath else t.audioHash,
       starLevel := if starLevel.Some? then starLevel.value else t.starLevel,
       imagePaths := if imagePaths.Some? then imagePaths else t.imagePaths)
  }

  /** One `UPDATE terms SET word, definition, star_level, is_active WHERE id = ?` on one row. */
  function ApplyUpdate(t: Term, u: TermUpdate): Term {
    if t.id == u.id
    then t.(word := u.word, definition := u.definition, starLevel := u.starLevel, isActive := u.isActive)
    else t
  }

  /** The row after the whole list of updates has run, in list order. */
  function ApplyAll(t: Term, us: seq<TermUpdate>): Term {
    if us == [] then t else ApplyUpdate(ApplyAll(t, us[..|us| - 1]), us[|us| - 1])
  }

  /** The last update in the list that names row `id`, if any. */
  function LastUpdateFor(us: seq<TermUpdate>, id: int): (r: Option<TermUpdate>)
    ensures r.Some? ==> r.value in us && r.value.id == id
    ensures r.None? <==> forall k :: 0 <= k < |us| ==> us[k].id != id
  {
    if us == [] then None
    else if us[|us| - 1].id == id then Some(us[|us| - 1])
    else LastUpdateFor(us[..|us| - 1], id)
  }

  /** After `bulk_update_terms`, a row carries the four edited fields of the last update naming
      it (or is untouched when none does); its id, domain, frequency, audio and images never change. */
  lemma {:induction false} ApplyAllIsLastUpdate(t: Term, us: seq<TermUpdate>)
    ensures var r := ApplyAll(t, us);
            match LastUpdateFor(us, t.id)
            case None => r == t
            case Some(u) => r == t.(word := u.word, definition := u.definition,
                                    starLevel := u.starLevel, isActive := u.isActive)
  {
    if us != [] {
      ApplyAllIsLastUpdate(t, us[..|us| - 1]);
    }
  }

  /** `bulk_update_terms` does not look at the new words: renaming a row onto another row's
      word of the same domain, spelled in another case, leaves two rows for one lower-cased word. */
  lemma BulkRenameCanCollide()
    ensures var ts := [Term(1, 1, "tea", "", 1, 1, None, None, 1), Term(2, 1, "cup", "", 1, 1, None, None, 1)];
            var us := [TermUpdate(2, "Tea", "", 1, 1)];
            WordsUnique(ts) && !WordsUnique([ApplyAll(ts[0], us), ApplyAll(ts[1], us)])
  {
    var ts := [Term(1, 1, "tea", "", 1, 1, None, None, 1), Term(2, 1, "cup", "", 1, 1, None, None, 1)];
    var us := [TermUpdate(2, "Tea", "", 1, 1)];
    assert AsciiLower("tea") != AsciiLower("cup") by {
      assert AsciiLower("tea")[0] == 't' && AsciiLower("cup")[0] == 'c';
    }
    assert FreshWordAt(ts, 1);
    var after := [ApplyAll(ts[0], us), ApplyAll(ts[1], us)];
    assert after[1].word == "Tea";
    assert AsciiLower("Tea") == AsciiLower("tea");
    assert SameWord(after, 0, 1);
    assert !FreshWordAt(after, 1);
    assert WordsUnique(ts);
  }

  // ---------------------------------------------------------------- the store

  class Database {
    var domains: seq<Domain>
    var terms: seq<Term>
    var sentences: seq<Sentence>
    var matches: seq<Match>
    var nextDomainId: int
    var nextTermId: int
    var nextSentenceId: int
    var nextMatchId: int

    ghost predicate Valid()
      reads this
    {
      DomainTableOk(domains, nextDomainId) && TermTableOk(terms, nextTermId)
      && SentenceTableOk(sentences, nextSentenceId) && MatchTableOk(matches, nextMatchId)
    }

    /** An empty database (the schema script and migrations are not modelled). */
    constructor ()
      ensures Valid()
      ensures domains == [] && terms == [] && sentences == [] && matches == []
    {
      domains, terms, sentences, matches := [], [], [], [];
      nextDomainId, nextTermId, nextSentenceId, nextMatchId := 1, 1, 1, 1;
    }

    // -------------------------------------------------------------- domains

    /** Inserts a domain; when the UNIQUE name is already taken, returns the existing id and
        adds nothing. */
    method AddDomain(name: string) returns (id: int)
      requires Valid()
      modifies this
      ensures Valid()
      ensures terms == old(terms) && sentences == old(sentences) && matches == old(matches)
      ensures match FirstIndex(old(domains), DomainNamed(name))
              case Some(k) => domains == old(domains) && id == old(domains)[k].id
              case None => domains == old(domains) + [Domain(id, name)]
                           && forall d :: d in old(domains) ==> d.id != id
    {
      var k := FirstIndex(domains, DomainNamed(name));
      if k.Some? {
        // IntegrityError: the name exists, so return the existing row's id
        id := domains[k.value].id;
      } else {
        id := nextDomainId;
        domains := domains + [Domain(id, name)];
        nextDomainId := nextDomainId + 1;
      }
    }

    // -------------------------------------------------------------- terms

    /** The first row of `domainId` whose lower-cased word equals `word` lower-cased. */
    function FindTerm(domainId: int, word: string): (r: Option<nat>)
      reads this
      ensures r.Some? ==> r.value < |terms| && terms[r.value].domainId == domainId
                          && AsciiLower(terms[r.value].word) == AsciiLower(word)
      ensures r.None? <==> forall t :: t in terms ==>
                             !(t.domainId == domainId && AsciiLower(t.word) == AsciiLower(word))
    {
      var r := FirstIndex(terms, TermMatcher(domainId, word));
      assert r.None? ==> forall t :: t in terms ==> !TermMatcher(domainId, word)(t);
      r
    }

    /** Returns the id of the term already in the domain under the same lower-cased word, changing
        nothing; otherwise inserts one active row with the given fields and returns its fresh id. */
    method AddTerm(domainId: int, word: string, definition: string, frequency: int, starLevel: int)
      returns (id: int)
      requires Valid()
      modifies this
      ensures Valid()
      ensures domains == old(domains) && sentences == old(sentences) && matches == old(matches)
      ensures match old(FindTerm(domainId, word))
              case Some(k) => terms == old(terms) && id == old(terms)[k].id
              case None =>
                terms == old(terms) + [Term(id, domainId, word, definition, frequency, starLevel, None, None, 1)]
                && forall t :: t in old(terms) ==> t.id != id
      ensures FindTerm(domainId, word).Some? && terms[FindTerm(domainId, word).value].id == id
      ensures |terms| == |old(terms)| + 1 ==> FreshWordAt(terms, |old(terms)|)
      ensures WordsUnique(old(terms)) ==> WordsUnique(terms)
    {
      var k := FindTerm(domainId, word);
      if k.Some? {
        id := terms[k.value].id;
      } else {
        id := nextTermId;
        var t := Term(id, domainId, word, definition, frequency, starLevel, None, None, 1);
        FirstIndexAppendFirst(terms, t, TermMatcher(domainId, word));
        AppendTermOk(terms, nextTermId, t);
        AppendNewWord(terms, t);
        terms := terms + [t];
        nextTermId := nextTermId + 1;
      }
    }

    /** Adding a word a second time, spelled the same up to case, finds the row the first call
        left: at most one row is inserted and both calls return its id. */
    method AddTermTwice(domainId: int, first: string, second: string, definition: string,
                        frequency: int, starLevel: int)
      returns (id1: int, id2: int)
      requires Valid() && AsciiLower(first) == AsciiLower(second)
      modifies this
      ensures Valid()
      ensures id1 == id2 && |terms| <= |old(terms)| + 1
      ensures FindTerm(domainId, second).Some? && terms[FindTerm(domainId, second).value].id == id1
    {
      id1 := AddTerm(domainId, first, definition, frequency, starLevel);
      FirstIndexAgree(terms, TermMatcher(domainId, first), TermMatcher(domainId, second));
      id2 := AddTerm(domainId, second, definition, frequency, starLevel);
    }

    /** `get_terms_by_domain`: the domain's rows (only the active ones when asked), in table order. */
    function TermsByDomain(domainId: int, onlyActive: bool): (r: seq<Term>)
      reads this
      ensures forall t :: t in r <==> t in terms && t.domainId == domainId && (!onlyActive || t.isActive == 1)
    {
      FilterMembers(terms, TermInDomain(domainId, onlyActive));
      Filter(terms, TermInDomain(domainId, onlyActive))
    }

    /** `get_term_by_id`: the row with that id, or nothing. */
    function GetTermById(termId: int): (r: Option<Term>)
      reads this
      ensures r.Some? ==> r.value in terms && r.value.id == termId
      ensures r.None? <==> forall t :: t in terms ==> t.id != termId
    {
      match FirstIndex(terms, TermWithId(termId))
      case None =>
        assert forall t :: t in terms ==> !TermWithId(termId)(t);
        None
      case Some(k) => Some(terms[k])
    }

    /** Overwrites the fields given as non-None on the row `termId`; every other field and row
        stays as it was. */
    method UpdateTermInfo(termId: int, definition: Option<string>, audioPath: Option<string>,
                          starLevel: Option<int>, imagePaths: Option<string>)
      requires Valid()
      modifies this
      ensures Valid()
      ensures domains == old(domains) && sentences == old(sentences) && matches == old(matches)
      ensures |terms| == |old(terms)|
      ensures forall i :: 0 <= i < |terms| ==>
                terms[i] == if old(terms)[i].id == termId
                            then ApplyTermInfo(old(terms)[i], definition, audioPath, starLevel, imagePaths)
                            else old(terms)[i]
      ensures WordsUnique(old(terms)) ==> WordsUnique(terms)
    {
      var ts := terms;
      var updated := seq(|ts|, i requires 0 <= i < |ts| =>
                       if ts[i].id == termId
                       then ApplyTermInfo(ts[i], definition, audioPath, starLevel, imagePaths)
                       else ts[i]);
      assert forall i :: 0 <= i < |updated| ==>
               updated[i].id == ts[i].id && updated[i].domainId == ts[i].domainId && updated[i].word == ts[i].word;
      SameIdsKeepTable(ts, updated, nextTermId);
      if WordsUnique(ts) {
        SameWordsKeepUnique(ts, updated);
      }
      terms := updated;
    }

    /** Runs the updates one after another: each sets word, definition, star level and active
        flag on the row with its id. */
    method BulkUpdateTerms(updates: seq<TermUpdate>)
      requires Valid()
      modifies this
      ensures Valid()
      ensures domains == old(domains) && sentences == old(sentences) && matches == old(matches)
      ensures |terms| == |old(terms)|
      ensures forall i :: 0 <= i < |terms| ==> terms[i] == ApplyAll(old(terms)[i], updates)
    {
      var k := 0;
      while k < |updates|
        invariant 0 <= k <= |updates|
        invariant Valid()
        invariant domains == old(domains) && sentences == old(sentences) && matches == old(matches)
        invariant |terms| == |old(terms)|
        invariant forall i :: 0 <= i < |terms| ==> terms[i] == ApplyAll(old(terms)[i], updates[..k])
      {
        var u := updates[k];
        terms := seq(|terms|, i requires 0 <= i < |terms| reads this => ApplyUpdate(terms[i], u));
        assert updates[..k + 1][..k] == updates[..k];
        k := k + 1;
      }
      assert updates[..k] == updates;
    }

    // -------------------------------------------------------------- sentences

    /** The row whose `content_en` is exactly `content`, in any domain. */
    function FindSentence(content: string): (r: Option<nat>)
      reads this
      ensures r.Some? ==> r.value < |sentences| && sentences[r.value].contentEn == content
      ensures r.None? <==> forall s :: s in sentences ==> s.contentEn != content
    {
      var r := FirstIndex(sentences, SentenceWithContent(content));
      assert r.None? ==> forall s :: s in sentences ==> !SentenceWithContent(content)(s);
      r
    }

    /** Inserts a sentence; when some row in any domain already has this exact `content_en`,
        returns that row's id and adds nothing. */
    method AddSentence(domainId: int, content: string) returns (id: int)
      requires Valid()
      modifies this
      ensures Valid()
      ensures domains == old(domains) && terms == old(terms) && matches == old(matches)
      ensures match old(FindSentence(content))
              case Some(k) => sentences == old(sentences) && id == old(sentences)[k].id
              case None => sentences == old(sentences) + [Sentence(id, domainId, content, None, None, None)]
                           && forall s :: s in old(sentences) ==> s.id != id
      ensures exists s :: s in sentences && s.id == id && s.contentEn == content
    {
      var k := FindSentence(content);
      if k.Some? {
        // IntegrityError on the UNIQUE content_en: return the existing row's id
        id := sentences[k.value].id;
        assert sentences[k.value] in sentences;
      } else {
        id := nextSentenceId;
        sentences := sentences + [Sentence(id, domainId, content, None, None, None)];
        nextSentenceId := nextSentenceId + 1;
        assert sentences[|sentences| - 1] in sentences;
      }
    }

    /** Overwrites the fields given as non-None on the row `sentId`; every other field and row
        stays as it was. */
    method UpdateSentenceInfo(sentId: int, contentCn: Option<string>, audioPath: Option<string>,
                              cnExplanation: Option<string>)
      requires Valid()
      modifies this
      ensures Valid()
      ensures domains == old(domains) && terms == old(terms) && matches == old(matches)
      ensures |sentences| == |old(sentences)|
      ensures forall i :: 0 <= i < |sentences| ==>
                sentences[i] == if old(sentences)[i].id == sentId
                                then ApplySentenceInfo(old(sentences)[i], contentCn, audioPath, cnExplanation)
                                else old(sentences)[i]
    {
      sentences := seq(|sentences|, i requires 0 <= i < |sentences| reads this =>
                     if sentences[i].id == sentId
                     then ApplySentenceInfo(sentences[i], contentCn, audioPath, cnExplanation)
                     else sentences[i]);
    }

    /** `search_sentences_by_text`: the domain's rows whose `content_en` contains the text,
        ignoring ASCII case, in table order. */
    function SearchSentencesByText(domainId: int, termText: string): (r: seq<Sentence>)
      reads this
      ensures forall s :: s in r <==> s in sentences && s.domainId == domainId
                                      && ContainsIgnoreCase(s.contentEn, termText)
      ensures IsSubsequence(r, sentences)
    {
      FilterIsSubsequence(sentences, SentenceMatcher(domainId, termText));
      FilterMembers(sentences, SentenceMatcher(domainId, termText));
      Filter(sentences, SentenceMatcher(domainId, termText))
    }

    /** `search_sentences_hybrid`: the exact-search rows when there are any; otherwise the vector
        hits, the i-th wrapped with id `"vdb_<i>"` and the queried domain, or nothing at all when
        the vector store failed. */
    method SearchSentencesHybrid(domainId: int, termText: string, recall: Recall)
      returns (candidates: seq<Candidate>)
      ensures var rows := SearchSentencesByText(domainId, termText);
              rows != [] ==> |candidates| == |rows|
                             && forall k :: 0 <= k < |rows| ==> candidates[k] == FromRow(rows[k])
      ensures SearchSentencesByText(domainId, termText) == [] ==>
                match recall
                case Unavailable => candidates == []
                case Hits(texts) =>
                  |candidates| == |texts|
                  && forall k :: 0 <= k < |texts| ==> candidates[k] == Virtual(k, texts[k], domainId)
    {
      var rows := SearchSentencesByText(domainId, termText);
      candidates := seq(|rows|, k requires 0 <= k < |rows| => FromRow(rows[k]));
      if candidates == [] {
        match recall {
          case Unavailable =>
          case Hits(texts) =>
            var i := 0;
            while i < |texts|
              invariant 0 <= i <= |texts|
              invariant |candidates| == i
              invariant forall k :: 0 <= k < i ==> candidates[k] == Virtual(k, texts[k], domainId)
            {
              candidates := candidates + [Virtual(i, texts[i], domainId)];
              i := i + 1;
            }
        }
      }
    }

    // -------------------------------------------------------------- matches

    predicate HasMatch(termId: int, sentenceId: int)
      reads this
    {
      Linked(matches, termId, sentenceId)
    }

    /** Both rows a match row's `FOREIGN KEY`s point at exist (`PRAGMA foreign_keys = ON`). */
    function CanLink(termId: int, sentenceId: int): (r: bool)
      reads this
      ensures r <==> HasTermId(terms, termId) && HasSentenceId(sentences, sentenceId)
    {
      var k := FirstIndex(sentences, SentenceWithId(sentenceId));
      assert k.Some? ==> sentences[k.value] in sentences;
      assert k.None? ==> forall s :: s in sentences ==> !SentenceWithId(sentenceId)(s);
      GetTermById(termId).Some? && k.Some?
    }

    /** Links the term to the sentence unless that pair is already linked or one of the two rows
        is missing (the foreign-key violation is swallowed); a pair is never linked twice, and a
        pair of existing rows is linked exactly once afterwards. */
    method AddMatch(termId: int, sentenceId: int)
      requires Valid()
      modifies this
      ensures Valid()
      ensures domains == old(domains) && terms == old(terms) && sentences == old(sentences)
      ensures if old(HasMatch(termId, sentenceId)) || !CanLink(termId, sentenceId) then matches == old(matches)
              else matches == old(matches) + [Match(old(nextMatchId), termId, sentenceId)]
      ensures PairCount(matches, termId, sentenceId) <= 1
      ensures CanLink(termId, sentenceId) ==> HasMatch(termId, sentenceId) && PairCount(matches, termId, sentenceId) == 1
    {
      var k := FirstIndex(matches, PairMatcher(termId, sentenceId));
      LinkedIffFound(matches, termId, sentenceId);
      if k.None? && CanLink(termId, sentenceId) {
        AppendMatchOk(matches, nextMatchId, termId, sentenceId);
        matches := matches + [Match(nextMatchId, termId, sentenceId)];
        nextMatchId := nextMatchId + 1;
      }
      // when the ids have no rows, the INSERT raises IntegrityError, which is passed over
      PairCountAtMostOne(matches, nextMatchId, termId, sentenceId);
    }

    /** `get_matches_for_term`: the sentences the term is linked to. */
    function GetMatchesForTerm(termId: int): (r: seq<Sentence>)
      reads this
      ensures forall s :: s in r <==> s in sentences && exists m :: m in matches && m.termId == termId
                                                                  && m.sentenceId == s.id
    {
      JoinMatches(matches, sentences, termId)
    }
  }

  /** `SELECT s.* FROM sentences s JOIN matches m ON s.id = m.sentence_id WHERE m.term_id = ?`,
      enumerated match by match. */
  function JoinMatches(ms: seq<Match>, ss: seq<Sentence>, termId: int): (r: seq<Sentence>)
    ensures forall s :: s in r <==> s in ss && exists m :: m in ms && m.termId == termId
                                                          && m.sentenceId == s.id
  {
    if ms == [] then []
    else
      FilterMembers(ss, SentenceWithId(ms[0].sentenceId));
      var here := if ms[0].termId == termId then Filter(ss, SentenceWithId(ms[0].sentenceId)) else [];
      var rest := JoinMatches(ms[1..], ss, termId);
      assert forall m :: m in ms <==> m == ms[0] || m in ms[1..];
      here + rest
  }
}
