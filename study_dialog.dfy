/** The study dialog's retrieval and save logic: confirmed (linked) sentences and search hits
    merged into one id-keyed map, the longest sentence chosen as the context, the save loop
    that promotes a vector hit into the store and links it to the term, and the Prev/Next
    navigation over the term list. */
module StudyDialog {
  import opened Basics
  import opened Text
  import opened Store

  // ---------------------------------------------------------------- the id-keyed map

  function Ids(cs: seq<Candidate>): (r: seq<SentenceId>)
    ensures |r| == |cs| && forall i :: 0 <= i < |cs| ==> r[i] == cs[i].id
  {
    seq(|cs|, i requires 0 <= i < |cs| => cs[i].id)
  }

  lemma {:induction false} IdsMember(cs: seq<Candidate>, c: Candidate)
    requires c in cs
    ensures c.id in Ids(cs)
  {
    var i :| 0 <= i < |cs| && cs[i] == c;
    assert Ids(cs)[i] == c.id;
  }

  /** The last candidate with that id: the value a dict comprehension keeps. */
  function LastWith(cs: seq<Candidate>, id: SentenceId): (c: Candidate)
    requires id in Ids(cs)
    ensures c in cs && c.id == id
  {
    var n := |cs| - 1;
    if cs[n].id == id then cs[n]
    else
      assert Ids(cs) == Ids(cs[..n]) + [cs[n].id];
      LastWith(cs[..n], id)
  }

  /** The first candidate with that id: the one an insert-if-absent loop keeps. */
  function FirstWith(cs: seq<Candidate>, id: SentenceId): (c: Candidate)
    requires id in Ids(cs)
    ensures c in cs && c.id == id
  {
    var n := |cs| - 1;
    assert Ids(cs) == Ids(cs[..n]) + [cs[n].id];
    if id in Ids(cs[..n]) then FirstWith(cs[..n], id) else cs[n]
  }

  /** The value the merged map holds under `id`: the linked sentence when the id is linked,
      otherwise the first search hit with that id. */
  function Resolve(linked: seq<Candidate>, searched: seq<Candidate>, id: SentenceId): Candidate
    requires id in Ids(linked) + Ids(searched)
  {
    if id in Ids(linked) then LastWith(linked, id) else FirstWith(searched, id)
  }

  /** Python's `lambda c: c['id'] == id`. */
  function HasId(id: SentenceId): Candidate -> bool {
    (c: Candidate) => c.id == id
  }

  /** The dict `{s['id']: s for s in cs}`, as its values in insertion order: a repeated key keeps
      its first position and takes the later value. */
  function DictOf(cs: seq<Candidate>): seq<Candidate> {
    if cs == [] then []
    else
      var d := DictOf(cs[..|cs| - 1]);
      var s := cs[|cs| - 1];
      match FirstIndex(d, HasId(s.id))
      case Some(k) => d[k := s]
      case None => d + [s]
  }

  /** `d` holds, in key-insertion order, the last value given for each id of `cs`. */
  predicate IsDictOf(cs: seq<Candidate>, d: seq<Candidate>) {
    Ids(d) == Distinct(Ids(cs))
    && forall k :: 0 <= k < |d| ==> d[k].id in Ids(cs) && d[k] == LastWith(cs, d[k].id)
  }

  /** A value given after `p` is the last one for its id; the other ids keep theirs. */
  lemma {:induction false} LastWithSnoc(p: seq<Candidate>, s: Candidate, id: SentenceId)
    requires id == s.id || id in Ids(p)
    ensures Ids(p + [s]) == Ids(p) + [s.id]
    ensures LastWith(p + [s], id) == if id == s.id then s else LastWith(p, id)
  {
    assert Ids(p + [s]) == Ids(p) + [s.id];
    assert (p + [s])[..|p|] == p;
  }

  /** After overwriting the value at `k`, every position `j` of the dict holds the last value
      its id had: `s` at `k`, and elsewhere the old value, since distinct positions hold
      distinct ids. */
  lemma {:induction false} DictOverwriteAt(p: seq<Candidate>, s: Candidate, d: seq<Candidate>, k: nat, j: nat)
    requires IsDictOf(p, d) && k < |d| && d[k].id == s.id && j < |d|
    ensures Ids(p + [s]) == Ids(p) + [s.id]
    ensures d[k := s][j].id in Ids(p + [s]) && d[k := s][j] == LastWith(p + [s], d[k := s][j].id)
  {
    LastWithSnoc(p, s, s.id);
    if j != k {
      var ids := Ids(d);
      DistinctNoDup(Ids(p));
      if j < k {
        assert ids[j] != ids[k];
      } else {
        assert ids[k] != ids[j];
      }
      LastWithSnoc(p, s, d[j].id);
    }
  }

  /** Replacing a candidate by one with the same id leaves the ids as they were. */
  lemma {:induction false} IdsSameIdUpdate(d: seq<Candidate>, k: nat, s: Candidate)
    requires k < |d| && d[k].id == s.id
    ensures Ids(d[k := s]) == Ids(d)
  {
    assert forall j :: 0 <= j < |d| ==> Ids(d[k := s])[j] == Ids(d)[j];
  }

  /** Assigning to a key that is already there: the key keeps its place and takes the value. */
  lemma {:induction false} DictOverwrite(p: seq<Candidate>, s: Candidate, d: seq<Candidate>, k: nat)
    requires IsDictOf(p, d) && k < |d| && d[k].id == s.id
    ensures IsDictOf(p + [s], d[k := s])
  {
    var d' := d[k := s];
    IdsSameIdUpdate(d, k, s);
    assert s.id in Distinct(Ids(p)) by {
      assert Ids(d)[k] == s.id;
    }
    LastWithSnoc(p, s, s.id);
    DistinctSnoc(Ids(p), s.id);
    assert Ids(d') == Distinct(Ids(p + [s]));
    forall j | 0 <= j < |d'| ensures d'[j].id in Ids(p + [s]) && d'[j] == LastWith(p + [s], d'[j].id) {
      DictOverwriteAt(p, s, d, k, j);
    }
  }

  /** Assigning to a new key appends it. */
  lemma {:induction false} DictAppend(p: seq<Candidate>, s: Candidate, d: seq<Candidate>)
    requires IsDictOf(p, d) && s.id !in Ids(d)
    ensures IsDictOf(p + [s], d + [s])
  {
    var d' := d + [s];
    LastWithSnoc(p, s, s.id);
    DistinctSnoc(Ids(p), s.id);
    assert Distinct(Ids(p + [s])) == Ids(d) + [s.id];
    assert Ids(d') == Ids(d) + [s.id];
    forall k | 0 <= k < |d'| ensures d'[k].id in Ids(p + [s]) && d'[k] == LastWith(p + [s], d'[k].id) {
      if k < |d| {
        assert d'[k] == d[k] && d[k].id in Ids(p);
        LastWithSnoc(p, s, d[k].id);
      } else {
        assert d'[k] == s;
      }
    }
  }

  lemma {:induction false} DictOfSpec(cs: seq<Candidate>)
    ensures IsDictOf(cs, DictOf(cs))
  {
    if cs != [] {
      var n := |cs| - 1;
      var p, s := cs[..n], cs[n];
      DictOfSpec(p);
      assert cs == p + [s];
      var d := DictOf(p);
      match FirstIndex(d, HasId(s.id))
      case Some(k) =>
        DictOverwrite(p, s, d, k);
      case None =>
        assert s.id !in Ids(d) by {
          forall j | 0 <= j < |d| ensures Ids(d)[j] != s.id {
            assert !HasId(s.id)(d[j]);
          }
        }
        DictAppend(p, s, d);
    }
  }

  /** `e` is the value the merged dict holds under `e.id`. */
  predicate EntryOk(linked: seq<Candidate>, searched: seq<Candidate>, e: Candidate) {
    e.id in Ids(linked) + Ids(searched) && e == Resolve(linked, searched, e.id)
  }

  /** `all` lists the values of the merged dict: the linked sentences' dict, then each search hit
      whose id is not yet a key, in the dict's insertion order. */
  predicate IsMerge(linked: seq<Candidate>, searched: seq<Candidate>, all: seq<Candidate>) {
    Ids(all) == Distinct(Ids(linked) + Ids(searched))
    && forall k :: 0 <= k < |all| ==> EntryOk(linked, searched, all[k])
  }

  lemma {:induction false} MergeStart(linked: seq<Candidate>)
    ensures IsMerge(linked, [], DictOf(linked))
  {
    DictOfSpec(linked);
    assert Ids(linked) + Ids([]) == Ids(linked);
  }

  /** Appending a hit leaves the first hit of every earlier id alone. */
  lemma {:induction false} FirstWithSnoc(pre: seq<Candidate>, c: Candidate, id: SentenceId)
    requires id in Ids(pre) + [c.id]
    ensures Ids(pre + [c]) == Ids(pre) + [c.id]
    ensures FirstWith(pre + [c], id) == if id in Ids(pre) then FirstWith(pre, id) else c
  {
    assert Ids(pre + [c]) == Ids(pre) + [c.id];
    assert (pre + [c])[..|pre|] == pre;
  }

  /** A searched candidate arriving later does not change an entry already in the dict. */
  lemma {:induction false} EntryOkSnoc(linked: seq<Candidate>, pre: seq<Candidate>, c: Candidate, e: Candidate)
    requires EntryOk(linked, pre, e)
    ensures EntryOk(linked, pre + [c], e)
  {
    assert Ids(pre + [c]) == Ids(pre) + [c.id];
    if e.id !in Ids(linked) {
      FirstWithSnoc(pre, c, e.id);
    }
  }

  /** A hit with a new id becomes its own entry. */
  lemma {:induction false} EntryOkNew(linked: seq<Candidate>, pre: seq<Candidate>, c: Candidate)
    requires c.id !in Ids(linked) + Ids(pre)
    ensures EntryOk(linked, pre + [c], c)
  {
    FirstWithSnoc(pre, c, c.id);
  }

  /** Every entry of `all` stays correct when a later hit arrives. */
  lemma {:induction false} EntriesOkSnoc(linked: seq<Candidate>, pre: seq<Candidate>, c: Candidate,
                                         all: seq<Candidate>)
    requires forall k :: 0 <= k < |all| ==> EntryOk(linked, pre, all[k])
    ensures forall k :: 0 <= k < |all| ==> EntryOk(linked, pre + [c], all[k])
  {
    forall k | 0 <= k < |all| ensures EntryOk(linked, pre + [c], all[k]) {
      EntryOkSnoc(linked, pre, c, all[k]);
    }
  }

  /** The keys of the merged dict after one more hit. */
  lemma {:induction false} MergeIdsSnoc(linked: seq<Candidate>, pre: seq<Candidate>, c: Candidate,
                                        all: seq<Candidate>)
    requires Ids(all) == Distinct(Ids(linked) + Ids(pre))
    ensures c.id in Ids(all) ==> Ids(all) == Distinct(Ids(linked) + Ids(pre + [c]))
    ensures c.id !in Ids(all) ==> c.id !in Ids(linked) + Ids(pre)
    ensures c.id !in Ids(all) ==> Ids(all + [c]) == Distinct(Ids(linked) + Ids(pre + [c]))
  {
    var xs := Ids(linked) + Ids(pre);
    assert Ids(linked) + Ids(pre + [c]) == xs + [c.id] by {
      assert Ids(pre + [c]) == Ids(pre) + [c.id];
    }
    DistinctSnoc(xs, c.id);
    DistinctElems(xs);
    assert Ids(all + [c]) == Ids(all) + [c.id];
  }

  /** One turn of the insert-if-absent loop keeps the merge description. */
  lemma {:induction false} AddSearchedStep(linked: seq<Candidate>, pre: seq<Candidate>, c: Candidate,
                                           all: seq<Candidate>)
    requires IsMerge(linked, pre, all)
    ensures IsMerge(linked, pre + [c], if c.id in Ids(all) then all else all + [c])
  {
    MergeIdsSnoc(linked, pre, c, all);
    EntriesOkSnoc(linked, pre, c, all);
    if c.id !in Ids(all) {
      EntryOkNew(linked, pre, c);
      var all' := all + [c];
      assert forall k :: 0 <= k < |all| ==> all'[k] == all[k];
    }
  }

  /** The merge of the dialog: the comprehension over the linked sentences, then the loop that
      adds each search hit whose id is not a key yet. */
  method MergeCandidates(linked: seq<Candidate>, searched: seq<Candidate>) returns (all: seq<Candidate>)
    ensures IsMerge(linked, searched, all)
  {
    all := DictOf(linked);
    MergeStart(linked);
    var j := 0;
    while j < |searched|
      invariant 0 <= j <= |searched|
      invariant IsMerge(linked, searched[..j], all)
    {
      var c := searched[j];
      assert searched[..j + 1] == searched[..j] + [c];
      AddSearchedStep(linked, searched[..j], c, all);
      if c.id !in Ids(all) {
        all := all + [c];
      }
      j := j + 1;
    }
    assert searched[..j] == searched;
  }

  /** Every linked sentence is in the merged map, under its own id and with its own value. */
  lemma {:induction false} MergeKeepsLinked(linked: seq<Candidate>, searched: seq<Candidate>, all: seq<Candidate>,
                         c: Candidate)
    requires IsMerge(linked, searched, all) && c in linked
    ensures c.id in Ids(all)
    ensures forall k :: 0 <= k < |all| && all[k].id == c.id ==> all[k] == LastWith(linked, c.id)
  {
    IdsMember(linked, c);
    DistinctElems(Ids(linked) + Ids(searched));
  }

  /** A search hit is in the merged map exactly when its id is; if its id was already linked, the
      map holds the linked sentence instead. */
  lemma {:induction false} MergeAddsNewHits(linked: seq<Candidate>, searched: seq<Candidate>, all: seq<Candidate>,
                         c: Candidate)
    requires IsMerge(linked, searched, all) && c in searched
    ensures c.id in Ids(all)
    ensures c.id in Ids(linked) ==>
              forall k :: 0 <= k < |all| && all[k].id == c.id ==> all[k] in linked
    ensures c.id !in Ids(linked) ==>
              forall k :: 0 <= k < |all| && all[k].id == c.id ==> all[k] == FirstWith(searched, c.id)
  {
    IdsMember(searched, c);
    DistinctElems(Ids(linked) + Ids(searched));
  }

  /** The merged map has no repeated id, holds nothing that was not linked or found, and lists
      the linked sentences first. */
  lemma {:induction false} MergeShape(linked: seq<Candidate>, searched: seq<Candidate>, all: seq<Candidate>)
    requires IsMerge(linked, searched, all)
    ensures forall i, j :: 0 <= i < j < |all| ==> all[i].id != all[j].id
    ensures forall c :: c in all ==> c in linked || c in searched
    ensures |Distinct(Ids(linked))| <= |all|
    ensures forall k :: 0 <= k < |Distinct(Ids(linked))| ==> all[k] in linked
  {
    DistinctNoDup(Ids(linked) + Ids(searched));
    assert forall i :: 0 <= i < |all| ==> Ids(all)[i] == all[i].id;
    DistinctPrefix(Ids(linked), Ids(searched));
    forall k | 0 <= k < |Distinct(Ids(linked))| ensures all[k] in linked {
      DistinctElems(Ids(linked));
      assert Ids(all)[k] == Distinct(Ids(linked))[k];
    }
  }

  // ---------------------------------------------------------------- choosing the context

  /** `_sent_len`: the length of the stripped English text. */
  function SentLen(c: Candidate): nat {
    |Strip(c.contentEn)|
  }

  /** `max(cs, key=key)`: the first index whose key is largest, as Python's left-to-right scan
      that replaces the best only on a strictly larger key finds it. */
  function ArgMax<T>(cs: seq<T>, key: T -> nat): (k: nat)
    requires |cs| > 0
    ensures k < |cs|
    ensures forall j :: 0 <= j < |cs| ==> key(cs[j]) <= key(cs[k])
    ensures forall j :: 0 <= j < k ==> key(cs[j]) < key(cs[k])
  {
    if |cs| == 1 then 0
    else
      var n := |cs| - 1;
      var k := ArgMax(cs[..n], key);
      assert forall j :: 0 <= j < n ==> cs[..n][j] == cs[j];
      if key(cs[n]) > key(cs[k]) then n else k
  }

  /** `final_sents`: the longest candidate alone, or nothing when there is no candidate. */
  function FinalSentences(cs: seq<Candidate>): (r: seq<Candidate>)
    ensures |r| <= 1
    ensures r == [] <==> cs == []
    ensures r != [] ==> r[0] in cs && forall c :: c in cs ==> SentLen(c) <= SentLen(r[0])
  {
    if cs == [] then [] else [cs[ArgMax(cs, SentLen)]]
  }

  /** When every input has a row id, so does the chosen context. */
  lemma {:induction false} FinalFromRows(linked: seq<Candidate>, searched: seq<Candidate>, all: seq<Candidate>)
    requires IsMerge(linked, searched, all)
    requires forall c :: c in linked || c in searched ==> c.id.RowId?
    ensures forall c :: c in FinalSentences(all) ==> c.id.RowId?
  {
    MergeShape(linked, searched, all);
  }

  /** With nothing linked and only vector hits found, the context is one of the hits and there
      is a context exactly when there was a hit. */
  lemma {:induction false} FinalFromHits(searched: seq<Candidate>, all: seq<Candidate>, texts: seq<string>, domainId: int)
    requires IsMerge([], searched, all)
    requires |searched| == |texts| && forall k :: 0 <= k < |texts| ==> searched[k] == Virtual(k, texts[k], domainId)
    ensures FinalSentences(all) == [] <==> texts == []
    ensures forall c :: c in FinalSentences(all) ==> c.id.VdbId? && c.contentEn in texts
  {
    MergeOfHits(searched, all, texts, domainId);
  }

  /** The merge of vector hits alone holds hits only, and is empty exactly when there were none. */
  lemma {:induction false} MergeOfHits(searched: seq<Candidate>, all: seq<Candidate>, texts: seq<string>, domainId: int)
    requires IsMerge([], searched, all)
    requires |searched| == |texts| && forall k :: 0 <= k < |texts| ==> searched[k] == Virtual(k, texts[k], domainId)
    ensures all == [] <==> texts == []
    ensures forall c :: c in all ==> c.id.VdbId? && c.contentEn in texts
  {
    if texts != [] {
      MergeAddsNewHits([], searched, all, searched[0]);
    } else {
      assert Ids([]) + Ids(searched) == [];
    }
    forall c | c in all ensures c.id.VdbId? && c.contentEn in texts {
      MergeWithin([], searched, all, c);
      HitIsVirtual(searched, texts, domainId, c);
    }
  }

  /** Every entry of the merged map was linked or found. */
  lemma {:induction false} MergeWithin(linked: seq<Candidate>, searched: seq<Candidate>, all: seq<Candidate>,
                                       c: Candidate)
    requires IsMerge(linked, searched, all) && c in all
    ensures c in linked || c in searched
  {
    var k :| 0 <= k < |all| && all[k] == c;
    assert EntryOk(linked, searched, all[k]);
  }

  /** A vector hit carries its text and a vector-store id. */
  lemma {:induction false} HitIsVirtual(searched: seq<Candidate>, texts: seq<string>, domainId: int, c: Candidate)
    requires |searched| == |texts| && forall k :: 0 <= k < |texts| ==> searched[k] == Virtual(k, texts[k], domainId)
    requires c in searched
    ensures c.id.VdbId? && c.contentEn in texts
  {
    var k :| 0 <= k < |searched| && searched[k] == c;
    assert c.contentEn == texts[k];
  }

  /** With nothing linked and nothing found, there is no context. */
  lemma {:induction false} FinalFromNothing(all: seq<Candidate>)
    requires IsMerge([], [], all)
    ensures FinalSentences(all) == []
  {
    assert Ids([]) + Ids([]) == [];
  }

  /** What `search_sentences_hybrid` returned: rows when the exact search hit; otherwise the
      vector hits wrapped in order, or nothing when the vector store failed. */
  predicate SearchShape(exactHit: bool, searched: seq<Candidate>, recall: Recall, domainId: int) {
    (exactHit ==> forall c :: c in searched ==> c.id.RowId?)
    && (!exactHit ==>
          match recall
          case Unavailable => searched == []
          case Hits(texts) => |searched| == |texts|
                              && forall k :: 0 <= k < |texts| ==> searched[k] == Virtual(k, texts[k], domainId))
  }

  /** Where the chosen context comes from, given what the two searches returned: a row when the
      exact search hit; otherwise, with nothing linked, a vector hit, or nothing when the vector
      store failed. */
  lemma {:induction false} ChoiceFacts(linked: seq<Candidate>, searched: seq<Candidate>, all: seq<Candidate>,
                                       exactHit: bool, recall: Recall, domainId: int)
    requires IsMerge(linked, searched, all)
    requires forall c :: c in linked ==> c.id.RowId?
    requires SearchShape(exactHit, searched, recall, domainId)
    ensures exactHit ==> forall c :: c in FinalSentences(all) ==> c.id.RowId?
    ensures !exactHit && linked == [] ==>
              match recall
              case Unavailable => FinalSentences(all) == []
              case Hits(texts) => (FinalSentences(all) == [] <==> texts == [])
                                  && forall c :: c in FinalSentences(all) ==> c.id.VdbId? && c.contentEn in texts
  {
    if exactHit {
      FinalFromRows(linked, searched, all);
    } else if linked == [] {
      match recall
      case Unavailable => FinalFromNothing(all);
      case Hits(texts) => FinalFromHits(searched, all, texts, domainId);
    }
  }

  /** The linked rows as dialog candidates. */
  function FromRows(rows: seq<Sentence>): (r: seq<Candidate>)
    ensures |r| == |rows| && forall i :: 0 <= i < |rows| ==> r[i] == FromRow(rows[i])
    ensures forall c :: c in r ==> c.id.RowId?
  {
    seq(|rows|, i requires 0 <= i < |rows| => FromRow(rows[i]))
  }

  /** The two queries of the dialog: the term's linked sentences and the hybrid search. */
  method Search(db: Database, termId: int, domainId: int, word: string, recall: Recall)
    returns (linked: seq<Candidate>, searched: seq<Candidate>)
    ensures linked == FromRows(db.GetMatchesForTerm(termId))
    ensures SearchShape(db.SearchSentencesByText(domainId, word) != [], searched, recall, domainId)
  {
    linked := FromRows(db.GetMatchesForTerm(termId));
    searched := db.SearchSentencesHybrid(domainId, word, recall);
  }

  /** The dialog's retrieval: linked sentences, the hybrid search, the merge and the choice. */
  method ContextSentences(db: Database, termId: int, domainId: int, word: string, recall: Recall)
    returns (linked: seq<Candidate>, searched: seq<Candidate>, all: seq<Candidate>,
             final: seq<Candidate>)
    ensures linked == FromRows(db.GetMatchesForTerm(termId))
    ensures IsMerge(linked, searched, all) && final == FinalSentences(all)
    ensures db.SearchSentencesByText(domainId, word) != [] ==>
              forall c :: c in final ==> c.id.RowId?
    ensures db.SearchSentencesByText(domainId, word) == [] && linked == [] ==>
              match recall
              case Unavailable => final == []
              case Hits(texts) => (final == [] <==> texts == [])
                                  && forall c :: c in final ==> c.id.VdbId? && c.contentEn in texts
  {
    linked, searched := Search(db, termId, domainId, word, recall);
    all := MergeCandidates(linked, searched);
    final := FinalSentences(all);
    ChoiceFacts(linked, searched, all, db.SearchSentencesByText(domainId, word) != [], recall, domainId);
  }

  // ---------------------------------------------------------------- Prev / Next

  /** The term the dialog shows: none when the index is missing or out of range. */
  function ShownIndex(index: Option<int>, total: nat): (r: Option<nat>)
    ensures r.Some? <==> index.Some? && 0 <= index.value < total
    ensures r.Some? ==> r.value == index.value
  {
    if index.Some? && 0 <= index.value < total then Some(index.value) else None
  }

  /** The index after a click on Prev, which is enabled only when `index > 0` and is only shown
      while the index is in range. The ensures are this exact step rule and nothing more; the
      properties `ClickPrev` promises are stated there. */
  function AfterPrev(index: int, total: nat): (r: int)
    ensures 0 <= index < total ==> 0 <= r < total
    ensures r == (if 0 < index < total then index - 1 else index)
  {
    if 0 <= index < total && index > 0 then index - 1 else index
  }

  /** The index after a click on Next, enabled only when `index < total - 1`. The ensures are
      this exact step rule and nothing more; the properties `ClickNext` promises are stated there. */
  function AfterNext(index: int, total: nat): (r: int)
    ensures 0 <= index < total ==> 0 <= r < total
    ensures r == (if 0 <= index < total - 1 then index + 1 else index)
  {
    if 0 <= index < total && index < total - 1 then index + 1 else index
  }

  /** The dialog's `active_study_index` in the session state. */
  class StudySession {
    var activeStudyIndex: Option<int>

    constructor (start: int)
      ensures activeStudyIndex == Some(start)
    {
      activeStudyIndex := Some(start);
    }

    /** Prev moves back one term when enabled; a shown term stays shown and a closed dialog
        stays closed. */
    method ClickPrev(total: nat)
      modifies this
      ensures match old(activeStudyIndex)
              case None => activeStudyIndex == None
              case Some(i) => activeStudyIndex == Some(AfterPrev(i, total))
      ensures ShownIndex(activeStudyIndex, total).Some? <==> ShownIndex(old(activeStudyIndex), total).Some?
    {
      if activeStudyIndex.Some? {
        activeStudyIndex := Some(AfterPrev(activeStudyIndex.value, total));
      }
    }

    /** Next moves on one term when enabled; a shown term stays shown and a closed dialog
        stays closed. */
    method ClickNext(total: nat)
      modifies this
      ensures match old(activeStudyIndex)
              case None => activeStudyIndex == None
              case Some(i) => activeStudyIndex == Some(AfterNext(i, total))
      ensures ShownIndex(activeStudyIndex, total).Some? <==> ShownIndex(old(activeStudyIndex), total).Some?
    {
      if activeStudyIndex.Some? {
        activeStudyIndex := Some(AfterNext(activeStudyIndex.value, total));
      }
    }

    /** Closing or dismissing the dialog deletes the index. */
    method Dismiss()
      modifies this
      ensures activeStudyIndex == None
    {
      activeStudyIndex := None;
    }
  }

  // ---------------------------------------------------------------- save

  /** What the dialog's widgets hold for the term when Save is clicked. */
  datatype TermInputs = TermInputs(definition: Option<string>, audio: Option<string>, starLevel: Option<int>)

  /** What the widgets hold for one sentence: translation, generated audio, AI explanation. */
  datatype SentenceInputs = SentenceInputs(translation: Option<string>, audio: Option<string>,
                                           explanation: Option<string>)

  /** Python truthiness of an optional string. */
  predicate Truthy(o: Option<string>) {
    o.Some? && o.value != ""
  }

  predicate AnyTruthy(u: SentenceInputs) {
    Truthy(u.translation) || Truthy(u.audio) || Truthy(u.explanation)
  }

  /** `st.session_state.get(...)` for each of the sentence's keys. */
  function InputsFor(inputs: map<SentenceId, SentenceInputs>, id: SentenceId): SentenceInputs {
    if id in inputs then inputs[id] else SentenceInputs(None, None, None)
  }

  /** The row carries what the user typed, for every field given. */
  predicate CarriesInputs(s: Sentence, u: SentenceInputs) {
    (u.translation.Some? ==> s.contentCn == u.translation)
    && (u.audio.Some? ==> s.audioHash == u.audio)
    && (u.explanation.Some? ==> s.cnExplanation == u.explanation)
  }

  /** Some row has this id and this text. */
  predicate HasRow(ss: seq<Sentence>, id: int, content: string) {
    exists s :: s in ss && s.id == id && s.contentEn == content
  }

  /** Every row with this id holds what the user typed. */
  predicate Carries(ss: seq<Sentence>, id: int, u: SentenceInputs) {
    forall s :: s in ss && s.id == id ==> CarriesInputs(s, u)
  }

  /** The rows of `start` are still there, at the same place, with the same id, domain and text. */
  predicate RowsKept(start: seq<Sentence>, ss: seq<Sentence>) {
    |start| <= |ss|
    && forall i :: 0 <= i < |start| ==>
         ss[i].id == start[i].id && ss[i].domainId == start[i].domainId && ss[i].contentEn == start[i].contentEn
  }

  /** What one turn of the save loop does to the sentence and match tables, for the shown
      sentence `c` with inputs `u` resolved to the row `realId`; `termExists` says whether the
      term's row is there for the match row's foreign key. */
  predicate StepOk(before: seq<Sentence>, after: seq<Sentence>, mBefore: seq<Match>, mAfter: seq<Match>,
                   termId: int, termExists: bool, domainId: int, c: Candidate, u: SentenceInputs, realId: int) {
    (c.id.RowId? ==> realId == c.id.n)
    && (c.id.VdbId? ==> HasRow(after, realId, c.contentEn))
    && (c.id.VdbId? && FirstIndex(before, SentenceWithContent(c.contentEn)).Some? ==>
          realId == before[FirstIndex(before, SentenceWithContent(c.contentEn)).value].id)
    && (termExists && HasSentenceId(after, realId) ==> Linked(mAfter, termId, realId))
    && mBefore <= mAfter
    && (forall m :: m in mAfter && m !in mBefore ==>
          m.termId == termId && m.sentenceId == realId && termExists && HasSentenceId(after, realId))
    && RowsKept(before, after) && |after| <= |before| + 1
    && (forall i :: |before| <= i < |after| ==>
          c.id.VdbId? && after[i].id == realId && after[i].domainId == domainId && after[i].contentEn == c.contentEn)
    && (forall i :: 0 <= i < |before| ==> after[i] == before[i] || (AnyTruthy(u) && after[i].id == realId))
    && (AnyTruthy(u) ==> Carries(after, realId, u))
  }

  /** What resolving the shown sentence `c` to the row `realId` did to the sentence table:
      a listed row keeps its id and the table; a vector hit names a row with its text, the
      first such row when there was one, and at most one row is appended, in `domainId`. */
  predicate Resolved(before: seq<Sentence>, mid: seq<Sentence>, domainId: int, c: Candidate, realId: int) {
    (c.id.RowId? ==> realId == c.id.n && mid == before)
    && (c.id.VdbId? ==> HasRow(mid, realId, c.contentEn))
    && (c.id.VdbId? && FirstIndex(before, SentenceWithContent(c.contentEn)).Some? ==>
          realId == before[FirstIndex(before, SentenceWithContent(c.contentEn)).value].id)
    && before <= mid && |mid| <= |before| + 1
    && (forall i :: |before| <= i < |mid| ==>
          c.id.VdbId? && mid[i] == Sentence(realId, domainId, c.contentEn, None, None, None))
  }

  /** The row a shown sentence is saved under: a listed row keeps its id; a vector hit is
      inserted into the dialog's domain, or resolves to the row that already has its text. */
  method ResolveRow(db: Database, domainId: int, c: Candidate) returns (realId: int)
    requires db.Valid()
    modifies db
    ensures db.Valid()
    ensures db.domains == old(db.domains) && db.terms == old(db.terms) && db.matches == old(db.matches)
    ensures Resolved(old(db.sentences), db.sentences, domainId, c, realId)
  {
    VdbPrefixIffVirtual(c.id);
    if "vdb_" <= IdText(c.id) {
      realId := db.AddSentence(domainId, c.contentEn);
    } else {
      realId := c.id.n;
    }
  }

  /** What storing the inputs `u` for the row `realId` did: rows keep their place, id, domain
      and text; only rows with that id change, only when an input is truthy, and then they
      carry the inputs. */
  predicate InputsStored(mid: seq<Sentence>, after: seq<Sentence>, u: SentenceInputs, realId: int) {
    |after| == |mid|
    && (forall i :: 0 <= i < |after| ==>
          after[i].id == mid[i].id && after[i].domainId == mid[i].domainId
          && after[i].contentEn == mid[i].contentEn
          && (after[i] == mid[i] || (AnyTruthy(u) && after[i].id == realId)))
    && (AnyTruthy(u) ==> Carries(after, realId, u))
  }

  /** `update_sentence_info` is called only when one of the inputs is non-empty. */
  method StoreInputs(db: Database, realId: int, u: SentenceInputs)
    requires db.Valid()
    modifies db
    ensures db.Valid()
    ensures db.domains == old(db.domains) && db.terms == old(db.terms) && db.matches == old(db.matches)
    ensures InputsStored(old(db.sentences), db.sentences, u, realId)
  {
    if AnyTruthy(u) {
      db.UpdateSentenceInfo(realId, u.translation, u.audio, u.explanation);
      forall s | s in db.sentences && s.id == realId ensures CarriesInputs(s, u) {
        var i :| 0 <= i < |db.sentences| && db.sentences[i] == s;
      }
    }
  }

  /** A row with the id and text is still there when rows keep their place, id and text. */
  lemma {:induction false} HasRowKept(before: seq<Sentence>, after: seq<Sentence>, id: int, content: string)
    requires HasRow(before, id, content) && RowsKept(before, after)
    ensures HasRow(after, id, content)
  {
    var s :| s in before && s.id == id && s.contentEn == content;
    var i :| 0 <= i < |before| && before[i] == s;
    assert after[i] in after;
  }

  /** A row id is still there when rows keep their place and id. */
  lemma {:induction false} HasIdKept(before: seq<Sentence>, after: seq<Sentence>, id: int)
    requires HasSentenceId(before, id) && RowsKept(before, after)
    ensures HasSentenceId(after, id)
  {
    var s :| s in before && s.id == id;
    var i :| 0 <= i < |before| && before[i] == s;
    assert after[i] in after;
  }

  /** The first row with a text stays the first one when rows keep their place and text. */
  lemma {:induction false} FirstContentKept(before: seq<Sentence>, after: seq<Sentence>, content: string)
    requires RowsKept(before, after)
    requires FirstIndex(before, SentenceWithContent(content)).Some?
    ensures FirstIndex(after, SentenceWithContent(content)) == FirstIndex(before, SentenceWithContent(content))
  {
    var i0 := FirstIndex(before, SentenceWithContent(content)).value;
    assert SentenceWithContent(content)(after[i0]);
    forall j | 0 <= j < i0 ensures !SentenceWithContent(content)(after[j]) {
      assert !SentenceWithContent(content)(before[j]);
    }
  }

  /** The three calls of one save turn, composed: resolving the row (`before` to `mid`), storing
      the inputs (`mid` to `after`) and linking (`mBefore` to `mAfter`). */
  lemma {:induction false} LinkOneComposes(before: seq<Sentence>, mid: seq<Sentence>, after: seq<Sentence>,
                                           mBefore: seq<Match>, mAfter: seq<Match>, termId: int,
                                           termExists: bool, domainId: int, c: Candidate, u: SentenceInputs,
                                           realId: int, nextId: int)
    requires Resolved(before, mid, domainId, c, realId)
    requires InputsStored(mid, after, u, realId)
    requires if Linked(mBefore, termId, realId) || !(termExists && HasSentenceId(after, realId)) then mAfter == mBefore
             else mAfter == mBefore + [Match(nextId, termId, realId)]
    ensures StepOk(before, after, mBefore, mAfter, termId, termExists, domainId, c, u, realId)
  {
    assert RowsKept(mid, after);
    if c.id.VdbId? {
      HasRowKept(mid, after, realId, c.contentEn);
    }
    assert forall i :: 0 <= i < |before| ==> mid[i] == before[i];
  }

  /** One turn of the save loop: resolve the shown sentence to a real row, store the user's
      fields, and link the term to the row. */
  method LinkOne(db: Database, termId: int, domainId: int, c: Candidate, u: SentenceInputs)
    returns (realId: int)
    requires db.Valid()
    modifies db
    ensures db.Valid()
    ensures db.domains == old(db.domains) && db.terms == old(db.terms)
    ensures StepOk(old(db.sentences), db.sentences, old(db.matches), db.matches, termId,
                   HasTermId(db.terms, termId), domainId, c, u, realId)
  {
    ghost var before, mBefore := db.sentences, db.matches;
    realId := ResolveRow(db, domainId, c);
    ghost var mid := db.sentences;
    StoreInputs(db, realId, u);
    ghost var nextId := db.nextMatchId;
    db.AddMatch(termId, realId);
    LinkOneComposes(before, mid, db.sentences, mBefore, db.matches, termId, HasTermId(db.terms, termId),
                    domainId, c, u, realId, nextId);
  }

  /** Each of the first `|ids|` shown sentences whose row exists is linked to the term, when the
      term exists; the only new links are the term's, to existing rows of those sentences. */
  predicate LinksOk(startMatches: seq<Match>, ms: seq<Match>, ss: seq<Sentence>, termId: int,
                    termExists: bool, ids: seq<int>) {
    (forall j :: 0 <= j < |ids| && termExists && HasSentenceId(ss, ids[j]) ==> Linked(ms, termId, ids[j]))
    && startMatches <= ms
    && (forall m :: m in ms && m !in startMatches ==>
          m.termId == termId && m.sentenceId in ids && termExists && HasSentenceId(ss, m.sentenceId))
  }

  /** A listed row keeps its id; a vector hit resolves to a row with its text, which is the row
      that already had that text when there was one. */
  predicate ResolvedOk(start: seq<Sentence>, ss: seq<Sentence>, final: seq<Candidate>, ids: seq<int>)
    requires |ids| <= |final|
  {
    (forall j :: 0 <= j < |ids| && final[j].id.RowId? ==> ids[j] == final[j].id.n)
    && (forall j :: 0 <= j < |ids| && final[j].id.VdbId? ==> HasRow(ss, ids[j], final[j].contentEn))
    && (forall j :: 0 <= j < |ids| && final[j].id.VdbId?
                    && FirstIndex(start, SentenceWithContent(final[j].contentEn)).Some? ==>
          ids[j] == start[FirstIndex(start, SentenceWithContent(final[j].contentEn)).value].id)
  }

  /** Some shown sentence among the first `|ids|` with a non-empty input was saved under row `id`. */
  predicate Touched(id: int, final: seq<Candidate>, inputs: map<SentenceId, SentenceInputs>, ids: seq<int>)
    requires |ids| <= |final|
  {
    exists j :: 0 <= j < |ids| && ids[j] == id && AnyTruthy(InputsFor(inputs, final[j].id))
  }

  /** The row was inserted for one of the first `|ids|` shown sentences, a vector hit: it has
      that sentence's id and text, in the dialog's domain. */
  predicate Inserted(s: Sentence, final: seq<Candidate>, domainId: int, ids: seq<int>)
    requires |ids| <= |final|
  {
    exists j :: 0 <= j < |ids| && ids[j] == s.id && final[j].id.VdbId? && final[j].contentEn == s.contentEn
                && s.domainId == domainId
  }

  /** Old rows keep their place, id, domain and text; an old row changes only when a shown
      sentence with a non-empty input was saved under it; every added row is a shown vector hit
      inserted into the dialog's domain, at most one per shown sentence; and the last sentence
      saved under a row leaves its inputs in that row. */
  predicate FieldsOk(start: seq<Sentence>, ss: seq<Sentence>, final: seq<Candidate>,
                     inputs: map<SentenceId, SentenceInputs>, domainId: int, ids: seq<int>)
    requires |ids| <= |final|
  {
    RowsKept(start, ss) && |ss| <= |start| + |ids|
    && (forall i :: 0 <= i < |start| ==> ss[i] == start[i] || Touched(ss[i].id, final, inputs, ids))
    && (forall i :: |start| <= i < |ss| ==> Inserted(ss[i], final, domainId, ids))
    && (forall j :: 0 <= j < |ids| && AnyTruthy(InputsFor(inputs, final[j].id))
                    && (forall j' :: j < j' < |ids| ==> ids[j'] != ids[j]) ==>
          Carries(ss, ids[j], InputsFor(inputs, final[j].id)))
  }

  /** What the Save button leaves behind after the first `|ids|` shown sentences. */
  predicate SaveOutcome(start: seq<Sentence>, startMatches: seq<Match>, ss: seq<Sentence>, ms: seq<Match>,
                        termId: int, termExists: bool, domainId: int, final: seq<Candidate>,
                        inputs: map<SentenceId, SentenceInputs>, ids: seq<int>)
    requires |ids| <= |final|
  {
    LinksOk(startMatches, ms, ss, termId, termExists, ids)
    && ResolvedOk(start, ss, final, ids)
    && FieldsOk(start, ss, final, inputs, domainId, ids)
  }

  lemma {:induction false} SaveStart(start: seq<Sentence>, startMatches: seq<Match>, termId: int, termExists: bool,
                                     domainId: int, final: seq<Candidate>, inputs: map<SentenceId, SentenceInputs>)
    ensures SaveOutcome(start, startMatches, start, startMatches, termId, termExists, domainId, final, inputs, [])
  {
  }

  /** The rows a turn does not resolve to keep their fields. */
  lemma {:induction false} StepKeepsOthers(before: seq<Sentence>, after: seq<Sentence>, mBefore: seq<Match>,
                                           mAfter: seq<Match>, termId: int, termExists: bool, domainId: int,
                                           c: Candidate, u: SentenceInputs, realId: int, id: int, v: SentenceInputs)
    requires StepOk(before, after, mBefore, mAfter, termId, termExists, domainId, c, u, realId)
    requires id != realId && Carries(before, id, v)
    ensures Carries(after, id, v)
  {
    forall s | s in after && s.id == id ensures CarriesInputs(s, v) {
      var i :| 0 <= i < |after| && after[i] == s;
      assert before[i] in before;
    }
  }

  lemma {:induction false} LinksStep(startMatches: seq<Match>, mBefore: seq<Match>, mAfter: seq<Match>,
                                     before: seq<Sentence>, after: seq<Sentence>, termId: int, termExists: bool,
                                     ids: seq<int>, realId: int)
    requires LinksOk(startMatches, mBefore, before, termId, termExists, ids)
    requires RowsKept(before, after) && forall i :: |before| <= i < |after| ==> after[i].id == realId
    requires termExists && HasSentenceId(after, realId) ==> Linked(mAfter, termId, realId)
    requires mBefore <= mAfter
    requires forall m :: m in mAfter && m !in mBefore ==>
               m.termId == termId && m.sentenceId == realId && termExists && HasSentenceId(after, realId)
    ensures LinksOk(startMatches, mAfter, after, termId, termExists, ids + [realId])
  {
    var ids' := ids + [realId];
    forall j | 0 <= j < |ids'| && termExists && HasSentenceId(after, ids'[j])
      ensures Linked(mAfter, termId, ids'[j])
    {
      if j < |ids| && ids[j] != realId {
        var s :| s in after && s.id == ids[j];
        var i :| 0 <= i < |after| && after[i] == s;
        assert before[i] in before;
        var m :| m in mBefore && m.termId == termId && m.sentenceId == ids[j];
        assert m in mAfter;
      }
    }
    forall m | m in mAfter && m !in startMatches
      ensures m.termId == termId && m.sentenceId in ids' && termExists && HasSentenceId(after, m.sentenceId)
    {
      if m in mBefore {
        HasIdKept(before, after, m.sentenceId);
      }
    }
  }

  lemma {:induction false} ResolvedStep(start: seq<Sentence>, before: seq<Sentence>, after: seq<Sentence>,
                                        mBefore: seq<Match>, mAfter: seq<Match>, termId: int, termExists: bool,
                                        domainId: int, final: seq<Candidate>, u: SentenceInputs, ids: seq<int>,
                                        realId: int)
    requires |ids| < |final|
    requires ResolvedOk(start, before, final, ids) && RowsKept(start, before)
    requires StepOk(before, after, mBefore, mAfter, termId, termExists, domainId, final[|ids|], u, realId)
    ensures ResolvedOk(start, after, final, ids + [realId])
  {
    var k := |ids|;
    var ids' := ids + [realId];
    var c := final[k];
    forall j | 0 <= j < |ids'| && final[j].id.RowId? ensures ids'[j] == final[j].id.n {
      if j < k {
        assert ids'[j] == ids[j];
      }
    }
    forall j | 0 <= j < |ids'| && final[j].id.VdbId? ensures HasRow(after, ids'[j], final[j].contentEn) {
      if j < k {
        HasRowKept(before, after, ids[j], final[j].contentEn);
      }
    }
    forall j | 0 <= j < |ids'| && final[j].id.VdbId? && FirstIndex(start, SentenceWithContent(final[j].contentEn)).Some?
      ensures ids'[j] == start[FirstIndex(start, SentenceWithContent(final[j].contentEn)).value].id
    {
      if j == k {
        FirstContentKept(start, before, c.contentEn);
      } else {
        assert ids'[j] == ids[j];
      }
    }
  }

  /** A row touched or inserted by the first `|ids|` shown sentences still counts after one more. */
  lemma {:induction false} WitnessGrows(s: Sentence, id: int, final: seq<Candidate>, inputs: map<SentenceId, SentenceInputs>,
                                        domainId: int, ids: seq<int>, realId: int)
    requires |ids| < |final|
    ensures Touched(id, final, inputs, ids) ==> Touched(id, final, inputs, ids + [realId])
    ensures Inserted(s, final, domainId, ids) ==> Inserted(s, final, domainId, ids + [realId])
  {
    var ids' := ids + [realId];
    if Touched(id, final, inputs, ids) {
      var j :| 0 <= j < |ids| && ids[j] == id && AnyTruthy(InputsFor(inputs, final[j].id));
      assert ids'[j] == id;
    }
    if Inserted(s, final, domainId, ids) {
      var j :| 0 <= j < |ids| && ids[j] == s.id && final[j].id.VdbId? && final[j].contentEn == s.contentEn
               && s.domainId == domainId;
      assert ids'[j] == s.id;
    }
  }

  /** The frame part of `FieldsOk` after one more turn: which old rows may change, and what the
      added rows are. */
  lemma {:induction false} FrameStep(start: seq<Sentence>, before: seq<Sentence>, after: seq<Sentence>,
                                     mBefore: seq<Match>, mAfter: seq<Match>, termId: int, termExists: bool,
                                     domainId: int, final: seq<Candidate>, inputs: map<SentenceId, SentenceInputs>,
                                     ids: seq<int>, realId: int)
    requires |ids| < |final|
    requires FieldsOk(start, before, final, inputs, domainId, ids)
    requires StepOk(before, after, mBefore, mAfter, termId, termExists, domainId, final[|ids|],
                    InputsFor(inputs, final[|ids|].id), realId)
    ensures forall i :: 0 <= i < |start| ==>
              after[i] == start[i] || Touched(after[i].id, final, inputs, ids + [realId])
    ensures forall i :: |start| <= i < |after| ==> Inserted(after[i], final, domainId, ids + [realId])
  {
    var k := |ids|;
    var ids' := ids + [realId];
    forall i | 0 <= i < |start| ensures after[i] == start[i] || Touched(after[i].id, final, inputs, ids') {
      WitnessGrows(before[i], before[i].id, final, inputs, domainId, ids, realId);
      if after[i] != before[i] {
        assert ids'[k] == after[i].id;
      }
    }
    forall i | |start| <= i < |after| ensures Inserted(after[i], final, domainId, ids') {
      if i < |before| {
        WitnessGrows(before[i], before[i].id, final, inputs, domainId, ids, realId);
        var j :| 0 <= j < |ids'| && ids'[j] == before[i].id && final[j].id.VdbId?
                 && final[j].contentEn == before[i].contentEn && before[i].domainId == domainId;
        assert ids'[j] == after[i].id;
      } else {
        assert ids'[k] == after[i].id;
      }
    }
  }

  lemma {:induction false} FieldsStep(start: seq<Sentence>, before: seq<Sentence>, after: seq<Sentence>,
                                      mBefore: seq<Match>, mAfter: seq<Match>, termId: int, termExists: bool,
                                      domainId: int, final: seq<Candidate>, inputs: map<SentenceId, SentenceInputs>,
                                      ids: seq<int>, realId: int)
    requires |ids| < |final|
    requires FieldsOk(start, before, final, inputs, domainId, ids)
    requires StepOk(before, after, mBefore, mAfter, termId, termExists, domainId, final[|ids|],
                    InputsFor(inputs, final[|ids|].id), realId)
    ensures FieldsOk(start, after, final, inputs, domainId, ids + [realId])
  {
    var k := |ids|;
    var ids' := ids + [realId];
    var c := final[k];
    FrameStep(start, before, after, mBefore, mAfter, termId, termExists, domainId, final, inputs, ids, realId);
    forall j | 0 <= j < |ids'| && AnyTruthy(InputsFor(inputs, final[j].id))
                            && (forall j' :: j < j' < |ids'| ==> ids'[j'] != ids'[j])
      ensures Carries(after, ids'[j], InputsFor(inputs, final[j].id))
    {
      if j < k {
        assert ids'[k] == realId;
        assert forall j' :: j < j' < k ==> ids[j'] == ids'[j'];
        StepKeepsOthers(before, after, mBefore, mAfter, termId, termExists, domainId, c, InputsFor(inputs, c.id),
                        realId, ids[j], InputsFor(inputs, final[j].id));
      }
    }
  }

  /** The Save button: store the term's fields, then run `LinkOne` for every shown sentence.
      Returns the row ids the sentences were resolved to. */
  method Save(db: Database, termId: int, domainId: int, final: seq<Candidate>, term: TermInputs,
              inputs: map<SentenceId, SentenceInputs>)
    returns (ids: seq<int>)
    requires db.Valid()
    modifies db
    ensures db.Valid()
    ensures db.domains == old(db.domains)
    ensures |db.terms| == |old(db.terms)|
    ensures forall i :: 0 <= i < |db.terms| ==>
              db.terms[i] == if old(db.terms)[i].id == termId
                             then ApplyTermInfo(old(db.terms)[i], term.definition, term.audio, term.starLevel, None)
                             else old(db.terms)[i]
    ensures |ids| == |final|
    ensures SaveOutcome(old(db.sentences), old(db.matches), db.sentences, db.matches, termId,
                        HasTermId(db.terms, termId), domainId, final, inputs, ids)
    ensures forall j :: 0 <= j < |final| ==> PairCount(db.matches, termId, ids[j]) <= 1
    ensures forall j :: 0 <= j < |final| && HasTermId(db.terms, termId) && HasSentenceId(db.sentences, ids[j]) ==>
              PairCount(db.matches, termId, ids[j]) == 1
  {
    db.UpdateTermInfo(termId, term.definition, term.audio, term.starLevel, None);
    ghost var start, startMatches, terms := db.sentences, db.matches, db.terms;
    ghost var termExists := HasTermId(terms, termId);
    SaveStart(start, startMatches, termId, termExists, domainId, final, inputs);
    ids := [];
    var k := 0;
    while k < |final|
      invariant 0 <= k <= |final| && |ids| == k
      invariant db.Valid()
      invariant db.domains == old(db.domains) && db.terms == terms
      invariant start == old(db.sentences) && startMatches == old(db.matches)
      invariant SaveOutcome(start, startMatches, db.sentences, db.matches, termId, termExists, domainId,
                            final, inputs, ids)
    {
      ghost var before, mBefore := db.sentences, db.matches;
      var realId := LinkOne(db, termId, domainId, final[k], InputsFor(inputs, final[k].id));
      LinksStep(startMatches, mBefore, db.matches, before, db.sentences, termId, termExists, ids, realId);
      ResolvedStep(start, before, db.sentences, mBefore, db.matches, termId, termExists, domainId, final,
                   InputsFor(inputs, final[k].id), ids, realId);
      FieldsStep(start, before, db.sentences, mBefore, db.matches, termId, termExists, domainId, final, inputs,
                 ids, realId);
      ids := ids + [realId];
      k := k + 1;
    }
    forall j | 0 <= j < |final| ensures PairCount(db.matches, termId, ids[j]) <= 1
      ensures HasTermId(db.terms, termId) && HasSentenceId(db.sentences, ids[j]) ==> PairCount(db.matches, termId, ids[j]) == 1
    {
      PairCountAtMostOne(db.matches, db.nextMatchId, termId, ids[j]);
    }
  }
}
