/** What the two vocabulary list pages (Study Mode and Manage Vocabulary) do to a domain's
    terms before showing them: the star-level and substring filters, the stable sort on one
    column in either direction (`list.sort` with `key=` and `reverse=`), the page count, the
    page clamp, the ten-item page slice and the Prev/Next page bounds. */
module VocabularyList {
  import opened Basics
  import opened Text
  import opened Store

  const ItemsPerPage: nat := 10

  // ---------------------------------------------------------------- filters

  function HasStars(target: int): Term -> bool {
    (t: Term) => t.starLevel == target
  }

  function WordContains(query: string): Term -> bool {
    (t: Term) => ContainsIgnoreCase(t.word, query)
  }

  /** `[t for t in terms if t.get('star_level', 1) == target]`. */
  function StarFilter(terms: seq<Term>, target: int): seq<Term> {
    Filter(terms, HasStars(target))
  }

  /** `[t for t in terms if query.lower() in t['word'].lower()]`, applied only for a non-empty query. */
  function SearchFilter(terms: seq<Term>, query: string): seq<Term> {
    if query == [] then terms else Filter(terms, WordContains(query))
  }

  /** The star filter keeps exactly the terms of that level, in their order. */
  lemma {:induction false} StarFilterSpec(terms: seq<Term>, target: int)
    ensures forall t :: t in StarFilter(terms, target) <==> t in terms && t.starLevel == target
    ensures IsSubsequence(StarFilter(terms, target), terms)
  {
    FilterMembers(terms, HasStars(target));
    FilterIsSubsequence(terms, HasStars(target));
  }

  /** The search filter keeps exactly the terms whose lower-cased word contains the lower-cased
      query, in their order; an empty query keeps everything. */
  lemma {:induction false} SearchFilterSpec(terms: seq<Term>, query: string)
    ensures forall t :: t in SearchFilter(terms, query) <==> t in terms && ContainsIgnoreCase(t.word, query)
    ensures IsSubsequence(SearchFilter(terms, query), terms)
  {
    if query == [] {
      forall t | t in terms ensures ContainsIgnoreCase(t.word, query) {
        assert OccursAt(AsciiLower(t.word), AsciiLower(query), 0);
      }
      SubsequenceRefl(terms);
    } else {
      FilterMembers(terms, WordContains(query));
      FilterIsSubsequence(terms, WordContains(query));
    }
  }

  lemma {:induction false} SubsequenceRefl<T>(s: seq<T>)
    ensures IsSubsequence(s, s)
  {
    if s != [] {
      SubsequenceRefl(s[1..]);
    }
  }

  // ---------------------------------------------------------------- the sort order

  /** Python's `<` on `str`: code-point lexicographic order, a proper prefix first. */
  predicate LexLess(a: string, b: string)
    decreases |a|
  {
    if a == [] then b != []
    else if b == [] then false
    else if a[0] != b[0] then a[0] < b[0]
    else LexLess(a[1..], b[1..])
  }

  lemma {:induction false} LexIrreflexive(a: string)
    ensures !LexLess(a, a)
    decreases |a|
  {
    if a != [] {
      LexIrreflexive(a[1..]);
    }
  }

  lemma {:induction false} LexTransitive(a: string, b: string, c: string)
    requires LexLess(a, b) && LexLess(b, c)
    ensures LexLess(a, c)
    decreases |a|
  {
    if a != [] && b != [] && c != [] && a[0] == b[0] && b[0] == c[0] {
      LexTransitive(a[1..], b[1..], c[1..]);
    }
  }

  lemma {:induction false} LexTotal(a: string, b: string)
    ensures LexLess(a, b) || a == b || LexLess(b, a)
    decreases |a|
  {
    if a != [] && b != [] && a[0] == b[0] {
      LexTotal(a[1..], b[1..]);
      if a[1..] == b[1..] {
        assert a == [a[0]] + a[1..] && b == [b[0]] + b[1..];
      }
    }
  }

  /** The sort key of a term: its lower-cased word, or a count. */
  datatype SortKey = TextKey(text: string) | NumKey(n: int)

  /** The column header the user clicked last (`'word'`, `'freq'` or `'level'`). */
  datatype SortColumn = WordColumn | FreqColumn | LevelColumn

  /** `key=lambda x: x['word'].lower()`, `x.get('frequency', 1)`, `x.get('star_level', 1)`. */
  function KeyOf(col: SortColumn, t: Term): SortKey {
    match col
    case WordColumn => TextKey(AsciiLower(t.word))
    case FreqColumn => NumKey(t.frequency)
    case LevelColumn => NumKey(t.starLevel)
  }

  predicate KeyLess(a: SortKey, b: SortKey) {
    match a
    case TextKey(x) => b.TextKey? && LexLess(x, b.text)
    case NumKey(m) => b.NumKey? && m < b.n
  }

  /** `a` strictly sorts before `b`: its key is smaller, or larger under `reverse=True`. */
  predicate Precedes(col: SortColumn, asc: bool, a: Term, b: Term) {
    if asc then KeyLess(KeyOf(col, a), KeyOf(col, b)) else KeyLess(KeyOf(col, b), KeyOf(col, a))
  }

  function Before(col: SortColumn, asc: bool): (Term, Term) -> bool {
    (a: Term, b: Term) => Precedes(col, asc, a, b)
  }

  // ---------------------------------------------------------------- stable sorting

  /** An order a comparison sort can use: irreflexive, transitive, and with transitive ties. */
  ghost predicate StrictWeakOrder<T(!new)>(before: (T, T) -> bool) {
    (forall a :: !before(a, a))
    && (forall a, b, c :: before(a, b) && before(b, c) ==> before(a, c))
    && (forall a, b, c :: before(a, c) ==> before(a, b) || before(b, c))
  }

  /** No element strictly sorts before an earlier one. */
  predicate SortedBy<T>(s: seq<T>, before: (T, T) -> bool) {
    forall i, j :: 0 <= i < j < |s| ==> !before(s[j], s[i])
  }

  /** Inserts `x` after every element it does not strictly precede. */
  function InsertBy<T>(x: T, s: seq<T>, before: (T, T) -> bool): (r: seq<T>) {
    if s == [] then [x]
    else if before(x, s[0]) then [x] + s
    else [s[0]] + InsertBy(x, s[1..], before)
  }

  /** Stable insertion sort, taking the elements in input order. */
  function SortBy<T>(s: seq<T>, before: (T, T) -> bool): (r: seq<T>) {
    if s == [] then [] else InsertBy(s[|s| - 1], SortBy(s[..|s| - 1], before), before)
  }

  lemma {:induction false} InsertByPermutes<T>(x: T, s: seq<T>, before: (T, T) -> bool)
    ensures multiset(InsertBy(x, s, before)) == multiset(s) + multiset{x}
  {
    if s != [] && !before(x, s[0]) {
      InsertByPermutes(x, s[1..], before);
      assert s == [s[0]] + s[1..];
    }
  }

  /** Sorting only reorders. */
  lemma {:induction false} SortByPermutes<T>(s: seq<T>, before: (T, T) -> bool)
    ensures multiset(SortBy(s, before)) == multiset(s)
  {
    if s != [] {
      var n := |s| - 1;
      SortByPermutes(s[..n], before);
      InsertByPermutes(s[n], SortBy(s[..n], before), before);
      assert s == s[..n] + [s[n]];
    }
  }

  lemma {:induction false} InsertBySorted<T(!new)>(x: T, s: seq<T>, before: (T, T) -> bool)
    requires StrictWeakOrder(before) && SortedBy(s, before)
    ensures SortedBy(InsertBy(x, s, before), before)
    ensures forall e :: e in InsertBy(x, s, before) ==> e == x || e in s
  {
    if s != [] {
      if before(x, s[0]) {
        var r := [x] + s;
        forall j | 0 < j < |r| ensures !before(r[j], x) {
          assert r[j] == s[j - 1];
          var e, first := s[j - 1], s[0];
          assert before(e, x) ==> before(e, first);
        }
      } else {
        InsertBySorted(x, s[1..], before);
        var rest := InsertBy(x, s[1..], before);
        var r := [s[0]] + rest;
        forall j | 0 < j < |r| ensures !before(r[j], s[0]) {
          assert r[j] == rest[j - 1] && rest[j - 1] in rest;
        }
        forall i, j | 0 < i < j < |r| ensures !before(r[j], r[i]) {
          assert r[i] == rest[i - 1] && r[j] == rest[j - 1];
        }
      }
    }
  }

  /** Sorting with a strict weak order yields a sorted list. */
  lemma {:induction false} SortBySorted<T(!new)>(s: seq<T>, before: (T, T) -> bool)
    requires StrictWeakOrder(before)
    ensures SortedBy(SortBy(s, before), before)
  {
    if s != [] {
      SortBySorted(s[..|s| - 1], before);
      InsertBySorted(s[|s| - 1], SortBy(s[..|s| - 1], before), before);
    }
  }

  /** Inserting `x` in front of the first element it strictly precedes (or at the end). */
  lemma {:induction false} InsertByAt<T>(x: T, s: seq<T>, before: (T, T) -> bool, j: nat)
    requires j <= |s|
    requires forall k :: 0 <= k < j ==> !before(x, s[k])
    requires j == |s| || before(x, s[j])
    ensures InsertBy(x, s, before) == s[..j] + [x] + s[j..]
  {
    if j > 0 {
      InsertByAt(x, s[1..], before, j - 1);
      assert [s[0]] + (s[1..][..j - 1] + [x] + s[1..][j - 1..]) == s[..j] + [x] + s[j..];
    }
  }

  /** The first index below `i` whose element `x` strictly precedes, or `i`. */
  method FindSlot<T>(a: array<T>, i: nat, x: T, before: (T, T) -> bool) returns (j: nat)
    requires i <= a.Length
    ensures j <= i
    ensures forall m :: 0 <= m < j ==> !before(x, a[m])
    ensures j == i || before(x, a[j])
  {
    j := 0;
    while j < i && !before(x, a[j])
      invariant j <= i
      invariant forall m :: 0 <= m < j ==> !before(x, a[m])
    {
      j := j + 1;
    }
  }

  /** Moves `a[j..i]` one place right, over `a[i]`. */
  method ShiftRight<T>(a: array<T>, j: nat, i: nat)
    requires j <= i < a.Length
    modifies a
    ensures forall m :: 0 <= m <= j ==> a[m] == old(a[m])
    ensures forall m :: j < m <= i ==> a[m] == old(a[m - 1])
    ensures forall m :: i < m < a.Length ==> a[m] == old(a[m])
  {
    var k := i;
    while k > j
      invariant j <= k <= i
      invariant forall m :: 0 <= m <= k ==> a[m] == old(a[m])
      invariant forall m :: k < m <= i ==> a[m] == old(a[m - 1])
      invariant forall m :: i < m < a.Length ==> a[m] == old(a[m])
    {
      a[k] := a[k - 1];
      k := k - 1;
    }
  }

  /** The array contents after a shift and a store, read as a sequence. */
  lemma ShiftedInsert<T>(b: seq<T>, sorted: seq<T>, x: T, j: nat)
    requires j <= |sorted| < |b|
    requires forall m :: 0 <= m < j ==> b[m] == sorted[m]
    requires b[j] == x
    requires forall m :: j < m <= |sorted| ==> b[m] == sorted[m - 1]
    ensures b[..|sorted| + 1] == sorted[..j] + [x] + sorted[j..]
  {
  }

  /** `list.sort` in place: insertion sort over the array, one element at a time, leaving
      exactly the stable sort of the original contents. */
  method SortArrayBy<T>(a: array<T>, before: (T, T) -> bool)
    modifies a
    ensures a[..] == SortBy(old(a[..]), before)
  {
    ghost var orig := a[..];
    var i := 0;
    while i < a.Length
      invariant 0 <= i <= a.Length
      invariant a[..i] == SortBy(orig[..i], before)
      invariant forall m :: i <= m < a.Length ==> a[m] == orig[m]
    {
      var x := a[i];
      ghost var sorted := a[..i];
      var j := FindSlot(a, i, x, before);
      ShiftRight(a, j, i);
      a[j] := x;
      ShiftedInsert(a[..], sorted, x, j);
      InsertByAt(x, sorted, before, j);
      assert orig[..i + 1][..i] == orig[..i];
      assert a[..i + 1] == SortBy(orig[..i + 1], before);
      i := i + 1;
    }
    assert orig[..a.Length] == orig;
  }

  /** `p` picks elements that are tied: none strictly sorts before another. */
  ghost predicate Tied<T(!new)>(p: T -> bool, before: (T, T) -> bool) {
    forall a, b :: p(a) && p(b) ==> !before(a, b)
  }

  /** Inserting into a sorted list puts `x` after all the elements tied with it. */
  lemma {:induction false} InsertByStable<T(!new)>(x: T, s: seq<T>, before: (T, T) -> bool, p: T -> bool)
    requires StrictWeakOrder(before) && SortedBy(s, before) && Tied(p, before)
    ensures Filter(InsertBy(x, s, before), p) == Filter(s, p) + Filter([x], p)
  {
    if s == [] {
    } else if before(x, s[0]) {
      if p(x) {
        forall j | 0 <= j < |s| ensures !p(s[j]) {
          var e, first := s[j], s[0];
          assert p(e) ==> before(x, e) || before(e, first);
        }
        FilterDropsAll(s, p);
      }
      FilterAppend([x], s, p);
    } else {
      assert SortedBy(s[1..], before) by {
        forall i, j | 0 <= i < j < |s[1..]| ensures !before(s[1..][j], s[1..][i]) {
          assert s[1..][j] == s[j + 1] && s[1..][i] == s[i + 1];
        }
      }
      InsertByStable(x, s[1..], before, p);
      FilterAppend([s[0]], InsertBy(x, s[1..], before), p);
      FilterAppend([s[0]], s[1..], p);
      assert [s[0]] + s[1..] == s;
    }
  }

  /** Sorting is stable: among tied elements the input order is kept. */
  lemma {:induction false} SortByStable<T(!new)>(s: seq<T>, before: (T, T) -> bool, p: T -> bool)
    requires StrictWeakOrder(before) && Tied(p, before)
    ensures Filter(SortBy(s, before), p) == Filter(s, p)
  {
    if s != [] {
      var n := |s| - 1;
      SortByStable(s[..n], before, p);
      SortBySorted(s[..n], before);
      InsertByStable(s[n], SortBy(s[..n], before), before, p);
      FilterSnoc(s, p);
    }
  }

  // ---------------------------------------------------------------- the order on terms

  predicate SameKind(a: SortKey, b: SortKey) {
    a.TextKey? == b.TextKey?
  }

  lemma KeyIrreflexive(a: SortKey)
    ensures !KeyLess(a, a)
  {
    if a.TextKey? {
      LexIrreflexive(a.text);
    }
  }

  lemma KeyTransitive(a: SortKey, b: SortKey, c: SortKey)
    requires KeyLess(a, b) && KeyLess(b, c)
    ensures KeyLess(a, c)
  {
    if a.TextKey? {
      LexTransitive(a.text, b.text, c.text);
    }
  }

  /** Keys of one kind that are not ordered either way are equal. */
  lemma KeyTotal(a: SortKey, b: SortKey)
    requires SameKind(a, b)
    ensures KeyLess(a, b) || a == b || KeyLess(b, a)
  {
    if a.TextKey? {
      LexTotal(a.text, b.text);
    }
  }

  lemma KeyBetween(a: SortKey, b: SortKey, c: SortKey)
    requires SameKind(a, b) && KeyLess(a, c)
    ensures KeyLess(a, b) || KeyLess(b, c)
  {
    KeyTotal(a, b);
    if KeyLess(b, a) {
      KeyTransitive(b, a, c);
    }
  }

  /** Every column, in either direction, orders terms as a comparison sort needs. */
  lemma PrecedesStrictWeak(col: SortColumn, asc: bool)
    ensures StrictWeakOrder(Before(col, asc))
  {
    var before := Before(col, asc);
    forall a: Term ensures !before(a, a) {
      KeyIrreflexive(KeyOf(col, a));
    }
    forall a: Term, b: Term, c: Term | before(a, b) && before(b, c) ensures before(a, c) {
      if asc {
        KeyTransitive(KeyOf(col, a), KeyOf(col, b), KeyOf(col, c));
      } else {
        KeyTransitive(KeyOf(col, c), KeyOf(col, b), KeyOf(col, a));
      }
    }
    forall a: Term, b: Term, c: Term | before(a, c) ensures before(a, b) || before(b, c) {
      if asc {
        KeyBetween(KeyOf(col, a), KeyOf(col, b), KeyOf(col, c));
      } else {
        KeyBetween(KeyOf(col, c), KeyOf(col, b), KeyOf(col, a));
      }
    }
  }

  function HasKey(col: SortColumn, k: SortKey): Term -> bool {
    (t: Term) => KeyOf(col, t) == k
  }

  lemma HasKeyTied(col: SortColumn, asc: bool, k: SortKey)
    ensures Tied(HasKey(col, k), Before(col, asc))
  {
    KeyIrreflexive(k);
  }

  /** `terms.sort(key=..., reverse=not asc)` on the chosen column. */
  function SortTerms(terms: seq<Term>, col: SortColumn, asc: bool): seq<Term> {
    SortBy(terms, Before(col, asc))
  }

  /** The sorted list is a permutation of the input, ordered by the column's key (descending
      when `asc` is false), and terms with equal keys keep their input order. */
  lemma SortTermsSpec(terms: seq<Term>, col: SortColumn, asc: bool)
    ensures multiset(SortTerms(terms, col, asc)) == multiset(terms)
    ensures var r := SortTerms(terms, col, asc);
            forall i, j :: 0 <= i < j < |r| ==> !Precedes(col, asc, r[j], r[i])
    ensures forall k :: Filter(SortTerms(terms, col, asc), HasKey(col, k)) == Filter(terms, HasKey(col, k))
  {
    SortByPermutes(terms, Before(col, asc));
    PrecedesStrictWeak(col, asc);
    SortBySorted(terms, Before(col, asc));
    forall k ensures Filter(SortTerms(terms, col, asc), HasKey(col, k)) == Filter(terms, HasKey(col, k)) {
      HasKeyTied(col, asc, k);
      SortByStable(terms, Before(col, asc), HasKey(col, k));
    }
  }

  // ---------------------------------------------------------------- the level selector

  /** The options of the "Filter by Level" select box, in display order. */
  const LevelOptions: seq<string> :=
    ["All Levels", "⭐ 1 Star", "⭐⭐ 2 Stars", "⭐⭐⭐ 3 Stars", "⭐⭐⭐⭐ 4 Stars", "⭐⭐⭐⭐⭐ 5 Stars"]

  /** What a level option means: no filter, one level, or a label whose second word is not a
      number (where `split(" ")[1]` or `int(...)` raises). */
  datatype LevelChoice = AllLevels | OnlyLevel(level: int) | BadLabel

  /** `"All Levels"`, or else `int(label.split(" ")[1])`. */
  function ParseLevelOption(option: string): LevelChoice {
    if option == "All Levels" then AllLevels
    else
      var parts := SplitOn(option, ' ');
      if |parts| < 2 || parts[1] == [] || !AllDigits(parts[1]) then BadLabel
      else OnlyLevel(ParseNat(parts[1]))
  }

  function Stars(n: nat): (r: string)
    ensures |r| == n && forall i :: 0 <= i < n ==> r[i] == '⭐'
  {
    if n == 0 then [] else Stars(n - 1) + ['⭐']
  }

  /** The label of level `n`: that many stars, the number, and "Star" or "Stars". */
  function LevelLabel(n: nat): string {
    Stars(n) + [' '] + NatToString(n) + [' '] + (if n == 1 then "Star" else "Stars")
  }

  /** Each level label reads back as its own level. */
  lemma LevelLabelParses(n: nat)
    requires n >= 1
    ensures ParseLevelOption(LevelLabel(n)) == OnlyLevel(n)
  {
    var option := LevelLabel(n);
    var word := if n == 1 then "Star" else "Stars";
    assert option[0] == '⭐';
    assert option == Stars(n) + [' '] + (NatToString(n) + [' '] + word);
    SplitOnAfter(Stars(n), NatToString(n) + [' '] + word, ' ');
    assert forall i :: 0 <= i < |NatToString(n)| ==> IsDigit(NatToString(n)[i]);
    SplitOnAfter(NatToString(n), word, ' ');
    NatToStringRoundTrip(n);
  }

  /** Options 1 to 5 are the labels of their own level. */
  lemma LevelOptionIsLabel(k: nat)
    requires 1 <= k < |LevelOptions|
    ensures LevelOptions[k] == LevelLabel(k)
  {
    if k == 1 {
      assert Stars(1) == "⭐" && NatToString(1) == "1";
      assert LevelOptions[1] == "⭐" + " 1 Star" == LevelLabel(1);
    } else if k == 2 {
      assert Stars(2) == "⭐⭐" && NatToString(2) == "2";
      assert LevelOptions[2] == "⭐⭐" + " 2 Stars" == LevelLabel(2);
    } else if k == 3 {
      assert Stars(3) == "⭐⭐⭐" && NatToString(3) == "3";
      assert LevelOptions[3] == "⭐⭐⭐" + " 3 Stars" == LevelLabel(3);
    } else if k == 4 {
      assert Stars(4) == "⭐⭐⭐⭐" && NatToString(4) == "4";
      assert LevelOptions[4] == "⭐⭐⭐⭐" + " 4 Stars" == LevelLabel(4);
    } else {
      assert Stars(5) == "⭐⭐⭐⭐⭐" && NatToString(5) == "5";
      assert LevelOptions[5] == "⭐⭐⭐⭐⭐" + " 5 Stars" == LevelLabel(5);
    }
  }

  /** The select box offers "All Levels" and then the labels of levels 1 to 5, and each reads
      back as what it shows, so the level filter never raises. */
  lemma LevelOptionsParse()
    ensures ParseLevelOption(LevelOptions[0]) == AllLevels
    ensures forall k :: 1 <= k < |LevelOptions| ==> ParseLevelOption(LevelOptions[k]) == OnlyLevel(k)
  {
    forall k | 1 <= k < |LevelOptions| ensures ParseLevelOption(LevelOptions[k]) == OnlyLevel(k) {
      LevelOptionIsLabel(k);
      LevelLabelParses(k);
    }
  }

  function LevelFilter(terms: seq<Term>, choice: LevelChoice): seq<Term> {
    if choice.OnlyLevel? then StarFilter(terms, choice.level) else terms
  }

  predicate Shows(choice: LevelChoice, query: string, t: Term) {
    (!choice.OnlyLevel? || t.starLevel == choice.level) && ContainsIgnoreCase(t.word, query)
  }

  /** The terms a list page shows, before paging: level filter, then search, then sort. */
  function Visible(terms: seq<Term>, choice: LevelChoice, query: string, col: SortColumn, asc: bool): seq<Term> {
    SortTerms(SearchFilter(LevelFilter(terms, choice), query), col, asc)
  }

  /** A term is listed just when it passes both filters, and then exactly as often as in the
      input. */
  lemma VisibleSpec(terms: seq<Term>, choice: LevelChoice, query: string, col: SortColumn, asc: bool)
    ensures forall t :: t in Visible(terms, choice, query, col, asc) <==> t in terms && Shows(choice, query, t)
    ensures multiset(Visible(terms, choice, query, col, asc))
            == multiset(SearchFilter(LevelFilter(terms, choice), query))
    ensures SearchFilter(LevelFilter(terms, choice), query) == []
            <==> forall t :: t in terms ==> !Shows(choice, query, t)
  {
    var lv := LevelFilter(terms, choice);
    var sf := SearchFilter(lv, query);
    if choice.OnlyLevel? {
      StarFilterSpec(terms, choice.level);
    }
    SearchFilterSpec(lv, query);
    SortTermsSpec(sf, col, asc);
    forall t ensures t in Visible(terms, choice, query, col, asc) <==> t in terms && Shows(choice, query, t) {
      calc {
        t in Visible(terms, choice, query, col, asc);
        t in multiset(Visible(terms, choice, query, col, asc));
        t in multiset(sf);
        t in sf;
      }
    }
    if sf != [] {
      assert sf[0] in sf;
    }
  }

  // ---------------------------------------------------------------- paging

  /** `math.ceil(n / ITEMS_PER_PAGE)`: the fewest pages of ten that hold `n` items. */
  function PageCount(n: nat): (r: nat)
    ensures n <= r * ItemsPerPage
    ensures r == 0 || (r - 1) * ItemsPerPage < n
  {
    (n + ItemsPerPage - 1) / ItemsPerPage
  }

  function Max(a: int, b: int): int {
    if a < b then b else a
  }

  /** Python's reading of a slice bound `i` on a sequence of length `n`. */
  function SliceBound(i: int, n: nat): (r: nat)
    ensures r <= n
    ensures 0 <= i <= n ==> r == i
  {
    if i < 0 then Max(0, i + n) else if i > n then n else i
  }

  /** `s[a:b]`. */
  function PySlice<T>(s: seq<T>, a: int, b: int): seq<T> {
    var lo, hi := SliceBound(a, |s|), SliceBound(b, |s|);
    if lo < hi then s[lo..hi] else []
  }

  /** `items[(page - 1) * ITEMS_PER_PAGE : (page - 1) * ITEMS_PER_PAGE + ITEMS_PER_PAGE]`. */
  function PageSlice<T>(s: seq<T>, page: int): seq<T> {
    PySlice(s, (page - 1) * ItemsPerPage, (page - 1) * ItemsPerPage + ItemsPerPage)
  }

  /** Page `page` holds the items from `(page - 1) * 10` on, at most ten of them, and is empty
      only past the end. */
  lemma PageSliceSpec<T>(s: seq<T>, page: int)
    requires page >= 1
    ensures var start, r := (page - 1) * ItemsPerPage, PageSlice(s, page);
            |r| <= ItemsPerPage
            && (r == [] <==> start >= |s|)
            && (start + ItemsPerPage <= |s| ==> |r| == ItemsPerPage)
            && forall i :: 0 <= i < |r| ==> r[i] == s[start + i]
  {
  }

  /** Pages 1 to `k`, one after another. */
  function PagesUpTo<T>(s: seq<T>, k: nat): seq<T> {
    if k == 0 then [] else PagesUpTo(s, k - 1) + PageSlice(s, k)
  }

  lemma {:induction false} PagesUpToPrefix<T>(s: seq<T>, k: nat)
    ensures k * ItemsPerPage <= |s| ==> PagesUpTo(s, k) == s[..k * ItemsPerPage]
    ensures k * ItemsPerPage > |s| ==> PagesUpTo(s, k) == s[..|s|] || (k - 1) * ItemsPerPage >= |s|
  {
    if k > 0 {
      PagesUpToPrefix(s, k - 1);
      var start := (k - 1) * ItemsPerPage;
      if start <= |s| {
        var hi := if k * ItemsPerPage <= |s| then k * ItemsPerPage else |s|;
        assert PageSlice(s, k) == s[start..hi];
        assert s[..start] + s[start..hi] == s[..hi];
      }
    }
  }

  /** Reading the pages 1 to `PageCount(|s|)` in order gives back the whole list, every one
      of those pages is non-empty, and there is no further page. */
  lemma PagesCoverAll<T>(s: seq<T>)
    ensures PagesUpTo(s, PageCount(|s|)) == s
    ensures forall p :: 1 <= p <= PageCount(|s|) ==> PageSlice(s, p) != []
    ensures PageSlice(s, PageCount(|s|) + 1) == []
  {
    var n := PageCount(|s|);
    PagesUpToPrefix(s, n);
    assert s[..|s|] == s;
    if n > 0 && n * ItemsPerPage <= |s| {
      assert n * ItemsPerPage == |s|;
    }
    forall p | 1 <= p <= n ensures PageSlice(s, p) != [] {
      PageSliceSpec(s, p);
    }
    PageSliceSpec(s, n + 1);
  }

  /** Clamping any page to the page count of a non-empty list gives a real page, and that
      page is a non-empty block of at most ten items starting at `(page - 1) * 10`. */
  lemma ClampedPageSpec<T>(s: seq<T>, page: int)
    requires s != [] && page >= 1
    ensures var total := PageCount(|s|);
            var p := ClampPage(page, total);
            var r := PageSlice(s, p);
            1 <= p <= total && (page <= total ==> p == page)
            && r != [] && |r| <= ItemsPerPage
            && forall i :: 0 <= i < |r| ==> r[i] == s[(p - 1) * ItemsPerPage + i]
  {
    var total := PageCount(|s|);
    var p := ClampPage(page, total);
    PagingStaysInRange(page, total);
    PagesCoverAll(s);
    PageSliceSpec(s, p);
  }

  /** `if page > total: page = max(1, total)`. */
  function ClampPage(page: int, total: int): int {
    if page > total then Max(1, total) else page
  }

  /** The Prev callback: one page back, never below page 1. */
  function PrevPage(page: int): int {
    if page > 1 then page - 1 else page
  }

  /** The Next callback: one page on, never past `total`. */
  function NextPage(page: int, total: int): int {
    if page < total then page + 1 else page
  }

  predicate InRange(page: int, total: int) {
    1 <= page <= Max(1, total)
  }

  /** Every page move keeps the page a real page: the clamp brings any page back into range
      and leaves a page in range alone, and Prev and Next stay in range. */
  lemma PagingStaysInRange(page: int, total: int)
    ensures page >= 1 ==> InRange(ClampPage(page, total), total)
    ensures page <= total ==> ClampPage(page, total) == page
    ensures InRange(page, total) ==> InRange(PrevPage(page), total) && InRange(NextPage(page, total), total)
    ensures page >= 1 ==> PrevPage(page) >= 1
  {
  }

  /** Prev undoes Next and Next undoes Prev, away from the first and last page. */
  lemma PrevNextInverse(page: int, total: int)
    ensures 1 < page <= total ==> NextPage(PrevPage(page), total) == page
    ensures 1 <= page < total ==> PrevPage(NextPage(page, total)) == page
    ensures PrevPage(1) == 1 && NextPage(total, total) == total
  {
  }

  // ---------------------------------------------------------------- the column headers

  /** A click on a column header: the current column flips direction, another column becomes
      current with the direction `firstAsc` the page gives it. */
  function ClickHeader(col: SortColumn, asc: bool, clicked: SortColumn, firstAsc: bool): (SortColumn, bool) {
    if clicked == col then (col, !asc) else (clicked, firstAsc)
  }

  /** The clicked column is always current afterwards; clicking it twice more restores the
      direction. */
  lemma ClickHeaderSpec(col: SortColumn, asc: bool, clicked: SortColumn, firstAsc: bool)
    ensures ClickHeader(col, asc, clicked, firstAsc).0 == clicked
    ensures clicked == col ==> ClickHeader(col, asc, clicked, firstAsc).1 != asc
    ensures var (c1, a1) := ClickHeader(col, asc, clicked, firstAsc);
            var (c2, a2) := ClickHeader(c1, a1, clicked, firstAsc);
            ClickHeader(c2, a2, clicked, firstAsc) == (c1, a1)
  {
  }

  /** What a list page renders: a notice that the domain is empty or nothing matches, the
      error a bad level option raises, or one page of rows with its number and the totals. */
  datatype ListView =
    | NoTerms
    | NoMatch
    | LabelRaises
    | Shown(rows: seq<Term>, page: int, totalPages: int, totalItems: nat)
}
