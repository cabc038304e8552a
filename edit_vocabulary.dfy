/** The Manage Vocabulary page: its session state (sort column, direction, page number), the
    list it renders from all of a domain's terms, active or not, and the "Save Current Page"
    form that writes the edited rows back in one bulk update. */
module EditVocabulary {
  import opened Basics
  import opened Text
  import opened Store
  import opened VocabularyList

  /** A newly clicked column starts descending for frequency and level, ascending for the word. */
  function FirstAscending(col: SortColumn): bool {
    col == WordColumn
  }

  /** `math.ceil(total_items / ITEMS_PER_PAGE) if total_items > 0 else 1`. */
  function TotalPages(n: nat): (r: nat)
    ensures r >= 1 && n <= r * ItemsPerPage
    ensures n > 0 ==> (r - 1) * ItemsPerPage < n
  {
    if n > 0 then PageCount(n) else 1
  }

  /** What the page renders for the domain's terms `all`, the level option, the search text and
      the session's sort and page. A `Shown` view carries the clamped page the session keeps. */
  function EditView(all: seq<Term>, option: string, query: string, col: SortColumn, asc: bool,
                    page: int): ListView
  {
    if all == [] then NoTerms
    else
      var choice := ParseLevelOption(option);
      if choice.BadLabel? then LabelRaises
      else
        var filtered := SearchFilter(LevelFilter(all, choice), query);
        if filtered == [] then NoMatch
        else
          var sorted := SortTerms(filtered, col, asc);
          var total := TotalPages(|sorted|);
          var p := ClampPage(page, total);
          Shown(PageSlice(sorted, p), p, total, |sorted|)
  }

  /** For every option of the level select box the page says the domain is empty exactly
      when it is, never raises, and says nothing matches exactly when no term passes the
      filters. */
  lemma EditViewOutcome(all: seq<Term>, k: nat, query: string, col: SortColumn, asc: bool, page: int)
    requires k < |LevelOptions|
    ensures var choice := if k == 0 then AllLevels else OnlyLevel(k);
            var v := EditView(all, LevelOptions[k], query, col, asc, page);
            v != LabelRaises
            && (v == NoTerms <==> all == [])
            && (v == NoMatch <==> all != [] && forall t :: t in all ==> !Shows(choice, query, t))
  {
    var choice := if k == 0 then AllLevels else OnlyLevel(k);
    LevelOptionsParse();
    assert ParseLevelOption(LevelOptions[k]) == choice;
    VisibleSpec(all, choice, query, col, asc);
  }

  /** When rows are shown, they are a non-empty block of at most ten of the filtered and sorted
      terms, the one at `(page - 1) * 10`, on a page between 1 and the page count that stays
      the session's page when it was in range; every row passes both filters. */
  lemma EditViewShown(all: seq<Term>, option: string, query: string, col: SortColumn, asc: bool, page: int)
    requires page >= 1
    ensures var choice := ParseLevelOption(option);
            var v := EditView(all, option, query, col, asc, page);
            var vis := Visible(all, choice, query, col, asc);
            v.Shown? ==>
              v.totalItems == |vis| && v.totalPages == PageCount(|vis|)
              && 1 <= v.page <= v.totalPages && (page <= v.totalPages ==> v.page == page)
              && v.rows != [] && |v.rows| <= ItemsPerPage
              && (forall i :: 0 <= i < |v.rows| ==> v.rows[i] == vis[(v.page - 1) * ItemsPerPage + i])
              && forall t :: t in v.rows ==> t in all && Shows(choice, query, t)
  {
    var choice := ParseLevelOption(option);
    var v := EditView(all, option, query, col, asc, page);
    if v.Shown? {
      var vis := Visible(all, choice, query, col, asc);
      VisibleSpec(all, choice, query, col, asc);
      ClampedPageSpec(vis, page);
      forall t | t in v.rows ensures t in vis {
        var i :| 0 <= i < |v.rows| && v.rows[i] == t;
      }
    }
  }

  // ---------------------------------------------------------------- session state

  /** `st.session_state.edit_sort_col`, `edit_sort_asc` and `edit_page`. */
  class EditPageState {
    var sortCol: SortColumn
    var sortAsc: bool
    var page: int

    ghost predicate Valid()
      reads this
    {
      page >= 1
    }

    /** The first visit: by level, descending, page 1. */
    constructor ()
      ensures Valid()
      ensures sortCol == LevelColumn && !sortAsc && page == 1
    {
      sortCol, sortAsc, page := LevelColumn, false, 1;
    }

    /** `reset_edit_page`, run when the domain, level or search changes. */
    method ResetEditPage()
      modifies this
      ensures Valid()
      ensures sortCol == old(sortCol) && sortAsc == old(sortAsc) && page == 1
    {
      page := 1;
    }

    /** `handle_edit_sort`. */
    method HandleEditSort(clicked: SortColumn)
      modifies this
      ensures Valid()
      ensures (sortCol, sortAsc) == ClickHeader(old(sortCol), old(sortAsc), clicked, FirstAscending(clicked))
      ensures page == 1
    {
      if sortCol == clicked {
        sortAsc := !sortAsc;
      } else {
        sortCol := clicked;
        sortAsc := clicked !in {LevelColumn, FreqColumn};
      }
      page := 1;
    }

    /** `prev_page`. */
    method PrevPage()
      requires Valid()
      modifies this
      ensures Valid()
      ensures sortCol == old(sortCol) && sortAsc == old(sortAsc)
      ensures page == VocabularyList.PrevPage(old(page))
    {
      if page > 1 {
        page := page - 1;
      }
    }

    /** `next_page(total_pages)`. */
    method NextPage(totalPages: int)
      requires Valid()
      modifies this
      ensures Valid()
      ensures sortCol == old(sortCol) && sortAsc == old(sortAsc)
      ensures page == VocabularyList.NextPage(old(page), totalPages)
    {
      if page < totalPages {
        page := page + 1;
      }
    }

    /** One run of the page script from the data fetch to the slice: filters, sorts in place,
        clamps the session's page and cuts out the rows to show. */
    method Render(db: Database, domainId: int, option: string, query: string) returns (view: ListView)
      requires Valid()
      modifies this
      ensures Valid()
      ensures sortCol == old(sortCol) && sortAsc == old(sortAsc)
      ensures view == EditView(db.TermsByDomain(domainId, false), option, query, sortCol, sortAsc, old(page))
      ensures page == if view.Shown? then view.page else old(page)
    {
      var all := db.TermsByDomain(domainId, false);
      if all == [] {
        return NoTerms;
      }
      var choice := ParseLevelOption(option);
      if choice.BadLabel? {
        return LabelRaises;
      }
      var filtered := SearchFilter(LevelFilter(all, choice), query);
      if filtered == [] {
        return NoMatch;
      }
      var items := new Term[|filtered|](i requires 0 <= i < |filtered| => filtered[i]);
      assert items[..] == filtered;
      SortArrayBy(items, Before(sortCol, sortAsc));
      var sorted := items[..];
      var total := TotalPages(|sorted|);
      if page > total {
        page := Max(1, total);
      }
      view := Shown(PageSlice(sorted, page), page, total, |sorted|);
    }
  }

  // ---------------------------------------------------------------- saving the page

  /** The widget values of one row of the form: the Enable toggle, the word box, the level
      box and the definition box. */
  datatype RowInput = RowInput(active: bool, word: string, level: int, definition: string)

  /** The update the form sends for row `id`. */
  function UpdateFor(id: int, input: RowInput): TermUpdate {
    TermUpdate(id, Strip(input.word), Strip(input.definition), input.level, if input.active then 1 else 0)
  }

  /** The ids of the rows on the page. */
  function RowIds(rows: seq<Term>): (r: set<int>)
    ensures forall i :: 0 <= i < |rows| ==> rows[i].id in r
  {
    if rows == [] then {} else RowIds(rows[..|rows| - 1]) + {rows[|rows| - 1].id}
  }

  /** Every row on the page has its widgets in the session state. */
  predicate HasInputs(rows: seq<Term>, inputs: map<int, RowInput>) {
    RowIds(rows) <= inputs.Keys
  }

  /** The `updates` list of "Save Current Page": one entry per row on the page, in page order,
      each read from that row's widgets. */
  method BuildUpdates(rows: seq<Term>, inputs: map<int, RowInput>) returns (updates: seq<TermUpdate>)
    requires HasInputs(rows, inputs)
    ensures |updates| == |rows|
    ensures forall i :: 0 <= i < |rows| ==> updates[i] == UpdateFor(rows[i].id, inputs[rows[i].id])
  {
    updates := [];
    for i := 0 to |rows|
      invariant |updates| == i
      invariant forall j :: 0 <= j < i ==> updates[j] == UpdateFor(rows[j].id, inputs[rows[j].id])
    {
      var tid := rows[i].id;
      updates := updates + [UpdateFor(tid, inputs[tid])];
    }
  }

  predicate Built(rows: seq<Term>, inputs: map<int, RowInput>, updates: seq<TermUpdate>)
    requires HasInputs(rows, inputs)
  {
    |updates| == |rows|
    && forall i :: 0 <= i < |rows| ==> updates[i] == UpdateFor(rows[i].id, inputs[rows[i].id])
  }

  /** Every row on the page is named by an update carrying its own widget values (a row shown
      twice gets the same values twice), and no other row is named. */
  lemma {:induction false} BuiltNamesEachRow(rows: seq<Term>, inputs: map<int, RowInput>,
                                              updates: seq<TermUpdate>, id: int)
    requires HasInputs(rows, inputs) && Built(rows, inputs, updates)
    ensures id in RowIds(rows) ==> id in inputs && LastUpdateFor(updates, id) == Some(UpdateFor(id, inputs[id]))
    ensures id !in RowIds(rows) ==> LastUpdateFor(updates, id).None?
  {
    if rows != [] {
      var n := |rows| - 1;
      assert Built(rows[..n], inputs, updates[..n]);
      BuiltNamesEachRow(rows[..n], inputs, updates[..n], id);
    }
  }

  /** A term row after the save: the four edited fields come from the page's widgets when the
      row is on the page; any other row is untouched. */
  function Saved(t: Term, rows: seq<Term>, inputs: map<int, RowInput>): Term
    requires HasInputs(rows, inputs)
  {
    if t.id in RowIds(rows) then
      var input := inputs[t.id];
      t.(word := Strip(input.word), definition := Strip(input.definition),
         starLevel := input.level, isActive := if input.active then 1 else 0)
    else t
  }

  /** Running the built updates through `bulk_update_terms` leaves every row as `Saved` says:
      the id, domain, frequency, audio and images are kept, and so is every row not on the page. */
  lemma SaveAppliesInputs(t: Term, rows: seq<Term>, inputs: map<int, RowInput>, updates: seq<TermUpdate>)
    requires HasInputs(rows, inputs) && Built(rows, inputs, updates)
    ensures ApplyAll(t, updates) == Saved(t, rows, inputs)
    ensures var s := ApplyAll(t, updates);
            s.id == t.id && s.domainId == t.domainId && s.frequency == t.frequency
            && s.audioHash == t.audioHash && s.imagePaths == t.imagePaths
    ensures t.id !in RowIds(rows) ==> ApplyAll(t, updates) == t
  {
    ApplyAllIsLastUpdate(t, updates);
    BuiltNamesEachRow(rows, inputs, updates, t.id);
  }

  /** "Save Current Page": builds the updates from the form and writes them in one bulk update. */
  method SaveCurrentPage(db: Database, rows: seq<Term>, inputs: map<int, RowInput>)
    requires db.Valid() && HasInputs(rows, inputs)
    modifies db
    ensures db.Valid()
    ensures db.domains == old(db.domains) && db.sentences == old(db.sentences) && db.matches == old(db.matches)
    ensures |db.terms| == |old(db.terms)|
    ensures forall i :: 0 <= i < |db.terms| ==> db.terms[i] == Saved(old(db.terms)[i], rows, inputs)
  {
    var updates := BuildUpdates(rows, inputs);
    db.BulkUpdateTerms(updates);
    forall i | 0 <= i < |db.terms| ensures db.terms[i] == Saved(old(db.terms)[i], rows, inputs) {
      SaveAppliesInputs(old(db.terms)[i], rows, inputs, updates);
    }
  }
}
