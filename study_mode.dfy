/** The Study Mode page: its session state (sort column, direction, current page) and the list
    it renders from all of a domain's terms (`get_terms_by_domain` is called without
    `only_active`, so disabled terms are listed too). Each row's Practice button opens the
    study dialog, which is modelled on its own. */
module StudyMode {
  import opened Basics
  import opened Text
  import opened Store
  import opened VocabularyList

  /** What the page renders for the domain's terms `all`, the level option, the search
      text and the session's sort and page; the page count is `math.ceil(total_items / 10)`
      without a floor. A `Shown` view carries the clamped page the session keeps. */
  function StudyView(all: seq<Term>, option: string, query: string, col: SortColumn, asc: bool,
                     page: int): ListView
  {
    if all == [] then NoTerms
    else
      var choice := ParseLevelOption(option);
      if choice.BadLabel? then LabelRaises
      else
        var filtered := SearchFilter(LevelFilter(all, choice), query);
        if filtered == [] then NoMatch
        else
          var sorted := SortTerms(filtered, col, asc);
          var total := PageCount(|sorted|);
          var p := ClampPage(page, total);
          Shown(PageSlice(sorted, p), p, total, |sorted|)
  }

  /** For every option of the level select box the page says the domain has no term exactly
      when it has none, never raises, and says nothing matches exactly when no term
      passes the filters. */
  lemma StudyViewOutcome(all: seq<Term>, k: nat, query: string, col: SortColumn, asc: bool, page: int)
    requires k < |LevelOptions|
    ensures var choice := if k == 0 then AllLevels else OnlyLevel(k);
            var v := StudyView(all, LevelOptions[k], query, col, asc, page);
            v != LabelRaises
            && (v == NoTerms <==> all == [])
            && (v == NoMatch <==> all != [] && forall t :: t in all ==> !Shows(choice, query, t))
  {
    var choice := if k == 0 then AllLevels else OnlyLevel(k);
    LevelOptionsParse();
    assert ParseLevelOption(LevelOptions[k]) == choice;
    VisibleSpec(all, choice, query, col, asc);
  }

  /** When rows are shown, the page count is at least 1 (the list is not empty there), and the
      rows are a non-empty block of at most ten of the filtered and sorted terms, the one at
      `(page - 1) * 10`, on a page between 1 and the page count; every row passes both filters. */
  lemma StudyViewShown(all: seq<Term>, option: string, query: string, col: SortColumn, asc: bool, page: int)
    requires page >= 1
    ensures var choice := ParseLevelOption(option);
            var v := StudyView(all, option, query, col, asc, page);
            var vis := Visible(all, choice, query, col, asc);
            v.Shown? ==>
              v.totalItems == |vis| && v.totalPages == PageCount(|vis|) >= 1
              && 1 <= v.page <= v.totalPages && (page <= v.totalPages ==> v.page == page)
              && v.rows != [] && |v.rows| <= ItemsPerPage
              && (forall i :: 0 <= i < |v.rows| ==> v.rows[i] == vis[(v.page - 1) * ItemsPerPage + i])
              && forall t :: t in v.rows ==> t in all && Shows(choice, query, t)
  {
    var choice := ParseLevelOption(option);
    var v := StudyView(all, option, query, col, asc, page);
    if v.Shown? {
      var vis := Visible(all, choice, query, col, asc);
      VisibleSpec(all, choice, query, col, asc);
      ClampedPageSpec(vis, page);
      forall t | t in v.rows ensures t in vis {
        var i :| 0 <= i < |v.rows| && v.rows[i] == t;
      }
    }
  }

  /** `st.session_state.sort_col`, `sort_asc` and `current_page`. */
  class StudyPageState {
    var sortCol: SortColumn
    var sortAsc: bool
    var currentPage: int

    ghost predicate Valid()
      reads this
    {
      currentPage >= 1
    }

    /** The first visit: by word, ascending, page 1. */
    constructor ()
      ensures Valid()
      ensures sortCol == WordColumn && sortAsc && currentPage == 1
    {
      sortCol, sortAsc, currentPage := WordColumn, true, 1;
    }

    /** `reset_pagination`, run when the domain, level or search changes. */
    method ResetPagination()
      modifies this
      ensures Valid()
      ensures sortCol == old(sortCol) && sortAsc == old(sortAsc) && currentPage == 1
    {
      currentPage := 1;
    }

    /** `handle_sort`: a newly clicked column always starts ascending. */
    method HandleSort(clicked: SortColumn)
      modifies this
      ensures Valid()
      ensures (sortCol, sortAsc) == ClickHeader(old(sortCol), old(sortAsc), clicked, true)
      ensures currentPage == 1
    {
      if sortCol == clicked {
        sortAsc := !sortAsc;
      } else {
        sortCol := clicked;
        sortAsc := true;
      }
      currentPage := 1;
    }

    /** `prev_page`. */
    method PrevPage()
      requires Valid()
      modifies this
      ensures Valid()
      ensures sortCol == old(sortCol) && sortAsc == old(sortAsc)
      ensures currentPage == VocabularyList.PrevPage(old(currentPage))
    {
      if currentPage > 1 {
        currentPage := currentPage - 1;
      }
    }

    /** `next_page(total_pages)`. */
    method NextPage(totalPages: int)
      requires Valid()
      modifies this
      ensures Valid()
      ensures sortCol == old(sortCol) && sortAsc == old(sortAsc)
      ensures currentPage == VocabularyList.NextPage(old(currentPage), totalPages)
    {
      if currentPage < totalPages {
        currentPage := currentPage + 1;
      }
    }

    /** One run of the page script from the data fetch to the slice: filters, sorts in place,
        clamps the session's page and cuts out the rows to show. */
    method Render(db: Database, domainId: int, option: string, query: string) returns (view: ListView)
      requires Valid()
      modifies this
      ensures Valid()
      ensures sortCol == old(sortCol) && sortAsc == old(sortAsc)
      ensures view == StudyView(db.TermsByDomain(domainId, false), option, query, sortCol, sortAsc, old(currentPage))
      ensures currentPage == if view.Shown? then view.page else old(currentPage)
    {
      var all := db.TermsByDomain(domainId, false);
      if all == [] {
        return NoTerms;
      }
      var choice := ParseLevelOption(option);
      if choice.BadLabel? {
        return LabelRaises;
      }
      var filtered := SearchFilter(LevelFilter(all, choice), query);
      if filtered == [] {
        return NoMatch;
      }
      var items := new Term[|filtered|](i requires 0 <= i < |filtered| => filtered[i]);
      assert items[..] == filtered;
      SortArrayBy(items, Before(sortCol, sortAsc));
      var sorted := items[..];
      var total := PageCount(|sorted|);
      if currentPage > total {
        currentPage := Max(1, total);
      }
      view := Shown(PageSlice(sorted, currentPage), currentPage, total, |sorted|);
    }
  }
}
