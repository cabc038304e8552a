# DeepGloss core, modelled in Dafny

DeepGloss is a Streamlit vocabulary trainer. It works on a SQLite store of three kinds of rows:
- **domains**: named vocabulary collections;
- **terms**: a word with its definition, frequency, star level, audio and images, and an active flag;
- **sentences**: English context sentences with an optional translation, audio and explanation.

A **matches** table links terms to sentences. A semantic vector index serves as a fallback source of
context sentences.

This project models the logic of that core:

- `store.dfy` models the database layer (`app/database/db_manager.py`) as the class
  `Store.Database`. It keeps one `seq` per table and one id counter per table. Case-insensitive
  de-duplication of terms, de-duplication of sentences by content, idempotent linking, field-wise
  updates and the hybrid exact-then-semantic search are stated as method contracts. The predicate
  `Valid()` keeps these table invariants:
  - ids are unique and below the counter;
  - domain names are unique;
  - sentence contents are unique;
  - there is at most one match row per (term, sentence) pair.

  Uniqueness of a term's lower-cased word within its domain is the predicate `WordsUnique`. It is
  kept by every method that adds or updates terms except the bulk update, which can break it (see
  "Left out"), so it is not part of `Valid()`.
- `study_dialog.dfy` models the interactive study dialog (`app/ui/study_dialog.py`):
  - merging linked and searched sentences by id, as a Python dict would;
  - choosing the longest one, measured after stripping;
  - Prev/Next navigation over the term list;
  - the Save loop, which turns vector-only candidates into real rows, stores the user's inputs and
    links every shown sentence exactly once when its row and the term exist.
- `ingestion.dfy` models `IngestionEngine.process` (`app/services/ingestion.py`):
  - registering the terms;
  - the regular-expression sentence split, with a proof that the split is the unique decomposition
    the pattern defines;
  - selecting the sentences that contain a term as a whole word, ignoring case.
- `vocabulary_list.dfy` holds the filter, sort and paging logic that the two list pages share:
  - level and search filters;
  - a stable sort on a chosen column, done in place on an array;
  - page arithmetic;
  - header-click sort toggling.
- `edit_vocabulary.dfy` and `study_mode.dfy` model the two list pages (`pages/edit_vocabulary.py`,
  `pages/study_mode.py`). Each page's session state is a class. The edit page's bulk save is modelled
  too.
- `import_data.dfy` models the import page (`pages/import_data.py`):
  - vocabulary from a table or from pasted lines, including the stripping of a trailing frequency;
  - sentences from text, table or pasted input;
  - the line lists sent to the vector index.
- `text.dfy` and `basics.dfy` model the Python and regular-expression primitives the code relies on:
  - `str.strip`, `str.lower`, `split`, `splitlines` and `\b...\b`;
  - integer printing and parsing;
  - list comprehensions and dict key order.

Details of the code's behaviour that the model keeps as they are:
- `add_term` inserts a row even for an empty word. All of its callers skip empty words before
  calling it.
- The study dialog picks the sentence whose `content_en` is longest **after stripping**, not by raw
  length.
- The ingestion engine drops a sentence shorter than 5 characters, so it keeps a stripped length of
  5 or more. The import page keeps only lines longer than 5 characters.
- The study-mode list shows all of a domain's terms, disabled ones included. The page calls
  `get_terms_by_domain` without `only_active`, so the default `False` applies.
- The connection turns on `PRAGMA foreign_keys`, so `add_match` with a term or sentence id that has
  no row raises `IntegrityError`, which it passes over: nothing is linked.

## Model

| member | source | states |
|---|---|---|
| Basics.FirstIndexAgree | app/database/db_manager.py:83-86 | two row tests that agree on every row select the same first row, so `fetchone()` picks the same row for any query the test cannot tell apart |
| Text.Strip | app/services/ingestion.py:18 | the stripped string is no longer than the input and neither begins nor ends with whitespace |
| Text.StripWindow | app/services/ingestion.py:18 | `strip()` yields the window of the input between its leading and trailing whitespace runs, and everything removed is whitespace |
| Text.StripIdempotent | app/services/ingestion.py:32 | stripping twice is the same as stripping once |
| Text.WholeWordImpliesContains | app/services/ingestion.py:39 | a whole-word, case-insensitive match of a term implies the sentence contains the term ignoring case |
| Text.NoMatchInsideWord | app/services/ingestion.py:37-39 | a term beginning with a word character never matches right after another word character, because `\b` requires a boundary |
| Text.NoMatchBeforeWordChar | app/services/ingestion.py:37-39 | a term ending in a word character never matches right before another word character, because `\b` requires a boundary |
| Text.PineappleIsNotApple | app/services/ingestion.py:37-38 | an illustration: `apple` is not found as a whole word in `pineapple` |
| Text.ApplesIsNotApple | app/services/ingestion.py:37-38 | an illustration: `apple` is not found as a whole word in `apples` |
| Text.AppleInSentence | app/services/ingestion.py:37-39 | an illustration: `apple` is found in `An Apple.`, ignoring case |
| Text.SplitOn | pages/import_data.py:153 | `split('\n')` returns at least one field, no field holds the separator, and joining the fields with the separator gives back the input |
| Text.SplitOnAfter | pages/import_data.py:222 | splitting `a + sep + b` when `a` has no separator gives `a` followed by the split of `b` |
| Text.SplitLines | pages/import_data.py:189 | no line returned by `splitlines()` contains a line-boundary character |
| Text.SplitLinesAtBreak | pages/import_data.py:189 | a line followed by `"\r\n"` or by one other boundary character splits into that line followed by the lines of the rest |
| Text.SplitLinesOneLine | pages/import_data.py:189 | a text without boundary characters is one line, and the empty text has none |
| Text.SplitLinesLosesOnlyBoundaries | pages/import_data.py:189 | concatenating the lines gives the input with exactly its line-boundary characters removed |
| Text.NatToStringRoundTrip | app/database/db_manager.py:190 | parsing the decimal text of a number gives the number back |
| Text.NatToStringInjective | app/database/db_manager.py:190 | distinct numbers have distinct decimal texts |
| Store.VdbPrefixIffVirtual | app/ui/study_dialog.py:231 | the text of a candidate id starts with `vdb_` exactly when the candidate is a vector-only hit, never for a real row id |
| Store.VdbIdTextsDistinct | app/database/db_manager.py:188-193 | distinct vector hits get distinct `vdb_<i>` ids |
| Store.PairCountAtMostOne | app/database/db_manager.py:199-216 | in a valid match table a (term, sentence) pair occurs at most once, and once exactly when it is linked |
| Store.ApplyTermInfo | app/database/db_manager.py:117-126 | updating term info changes only the fields given as non-`None`; id, domain, word, frequency and active flag are never touched |
| Store.ApplySentenceInfo | app/database/db_manager.py:144-152 | updating sentence info changes only the fields given as non-`None`; id, domain and English text are never touched |
| Store.LastUpdateFor | app/database/db_manager.py:106-111 | the update that a row id takes its final values from is one of the listed updates for that id, and there is none exactly when no update names the id |
| Store.AppendFreshKeepsUnique | app/database/db_manager.py:82-89 | appending only rows whose word is new to their domain, ignoring case, keeps words unique per domain |
| Store.BulkRenameCanCollide | app/database/db_manager.py:104-112 | a bulk update may rename a term onto another term's word of the same domain in another case, leaving two rows for one lower-cased word |
| Store.ApplyAllIsLastUpdate | app/database/db_manager.py:104-112 | after a bulk update each row carries the word, definition, level and active flag of the last update naming its id, or is unchanged when none does |
| Store.Database.constructor | app/database/db_manager.py:12-28 | a fresh store is valid and all tables are empty |
| Store.Database.AddDomain | app/database/db_manager.py:64-73 | returns the id of the domain with that name when one exists, changing nothing; otherwise appends a row with a fresh id |
| Store.Database.FindTerm | app/database/db_manager.py:83-86 | finds a term of the domain whose lower-cased word equals the lower-cased query, and finds nothing exactly when no such term exists |
| Store.Database.AddTerm | app/database/db_manager.py:81-97 | returns the existing id of a case-insensitive duplicate without change; otherwise appends one row with the given fields, `is_active` at its column default 1, and a fresh id; afterwards the word is found under the returned id; an appended row's word is new to its domain ignoring case, so words unique per domain before stay unique |
| Store.NewFirstsSpec | app/database/db_manager.py:82-94 | in a loop of `add_term` calls, an item inserts a row exactly when it is the first item of its lower-cased word and the domain did not hold that word before the loop; later spellings find that row |
| Store.NewFirstsSnoc | app/database/db_manager.py:82-94 | one more `add_term` call of such a loop inserts exactly when the table before the call does not hold its word up to case |
| Store.Database.AddTermTwice | app/database/db_manager.py:81-89 | adding a word and then a spelling of it that differs only in case inserts at most one row and returns the same id both times |
| Store.Database.TermsByDomain | app/database/db_manager.py:99-102 | lists exactly the terms of the domain, only the active ones when asked |
| Store.Database.GetTermById | app/database/db_manager.py:114-115 | returns a row with that id, or nothing exactly when no row has it |
| Store.Database.UpdateTermInfo | app/database/db_manager.py:117-126 | the row with the id gets the given fields; every other row and every other table is unchanged; words unique per domain before stay unique |
| Store.Database.BulkUpdateTerms | app/database/db_manager.py:104-112 | every row becomes the result of applying the updates in order, so the last update naming its id wins; other tables are unchanged |
| Store.Database.FindSentence | app/database/db_manager.py:139 | finds a sentence with exactly that English content, and finds nothing exactly when none exists |
| Store.Database.AddSentence | app/database/db_manager.py:131-139 | returns the id of the sentence with identical content when one exists, changing nothing; otherwise appends a row with a fresh id; afterwards a row with that id holds the content |
| Store.Database.UpdateSentenceInfo | app/database/db_manager.py:144-152 | the row with the id gets the given fields; every other row and every other table is unchanged |
| Store.Database.SearchSentencesByText | app/database/db_manager.py:157-164 | lists exactly the domain's sentences whose English text contains the query ignoring ASCII case, in table order |
| Store.Database.SearchSentencesHybrid | app/database/db_manager.py:166-197 | returns the exact-search rows whenever there are any; otherwise the vector hits in order as `vdb_<i>` candidates of the queried domain; or nothing when the vector store fails |
| Store.Database.CanLink | app/database/db_manager.py:21 | a match row's foreign keys hold exactly when a term row and a sentence row with those ids exist |
| Store.Database.AddMatch | app/database/db_manager.py:199-216 | linking an already linked pair, or a pair whose term or sentence row is missing, changes nothing; otherwise one match row is appended; the pair never occurs twice, and for existing rows it occurs exactly once afterwards |
| Store.Database.GetMatchesForTerm | app/database/db_manager.py:218-224 | lists exactly the sentences that some match row links to the term |
| Store.JoinMatches | app/database/db_manager.py:219-223 | the join returns exactly the sentences that some match row for the term points to |
| StudyDialog.DictOfSpec | app/ui/study_dialog.py:101 | the dict built from the linked sentences has one entry per distinct id, in first-insertion order, each holding the last sentence with that id |
| StudyDialog.MergeCandidates | app/ui/study_dialog.py:100-106 | the merged list is the dict of the linked sentences extended by each searched sentence whose id is not yet a key |
| StudyDialog.MergeKeepsLinked | app/ui/study_dialog.py:101-104 | every linked sentence's id is in the merge, and its entry is the linked sentence, never a searched one |
| StudyDialog.MergeAddsNewHits | app/ui/study_dialog.py:102-104 | every searched id is in the merge; a new id carries the first searched sentence with it, and an already linked id keeps the linked sentence |
| StudyDialog.MergeShape | app/ui/study_dialog.py:100-106 | the merge has no duplicate ids, holds only linked or searched sentences, and begins with the linked ones |
| StudyDialog.ArgMax | app/ui/study_dialog.py:118 | `max(..., key=...)` selects an element of greatest key, the first one among ties |
| StudyDialog.FinalSentences | app/ui/study_dialog.py:116-121 | at most one sentence is shown, none exactly when there are no candidates, and it is a longest candidate by stripped length |
| StudyDialog.FinalFromRows | app/ui/study_dialog.py:95-121 | when nothing is linked and the exact search found rows, the shown sentence is a real row |
| StudyDialog.FinalFromHits | app/ui/study_dialog.py:95-121 | when nothing is linked and only vector hits came back, a sentence is shown exactly when there was a hit, and it is a vector-only hit |
| StudyDialog.MergeOfHits | app/ui/study_dialog.py:100-106 | merging no linked sentences with vector hits yields only those hits, empty exactly when there were none |
| StudyDialog.FinalFromNothing | app/ui/study_dialog.py:120-121 | with no candidates nothing is shown |
| StudyDialog.ChoiceFacts | app/ui/study_dialog.py:95-121 | with any exact hit the shown sentence is a real row; with no link and no exact hit, it is vector-only or absent |
| StudyDialog.FromRows | app/ui/study_dialog.py:95 | sentences read from the store become candidates with their own row ids, none of them vector-only |
| StudyDialog.Search | app/ui/study_dialog.py:95-98 | the linked sentences are the term's matches, and the searched ones follow the hybrid search's exact-then-semantic rule |
| StudyDialog.ContextSentences | app/ui/study_dialog.py:95-121 | the shown sentence is the longest of the merge of linked and searched sentences; with an exact hit it is a real row |
| StudyDialog.AfterPrev | app/ui/study_dialog.py:298-304 | Prev moves back one place only when there is a previous term, and so never leaves the list |
| StudyDialog.AfterNext | app/ui/study_dialog.py:299-309 | Next moves forward one place only when there is a next term, and so never leaves the list |
| StudyDialog.StudySession.constructor | app/ui/study_dialog.py:271-275 | the dialog opens on the index placed in the session |
| StudyDialog.StudySession.ClickPrev | app/ui/study_dialog.py:274-304 | the index becomes the Prev result; without an index nothing happens; a shown term stays shown, and an index outside the list stays outside it |
| StudyDialog.StudySession.ClickNext | app/ui/study_dialog.py:274-309 | the index becomes the Next result; without an index nothing happens; a shown term stays shown, and an index outside the list stays outside it |
| StudyDialog.StudySession.Dismiss | app/ui/study_dialog.py:255-257 | closing or dismissing the dialog removes the index |
| StudyDialog.ResolveRow | app/ui/study_dialog.py:228-237 | a real row keeps its id; a vector-only hit becomes the id of a row with its content, either the existing one or a single appended row of the dialog's domain |
| StudyDialog.StoreInputs | app/ui/study_dialog.py:241-247 | when any input is non-empty, the row with the id takes the given inputs; otherwise nothing changes; other rows are untouched |
| StudyDialog.LinkOne | app/ui/study_dialog.py:217-250 | one pass of the save loop: the row is resolved, the inputs are stored and the term is linked to the resolved row when both rows exist |
| StudyDialog.LinkOneComposes | app/ui/study_dialog.py:228-250 | resolving, storing and linking together make one well-formed save step |
| StudyDialog.Save | app/ui/study_dialog.py:208-250 | the term gets the given definition, audio and level. Every shown sentence resolves to a row that holds its content and its non-empty inputs. An old row changes only when a shown sentence with a non-empty input was saved under it; every added row is a shown vector hit, inserted with its text into the dialog's domain. The term is never linked twice to a resolved row, it is linked exactly once to each resolved row when the term and the row exist, and the only new links are such links |
| Ingestion.RunEnd | app/services/ingestion.py:26 | the greedy `\s+` consumes the whole whitespace run and stops at the first non-space character |
| Ingestion.PiecesFlatten | app/services/ingestion.py:26 | gluing the parts and the separators that `re.split` removed gives back the text |
| Ingestion.PiecesWellSplit | app/services/ingestion.py:26 | every part but the last ends in `.`, `!` or `?` and is followed by its full whitespace run, and no part contains a split point |
| Ingestion.PiecesUnique | app/services/ingestion.py:26 | any well-formed decomposition of the text that starts with a long enough part is the one the scan produces |
| Ingestion.SplitSentencesSpec | app/services/ingestion.py:26 | the split is well formed, reassembles to the input, and is the only decomposition that does both |
| Ingestion.Cleaned | app/services/ingestion.py:17-19 | the registered keys are non-empty and already stripped |
| Ingestion.BuildTermMap | app/services/ingestion.py:16-22 | the map's keys are the distinct stripped non-empty terms in first-seen order, each mapped to the id of its store row; the rows added are exactly one per key of `NewFirsts`, in key order: the first spelling of each lower-cased word the project did not hold, as a default term of the project, for a word new to the project ignoring case, so words unique per domain before stay unique |
| Ingestion.MatchSentences | app/services/ingestion.py:31-47 | the loop's result equals the reference selection `Kept` of the split sentences |
| Ingestion.FoundTermsSpec | app/services/ingestion.py:35-40 | the found terms are exactly the keys occurring as a whole word, ignoring case, listed in key order |
| Ingestion.KeptIsComprehension | app/services/ingestion.py:31-47 | the selection is the comprehension "entries for the sentences that pass the filter" |
| Ingestion.EntryShape | app/services/ingestion.py:32-47 | a kept entry holds a stripped sentence of at least 5 characters and a non-empty list of the terms it contains |
| Ingestion.KeptSound | app/services/ingestion.py:31-47 | nothing is kept that does not come from a sentence passing the length and term tests |
| Ingestion.KeptComplete | app/services/ingestion.py:31-47 | every sentence passing the length and term tests is kept |
| Ingestion.FirstKeySpellingWins | app/services/ingestion.py:18-22 | of the keys "Wafer" then "wafer", only "Wafer" inserts a row into a project without the word; "wafer" maps to its id |
| Ingestion.Process | app/services/ingestion.py:6-52 | registers the terms as above, keeping words unique per domain when they were; keeps the matching sentences of the split article, and returns their number; sentences and matches are untouched |
| VocabularyList.StarFilterSpec | pages/edit_vocabulary.py:108-110 | the level filter keeps exactly the terms with the chosen star level, in their order |
| VocabularyList.SearchFilterSpec | pages/edit_vocabulary.py:112-113 | the search keeps exactly the terms whose word contains the query ignoring case, in their order |
| VocabularyList.LexIrreflexive | pages/edit_vocabulary.py:122 | no string sorts before itself |
| VocabularyList.LexTransitive | pages/edit_vocabulary.py:122 | the string order is transitive |
| VocabularyList.LexTotal | pages/edit_vocabulary.py:122 | any two different strings are ordered one way or the other |
| VocabularyList.PrecedesStrictWeak | pages/edit_vocabulary.py:120-126 | each column's ascending or descending order is a strict weak order on terms |
| VocabularyList.SortByPermutes | pages/study_mode.py:131-137 | sorting rearranges the terms without adding or dropping any |
| VocabularyList.SortBySorted | pages/study_mode.py:131-137 | under a strict weak order the result is sorted |
| VocabularyList.SortByStable | pages/study_mode.py:131-137 | sorting keeps the input order among elements with equal keys (the stability of `list.sort`, also with `reverse=True`) |
| VocabularyList.SortArrayBy | pages/study_mode.py:131-137 | the in-place sort leaves the array holding the stable sorted sequence of its old contents |
| VocabularyList.SortTermsSpec | pages/edit_vocabulary.py:119-126 | the sorted terms are a permutation of the input, ordered by the column, and stable among equal keys |
| VocabularyList.LevelLabelParses | pages/edit_vocabulary.py:109 | reading the level from the label `"<stars> n Star(s)"` gives back `n` |
| VocabularyList.LevelOptionIsLabel | pages/edit_vocabulary.py:90 | the k-th level option is the label for k stars |
| VocabularyList.LevelOptionsParse | pages/edit_vocabulary.py:88-110 | "All Levels" selects no level filter and each other option selects its star count |
| VocabularyList.VisibleSpec | pages/study_mode.py:119-137 | the listed terms are exactly the domain's terms passing the level and search filters, as a permutation of the filtered list; the filtered list is empty exactly when no term passes |
| VocabularyList.PageCount | pages/study_mode.py:142 | the page count is the least number of 10-term pages holding every term |
| VocabularyList.SliceBound | pages/study_mode.py:150 | a slice bound is clamped into the list as Python slicing does |
| VocabularyList.PageSliceSpec | pages/study_mode.py:148-150 | a page holds at most 10 terms, those starting at its offset; it is empty exactly when the offset is past the list and full when ten terms remain |
| VocabularyList.PagesCoverAll | pages/edit_vocabulary.py:133-137 | the pages in order cover the list exactly; every page up to the last is non-empty and the page after it is empty |
| VocabularyList.ClampedPageSpec | pages/edit_vocabulary.py:134-137 | after the out-of-range correction the page lies between 1 and the page count, is kept when it was in range, and holds a non-empty block of at most ten terms at its offset |
| VocabularyList.PagingStaysInRange | pages/study_mode.py:44-51 | clamping brings the page into range, and Prev and Next from a page in range stay in range |
| VocabularyList.PrevNextInverse | pages/edit_vocabulary.py:63-70 | Prev undoes Next and Next undoes Prev away from the ends; both stop at the ends |
| VocabularyList.ClickHeaderSpec | pages/study_mode.py:31-41 | clicking a header sorts by that column; clicking the current column reverses the direction; two more clicks on the same header restore the state |
| EditVocabulary.TotalPages | pages/edit_vocabulary.py:133 | the edit page counts at least one page, and as few as hold every term |
| EditVocabulary.EditViewOutcome | pages/edit_vocabulary.py:101-117 | for every option of the level box the label parse never fails; the empty-domain message appears exactly when the domain has no terms, and the no-match message exactly when it has some but none passes the level and search filters |
| EditVocabulary.EditViewShown | pages/edit_vocabulary.py:106-137 | shown rows are a non-empty block of at most ten visible terms taken at the corrected page's offset; the page lies between 1 and the page count and stays the session's page when that was in range; every row passes both filters |
| EditVocabulary.EditPageState.constructor | pages/edit_vocabulary.py:42-47 | the page starts sorted by level, descending, on page 1 |
| EditVocabulary.EditPageState.ResetEditPage | pages/edit_vocabulary.py:50-51 | back to page 1, sort unchanged |
| EditVocabulary.EditPageState.HandleEditSort | pages/edit_vocabulary.py:54-60 | the header-click rule with level and frequency first descending and word first ascending; back to page 1 |
| EditVocabulary.EditPageState.PrevPage | pages/edit_vocabulary.py:63-65 | moves one page back unless on page 1 |
| EditVocabulary.EditPageState.NextPage | pages/edit_vocabulary.py:68-70 | moves one page on unless on the last page |
| EditVocabulary.EditPageState.Render | pages/edit_vocabulary.py:101-137 | renders the list of all of the domain's terms (disabled ones too) under the current sort and page, and stores the corrected page |
| EditVocabulary.RowIds | pages/edit_vocabulary.py:196-197 | collects the id of every row on the page |
| EditVocabulary.BuildUpdates | pages/edit_vocabulary.py:195-204 | one update per row on the page, in order, carrying that row's stripped word and definition, level and active flag |
| EditVocabulary.BuiltNamesEachRow | pages/edit_vocabulary.py:196-204 | every row on the page is named by an update carrying its inputs, and no other id is named |
| EditVocabulary.SaveAppliesInputs | pages/edit_vocabulary.py:195-205 | saving gives each row on the page its edited inputs and leaves every other row unchanged |
| EditVocabulary.SaveCurrentPage | pages/edit_vocabulary.py:194-205 | after saving, each stored term is its old row with the page's inputs applied, and other tables are untouched |
| StudyMode.StudyViewOutcome | pages/study_mode.py:110-128 | for every option of the level box the label parse never fails; the empty-domain message appears exactly when the domain has no terms, and the no-match message exactly when it has some but none passes the level and search filters |
| StudyMode.StudyViewShown | pages/study_mode.py:116-150 | as on the edit page, with the page count a plain ceiling that is at least 1 whenever rows are shown |
| StudyMode.StudyPageState.constructor | pages/study_mode.py:17-22 | the page starts sorted by word, ascending, on page 1 |
| StudyMode.StudyPageState.ResetPagination | pages/study_mode.py:26-28 | back to page 1, sort unchanged |
| StudyMode.StudyPageState.HandleSort | pages/study_mode.py:31-41 | the header-click rule with every new column first ascending; back to page 1 |
| StudyMode.StudyPageState.PrevPage | pages/study_mode.py:44-46 | moves one page back unless on page 1 |
| StudyMode.StudyPageState.NextPage | pages/study_mode.py:49-51 | moves one page on unless on the last page |
| StudyMode.StudyPageState.Render | pages/study_mode.py:110-150 | renders the list of all of the domain's terms under the current sort and page, and stores the corrected page |
| ImportData.ParseIntTextRoundTrip | pages/import_data.py:138 | `int()` of the text of an integer gives the integer back |
| ImportData.RowWordSpec | pages/import_data.py:134-142 | an empty word cell is never imported |
| ImportData.AcceptedWordIsStripped | pages/import_data.py:134-142 | an imported word is non-empty and already stripped |
| ImportData.NanIsSkipped | pages/import_data.py:142 | the text `nan` of a missing cell is skipped |
| ImportData.RowFreqSpec | pages/import_data.py:135-140 | without a frequency column the frequency is 1; an integer cell or integer text gives its value; anything `int()` rejects gives 1 |
| ImportData.RemoveTrailingCountSpec | pages/import_data.py:157 | `re.sub(r'\s+\d+$', '')` returns a prefix of the line, and whatever it cuts is a whitespace run followed by the line's final run of digits |
| ImportData.RemoveTrailingCountLeftmost | pages/import_data.py:157 | wherever the pattern could match, the cut starts there or earlier: a matching line always loses its count, at the leftmost match |
| ImportData.EntriesIsComprehension | pages/import_data.py:133-144 | the entries the import loop collects are the comprehension over the rows that pass the test |
| ImportData.AddImportedTerm | pages/import_data.py:143 | one `add_term` call keeps the earlier rows, appends at most one, and extends the import record by its word and frequency: the new rows stay exactly those of `NewFirsts` |
| ImportData.ImportVocabularyTable | pages/import_data.py:130-145 | every accepted row's stripped word is present in the domain afterwards; the rows added are exactly one per entry of `NewFirsts`, in row order: the first spelling of each lower-cased word the domain did not hold, with that row's frequency, each for a word new to the domain ignoring case, so words unique per domain before stay unique; the count is the number of accepted rows (the number of `add_term` calls, duplicates included) |
| ImportData.ImportWordLines | pages/import_data.py:155-160 | every non-empty cleaned word of the lines is present in the domain afterwards; the rows added are exactly one per entry of `NewFirsts`, in line order (the first spelling of each lower-cased word the domain did not hold, at frequency 1), each for a word new to the domain ignoring case, so words unique per domain before stay unique; the count is the number of those words, duplicates included |
| ImportData.FirstSpellingWins | pages/import_data.py:134-143 | importing "Apple" at 5 then "apple" at 3 into a domain without the word inserts only ("Apple", 5) |
| ImportData.FirstSpellingStored | pages/import_data.py:134-143 | such an import leaves exactly one new row, with word "Apple" and frequency 5 |
| ImportData.ImportVocabularyText | pages/import_data.py:152-161 | the paste box imports the cleaned words of the `split('\n')` lines as above and counts them |
| ImportData.LongLinesSpec | pages/import_data.py:262 | every text in the sentence list is stripped and longer than 5 characters |
| ImportData.LongLinesKeepsLong | pages/import_data.py:262 | every line longer than 5 characters after stripping is listed |
| ImportData.LongLinesStripFirst | pages/import_data.py:299 | filtering then stripping equals stripping then keeping the texts longer than 5 characters |
| ImportData.TxtVectorLinesSpec | pages/import_data.py:262 | the "Build Index (TXT)" corpus holds only stripped texts longer than 5 characters, every `splitlines()` line longer than 5 characters once stripped contributes its stripped form, and it equals the lines stripped first and then filtered |
| ImportData.ManualVectorLinesSpec | pages/import_data.py:299 | the "Build Independent Vector Index" corpus holds only stripped texts longer than 5 characters, every `split('\n')` piece longer than 5 characters once stripped contributes its stripped form, and it equals the pieces stripped first and then filtered |
| ImportData.TableVectorLines | pages/import_data.py:282-286 | the appending loop builds exactly the long stripped cell texts in row order |
| ImportData.AddImportedSentence | pages/import_data.py:193 | one `add_sentence` call extends the import record by its text |
| ImportData.ImportSentences | pages/import_data.py:191-194 | every long stripped line is a stored sentence afterwards; only such texts are added to the domain; the count is the number of such lines |
| ImportData.ImportSentencesText | pages/import_data.py:188-195 | a text file is imported by `splitlines()` lines |
| ImportData.ImportSentencesTable | pages/import_data.py:208-215 | a table is imported by the texts of the chosen column's cells |
| ImportData.ImportSentencesManual | pages/import_data.py:221-228 | a paste box is imported by `split('\n')` lines |

## Left out

- The user interface itself is not modelled: Streamlit widgets, CSS, HTML and JavaScript, reruns,
  toasts, sidebars, the microphone widget and the image scraper.
- Text-to-speech, the LLM client (definitions, translations and explanations), the automatic
  definition fetch, and network access are outside the model. Their outputs enter as plain
  parameters: the save inputs and the vector recall.
- The vector store is not modelled. Its query becomes the parameter `Recall`: failure, or a list
  of texts.
  - The `n_results=5` bound on that list is not enforced.
  - `search_similar_text` and `add_sentences_independent` are not defined in
    `app/services/vector_manager.py`.
  - The calls that index the vector lists (`pages/import_data.py:266`, `290`, `304`) and the test
    search (lines 310-328) are left out. Only the lists themselves are modelled.
- SQLite internals are not modelled: connection settings, schema creation and migration
  (`_execute_schema_script`), transactions, locking and concurrency. Row ids come from one counter
  per table rather than from `lastrowid`, so they are fresh but their exact values are not modelled.
- `insert_processed_data` (`app/services/ingestion.py:50`) is not defined in the database layer, so
  `Process` returns the processed entries rather than storing them.
- `get_all_domains` and `get_sentences_by_domain`, two plain table reads that feed the pages'
  selectors, are not modelled.
- Domain creation on the import page (`pages/import_data.py:79-80`) is one `add_domain` call, already
  covered by `Store.Database.AddDomain`.
- `Store.Database.SearchSentencesByText` takes `%` and `_` in the query literally, rather than as
  LIKE wildcards.
- `Text.AsciiLower`: lower-casing, `LIKE` case folding, `re.IGNORECASE`, `\w` and `\d` are modelled
  for ASCII only. Unicode case mapping and Unicode word or digit classes are not.
- `ImportData.RemoveTrailingCount` does not model `$` also matching before a final newline, because
  lines come from `split('\n')` and hold no newline.
- `ImportData.CellInt`: table cells are modelled as empty, integer or text. Float cells, and `int()`
  accepting underscores or non-ASCII digits, are not modelled.
- `Store.Database.BulkUpdateTerms` does not promise that words stay unique per domain, because the
  code does not check the new words (`Store.BulkRenameCanCollide`). Whether the schema, which is not
  part of this model, would reject such an update is left open.
- The invariant `Valid()` does not require every match row to point at existing rows, because the
  schema that declares the foreign keys is not part of this model. Only `add_match`'s own refusal of
  missing rows is modelled.
- `Store.Database.AddTerm`: the INSERT leaves `is_active` to its column default. The model gives new rows
  1 (active), which the study and list pages assume; the schema that declares it is not part of this model.
- `Store.Database.AddTerm` and `Store.Database.AddSentence` accept any domain id. The schema's foreign
  keys from terms and sentences to domains are not part of this model, so a missing domain is not refused.
- The `.get(..., 1)` defaults on the list pages never apply: every modelled term has all its fields.
- `VocabularyList.SortArrayBy` is a stable insertion sort. It yields the same order as Python's
  Timsort for stable sorting under a strict weak order, but the algorithm differs.
- `StudyDialog.Save` reads from the session only the inputs it uses: the term's definition, audio
  and level, and each sentence's translation, audio and explanation. Other session keys are not
  modelled.
- `pages/study_mode.py:213` calls `trigger_study_dialog` with five arguments although it takes four
  (`app/ui/study_dialog.py:264`). The dialog is modelled on its own, over a term list and an index.
