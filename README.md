# Book Catalogue: refreshing book details from the internet

This project models, in Dafny, the field-refresh logic of Book Catalogue's
`UpdateThumbnailsThread`. This is the background task that walks every book in
the catalogue, decides which fields of each book the user's request applies to,
looks the book up on the internet when that is warranted, and merges what the
lookup returns back into the book.

The model has seven modules in five files.

- `Results`, `CatalogueKeys` and `Bundles` (`bundles.dfy`) hold the shared types.
  - An Android `Bundle` is a string-keyed map whose values are a String, null,
    or a list of parcelable objects. The element type `P` stands for `Author` or
    `Series`.
  - `getString` and `getParcelableArrayList` return null (`None`) for a missing
    key or a value of the other kind.
  - An exception thrown by the Java code is the `Thrown` case of an `Outcome`.
- `FieldUsages` (`field_usages.dfy`) models the user's request. Each field name
  maps to a usage: `OVERWRITE`, `COPY_IF_BLANK` or `ADD_EXTRA`, plus a `selected`
  flag. `FieldUsages.put` stores a usage under its own field name.
- `FieldSelection` (`field_selection.dfy`) is the per-book selection loop of
  `onRun` and the skip test that follows it. `SelectFields` is the loop. It is
  proved equal to the specification function `Selection` whatever order the
  Hashtable is walked in.
- `SearchResults` (`search_results.dfy`) holds `processSearchResults` and
  `combineArrays`.
  - `ProcessSearchResults` first removes the unrequested keys. It then applies
    each usage in place, in any order.
  - It is proved equal to the specification function `Merge`. The merge rules
    are proved about `Merge`.
- `UpdatePass` (`update_pass.dfy`) holds the thread object.
  - The class `UpdateThumbnailsThread` has the fields that `onRun` and
    `onSearchFinished` share (the current book's snapshot, id and field subset),
    the cancel flag, and logs of the `updateBook` calls and thumbnail file
    operations.
  - `OnRun` runs the loop. It is proved equal to the pure function `Pass` over
    the books. The counting, cancellation and write properties are proved about
    `Pass`.

Where the code departs from what it evidently intends, the model follows the
code:

- **Plain fields under COPY_IF_BLANK.** The blankness test at line 173 of
  `UpdateThumbnailsThread.java` joins "the String is null" and "its length is
  zero" with a conjunction, where a disjunction was evidently meant. So a plain
  field is selected only when its key is absent. A present non-null String, even the empty one, is never selected. A
  present null makes the selection loop throw a `NullPointerException`, which
  ends the pass.
- **Lists under COPY_IF_BLANK.** An author or series list whose key is missing
  is not selected (lines 160 and 166). Only a present list that is null or empty
  is. In a real pass the snapshot always contains both list keys
  (`RowDataLists`), so this case arises only when `Selection` is called directly.
- **Skip test.** It dereferences the ISBN, author and title Strings in Java's
  evaluation order (lines 197 and 201). A null String that this order reaches
  throws.
- **Fetched thumbnail.** Its key stays, with the fetched value, in the data
  passed to `updateBook`, whether the download was adopted or deleted.
- **ADD_EXTRA on a plain field.** It throws from inside the merge (line 355).
  Nothing is written for that book.

## Model

| member | source | states |
|---|---|---|
| FieldSelection.SelectFields | src/com/eleybourn/bookcatalogue/UpdateThumbnailsThread.java:139-179 | whatever order the requested usages are walked in, the loop returns exactly `Selection`: the selected usages that each usage's test admits, or a NullPointerException when a selected COPY_IF_BLANK plain field holds null |
| FieldSelection.SelectionShape | src/com/eleybourn/bookcatalogue/UpdateThumbnailsThread.java:142-150 | selection throws if and only if some selected COPY_IF_BLANK plain field is present and null, and the exception is always a NullPointerException; otherwise the subset holds only selected usages, each unchanged, and holds every selected OVERWRITE and ADD_EXTRA usage |
| FieldSelection.CopyIfBlankThumbnailSelection | src/com/eleybourn/bookcatalogue/UpdateThumbnailsThread.java:154-157 | COPY_IF_BLANK on the thumbnail selects it exactly when the book's thumbnail file is missing or empty |
| FieldSelection.CopyIfBlankListSelection | src/com/eleybourn/bookcatalogue/UpdateThumbnailsThread.java:158-170 | COPY_IF_BLANK on the author or series list selects it exactly when the key is present and the list is null or empty; a missing key is never selected |
| FieldSelection.CopyIfBlankScalarSelection | src/com/eleybourn/bookcatalogue/UpdateThumbnailsThread.java:171-175 | COPY_IF_BLANK on a plain field selects it exactly when its key is absent; a present String, even "", is never selected; a present null makes selection throw |
| FieldSelection.SelectionWellKeyed | src/com/eleybourn/bookcatalogue/UpdateThumbnailsThread.java:139-150 | the subset, filled by `put`, keeps every usage under its own field name, as the merge's lookups by field name need |
| FieldSelection.LookupWantedSpec | src/com/eleybourn/bookcatalogue/UpdateThumbnailsThread.java:194-205 | about `LookupWanted`, the skip test: no lookup for an empty subset; with all three Strings present, a lookup is made exactly when the subset is non-empty and there is an ISBN, or both an author and a title; any throw is a NullPointerException, and it happens only when the subset is non-empty and a String is null; a null ISBN always throws; a null title throws unless the ISBN and the author are both "" |
| SearchResults.CombineArrays | src/com/eleybourn/bookcatalogue/UpdateThumbnailsThread.java:370-391 | the key holds the original list followed by the fetched list, with a missing or null list read as empty; every other fetched entry is unchanged and no other key is added |
| SearchResults.RemoveUnrequested | src/com/eleybourn/bookcatalogue/UpdateThumbnailsThread.java:293-301 | the data left holds exactly the fetched entries whose key is a requested, selected field, with their fetched values |
| SearchResults.ApplyUsage | src/com/eleybourn/bookcatalogue/UpdateThumbnailsThread.java:304-361 | one usage changes only its own entry, and only when the lookup returned that entry; the entry becomes its merged value or is removed; the thumbnail decision is taken only for the thumbnail; ADD_EXTRA on a plain field reports the error |
| SearchResults.ProcessSearchResults | src/com/eleybourn/bookcatalogue/UpdateThumbnailsThread.java:292-368 | whatever order the usages are walked in, the result is `Merge`: IllegalUsage when a fetched, requested field asks for ADD_EXTRA on a plain field; otherwise the merged data, written only when non-empty, and the thumbnail decision |
| SearchResults.StageStep | src/com/eleybourn/bookcatalogue/UpdateThumbnailsThread.java:304-362 | applying one pending usage to the partly merged data gives the partly merged data with that usage done |
| SearchResults.MergeWritesOnlyRequested | src/com/eleybourn/bookcatalogue/UpdateThumbnailsThread.java:294-366 | a write is never empty, and every key it writes was fetched and is a requested, selected field; a requested field that the lookup did not return is never added |
| SearchResults.OverwriteKeepsFetched | src/com/eleybourn/bookcatalogue/UpdateThumbnailsThread.java:324-326 | OVERWRITE writes the fetched value unchanged |
| SearchResults.CopyIfBlankDropsNonBlank | src/com/eleybourn/bookcatalogue/UpdateThumbnailsThread.java:327-346 | COPY_IF_BLANK keeps the fetched value (unchanged) exactly when the original is not a non-empty list (for author or series) or a non-empty String (for any other field except the thumbnail) |
| SearchResults.AddExtraConcatenates | src/com/eleybourn/bookcatalogue/UpdateThumbnailsThread.java:347-353 | ADD_EXTRA on a list writes the original list followed by the fetched list, with the original first and nothing removed or deduplicated (prefix, suffix and multiset) |
| SearchResults.AddExtraOnPlainFieldThrows | src/com/eleybourn/bookcatalogue/UpdateThumbnailsThread.java:354-356 | ADD_EXTRA on a fetched, selected plain field makes the merge throw IllegalUsage |
| SearchResults.ThumbnailAdoptedOrDiscarded | src/com/eleybourn/bookcatalogue/UpdateThumbnailsThread.java:307-321 | a fetched thumbnail is adopted exactly under OVERWRITE, or under COPY_IF_BLANK when the book's file is missing or empty, and is deleted otherwise, while its key stays in the written data with the fetched value; with no thumbnail fetched there is no file operation |
| UpdatePass.CopyColumns | src/com/eleybourn/bookcatalogue/UpdateThumbnailsThread.java:123-126 | the column-copying loop builds `ColumnsBundle` of the cursor row |
| UpdatePass.ColumnsBundleKeys | src/com/eleybourn/bookcatalogue/UpdateThumbnailsThread.java:123-126 | the copied bundle's keys are exactly the row's column names |
| UpdatePass.ColumnsBundleLastWins | src/com/eleybourn/bookcatalogue/UpdateThumbnailsThread.java:123-126 | a column name maps to the value of the last column that carries it, with null for an SQL NULL |
| UpdatePass.RowDataLists | src/com/eleybourn/bookcatalogue/UpdateThumbnailsThread.java:123-131 | the snapshot always holds the author and series lists, a null list as null, and every other key holds its column's value |
| UpdatePass.UpdateThumbnailsThread.constructor | src/com/eleybourn/bookcatalogue/UpdateThumbnailsThread.java:93-101 | the thread keeps the requested fields and starts uncancelled, with no writes and no final message |
| UpdatePass.UpdateThumbnailsThread.CancelTask | src/com/eleybourn/bookcatalogue/UpdateThumbnailsThread.java:263-264 | cancelling sets the cancel flag |
| UpdatePass.UpdateThumbnailsThread.OnSearchFinished | src/com/eleybourn/bookcatalogue/UpdateThumbnailsThread.java:261-283 | the callback's new state is `SearchFinished`: a cancelled search cancels the task; the result is merged, for the current book id, snapshot and subset, only when the task is not cancelled and data was found |
| UpdatePass.UpdateThumbnailsThread.ProcessBook | src/com/eleybourn/bookcatalogue/UpdateThumbnailsThread.java:121-222 | one turn of the loop after the counter is incremented moves the object, exception included, to the state `RowStep` computes, and leaves the final message alone |
| UpdatePass.UpdateThumbnailsThread.ChooseBookFields | src/com/eleybourn/bookcatalogue/UpdateThumbnailsThread.java:139-192 | the field choice moves the object to `ChooseFields`: the subset is stored and the temporary thumbnail is deleted when the thumbnail is wanted, or the selection's exception is returned |
| UpdatePass.UpdateThumbnailsThread.LookUpBook | src/com/eleybourn/bookcatalogue/UpdateThumbnailsThread.java:194-222 | the skip test and the lookup move the object to `LookUp`: the skip test's exception, no change for a skipped book, or the callback's effect |
| UpdatePass.UpdateThumbnailsThread.OnRun | src/com/eleybourn/bookcatalogue/UpdateThumbnailsThread.java:104-236 | when storage is not writable, nothing changes and the final message is the storage failure; otherwise the object ends in the state `Pass` computes over the books, cancelled as well when a cancel arrives after the last loop test, returns the exception that ended the pass, and leaves the count, wrapped in the cancelled message when the flag is set at the end, unless the callback's IllegalUsage ended the pass |
| UpdatePass.PassWritesOnlySelected | src/com/eleybourn/bookcatalogue/UpdateThumbnailsThread.java:117-222 | the pass keeps the writes already made, and every write it adds is non-empty and touches only requested, selected fields |
| UpdatePass.RowStepWritesOnlySelected | src/com/eleybourn/bookcatalogue/UpdateThumbnailsThread.java:121-222 | one book adds at most one write, under that book's id, and only an authorised one |
| UpdatePass.ChooseFieldsSelects | src/com/eleybourn/bookcatalogue/UpdateThumbnailsThread.java:139-192 | choosing fields writes nothing, keeps the book id and the counter, and stores only requested, selected usages |
| UpdatePass.LookUpWritesOnlySelected | src/com/eleybourn/bookcatalogue/UpdateThumbnailsThread.java:194-222 | the skip test and the lookup add at most one write, for the current book, and only an authorised one |
| UpdatePass.SearchFinishedWritesOnlySelected | src/com/eleybourn/bookcatalogue/UpdateThumbnailsThread.java:261-283 | the callback adds at most one write, for the current book, and only an authorised one |
| UpdatePass.PassUnfold | src/com/eleybourn/bookcatalogue/UpdateThumbnailsThread.java:117-119 | a pass whose loop test succeeds counts the first book, processes it, and goes on with the rest |
| UpdatePass.RowStepCounts | src/com/eleybourn/bookcatalogue/UpdateThumbnailsThread.java:119-222 | processing one book leaves the counter alone and adds at most one write |
| UpdatePass.PassCounts | src/com/eleybourn/bookcatalogue/UpdateThumbnailsThread.java:117-235 | the final count never exceeds the number of books; it counts every book when the pass was neither cancelled nor ended by an exception; there is at most one write per counted book |
| UpdatePass.CancelledSearchEndsPass | src/com/eleybourn/bookcatalogue/UpdateThumbnailsThread.java:261-283 | a lookup that reports cancellation ends the pass at that book: it is counted, nothing is written for it, and the final message is the cancelled count |
| UpdatePass.NothingFoundChangesNothing | src/com/eleybourn/bookcatalogue/UpdateThumbnailsThread.java:261-282 | a book whose lookup returns no data without cancelling adds no write, no file operation beyond the temporary thumbnail's deletion, and no exception, and leaves the cancel flag as it was, so the pass goes on |
| UpdatePass.UnsearchedBookNotWritten | src/com/eleybourn/bookcatalogue/UpdateThumbnailsThread.java:208-222 | a book that is not looked up is never written |

## Left out

- The lock and condition handshake between the worker and the search callback
  (`mSearchLock`, `mSearchDone`, `doSearchDone`) and the `mMessageHandler.post`
  hand-off are not modelled. A lookup and its callback form one sequential call
  inside the loop, so concurrent progress is not captured. In the app, the next
  book can start while the previous result is still being merged, so the order
  of writes could interleave.
- `SearchManager`, `ManagedTask`, `TaskManager` and `getTaskHandler` are not
  part of this model.
  - What a lookup reports for a book is an input: `BookRow.search` holds the
    fetched data or null, and the cancelled flag.
  - A cancel request that arrives before the loop reaches a book is the input
    `BookRow.cancelRequested`. One that arrives while a book is being looked up,
    before the callback's check, is `BookRow.search.cancelled`. One that arrives
    after the last loop test is the input `cancelAtEnd` of `OnRun`; it reaches
    the summary, which reads the flag when the pass ends.
  - Whether `search` copes with a null author, title or ISBN is not modelled.
- Database access is not modelled. `fetchAllBooks` and the cursor become the
  sequence of `BookRow` values, and the author and series lists are inputs.
  `updateBook` is recorded in the `writes` log.
- UpdatePass.UpdateThumbnailsThread.ProcessBook: the book id is taken directly from the
  row. `Utils.getAsLong` on the `_id` column is not part of this model.
- File operations are not modelled. `fetchThumbnail`, `exists` and `length`
  become one boolean per book (`thumbMissing`). The merge reuses that boolean
  instead of probing the file a second time. `renameTo` and `delete` become
  entries of the `fileOps` log. `Utils.sdCardWritable` is a parameter of
  `OnRun`.
- The values of the catalogue's key constants are assumed. `CatalogueDBAdapter`
  is not part of this model, so the keys take their usual column names. Only the
  fact that the keys differ from one another matters.
- The selection loop can throw part-way through. The usages `put` before the
  `NullPointerException` are not kept: the object keeps the empty table that the
  loop started from.
- `processSearchResults` can throw part-way through. Thumbnail file operations
  and entry changes made before the `IllegalUsage` exception are not recorded:
  the model throws before any of them.
- The uncaught `IllegalUsage` exception on the callback's thread is reduced to
  ending the pass with no final message. Its effect on the rest of the process
  is not modelled.
- `combineArrays` appends to the list object taken from the original data.
  Aliasing between that list and the book's snapshot is not modelled: the
  model builds a new sequence.
- Progress messages, toasts, `String.format` of resource strings, `onFinish`,
  `onMessage` and `finalize` are not modelled. The final message is a
  datatype, not a formatted String.
