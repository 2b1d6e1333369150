/**
 * The background pass over every book (UpdateThumbnailsThread.onRun and onSearchFinished):
 * per book, snapshot its data, choose the fields to look up, look them up when warranted,
 * and merge the result back; count the books and honour cancellation.
 */
module UpdatePass {
  import opened Results
  import opened CatalogueKeys
  import opened Bundles
  import opened FieldUsages
  import opened FieldSelection
  import opened SearchResults

  /** One column of a cursor row: its name and its String value (null for an SQL NULL). */
  datatype Column = Column(name: string, value: Option<string>)

  /** Bundle.putString of a String that may be null. */
  function StringValue<P>(v: Option<string>): Value<P> {
    match v
    case None => Null
    case Some(s) => Str(s)
  }

  /** The bundle the column-copying loop builds: each column put in cursor order, so a later column of the same name wins. */
  function ColumnsBundle<P>(columns: seq<Column>): Bundle<P>
    decreases |columns|
  {
    if columns == [] then map[]
    else
      var last := columns[|columns| - 1];
      ColumnsBundle<P>(columns[..|columns| - 1])[last.name := StringValue(last.value)]
  }

  /** The column-copying loop of onRun: put every column of the cursor row into a fresh bundle. */
  method CopyColumns<P>(columns: seq<Column>) returns (data: Bundle<P>)
    ensures data == ColumnsBundle<P>(columns)
  {
    data := map[];
    for i := 0 to |columns|
      invariant data == ColumnsBundle<P>(columns[..i])
    {
      assert columns[..i + 1][..i] == columns[..i];
      data := data[columns[i].name := StringValue(columns[i].value)];
    }
    assert columns[..|columns|] == columns;
  }

  /** The bundle holds exactly the cursor row's column names. */
  lemma {:induction false} ColumnsBundleKeys<P>(columns: seq<Column>)
    ensures forall k :: k in ColumnsBundle<P>(columns) <==> exists i :: 0 <= i < |columns| && columns[i].name == k
    decreases |columns|
  {
    if columns != [] {
      var n := |columns| - 1;
      var init := columns[..n];
      ColumnsBundleKeys<P>(init);
      forall k | k in ColumnsBundle<P>(columns)
        ensures exists i :: 0 <= i < |columns| && columns[i].name == k
      {
        if k != columns[n].name {
          assert ColumnsBundle<P>(columns) == ColumnsBundle<P>(init)[columns[n].name := StringValue(columns[n].value)];
          assert k in ColumnsBundle<P>(init);
          var i :| 0 <= i < |init| && init[i].name == k;
          assert columns[i].name == k;
        }
      }
      forall k | exists i :: 0 <= i < |columns| && columns[i].name == k
        ensures k in ColumnsBundle<P>(columns)
      {
        var i :| 0 <= i < |columns| && columns[i].name == k;
        if i < n {
          assert init[i] == columns[i];
        }
      }
    }
  }

  /** No later column of the row carries the same name as column i. */
  predicate LastOfName(columns: seq<Column>, i: int)
    requires 0 <= i < |columns|
  {
    forall j :: i < j < |columns| ==> columns[j].name != columns[i].name
  }

  /** A name that several columns carry takes the value of the last of them. */
  lemma {:induction false} ColumnsBundleLastWins<P>(columns: seq<Column>, i: int)
    requires 0 <= i < |columns| && LastOfName(columns, i)
    ensures columns[i].name in ColumnsBundle<P>(columns)
    ensures ColumnsBundle<P>(columns)[columns[i].name] == StringValue(columns[i].value)
    decreases |columns|
  {
    var n := |columns| - 1;
    if i < n {
      var init := columns[..n];
      assert init[i] == columns[i];
      forall j | i < j < |init| ensures init[j].name != init[i].name {
        assert init[j] == columns[j];
      }
      ColumnsBundleLastWins<P>(init, i);
    }
  }

  /** What the lookup reports back for one book: the fetched data (null when nothing was found) and whether the task was cancelled. */
  datatype SearchResult<P> = SearchResult(bookData: Option<Bundle<P>>, cancelled: bool)

  /**
   * One book as the pass sees it: its id, the columns of its cursor row, its author and series
   * lists, whether its thumbnail file is missing or empty, whether a cancel request arrived
   * before the loop reached it, and what a lookup for it reports.
   */
  datatype BookRow<P> = BookRow(
    id: int,
    columns: seq<Column>,
    authors: Option<seq<P>>,
    series: Option<seq<P>>,
    thumbMissing: bool,
    cancelRequested: bool,
    search: SearchResult<P>)

  /** One call of updateBook (always with the list-rewrite flag set). */
  datatype Write<P> = UpdateBook(rowId: int, data: Bundle<P>)

  /** The message left for the user when the pass ends. */
  datatype FinalMessage =
    | ThumbnailFailedSdcard
    | NumBooksSearched(count: nat)
    | CancelledInfo(message: FinalMessage)

  /** The data snapshot of one book: every column as a String (or null), then the two lists. */
  function RowData<P>(row: BookRow<P>): Bundle<P> {
    ColumnsBundle<P>(row.columns)[AuthorArray := ListValue(row.authors)][SeriesArray := ListValue(row.series)]
  }

  /**
   * The snapshot always holds both lists (a null list as null), whatever the columns say, and
   * every other key holds its column's value.
   */
  lemma RowDataLists<P>(row: BookRow<P>)
    ensures AuthorArray in RowData(row) && GetParcelableArrayList(RowData(row), AuthorArray) == row.authors
    ensures SeriesArray in RowData(row) && GetParcelableArrayList(RowData(row), SeriesArray) == row.series
    ensures forall k :: k in RowData(row) && !IsListField(k) ==>
              k in ColumnsBundle<P>(row.columns) && RowData(row)[k] == ColumnsBundle<P>(row.columns)[k]
  {
  }

  /** The state the pass builds up: the counter, the cancel flag, the exception that ended the pass (if any), what was written and done to files, and the current book's snapshot. */
  datatype PassState<P> = PassState(
    counter: nat,
    cancelled: bool,
    failure: Option<Exception>,
    writes: seq<Write<P>>,
    fileOps: seq<FileOp>,
    origData: Bundle<P>,
    currId: int,
    currFieldUsages: FieldUsages)

  /** The search callback: a cancelled search cancels the task; a result is merged only when the task is not cancelled and something was found. */
  function SearchFinished<P>(s: PassState<P>, result: SearchResult<P>, thumbMissing: bool): PassState<P> {
    var cancelled := s.cancelled || result.cancelled;
    if cancelled || result.bookData.None? then s.(cancelled := cancelled)
    else Merged(s, Merge(s.currId, s.currFieldUsages, result.bookData.value, s.origData, thumbMissing))
  }

  /** The effect of processing a lookup result: the exception it throws, or its thumbnail operation and its write. */
  function Merged<P>(s: PassState<P>, outcome: Outcome<MergeResult<P>>): PassState<P> {
    match outcome
    case Thrown(e) => s.(failure := Some(e))
    case Ok(m) =>
      s.(fileOps := s.fileOps + (if m.thumbnail.Some? then [m.thumbnail.value] else []),
         writes := s.writes + (if m.write.Some? then [UpdateBook(s.currId, m.write.value)] else []))
  }

  /** The first part of processing a book: take its snapshot and id, and reset its field usages. */
  function Snapshot<P>(row: BookRow<P>, s: PassState<P>): PassState<P> {
    s.(origData := RowData(row), currId := row.id, currFieldUsages := map[])
  }

  /** Choosing the current book's fields, and clearing the temporary thumbnail when the thumbnail is among them. */
  function ChooseFields<P>(requested: FieldUsages, thumbMissing: bool, s: PassState<P>): PassState<P> {
    match Selection(requested, s.origData, thumbMissing)
    case Thrown(e) => s.(failure := Some(e))
    case Ok(subset) =>
      s.(currFieldUsages := subset,
         fileOps := s.fileOps + (if Thumbnail in subset then [DeleteTemporary] else []))
  }

  /** The skip test for the current book, and the lookup with its callback when the test lets the book through. */
  function LookUp<P>(row: BookRow<P>, s: PassState<P>): PassState<P> {
    var data := s.origData;
    match LookupWanted(s.currFieldUsages == map[], GetString(data, Isbn), GetString(data, AuthorFormatted), GetString(data, Title))
    case Thrown(e) => s.(failure := Some(e))
    case Ok(wantSearch) => if wantSearch then SearchFinished(s, row.search, row.thumbMissing) else s
  }

  /** Processing one book once the loop has counted it. */
  function RowStep<P>(requested: FieldUsages, row: BookRow<P>, s: PassState<P>): PassState<P> {
    var s1 := ChooseFields(requested, row.thumbMissing, Snapshot(row, s));
    if s1.failure.Some? then s1 else LookUp(row, s1)
  }

  /**
   * The loop of onRun over the remaining books: it stops when the books run out, when an
   * exception escapes, or when the task is found cancelled at the head of the loop.
   */
  function Pass<P>(requested: FieldUsages, rows: seq<BookRow<P>>, s: PassState<P>): PassState<P>
    decreases |rows|
  {
    if rows == [] || s.failure.Some? then s
    else if s.cancelled || rows[0].cancelRequested then s.(cancelled := true)
    else Pass(requested, rows[1..], RowStep(requested, rows[0], s.(counter := s.counter + 1)))
  }

  /** The summary message built in the finally block of onRun. */
  function Summary(counter: nat, cancelled: bool): FinalMessage {
    if cancelled then CancelledInfo(NumBooksSearched(counter)) else NumBooksSearched(counter)
  }

  /** Whether the pass looks up this book (its snapshot selects fields and the skip test lets it through). */
  predicate Searches<P>(requested: FieldUsages, row: BookRow<P>) {
    var data := RowData(row);
    match Selection(requested, data, row.thumbMissing)
    case Thrown(_) => false
    case Ok(subset) =>
      LookupWanted(subset == map[], GetString(data, Isbn), GetString(data, AuthorFormatted), GetString(data, Title)) == Ok(true)
  }

  /** A write is allowed when it is non-empty and touches only requested, selected fields. */
  ghost predicate Authorised<P>(requested: FieldUsages, w: Write<P>) {
    w.data != map[] && forall k :: k in w.data ==> k in requested && requested[k].selected
  }

  class UpdateThumbnailsThread<P> {
    /** The fields the user asked to refresh. */
    const requestedFields: FieldUsages
    /** Scratch state of the book being processed, read by the search callback. */
    var origData: Bundle<P>
    var currId: int
    var currFieldUsages: FieldUsages
    /** The task's cancel flag. */
    var cancelled: bool
    /** The calls made to updateBook, in order. */
    var writes: seq<Write<P>>
    /** The thumbnail file operations, in order. */
    var fileOps: seq<FileOp>
    var finalMessage: Option<FinalMessage>

    constructor (requested: FieldUsages)
      ensures requestedFields == requested
      ensures origData == map[] && currId == 0 && currFieldUsages == map[]
      ensures !cancelled && writes == [] && fileOps == [] && finalMessage == None
    {
      requestedFields := requested;
      origData := map[];
      currId := 0;
      currFieldUsages := map[];
      cancelled := false;
      writes := [];
      fileOps := [];
      finalMessage := None;
    }

    /** The object's state as a pass state, with the loop's counter and the pending exception. */
    function State(counter: nat, failure: Option<Exception>): PassState<P>
      reads this
    {
      PassState(counter, cancelled, failure, writes, fileOps, origData, currId, currFieldUsages)
    }

    /** cancelTask */
    method CancelTask()
      modifies this`cancelled
      ensures cancelled
    {
      cancelled := true;
    }

    /**
     * onSearchFinished: honour a cancelled search, take the scratch state of the current book,
     * and merge the fetched data unless the task is cancelled or nothing was found.
     */
    method OnSearchFinished(bookData: Option<Bundle<P>>, searchCancelled: bool, thumbMissing: bool) returns (thrown: Option<Exception>)
      requires WellKeyed(currFieldUsages)
      modifies this`cancelled, this`writes, this`fileOps
      ensures State(0, thrown) == SearchFinished(old(State(0, None)), SearchResult(bookData, searchCancelled), thumbMissing)
    {
      ghost var s0 := State(0, None);
      if searchCancelled {
        CancelTask();
      }
      var rowId, orig, requested := currId, origData, currFieldUsages;
      thrown := None;
      if !cancelled && bookData.Some? {
        var r := ProcessSearchResults(rowId, requested, bookData.value, orig, thumbMissing);
        assert SearchFinished(s0, SearchResult(bookData, searchCancelled), thumbMissing) == Merged(s0, r);
        match r
        case Thrown(e) =>
          thrown := Some(e);
        case Ok(m) =>
          if m.thumbnail.Some? {
            fileOps := fileOps + [m.thumbnail.value];
          }
          if m.write.Some? {
            writes := writes + [UpdateBook(rowId, m.write.value)];
          }
      }
    }

    /**
     * The body of the loop of onRun for one book, after the counter is incremented: snapshot
     * the book, choose its fields, and look it up when warranted (the search and the wait for
     * its callback are one call here).
     */
    method ProcessBook(row: BookRow<P>, ghost counter: nat) returns (thrown: Option<Exception>)
      requires WellKeyed(requestedFields)
      modifies this
      ensures State(counter, thrown) == RowStep(requestedFields, row, old(State(counter, None)))
      ensures finalMessage == old(finalMessage)
    {
      origData := CopyColumns(row.columns);
      currId := row.id;
      origData := origData[AuthorArray := ListValue(row.authors)][SeriesArray := ListValue(row.series)];
      currFieldUsages := map[];
      thrown := ChooseBookFields(row.thumbMissing, counter);
      if thrown.None? {
        thrown := LookUpBook(row, counter);
      }
    }

    /** The selection loop for the current book and the deletion of the temporary thumbnail. */
    method ChooseBookFields(thumbMissing: bool, ghost counter: nat) returns (thrown: Option<Exception>)
      requires WellKeyed(requestedFields)
      modifies this`currFieldUsages, this`fileOps
      ensures State(counter, thrown) == ChooseFields(requestedFields, thumbMissing, old(State(counter, None)))
      ensures thrown.None? ==> WellKeyed(currFieldUsages)
    {
      var selection := SelectFields(requestedFields, origData, thumbMissing);
      if selection.Thrown? {
        return Some(selection.exception);
      }
      currFieldUsages := selection.value;
      SelectionWellKeyed(requestedFields, origData, thumbMissing);
      var thumbWanted := Thumbnail in currFieldUsages;
      if thumbWanted {
        fileOps := fileOps + [DeleteTemporary];
      }
      thrown := None;
    }

    /** The skip test for the current book, then its lookup when warranted (the search and the wait for its callback are one call here). */
    method LookUpBook(row: BookRow<P>, ghost counter: nat) returns (thrown: Option<Exception>)
      requires WellKeyed(currFieldUsages)
      modifies this`cancelled, this`writes, this`fileOps
      ensures State(counter, thrown) == LookUp(row, old(State(counter, None)))
    {
      var isbn := GetString(origData, Isbn);
      var author := GetString(origData, AuthorFormatted);
      var title := GetString(origData, Title);
      var wantSearch := LookupWanted(currFieldUsages == map[], isbn, author, title);
      if wantSearch.Thrown? {
        return Some(wantSearch.exception);
      }
      thrown := None;
      if wantSearch.value {
        thrown := OnSearchFinished(row.search.bookData, row.search.cancelled, row.thumbMissing);
      }
    }

    /**
     * onRun: give up when the storage is not writable; otherwise process the books one at a
     * time until they run out, the task is cancelled or an exception escapes, and leave the
     * summary message (which the callback's exception never reaches). The summary reads the
     * cancel flag when the pass ends, so a cancel that arrives after the last loop test
     * (cancelAtEnd) still makes it the cancelled summary.
     */
    method OnRun(sdCardWritable: bool, books: seq<BookRow<P>>, cancelAtEnd: bool) returns (thrown: Option<Exception>)
      requires WellKeyed(requestedFields)
      modifies this
      ensures !sdCardWritable ==>
                thrown == None && State(0, None) == old(State(0, None)) && finalMessage == Some(ThumbnailFailedSdcard)
      ensures sdCardWritable ==>
                var p := Pass(requestedFields, books, old(State(0, None)));
                && thrown == p.failure
                && State(p.counter, thrown) == p.(cancelled := p.cancelled || cancelAtEnd)
                && finalMessage == if thrown == Some(IllegalUsage) then old(finalMessage) else Some(Summary(p.counter, p.cancelled || cancelAtEnd))
    {
      var counter: nat := 0;
      if !sdCardWritable {
        finalMessage := Some(ThumbnailFailedSdcard);
        return None;
      }
      ghost var pass := Pass(requestedFields, books, State(0, None));
      thrown := None;
      while counter < |books|
        invariant counter <= |books|
        invariant thrown == None
        invariant Pass(requestedFields, books[counter..], State(counter, None)) == pass
        invariant finalMessage == old(finalMessage)
      {
        if books[counter].cancelRequested {
          CancelTask();
        }
        if cancelled {
          break;
        }
        var row := books[counter];
        PassUnfold(requestedFields, books[counter..], State(counter, None));
        assert books[counter..][1..] == books[counter + 1..];
        counter := counter + 1;
        thrown := ProcessBook(row, counter);
        if thrown.Some? {
          break;
        }
      }
      if cancelAtEnd {
        CancelTask();
      }
      if thrown != Some(IllegalUsage) {
        finalMessage := Some(Summary(counter, cancelled));
      }
    }
  }

  /**
   * Every write the pass adds is non-empty and touches only requested, selected fields, and
   * the writes already made are kept.
   */
  lemma {:induction false} PassWritesOnlySelected<P>(requested: FieldUsages, rows: seq<BookRow<P>>, s: PassState<P>)
    requires WellKeyed(requested)
    ensures var p := Pass(requested, rows, s);
            && |s.writes| <= |p.writes|
            && p.writes[..|s.writes|] == s.writes
            && forall i :: |s.writes| <= i < |p.writes| ==> Authorised(requested, p.writes[i])
    decreases |rows|
  {
    if rows == [] || s.failure.Some? || s.cancelled || rows[0].cancelRequested {
    } else {
      var t := RowStep(requested, rows[0], s.(counter := s.counter + 1));
      PassUnfold(requested, rows, s);
      RowStepWritesOnlySelected(requested, rows[0], s.(counter := s.counter + 1));
      PassWritesOnlySelected(requested, rows[1..], t);
      var p := Pass(requested, rows[1..], t);
      assert p.writes[..|s.writes|] == p.writes[..|t.writes|][..|s.writes|];
      forall i | |s.writes| <= i < |p.writes|
        ensures Authorised(requested, p.writes[i])
      {
        if i < |t.writes| {
          assert p.writes[i] == p.writes[..|t.writes|][i];
        }
      }
    }
  }

  /** One book adds at most one write, for that book, and only an authorised one. */
  lemma RowStepWritesOnlySelected<P>(requested: FieldUsages, row: BookRow<P>, s: PassState<P>)
    requires WellKeyed(requested)
    ensures var t := RowStep(requested, row, s);
            && |s.writes| <= |t.writes| <= |s.writes| + 1
            && t.writes[..|s.writes|] == s.writes
            && forall i :: |s.writes| <= i < |t.writes| ==> t.writes[i].rowId == row.id && Authorised(requested, t.writes[i])
  {
    var s1 := ChooseFields(requested, row.thumbMissing, Snapshot(row, s));
    ChooseFieldsSelects(requested, row.thumbMissing, Snapshot(row, s));
    if s1.failure.None? {
      LookUpWritesOnlySelected(requested, row, s1);
    }
  }

  /** Choosing the fields writes nothing and, when it does not throw, keeps only requested, selected usages. */
  lemma ChooseFieldsSelects<P>(requested: FieldUsages, thumbMissing: bool, s: PassState<P>)
    ensures var t := ChooseFields(requested, thumbMissing, s);
            && t.writes == s.writes && t.currId == s.currId && t.counter == s.counter
            && (t.failure.None? ==> forall k :: k in t.currFieldUsages ==> k in requested && requested[k].selected)
  {
    SelectionShape(requested, s.origData, thumbMissing);
  }

  /** The skip test and lookup add at most one write, for the current book, and only an authorised one. */
  lemma LookUpWritesOnlySelected<P>(requested: FieldUsages, row: BookRow<P>, s: PassState<P>)
    requires forall k :: k in s.currFieldUsages ==> k in requested && requested[k].selected
    ensures var t := LookUp(row, s);
            && t.counter == s.counter
            && |s.writes| <= |t.writes| <= |s.writes| + 1
            && t.writes[..|s.writes|] == s.writes
            && forall i :: |s.writes| <= i < |t.writes| ==> t.writes[i].rowId == s.currId && Authorised(requested, t.writes[i])
  {
    var data := s.origData;
    if LookupWanted(s.currFieldUsages == map[], GetString(data, Isbn), GetString(data, AuthorFormatted), GetString(data, Title)) == Ok(true) {
      SearchFinishedWritesOnlySelected(requested, s, row.search, row.thumbMissing);
    }
  }

  /** A pass that neither stops nor is cancelled at its first book processes it and goes on with the rest. */
  lemma PassUnfold<P>(requested: FieldUsages, rows: seq<BookRow<P>>, s: PassState<P>)
    requires rows != [] && s.failure.None? && !s.cancelled && !rows[0].cancelRequested
    ensures Pass(requested, rows, s) == Pass(requested, rows[1..], RowStep(requested, rows[0], s.(counter := s.counter + 1)))
  {
  }

  /** One book leaves the counter alone and adds at most one write. */
  lemma RowStepCounts<P>(requested: FieldUsages, row: BookRow<P>, s: PassState<P>)
    requires WellKeyed(requested)
    ensures var t := RowStep(requested, row, s);
            t.counter == s.counter && |s.writes| <= |t.writes| <= |s.writes| + 1
  {
    RowStepWritesOnlySelected(requested, row, s);
  }

  /** The search callback adds at most one write, for the current book, and only an authorised one. */
  lemma SearchFinishedWritesOnlySelected<P>(requested: FieldUsages, s: PassState<P>, result: SearchResult<P>, thumbMissing: bool)
    requires forall k :: k in s.currFieldUsages ==> k in requested && requested[k].selected
    ensures var t := SearchFinished(s, result, thumbMissing);
            && |s.writes| <= |t.writes| <= |s.writes| + 1
            && t.writes[..|s.writes|] == s.writes
            && forall i :: |s.writes| <= i < |t.writes| ==> t.writes[i].rowId == s.currId && Authorised(requested, t.writes[i])
  {
    if !(s.cancelled || result.cancelled) && result.bookData.Some? {
      var m := Merge(s.currId, s.currFieldUsages, result.bookData.value, s.origData, thumbMissing);
      if m.Ok? {
        MergeWritesOnlyRequested(s.currId, s.currFieldUsages, result.bookData.value, s.origData, thumbMissing);
      }
    }
  }

  /**
   * The counter counts the books the loop took up: never more than there are, all of them
   * when the pass was neither cancelled nor ended by an exception, and at most one write each.
   */
  lemma {:induction false} PassCounts<P>(requested: FieldUsages, rows: seq<BookRow<P>>, s: PassState<P>)
    requires WellKeyed(requested)
    ensures var p := Pass(requested, rows, s);
            && s.counter <= p.counter <= s.counter + |rows|
            && (s.failure.None? && p.failure.None? && !p.cancelled ==> p.counter == s.counter + |rows|)
            && |p.writes| - |s.writes| <= p.counter - s.counter
    decreases |rows|
  {
    if rows == [] || s.failure.Some? || s.cancelled || rows[0].cancelRequested {
    } else {
      var t := RowStep(requested, rows[0], s.(counter := s.counter + 1));
      PassUnfold(requested, rows, s);
      RowStepCounts(requested, rows[0], s.(counter := s.counter + 1));
      PassCounts(requested, rows[1..], t);
    }
  }

  /**
   * A lookup that reports cancellation ends the pass on that book: it is counted, nothing of
   * it is merged or written, and the pass ends cancelled.
   */
  lemma CancelledSearchEndsPass<P>(requested: FieldUsages, rows: seq<BookRow<P>>, s: PassState<P>)
    requires rows != [] && s.failure.None? && !s.cancelled && !rows[0].cancelRequested
    requires Searches(requested, rows[0]) && rows[0].search.cancelled
    ensures var p := Pass(requested, rows, s);
            && p.counter == s.counter + 1
            && p.cancelled
            && p.failure.None?
            && p.writes == s.writes
            && Summary(p.counter, p.cancelled) == CancelledInfo(NumBooksSearched(s.counter + 1))
  {
    var t := RowStep(requested, rows[0], s.(counter := s.counter + 1));
    assert t.cancelled && t.failure.None? && t.writes == s.writes && t.counter == s.counter + 1;
    if |rows| > 1 {
      assert Pass(requested, rows[1..], t) == t.(cancelled := true);
    }
  }

  /**
   * A book whose lookup finds nothing, without cancelling, is counted but changes nothing
   * else: no write, no file operation, no exception, and the task is not cancelled, so the
   * pass goes on with the next book.
   */
  lemma NothingFoundChangesNothing<P>(requested: FieldUsages, row: BookRow<P>, s: PassState<P>)
    requires s.failure.None? && Searches(requested, row) && row.search == SearchResult(None, false)
    ensures var t := RowStep(requested, row, s);
            && t.writes == s.writes && t.fileOps == s.fileOps + (if Thumbnail in t.currFieldUsages then [DeleteTemporary] else [])
            && t.failure.None? && t.cancelled == s.cancelled && t.counter == s.counter
  {
    var s0 := Snapshot(row, s);
    var s1 := ChooseFields(requested, row.thumbMissing, s0);
    assert s0.origData == RowData(row);
    assert s1.failure.None?;
    assert LookUp(row, s1) == SearchFinished(s1, row.search, row.thumbMissing) == s1;
  }

  /** A book that is not looked up is never written. */
  lemma UnsearchedBookNotWritten<P>(requested: FieldUsages, row: BookRow<P>, s: PassState<P>)
    requires !Searches(requested, row)
    ensures RowStep(requested, row, s).writes == s.writes
  {
  }
}
