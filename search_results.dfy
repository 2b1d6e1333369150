/**
 * Merging the data a lookup fetched for one book into an update for that book
 * (UpdateThumbnailsThread.processSearchResults and combineArrays).
 */
module SearchResults {
  import opened Results
  import opened CatalogueKeys
  import opened Bundles
  import opened FieldUsages

  /** The operations on thumbnail files that the refresh performs. */
  datatype FileOp =
    | DeleteTemporary            // delete the temporary thumbnail before a lookup that wants one
    | AdoptThumbnail(rowId: int) // rename the downloaded thumbnail onto the book's own file
    | DiscardDownload            // delete the downloaded thumbnail

  /** What processing one lookup result does: the data passed to updateBook (if any) and the thumbnail file operation (if any). */
  datatype MergeResult<P> = MergeResult(write: Option<Bundle<P>>, thumbnail: Option<FileOp>)

  /** The fetched entries whose key is a requested, selected field. */
  function Filtered<P>(requested: FieldUsages, newData: Bundle<P>): Bundle<P> {
    map k | k in newData && k in requested && requested[k].selected :: newData[k]
  }

  /** COPY_IF_BLANK keeps the original when it holds a non-empty list, or a non-empty String. */
  predicate OriginalNonBlank<P>(key: string, orig: Bundle<P>) {
    if IsListField(key) then
      key in orig && GetParcelableArrayList(orig, key).Some? && |GetParcelableArrayList(orig, key).value| > 0
    else
      key in orig && GetString(orig, key).Some? && |GetString(orig, key).value| > 0
  }

  /** ADD_EXTRA is only meaningful for the two list fields (the thumbnail has its own rule). */
  predicate IllegalUsageOf(key: string, usage: Usage) {
    key != Thumbnail && usage == AddExtra && !IsListField(key)
  }

  predicate HasIllegalUsage<P>(requested: FieldUsages, filtered: Bundle<P>) {
    exists k :: k in filtered && k in requested && IllegalUsageOf(k, requested[k].usage)
  }

  /**
   * What becomes of one fetched entry under its usage: the value written, or None when the
   * entry is removed. ADD_EXTRA on a plain field never gets here: the merge throws first.
   */
  function MergedEntry<P>(key: string, usage: Usage, orig: Bundle<P>, fetched: Bundle<P>): Option<Value<P>>
    requires key in fetched
  {
    if key == Thumbnail then Some(fetched[key])
    else
      match usage
      case Overwrite => Some(fetched[key])
      case CopyIfBlank => if OriginalNonBlank(key, orig) then None else Some(fetched[key])
      case AddExtra => Some(Parcels(ListOrEmpty(orig, key) + ListOrEmpty(fetched, key)))
  }

  /** The filtered data after every usage has been applied to its own entry. */
  function MergedData<P>(requested: FieldUsages, filtered: Bundle<P>, orig: Bundle<P>): Bundle<P> {
    map k | k in filtered && k in requested && MergedEntry(k, requested[k].usage, orig, filtered).Some?
          :: MergedEntry(k, requested[k].usage, orig, filtered).value
  }

  /** The downloaded thumbnail replaces the book's under OVERWRITE, or under COPY_IF_BLANK when the book's file is missing or empty. */
  function ThumbnailAction(rowId: int, usage: Usage, thumbMissing: bool): FileOp {
    if usage == Overwrite || (usage == CopyIfBlank && thumbMissing) then AdoptThumbnail(rowId) else DiscardDownload
  }

  /**
   * The specification of processSearchResults: the IllegalUsage exception when some fetched,
   * requested field asks for ADD_EXTRA on a non-list field; otherwise the merged data, which is
   * written only when non-empty, and the fate of a downloaded thumbnail.
   */
  function Merge<P>(rowId: int, requested: FieldUsages, newData: Bundle<P>, orig: Bundle<P>, thumbMissing: bool): Outcome<MergeResult<P>> {
    var filtered := Filtered(requested, newData);
    if HasIllegalUsage(requested, filtered) then Thrown(IllegalUsage)
    else
      var merged := MergedData(requested, filtered, orig);
      Ok(MergeResult(
           if merged != map[] then Some(merged) else None,
           if Thumbnail in filtered && Thumbnail in requested
           then Some(ThumbnailAction(rowId, requested[Thumbnail].usage, thumbMissing))
           else None))
  }

  /**
   * combineArrays: the original list with the fetched list appended, stored under key in the
   * new data; a missing or null list on either side counts as empty.
   */
  method CombineArrays<P>(key: string, origData: Bundle<P>, newData: Bundle<P>) returns (combined: Bundle<P>)
    ensures combined.Keys == newData.Keys + {key}
    ensures combined[key] == Parcels(ListOrEmpty(origData, key) + ListOrEmpty(newData, key))
    ensures forall k :: k in newData && k != key ==> combined[k] == newData[k]
  {
    var origList: Option<seq<P>> := None;
    var newList: Option<seq<P>> := None;
    if key in origData {
      origList := GetParcelableArrayList(origData, key);
    }
    if origList.None? {
      origList := Some([]);
    }
    if key in newData {
      newList := GetParcelableArrayList(newData, key);
    }
    if newList.None? {
      newList := Some([]);
    }
    origList := Some(origList.value + newList.value);
    combined := newData[key := Parcels(origList.value)];
  }

  /** The first half of processSearchResults: remove every fetched key that is not a requested, selected field. */
  method RemoveUnrequested<P>(requestedFields: FieldUsages, newData: Bundle<P>) returns (data: Bundle<P>)
    ensures data == Filtered(requestedFields, newData)
  {
    var toRemove: seq<string> := [];
    var keys := newData.Keys;
    while keys != {}
      invariant keys <= newData.Keys
      invariant forall k :: k in toRemove <==> k in newData && k !in keys && !(k in requestedFields && requestedFields[k].selected)
      decreases keys
    {
      var key :| key in keys;
      if key !in requestedFields || !requestedFields[key].selected {
        toRemove := toRemove + [key];
      }
      keys := keys - {key};
    }
    data := newData;
    for i := 0 to |toRemove|
      invariant forall k :: k in data <==> k in newData && k !in toRemove[..i]
      invariant forall k :: k in data ==> data[k] == newData[k]
    {
      data := data - {toRemove[i]};
    }
    assert toRemove[..|toRemove|] == toRemove;
  }

  /**
   * One turn of the usage loop of processSearchResults: apply one usage to its own entry of
   * the data, if the lookup returned that entry. Only that entry and the thumbnail decision
   * can change; an ADD_EXTRA on a plain field reports the error instead.
   */
  method ApplyUsage<P>(rowId: int, usage: FieldUsage, data: Bundle<P>, origData: Bundle<P>, thumbMissing: bool, thumbnail: Option<FileOp>)
    returns (data': Bundle<P>, thumbnail': Option<FileOp>, illegal: bool)
    ensures var key := usage.fieldName;
            if key !in data then data' == data && thumbnail' == thumbnail && !illegal
            else illegal == IllegalUsageOf(key, usage.usage)
    ensures var key := usage.fieldName;
            key in data && !illegal ==>
              && (forall k :: k != key ==> (k in data' <==> k in data))
              && (forall k :: k != key && k in data' ==> data'[k] == data[k])
              && (key in data' <==> MergedEntry(key, usage.usage, origData, data).Some?)
              && (key in data' ==> data'[key] == MergedEntry(key, usage.usage, origData, data).value)
              && thumbnail' == if key == Thumbnail then Some(ThumbnailAction(rowId, usage.usage, thumbMissing)) else thumbnail
  {
    data', thumbnail', illegal := data, thumbnail, false;
    if usage.fieldName in data {
      if usage.fieldName == Thumbnail {
        var copyThumb := false;
        if usage.usage == CopyIfBlank {
          copyThumb := thumbMissing;
        } else if usage.usage == Overwrite {
          copyThumb := true;
        }
        if copyThumb {
          thumbnail' := Some(AdoptThumbnail(rowId));
        } else {
          thumbnail' := Some(DiscardDownload);
        }
      } else {
        match usage.usage
        case Overwrite =>
        case CopyIfBlank =>
          if usage.fieldName == AuthorArray {
            if usage.fieldName in origData {
              var origAuthors := GetParcelableArrayList(origData, usage.fieldName);
              if origAuthors.Some? && |origAuthors.value| > 0 {
                data' := data - {usage.fieldName};
              }
            }
          } else if usage.fieldName == SeriesArray {
            if usage.fieldName in origData {
              var origSeries := GetParcelableArrayList(origData, usage.fieldName);
              if origSeries.Some? && |origSeries.value| > 0 {
                data' := data - {usage.fieldName};
              }
            }
          } else {
            var origValue := GetString(origData, usage.fieldName);
            if usage.fieldName in origData && origValue.Some? && |origValue.value| > 0 {
              data' := data - {usage.fieldName};
            }
          }
        case AddExtra =>
          if usage.fieldName == AuthorArray {
            data' := CombineArrays(usage.fieldName, origData, data);
          } else if usage.fieldName == SeriesArray {
            data' := CombineArrays(usage.fieldName, origData, data);
          } else {
            illegal := true;
          }
      }
    }
  }

  /**
   * processSearchResults: drop the fetched entries nobody asked for, then apply each requested
   * usage to its own entry in place, walking the usages in the table's (unspecified) order;
   * the first ADD_EXTRA on a plain field throws.
   */
  method ProcessSearchResults<P>(rowId: int, requestedFields: FieldUsages, newData: Bundle<P>, origData: Bundle<P>, thumbMissing: bool)
    returns (r: Outcome<MergeResult<P>>)
    requires WellKeyed(requestedFields)
    ensures r == Merge(rowId, requestedFields, newData, origData, thumbMissing)
  {
    var data := RemoveUnrequested(requestedFields, newData);
    ghost var filtered := data;

    var thumbnail: Option<FileOp> := None;
    var pending := requestedFields.Keys;
    while pending != {}
      invariant pending <= requestedFields.Keys
      invariant data == Stage(requestedFields, filtered, origData, pending)
      invariant forall k :: k in filtered && k !in pending ==> !IllegalUsageOf(k, requestedFields[k].usage)
      invariant thumbnail == StageThumbnail(rowId, requestedFields, filtered, thumbMissing, pending)
      decreases pending
    {
      var key :| key in pending;
      var usage := requestedFields[key];
      ghost var before := data;
      var illegal;
      data, thumbnail, illegal := ApplyUsage(rowId, usage, data, origData, thumbMissing, thumbnail);
      if illegal {
        assert key in filtered && IllegalUsageOf(key, requestedFields[key].usage);
        return Thrown(IllegalUsage);
      }
      StageStep(requestedFields, filtered, origData, pending, key, before, data);
      pending := pending - {key};
    }
    StageDone(requestedFields, filtered, origData);
    assert !HasIllegalUsage(requestedFields, filtered);
    r := Ok(MergeResult(if data != map[] then Some(data) else None, thumbnail));
  }

  /** The data part-way through the usage loop: the usages still pending have not touched their entries yet. */
  ghost function Stage<P>(requested: FieldUsages, filtered: Bundle<P>, orig: Bundle<P>, pending: set<string>): Bundle<P> {
    map k | k in filtered && (k in pending || k !in requested || MergedEntry(k, requested[k].usage, orig, filtered).Some?)
          :: if k in pending || k !in requested then filtered[k] else MergedEntry(k, requested[k].usage, orig, filtered).value
  }

  /** The thumbnail decision part-way through the usage loop. */
  ghost function StageThumbnail<P>(rowId: int, requested: FieldUsages, filtered: Bundle<P>, thumbMissing: bool, pending: set<string>): Option<FileOp> {
    if Thumbnail in filtered && Thumbnail in requested && Thumbnail !in pending
    then Some(ThumbnailAction(rowId, requested[Thumbnail].usage, thumbMissing))
    else None
  }

  /** One usage applied to the current stage gives the next stage. */
  lemma StageStep<P>(requested: FieldUsages, filtered: Bundle<P>, orig: Bundle<P>, pending: set<string>, key: string,
                     data: Bundle<P>, data': Bundle<P>)
    requires WellKeyed(requested) && key in pending && key in requested
    requires data == Stage(requested, filtered, orig, pending)
    requires key !in data ==> data' == data
    requires key in data ==>
              && (forall k :: k != key ==> (k in data' <==> k in data))
              && (forall k :: k != key && k in data' ==> data'[k] == data[k])
              && (key in data' <==> MergedEntry(key, requested[key].usage, orig, data).Some?)
              && (key in data' ==> data'[key] == MergedEntry(key, requested[key].usage, orig, data).value)
    ensures data' == Stage(requested, filtered, orig, pending - {key})
  {
    var next := Stage(requested, filtered, orig, pending - {key});
    if key in data {
      MergedEntryOwnKey(key, requested[key].usage, orig, data, filtered);
    }
    assert forall k :: k in data' <==> k in next;
  }

  /** With no usage pending, the stage is the merged data. */
  lemma StageDone<P>(requested: FieldUsages, filtered: Bundle<P>, orig: Bundle<P>)
    requires forall k :: k in filtered ==> k in requested
    ensures Stage(requested, filtered, orig, {}) == MergedData(requested, filtered, orig)
  {
  }

  /** The merged value of an entry depends on the fetched data only through that entry. */
  lemma MergedEntryOwnKey<P>(key: string, usage: Usage, orig: Bundle<P>, a: Bundle<P>, b: Bundle<P>)
    requires key in a && key in b && a[key] == b[key]
    ensures MergedEntry(key, usage, orig, a) == MergedEntry(key, usage, orig, b)
  {
    assert ListOrEmpty(a, key) == ListOrEmpty(b, key);
  }

  /**
   * Nothing unrequested is ever written: every written key was fetched and is a requested,
   * selected field, and a requested field the lookup did not return is never added.
   */
  lemma MergeWritesOnlyRequested<P>(rowId: int, requested: FieldUsages, newData: Bundle<P>, orig: Bundle<P>, thumbMissing: bool)
    requires Merge(rowId, requested, newData, orig, thumbMissing).Ok?
    ensures var m := Merge(rowId, requested, newData, orig, thumbMissing).value;
            m.write.Some? ==>
              m.write.value != map[] &&
              forall k :: k in m.write.value ==> k in newData && k in requested && requested[k].selected
  {
  }

  /** OVERWRITE writes the fetched value unchanged. */
  lemma OverwriteKeepsFetched<P>(rowId: int, requested: FieldUsages, newData: Bundle<P>, orig: Bundle<P>, thumbMissing: bool, k: string)
    requires k in newData && k in requested && requested[k].selected && requested[k].usage == Overwrite
    requires Merge(rowId, requested, newData, orig, thumbMissing).Ok?
    ensures var m := Merge(rowId, requested, newData, orig, thumbMissing).value;
            m.write.Some? && k in m.write.value && m.write.value[k] == newData[k]
  {
    var merged := MergedData(requested, Filtered(requested, newData), orig);
    assert k in merged;
  }

  /**
   * COPY_IF_BLANK removes the fetched value exactly when the original holds a non-empty list
   * (author or series) or a non-empty String (any other field but the thumbnail).
   */
  lemma CopyIfBlankDropsNonBlank<P>(rowId: int, requested: FieldUsages, newData: Bundle<P>, orig: Bundle<P>, thumbMissing: bool, k: string)
    requires k != Thumbnail && k in newData && k in requested && requested[k].selected && requested[k].usage == CopyIfBlank
    requires Merge(rowId, requested, newData, orig, thumbMissing).Ok?
    ensures var m := Merge(rowId, requested, newData, orig, thumbMissing).value;
            (m.write.Some? && k in m.write.value) <==>
              if IsListField(k) then !(k in orig && orig[k].Parcels? && |orig[k].items| > 0)
              else !(k in orig && orig[k].Str? && |orig[k].s| > 0)
    ensures var m := Merge(rowId, requested, newData, orig, thumbMissing).value;
            m.write.Some? && k in m.write.value ==> m.write.value[k] == newData[k]
  {
    var merged := MergedData(requested, Filtered(requested, newData), orig);
    if !OriginalNonBlank(k, orig) {
      assert k in merged;
    }
  }

  /**
   * ADD_EXTRA on the author or series list writes the original list followed by the fetched
   * one: original elements first, nothing removed or deduplicated, a missing list read as empty.
   */
  lemma AddExtraConcatenates<P>(rowId: int, requested: FieldUsages, newData: Bundle<P>, orig: Bundle<P>, thumbMissing: bool, k: string)
    requires IsListField(k) && k in newData && k in requested && requested[k].selected && requested[k].usage == AddExtra
    requires Merge(rowId, requested, newData, orig, thumbMissing).Ok?
    ensures var m := Merge(rowId, requested, newData, orig, thumbMissing).value;
            var o, f := ListOrEmpty(orig, k), ListOrEmpty(newData, k);
            && m.write.Some? && k in m.write.value && m.write.value[k].Parcels?
            && |m.write.value[k].items| == |o| + |f|
            && m.write.value[k].items[..|o|] == o
            && m.write.value[k].items[|o|..] == f
            && multiset(m.write.value[k].items) == multiset(o) + multiset(f)
  {
    var filtered := Filtered(requested, newData);
    var merged := MergedData(requested, filtered, orig);
    assert k in merged;
    assert ListOrEmpty(filtered, k) == ListOrEmpty(newData, k);
    var o, f := ListOrEmpty(orig, k), ListOrEmpty(newData, k);
    assert merged[k].items == o + f;
  }

  /** ADD_EXTRA on any field other than the two lists and the thumbnail is an error. */
  lemma AddExtraOnPlainFieldThrows<P>(rowId: int, requested: FieldUsages, newData: Bundle<P>, orig: Bundle<P>, thumbMissing: bool, k: string)
    requires IsPlainField(k) && k in newData && k in requested && requested[k].selected && requested[k].usage == AddExtra
    ensures Merge(rowId, requested, newData, orig, thumbMissing) == Thrown(IllegalUsage)
  {
    assert k in Filtered(requested, newData);
  }

  /**
   * A fetched thumbnail is adopted exactly under OVERWRITE, or under COPY_IF_BLANK when the
   * book's file is missing or empty, and deleted otherwise; its key stays in the written data
   * with the fetched value.
   * No thumbnail fetched means no file operation.
   */
  lemma ThumbnailAdoptedOrDiscarded<P>(rowId: int, requested: FieldUsages, newData: Bundle<P>, orig: Bundle<P>, thumbMissing: bool)
    requires Merge(rowId, requested, newData, orig, thumbMissing).Ok?
    ensures var m := Merge(rowId, requested, newData, orig, thumbMissing).value;
            if Thumbnail in newData && Thumbnail in requested && requested[Thumbnail].selected then
              var u := requested[Thumbnail].usage;
              && m.thumbnail.Some?
              && (m.thumbnail.value == AdoptThumbnail(rowId) <==> u == Overwrite || (u == CopyIfBlank && thumbMissing))
              && (m.thumbnail.value != AdoptThumbnail(rowId) ==> m.thumbnail.value == DiscardDownload)
              && m.write.Some? && Thumbnail in m.write.value && m.write.value[Thumbnail] == newData[Thumbnail]
            else m.thumbnail.None?
  {
    var filtered := Filtered(requested, newData);
    if Thumbnail in newData && Thumbnail in requested && requested[Thumbnail].selected {
      assert Thumbnail in MergedData(requested, filtered, orig);
    }
  }
}
