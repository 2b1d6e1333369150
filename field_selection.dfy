/**
 * Choosing, for one book, which of the requested fields to look up
 * (UpdateThumbnailsThread.onRun, the per-book loop over the requested usages and the
 * test that decides whether a lookup is made at all).
 */
module FieldSelection {
  import opened Results
  import opened CatalogueKeys
  import opened Bundles
  import opened FieldUsages

  /**
   * COPY_IF_BLANK on the author or series list: the list counts as blank only when its key is
   * present and the list is null or empty. A missing key does not count as blank.
   */
  predicate ListBlank<P>(orig: Bundle<P>, key: string) {
    key in orig &&
    match GetParcelableArrayList(orig, key)
    case None => true
    case Some(items) => |items| == 0
  }

  /**
   * COPY_IF_BLANK on any other field, evaluated as the source's test evaluates, which joins
   * "the String is null" and "its length is zero" with a conjunction: an absent key is blank;
   * a present null goes on to ask the length of null and throws; a present String fails the
   * null test, so the conjunction is false whatever the String holds.
   */
  function ScalarBlank<P>(orig: Bundle<P>, key: string): Outcome<bool> {
    if key !in orig then Ok(true)
    else if GetString(orig, key).None? then Thrown(NullPointer)
    else Ok(false)
  }

  /** Whether one requested usage enters this book's subset (one turn of the selection loop). */
  function Wanted<P>(u: FieldUsage, orig: Bundle<P>, thumbMissing: bool): Outcome<bool> {
    if !u.selected then Ok(false)
    else
      match u.usage
      case AddExtra => Ok(true)
      case Overwrite => Ok(true)
      case CopyIfBlank =>
        if u.fieldName == Thumbnail then Ok(thumbMissing)
        else if u.fieldName == AuthorArray then Ok(ListBlank(orig, u.fieldName))
        else if u.fieldName == SeriesArray then Ok(ListBlank(orig, u.fieldName))
        else ScalarBlank(orig, u.fieldName)
  }

  /** The usage whose blankness test dereferences a null String. */
  predicate HitsNullScalar<P>(u: FieldUsage, orig: Bundle<P>) {
    && u.selected
    && u.usage == CopyIfBlank
    && IsPlainField(u.fieldName)
    && u.fieldName in orig
    && GetString(orig, u.fieldName).None?
  }

  /**
   * The subset of the requested usages this book needs, or the NullPointerException the
   * selection loop throws.
   */
  function Selection<P>(requested: FieldUsages, orig: Bundle<P>, thumbMissing: bool): Outcome<FieldUsages>
  {
    if exists k :: k in requested && Wanted(requested[k], orig, thumbMissing).Thrown? then
      Thrown(NullPointer)
    else
      Ok(map k | k in requested && Wanted(requested[k], orig, thumbMissing) == Ok(true) :: requested[k])
  }

  /**
   * The selection loop of onRun: walk the requested usages in the table's (unspecified) order
   * and put every usage this book needs into a fresh table.
   */
  method SelectFields<P>(requested: FieldUsages, orig: Bundle<P>, thumbMissing: bool) returns (r: Outcome<FieldUsages>)
    requires WellKeyed(requested)
    ensures r == Selection(requested, orig, thumbMissing)
  {
    var curr: FieldUsages := map[];
    var pending := requested.Keys;
    while pending != {}
      invariant pending <= requested.Keys
      invariant forall k :: k in requested && k !in pending ==> Wanted(requested[k], orig, thumbMissing).Ok?
      invariant forall k :: k in curr <==> k in requested && k !in pending && Wanted(requested[k], orig, thumbMissing) == Ok(true)
      invariant forall k :: k in curr ==> curr[k] == requested[k]
      decreases pending
    {
      var k :| k in pending;
      var usage := requested[k];
      if usage.selected {
        match usage.usage
        case AddExtra =>
          curr := Put(curr, usage);
        case Overwrite =>
          curr := Put(curr, usage);
        case CopyIfBlank =>
          if usage.fieldName == Thumbnail {
            if thumbMissing {
              curr := Put(curr, usage);
            }
          } else if usage.fieldName == AuthorArray {
            if usage.fieldName in orig {
              var origAuthors := GetParcelableArrayList(orig, usage.fieldName);
              if origAuthors.None? || |origAuthors.value| == 0 {
                curr := Put(curr, usage);
              }
            }
          } else if usage.fieldName == SeriesArray {
            if usage.fieldName in orig {
              var origSeries := GetParcelableArrayList(orig, usage.fieldName);
              if origSeries.None? || |origSeries.value| == 0 {
                curr := Put(curr, usage);
              }
            }
          } else {
            if usage.fieldName !in orig {
              curr := Put(curr, usage);
            } else if GetString(orig, usage.fieldName).None? {
              assert Wanted(requested[k], orig, thumbMissing).Thrown?;
              return Thrown(NullPointer);
            }
          }
      }
      pending := pending - {k};
    }
    assert forall k :: k in requested ==> Wanted(requested[k], orig, thumbMissing).Ok?;
    assert curr == map k | k in requested && Wanted(requested[k], orig, thumbMissing) == Ok(true) :: requested[k];
    r := Ok(curr);
  }

  /**
   * Whether a lookup is made (the skip test and the progress message that follows it): no
   * lookup when the subset is empty, or when the ISBN is empty and the author or the title is
   * empty. The Strings are dereferenced in the source's evaluation order, so a null among the
   * ones that order reaches throws.
   */
  function LookupWanted(subsetEmpty: bool, isbn: Option<string>, author: Option<string>, title: Option<string>): Outcome<bool> {
    if subsetEmpty then Ok(false)
    else if isbn.None? then Thrown(NullPointer)
    else if isbn.value == "" && author.None? then Thrown(NullPointer)
    else if isbn.value == "" && author.value == "" then Ok(false)
    else if isbn.value == "" && title.None? then Thrown(NullPointer)
    else if isbn.value == "" && title.value == "" then Ok(false)
    else if title.None? then Thrown(NullPointer)
    else Ok(true)
  }

  /**
   * The skip test: with all three Strings present, a lookup is made exactly when fields are
   * wanted and there is an ISBN, or both an author and a title. With a null among them, the
   * test throws a NullPointerException once it reaches it: always for a null ISBN, and for a
   * null title unless the ISBN is empty and the author empty too.
   */
  lemma LookupWantedSpec(subsetEmpty: bool, isbn: Option<string>, author: Option<string>, title: Option<string>)
    ensures var r := LookupWanted(subsetEmpty, isbn, author, title);
            && (subsetEmpty ==> r == Ok(false))
            && (isbn.Some? && author.Some? && title.Some? ==>
                  r == Ok(!subsetEmpty && (isbn.value != "" || (author.value != "" && title.value != ""))))
            && (r.Thrown? ==> r.exception == NullPointer && !subsetEmpty && (isbn.None? || author.None? || title.None?))
            && (!subsetEmpty && isbn.None? ==> r.Thrown?)
            && (!subsetEmpty && title.None? && isbn != Some("") ==> r.Thrown?)
            && (!subsetEmpty && title.None? && !(isbn == Some("") && author == Some("")) ==> r.Thrown?)
            && (r == Ok(true) ==> isbn.Some? && title.Some?)
  {
  }

  /**
   * Whatever order the table is walked in, the selection throws exactly when some selected
   * COPY_IF_BLANK plain field holds null; otherwise the subset holds only selected usages,
   * unchanged, and holds every selected OVERWRITE and ADD_EXTRA usage.
   */
  lemma SelectionShape<P>(requested: FieldUsages, orig: Bundle<P>, thumbMissing: bool)
    ensures var r := Selection(requested, orig, thumbMissing);
            && (r.Thrown? <==> exists k :: k in requested && HitsNullScalar(requested[k], orig))
            && (r.Thrown? ==> r.exception == NullPointer)
            && (r.Ok? ==> forall k :: k in r.value ==> k in requested && r.value[k] == requested[k] && requested[k].selected)
            && (r.Ok? ==> forall k :: k in requested && requested[k].selected && requested[k].usage != CopyIfBlank ==> k in r.value)
  {
  }

  /** COPY_IF_BLANK on the thumbnail selects it exactly when the stored file is missing or empty. */
  lemma CopyIfBlankThumbnailSelection<P>(requested: FieldUsages, orig: Bundle<P>, thumbMissing: bool)
    requires Thumbnail in requested && requested[Thumbnail] == FieldUsage(Thumbnail, CopyIfBlank, true)
    requires Selection(requested, orig, thumbMissing).Ok?
    ensures Thumbnail in Selection(requested, orig, thumbMissing).value <==> thumbMissing
  {
  }

  /**
   * COPY_IF_BLANK on the author or series list selects the field only when the key is present
   * and the list is null or empty; an absent key is never selected.
   */
  lemma CopyIfBlankListSelection<P>(requested: FieldUsages, orig: Bundle<P>, thumbMissing: bool, k: string)
    requires IsListField(k) && k in requested && requested[k] == FieldUsage(k, CopyIfBlank, true)
    requires Selection(requested, orig, thumbMissing).Ok?
    ensures k in Selection(requested, orig, thumbMissing).value <==>
              k in orig && (GetParcelableArrayList(orig, k).None? || |GetParcelableArrayList(orig, k).value| == 0)
    ensures k !in orig ==> k !in Selection(requested, orig, thumbMissing).value
  {
  }

  /**
   * COPY_IF_BLANK on any other field selects it exactly when its key is absent: a present
   * String, even the empty one, is never selected, and a present null makes the loop throw.
   */
  lemma CopyIfBlankScalarSelection<P>(requested: FieldUsages, orig: Bundle<P>, thumbMissing: bool, k: string)
    requires IsPlainField(k) && k in requested && requested[k] == FieldUsage(k, CopyIfBlank, true)
    ensures Selection(requested, orig, thumbMissing).Ok? ==>
              (k in Selection(requested, orig, thumbMissing).value <==> k !in orig)
    ensures k in orig && orig[k].Str? ==> Selection(requested, orig, thumbMissing).Thrown? || k !in Selection(requested, orig, thumbMissing).value
    ensures k in orig && !orig[k].Str? ==> Selection(requested, orig, thumbMissing) == Thrown(NullPointer)
  {
    if k in orig && !orig[k].Str? {
      assert HitsNullScalar(requested[k], orig);
    }
  }

  /** The subset keeps the table's shape, so the merge can look usages up by field name. */
  lemma SelectionWellKeyed<P>(requested: FieldUsages, orig: Bundle<P>, thumbMissing: bool)
    requires WellKeyed(requested)
    requires Selection(requested, orig, thumbMissing).Ok?
    ensures WellKeyed(Selection(requested, orig, thumbMissing).value)
  {
    SelectionShape(requested, orig, thumbMissing);
  }
}
