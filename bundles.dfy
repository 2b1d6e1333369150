/** Option and exception outcomes shared by the whole model. */
module Results {

  /** A Java reference that may be null. */
  datatype Option<+T> = None | Some(value: T)

  /** The two exceptions the refresh logic can raise. */
  datatype Exception =
    | NullPointer   // a method called on a null String
    | IllegalUsage  // ADD_EXTRA requested for a field that is not a list

  /** The value of a Java expression, or the exception its evaluation throws. */
  datatype Outcome<+T> = Ok(value: T) | Thrown(exception: Exception)
}

/** The key names of the catalogue database columns and bundle entries the core looks at. */
module CatalogueKeys {
  const RowId: string := "_id"
  const Isbn: string := "isbn"
  const AuthorFormatted: string := "author_formatted"
  const Title: string := "title"
  const Thumbnail: string := "thumbnail"
  const AuthorArray: string := "author_array"
  const SeriesArray: string := "series_array"

  /** The two keys whose values are lists of parcelable objects (authors, series). */
  predicate IsListField(name: string) {
    name == AuthorArray || name == SeriesArray
  }

  /** A field that is neither the thumbnail nor one of the two lists. */
  predicate IsPlainField(name: string) {
    name != Thumbnail && !IsListField(name)
  }
}

/**
 * An Android Bundle as the core uses it: a string-keyed dictionary whose entries are a
 * String (possibly null) or an ArrayList of parcelable objects of the opaque type P
 * (Author or Series).
 */
module Bundles {
  import opened Results

  datatype Value<P> = Null | Str(s: string) | Parcels(items: seq<P>)

  type Bundle<P> = map<string, Value<P>>

  /** Bundle.getString: null when the key is absent or does not hold a String. */
  function GetString<P>(b: Bundle<P>, key: string): Option<string> {
    if key in b && b[key].Str? then Some(b[key].s) else None
  }

  /** Bundle.getParcelableArrayList: null when the key is absent or does not hold a list. */
  function GetParcelableArrayList<P>(b: Bundle<P>, key: string): Option<seq<P>> {
    if key in b && b[key].Parcels? then Some(b[key].items) else None
  }

  /** The list under key, with a missing or null list read as the empty list. */
  function ListOrEmpty<P>(b: Bundle<P>, key: string): seq<P> {
    match GetParcelableArrayList(b, key)
    case None => []
    case Some(items) => items
  }

  /** Bundle.putParcelableArrayList of a list that may be null. */
  function ListValue<P>(list: Option<seq<P>>): Value<P> {
    match list
    case None => Null
    case Some(items) => Parcels(items)
  }
}
