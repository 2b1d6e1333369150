/**
 * The user's per-field refresh request: for each field name, how a fetched value is merged
 * and whether the field was ticked at all.
 */
module FieldUsages {

  /** How a fetched value is combined with the book's current value. */
  datatype Usage = Overwrite | CopyIfBlank | AddExtra

  datatype FieldUsage = FieldUsage(fieldName: string, usage: Usage, selected: bool)

  /** A FieldUsages table: a Hashtable from field name to its usage. */
  type FieldUsages = map<string, FieldUsage>

  /** The table only ever gains entries through Put, so each entry sits under its own field name. */
  ghost predicate WellKeyed(m: FieldUsages) {
    forall k :: k in m ==> m[k].fieldName == k
  }

  /** FieldUsages.put: store a usage under its field name. */
  function Put(m: FieldUsages, u: FieldUsage): FieldUsages {
    m[u.fieldName := u]
  }
}
