/** The movie records the gallery loads from movies.json, as values. */
module Movies {

  datatype Option<+T> = None | Some(value: T)

  /** A release date in ISO 8601 calendar form (YYYY-MM-DD), already split into its parts. */
  datatype Date = Date(year: int, month: int, day: int)

  /**
   * One entry of the dataset. The optional fields are `None` when the JSON
   * object lacks them (or holds null); JavaScript also treats `Some("")` as falsy.
   */
  datatype Movie = Movie(
    title: string,
    releaseDate: Date,
    chronologicalOrder: int,
    phase: Option<string>,
    mainCharacter: Option<string>,
    posterUrl: Option<string>)

  /** JavaScript truthiness of an optional string field: present and non-empty. */
  predicate Truthy(field: Option<string>) {
    field.Some? && field.value != ""
  }
}
