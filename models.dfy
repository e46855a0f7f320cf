/**
 * The records exchanged between the frontend and the backend
 * (backend/app/models.py), and Python/JavaScript truthiness of their
 * optional fields.
 */
module Models {
  import opened Wrappers

  /** The optional context of a comparison request; every field may be absent. */
  datatype ComparisonContext = ComparisonContext(
    teamSize: Option<int>,
    timeline: Option<string>,
    expertise: Option<string>,
    useCase: Option<string>,
    budget: Option<string>)

  /**
   * The reply of the comparison endpoint. `executionTime` is carried along
   * but never computed with.
   */
  datatype ComparisonResponse = ComparisonResponse(
    success: bool,
    comparison: string,
    query: string,
    executionTime: Option<real>,
    error: Option<string>)

  /** The reply of the health endpoint, as far as the frontend reads it. */
  datatype Health = Health(status: string, message: string)

  /** One quick suggestion offered by the backend. */
  datatype Suggestion = Suggestion(id: int, title: string, category: string, query: string)

  /** An optional string is truthy when present and nonempty. */
  predicate Truthy(o: Option<string>) {
    o.Some? && o.value != ""
  }

  /** An optional integer is truthy when present and nonzero. */
  predicate TruthyInt(o: Option<int>) {
    o.Some? && o.value != 0
  }
}
