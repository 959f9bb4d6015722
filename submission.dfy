/**
 * The guard in `handle_query_submission` (app.py): an empty question is
 * answered with a warning, anything else is passed on to generation.
 */
module Submission {
  import opened Wrappers
  import opened Examples
  import opened Generation

  datatype Outcome =
    | Warning                                            // "Please enter a query."
    | Generate(question: string, schema: Option<string>)  // generate_sql_query is called

  /** `query_input` is a Python string, so it is truthy exactly when it is non-empty;
      a question of blanks is not rejected. */
  function Submit(queryInput: string, schemaInput: Option<string>): (outcome: Outcome)
    ensures outcome == Warning <==> queryInput == ""
    ensures outcome.Generate? ==> outcome.question == queryInput && outcome.schema == schemaInput
  {
    if queryInput != "" then Generate(queryInput, schemaInput) else Warning
  }

  /** A question filled in from the examples is always passed on to generation. */
  lemma ExampleAlwaysGenerates(i: int, schemaInput: Option<string>)
    requires 0 <= i < 5
    ensures Submit(ExampleAt(i), schemaInput) == Generate(ExampleAt(i), schemaInput)
  {
  }

  /** `handle_query_submission` without its rendering: `None` stands for the
      warning, `Some` for the explanation and SQL that would be shown. */
  function HandleSubmission(queryInput: string, schemaInput: Option<string>, complete: string -> string): (r: Option<Generation>)
    ensures r.None? <==> queryInput == ""
    ensures r.Some? ==> r.value == GenerateSqlQuery(queryInput, schemaInput, complete)
  {
    match Submit(queryInput, schemaInput)
    case Warning => None
    case Generate(question, schema) => Some(GenerateSqlQuery(question, schema, complete))
  }

  /** An empty question never reaches the completion endpoint: the outcome is
      the same whatever the endpoint would have answered. */
  lemma EmptyInputMakesNoCall(schemaInput: Option<string>, complete1: string -> string, complete2: string -> string)
    ensures HandleSubmission("", schemaInput, complete1) == HandleSubmission("", schemaInput, complete2) == None
  {
  }
}
