/**
 * `get_random_example` (app.py): one of five canned questions. The random
 * choice is replaced by the index it would pick.
 */
module Examples {

  const ExampleQuestions: seq<string> := [
    "Show all employees from the 'employees' table.",
    "Find the total sales for each month.",
    "List all products with a price greater than $50.",
    "Get the number of orders placed in the last 30 days.",
    "Retrieve the top 5 customers by total spend."
  ]

  /** The example `random.choice` returns when it picks index `i`. */
  function ExampleAt(i: int): (question: string)
    requires 0 <= i < 5
    ensures question in ExampleQuestions
    ensures question != ""
  {
    ExampleQuestions[i]
  }

  /** Every one of the five examples can be chosen. */
  lemma EveryExampleReachable(question: string)
    requires question in ExampleQuestions
    ensures exists i :: 0 <= i < 5 && ExampleAt(i) == question
  {
    var i :| 0 <= i < |ExampleQuestions| && ExampleQuestions[i] == question;
    assert ExampleAt(i) == question;
  }

  /** Different indices give different examples: the five picks are five
      different questions. */
  lemma ExamplesDistinct(i: int, j: int)
    requires 0 <= i < 5 && 0 <= j < 5
    requires ExampleAt(i) == ExampleAt(j)
    ensures i == j
  {
    assert ExampleAt(i)[0] == ExampleAt(j)[0];
  }
}
