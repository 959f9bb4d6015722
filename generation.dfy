/**
 * The text handling of `generate_sql_query` (app.py): building the prompt from
 * the question and the optional schema, and splitting the model's reply into
 * an explanation and a SQL fragment. The completion call between the two is
 * not part of this model; the reply is taken as a plain input string.
 */
module Generation {
  import opened Wrappers
  import opened Text

  /** The text placed before the question; the question is then closed by a quote. */
  const PromptIntro: string := "Convert this request into a SQL query: '"
  /** The text placed between the quoted question and the schema. */
  const SchemaClause: string := " based on the database schema: "
  /** The delimiter between explanation and SQL in the model's reply. */
  const Marker: string := "SQL Query:"

  /** Python truthiness of `schema_info`: neither `None` nor the empty string. */
  predicate HasSchema(schema: Option<string>) {
    schema.Some? && schema.value != ""
  }

  /** The schema as far as the prompt can tell: an empty schema counts as none. */
  function EffectiveSchema(schema: Option<string>): Option<string> {
    if HasSchema(schema) then schema else None
  }

  /** The prompt sent to the completion endpoint. */
  function BuildPrompt(question: string, schema: Option<string>): (prompt: string)
    ensures |prompt| >= |PromptIntro| + |question| + 1
    ensures prompt[..|PromptIntro|] == PromptIntro
    ensures prompt[|PromptIntro|..|PromptIntro| + |question|] == question
    ensures prompt[|PromptIntro| + |question|] == '\''
    ensures !HasSchema(schema) ==> |prompt| == |PromptIntro| + |question| + 1
    ensures HasSchema(schema) ==> prompt[|PromptIntro| + |question| + 1..] == SchemaClause + schema.value
  {
    var base := PromptIntro + question + "'";
    assert base[..|PromptIntro|] == PromptIntro;
    assert base[|PromptIntro|..|PromptIntro| + |question|] == question;
    if HasSchema(schema) then
      var prompt := base + (SchemaClause + schema.value);
      assert prompt[..|base|] == base;
      prompt
    else base
  }

  /** For a fixed question the prompt tells the schemas apart exactly as far as
      Python truthiness does: `None` and `""` give the same prompt, any two
      different non-empty schemas give different prompts. */
  lemma PromptDeterminesSchema(question: string, s1: Option<string>, s2: Option<string>)
    ensures BuildPrompt(question, s1) == BuildPrompt(question, s2) <==> EffectiveSchema(s1) == EffectiveSchema(s2)
  {
    var p1, p2 := BuildPrompt(question, s1), BuildPrompt(question, s2);
    var n := |PromptIntro| + |question| + 1;
    if p1 == p2 && HasSchema(s1) && HasSchema(s2) {
      assert SchemaClause + s1.value == p1[n..] == SchemaClause + s2.value;
      assert s1.value == (SchemaClause + s1.value)[|SchemaClause|..];
      assert s2.value == (SchemaClause + s2.value)[|SchemaClause|..];
    }
    if EffectiveSchema(s1) == EffectiveSchema(s2) {
      assert HasSchema(s1) == HasSchema(s2);
      assert p1[..n] == p2[..n] by {
        assert p1[..n] == PromptIntro + question + "'";
        assert p2[..n] == PromptIntro + question + "'";
      }
      assert p1 == p1[..n] + p1[n..];
      assert p2 == p2[..n] + p2[n..];
    }
  }

  /** The question is interpolated without escaping, so the prompt does not
      determine the request: a question that itself closes the quote and
      carries the schema clause is indistinguishable from a real schema. */
  lemma PromptNotInjective(question: string, schema: string)
    ensures BuildPrompt(question + "'" + SchemaClause + schema, None)
         == BuildPrompt(question, Some(schema + "'"))
  {
    assert HasSchema(Some(schema + "'"));
    assert PromptIntro + (question + "'" + SchemaClause + schema) + "'"
        == PromptIntro + question + "'" + SchemaClause + (schema + "'");
  }

  /** What `generate_sql_query` returns. */
  datatype Generation = Generation(explanation: string, sql: string)

  /** The split of the reply (app.py:29-30): at the rightmost marker when the
      reply contains one, else all explanation; both parts stripped. */
  function SplitResponse(response: string): (r: Generation)
    ensures Trimmed(r.explanation) && Trimmed(r.sql)
    ensures !Occurs(response, Marker) ==> r == Generation(Strip(response), "")
    ensures Occurs(response, Marker) ==>
      exists i :: IsLastOccurrence(response, Marker, i)
        && r == Generation(Strip(response[..i]), Strip(response[i + |Marker|..]))
  {
    var (explanation, sqlQuery) :=
      if Contains(response, Marker) then
        var parts := RSplitOnce(response, Marker);
        (parts[0], parts[1])
      else
        (response, "");
    Generation(Strip(explanation), Strip(sqlQuery))
  }

  /** No two occurrences of the marker can overlap: its 'S' occurs once. */
  lemma MarkerHeadUnique()
    ensures HeadUnique(Marker)
  {
  }

  /** The splitter from the other side: whenever the reply is some text, the
      marker and marker-free text, the split returns exactly those two texts
      stripped, even when the first one contains the marker itself. */
  lemma SplitAtLastMarker(before: string, after: string)
    requires !Occurs(after, Marker)
    ensures SplitResponse(before + Marker + after) == Generation(Strip(before), Strip(after))
  {
    var response := before + Marker + after;
    MarkerHeadUnique();
    SplitIsLastOccurrence(before, Marker, after);
    var i :| IsLastOccurrence(response, Marker, i)
      && SplitResponse(response) == Generation(Strip(response[..i]), Strip(response[i + |Marker|..]));
    LastOccurrenceUnique(response, Marker, i, |before|);
    assert response[..i] == before;
    assert response[i + |Marker|..] == after;
  }

  /** Every reply with a marker has such a decomposition, so the two sides
      together describe SplitResponse completely. */
  lemma SplitReconstructs(response: string)
    requires Occurs(response, Marker)
    ensures exists i ::
      && 0 <= i <= |response| - |Marker|
      && response == response[..i] + Marker + response[i + |Marker|..]
      && !Occurs(response[i + |Marker|..], Marker)
      && SplitResponse(response) == Generation(Strip(response[..i]), Strip(response[i + |Marker|..]))
  {
    var r := SplitResponse(response);
    var i :| IsLastOccurrence(response, Marker, i)
      && SplitResponse(response) == Generation(Strip(response[..i]), Strip(response[i + |Marker|..]));
    LastOccurrenceSplits(response, Marker, i);
  }

  /** The SQL part never contains the marker. */
  lemma SqlHasNoMarker(response: string)
    ensures !Occurs(SplitResponse(response).sql, Marker)
  {
    var r := SplitResponse(response);
    if Occurs(response, Marker) {
      var i :| IsLastOccurrence(response, Marker, i)
        && r == Generation(Strip(response[..i]), Strip(response[i + |Marker|..]));
      LastOccurrenceSplits(response, Marker, i);
      StripKeepsAbsence(response[i + |Marker|..], Marker);
    } else {
      assert r.sql == "";
      assert forall k :: !OccursAt("", Marker, k);
    }
  }

  /** A marker inside the explanation stays in the explanation: only the
      rightmost marker separates the SQL. */
  lemma SplitKeepsEarlierMarkers(x: string, y: string, sql: string)
    requires !Occurs(sql, Marker)
    ensures SplitResponse(x + Marker + y + Marker + sql) == Generation(Strip(x + Marker + y), Strip(sql))
  {
    SplitAtLastMarker(x + Marker + y, sql);
  }

  /** `generate_sql_query` with the completion endpoint passed in as `complete`:
      the reply to the built prompt, split. Whatever the model answers, both
      parts come back stripped and the SQL part is free of the marker. */
  function GenerateSqlQuery(question: string, schema: Option<string>, complete: string -> string): (r: Generation)
    ensures Trimmed(r.explanation) && Trimmed(r.sql)
    ensures !Occurs(r.sql, Marker)
  {
    var response := complete(BuildPrompt(question, schema));
    SqlHasNoMarker(response);
    SplitResponse(response)
  }
}
