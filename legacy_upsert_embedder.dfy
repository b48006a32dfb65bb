/** The second script (`src/food_embedder.js`): embed a fixed list of six
    foods in one extractor call, mean-pool each, and issue one insert-or-
    update per food in list order, so that afterwards every listed food has a
    row holding its vector. */
module LegacyUpsertEmbedder {
  import opened Common
  import opened Pooling
  import opened LegacyFoods

  const Foods: seq<string> := [
    "beans on toast",
    "chicken curry",
    "cheese pizza",
    "grilled salmon",
    "vegetable stir fry",
    "unrelated text"
  ]

  lemma FoodsDistinct()
    ensures |Foods| == 6 && Distinct(Foods)
  {
  }

  /** `main` after the connection is open. */
  method Run(table: FoodsTable, extract: Extractor) returns (pooled: seq<Vector>)
    requires ExtractorShape(extract)
    modifies table
    ensures |pooled| == |Foods| && pooled == Embed(extract, Foods)
    ensures table.rows == UpsertAll(old(table.rows), Foods, pooled)
    ensures table.log == old(table.log) + Statements(Foods, pooled, true)
  {
    pooled := Embed(extract, Foods);
    var i := 0;
    while i < |Foods|
      invariant 0 <= i <= |Foods|
      invariant table.rows == UpsertAll(old(table.rows), Foods[..i], pooled[..i])
      invariant table.log == old(table.log) + Statements(Foods[..i], pooled[..i], true)
    {
      UpsertAllStep(old(table.rows), Foods, pooled, i);
      StatementsStep(Foods, pooled, true, i);
      var name := Foods[i];
      table.Upsert(name, pooled[i]);
      i := i + 1;
    }
    assert Foods[..|Foods|] == Foods && pooled[..|pooled|] == pooled;
  }

  /** What the script leaves behind: the table gains exactly the listed
      names it lacked, every listed food holds its pooled vector (an existing
      row keeps its other columns), and unlisted rows are untouched. */
  lemma RunEffect(rows: map<string, LegacyRow>, extract: Extractor)
    requires ExtractorShape(extract)
    ensures var after := UpsertAll(rows, Foods, Embed(extract, Foods));
            after.Keys == rows.Keys + (set k | 0 <= k < |Foods| :: Foods[k])
            && (forall name :: name in rows && name !in Foods ==> name in after && after[name] == rows[name])
            && (forall k :: 0 <= k < |Foods| ==>
                  Foods[k] in after && after[Foods[k]].embedding == Some(Embed(extract, Foods)[k])
                  && (Foods[k] in rows ==> after[Foods[k]].others == rows[Foods[k]].others))
  {
    var pooled := Embed(extract, Foods);
    FoodsDistinct();
    UpsertAllKeys(rows, Foods, pooled);
    forall name | name in rows && name !in Foods
      ensures UpsertAll(rows, Foods, pooled)[name] == rows[name]
    {
      UpsertAllUnlisted(rows, Foods, pooled, name);
    }
    forall k | 0 <= k < |Foods|
      ensures UpsertAll(rows, Foods, pooled)[Foods[k]].embedding == Some(pooled[k])
      ensures Foods[k] in rows ==> UpsertAll(rows, Foods, pooled)[Foods[k]].others == rows[Foods[k]].others
    {
      UpsertAllListed(rows, Foods, pooled, k);
    }
  }
}
