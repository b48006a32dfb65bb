/** The first script (`src/food_embedder.ts`): embed a fixed list of five
    foods with the local model in one extractor call, mean-pool each, and
    issue one `UPDATE ... WHERE name = $1` per food in list order. An update
    whose name matches no row changes nothing. */
module LegacyUpdateEmbedder {
  import opened Common
  import opened Pooling
  import opened LegacyFoods

  /** The hard-coded list, with the trailing space of the second name. */
  const Foods: seq<string> := [
    "Lamb and vegetable soup",
    "Acai berry juice ",
    "Airwaves chewing gum, sugar free",
    "Anchovies, in sauce",
    "Apple cake"
  ]

  lemma FoodsDistinct()
    ensures |Foods| == 5 && Distinct(Foods)
  {
  }

  /** `main` after the connection is open. */
  method Run(table: FoodsTable, extract: Extractor) returns (pooled: seq<Vector>)
    requires ExtractorShape(extract)
    modifies table
    ensures |pooled| == |Foods| && pooled == Embed(extract, Foods)
    ensures table.rows == UpdateAll(old(table.rows), Foods, pooled)
    ensures table.log == old(table.log) + Statements(Foods, pooled, false)
  {
    pooled := Embed(extract, Foods);
    for i := 0 to |Foods|
      invariant table.rows == UpdateAll(old(table.rows), Foods[..i], pooled[..i])
      invariant table.log == old(table.log) + Statements(Foods[..i], pooled[..i], false)
    {
      UpdateAllStep(old(table.rows), Foods, pooled, i);
      StatementsStep(Foods, pooled, false, i);
      table.Update(Foods[i], pooled[i]);
    }
    assert Foods[..|Foods|] == Foods && pooled[..|pooled|] == pooled;
  }

  /** What the script leaves behind: no row is added or removed, a row whose
      name is not in the list is untouched, and each listed food that has a
      row holds that food's pooled vector, with its other columns kept. */
  lemma RunEffect(rows: map<string, LegacyRow>, extract: Extractor)
    requires ExtractorShape(extract)
    ensures var after := UpdateAll(rows, Foods, Embed(extract, Foods));
            after.Keys == rows.Keys
            && (forall name :: name in rows && name !in Foods ==> name in after && after[name] == rows[name])
            && (forall k :: 0 <= k < |Foods| && Foods[k] in rows ==>
                  Foods[k] in after && after[Foods[k]] == rows[Foods[k]].(embedding := Some(Embed(extract, Foods)[k])))
  {
    var pooled := Embed(extract, Foods);
    FoodsDistinct();
    UpdateAllKeys(rows, Foods, pooled);
    forall name | name in rows && name !in Foods
      ensures UpdateAll(rows, Foods, pooled)[name] == rows[name]
    {
      UpdateAllUnlisted(rows, Foods, pooled, name);
    }
    forall k | 0 <= k < |Foods| && Foods[k] in rows
      ensures UpdateAll(rows, Foods, pooled)[Foods[k]] == rows[Foods[k]].(embedding := Some(pooled[k]))
    {
      UpdateAllListed(rows, Foods, pooled, k);
    }
  }

  /** A stored name that differs only by the trailing space is not reached:
      `WHERE name = $1` compares the names exactly. */
  lemma TrailingSpaceMatters(rows: map<string, LegacyRow>, extract: Extractor)
    requires ExtractorShape(extract)
    requires "Acai berry juice" in rows
    ensures var after := UpdateAll(rows, Foods, Embed(extract, Foods));
            "Acai berry juice" in after && after["Acai berry juice"] == rows["Acai berry juice"]
  {
    RunEffect(rows, extract);
    assert "Acai berry juice" !in Foods;
  }
}
