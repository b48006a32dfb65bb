/** The `foods` table of the two early scripts under `src/`: one row per
    name (the upsert's `ON CONFLICT (name)` makes the name unique), holding
    an optional `embedding` and whatever other columns the row has. The two
    statements the scripts issue are the table's operations, and every
    statement issued is logged in order. */
module LegacyFoods {
  import opened Common

  type Vector = seq<real>

  datatype LegacyRow = LegacyRow(embedding: Option<Vector>, others: map<string, string>)

  datatype Statement = UpdateStatement(name: string, vec: Vector) | UpsertStatement(name: string, vec: Vector)

  /** `UPDATE foods SET embedding = $2 WHERE name = $1`. */
  function UpdateRow(rows: map<string, LegacyRow>, name: string, vec: Vector): map<string, LegacyRow> {
    if name in rows then rows[name := rows[name].(embedding := Some(vec))] else rows
  }

  /** `INSERT INTO foods (name, embedding) VALUES ($1, $2) ON CONFLICT (name)
      DO UPDATE SET embedding = EXCLUDED.embedding`. */
  function UpsertRow(rows: map<string, LegacyRow>, name: string, vec: Vector): map<string, LegacyRow> {
    if name in rows then rows[name := rows[name].(embedding := Some(vec))]
    else rows[name := LegacyRow(Some(vec), map[])]
  }

  /** The `i`-th name paired with the `i`-th vector, in list order. */
  function UpdateAll(rows: map<string, LegacyRow>, names: seq<string>, vecs: seq<Vector>): map<string, LegacyRow>
    requires |vecs| == |names|
    decreases |names|
  {
    if names == [] then rows
    else
      var n := |names| - 1;
      UpdateRow(UpdateAll(rows, names[..n], vecs[..n]), names[n], vecs[n])
  }

  function UpsertAll(rows: map<string, LegacyRow>, names: seq<string>, vecs: seq<Vector>): map<string, LegacyRow>
    requires |vecs| == |names|
    decreases |names|
  {
    if names == [] then rows
    else
      var n := |names| - 1;
      UpsertRow(UpsertAll(rows, names[..n], vecs[..n]), names[n], vecs[n])
  }

  predicate Distinct(names: seq<string>) {
    forall a, b :: 0 <= a < b < |names| ==> names[a] != names[b]
  }

  /** The updates never insert: the table keeps exactly its names. */
  lemma {:induction false} UpdateAllKeys(rows: map<string, LegacyRow>, names: seq<string>, vecs: seq<Vector>)
    requires |vecs| == |names|
    ensures UpdateAll(rows, names, vecs).Keys == rows.Keys
    decreases |names|
  {
    if names != [] {
      var n := |names| - 1;
      UpdateAllKeys(rows, names[..n], vecs[..n]);
    }
  }

  /** A row whose name is not listed is untouched by the updates. */
  lemma {:induction false} UpdateAllUnlisted(rows: map<string, LegacyRow>, names: seq<string>, vecs: seq<Vector>,
                                             name: string)
    requires |vecs| == |names| && name in rows && name !in names
    ensures name in UpdateAll(rows, names, vecs) && UpdateAll(rows, names, vecs)[name] == rows[name]
    decreases |names|
  {
    if names != [] {
      var n := |names| - 1;
      assert name !in names[..n];
      UpdateAllUnlisted(rows, names[..n], vecs[..n], name);
    }
  }

  /** A listed row keeps its other columns and gets the vector paired with
      its name. */
  lemma {:induction false} UpdateAllListed(rows: map<string, LegacyRow>, names: seq<string>, vecs: seq<Vector>,
                                           k: nat)
    requires |vecs| == |names| && Distinct(names) && k < |names| && names[k] in rows
    ensures names[k] in UpdateAll(rows, names, vecs)
    ensures UpdateAll(rows, names, vecs)[names[k]] == rows[names[k]].(embedding := Some(vecs[k]))
    decreases |names|
  {
    var n := |names| - 1;
    var init, vinit := names[..n], vecs[..n];
    UpdateAllKeys(rows, init, vinit);
    if k < n {
      assert init[k] == names[k] && vinit[k] == vecs[k];
      UpdateAllListed(rows, init, vinit, k);
    } else {
      assert names[n] !in init by {
        forall j | 0 <= j < n ensures init[j] != names[n] {
          assert init[j] == names[j];
        }
      }
      UpdateAllUnlisted(rows, init, vinit, names[n]);
    }
  }

  /** The upserts add exactly the listed names that were missing. */
  lemma {:induction false} UpsertAllKeys(rows: map<string, LegacyRow>, names: seq<string>, vecs: seq<Vector>)
    requires |vecs| == |names|
    ensures UpsertAll(rows, names, vecs).Keys == rows.Keys + set k | 0 <= k < |names| :: names[k]
    decreases |names|
  {
    if names != [] {
      var n := |names| - 1;
      UpsertAllKeys(rows, names[..n], vecs[..n]);
      assert (set k | 0 <= k < |names| :: names[k])
             == (set k | 0 <= k < n :: names[..n][k]) + {names[n]};
    }
  }

  /** A row whose name is not listed is untouched by the upserts. */
  lemma {:induction false} UpsertAllUnlisted(rows: map<string, LegacyRow>, names: seq<string>, vecs: seq<Vector>,
                                             name: string)
    requires |vecs| == |names| && name !in names
    ensures name in UpsertAll(rows, names, vecs) <==> name in rows
    ensures name in rows ==> UpsertAll(rows, names, vecs)[name] == rows[name]
    decreases |names|
  {
    if names != [] {
      var n := |names| - 1;
      assert name !in names[..n];
      UpsertAllUnlisted(rows, names[..n], vecs[..n], name);
    }
  }

  /** After the upserts every listed name is present with the vector paired
      with it: an existing row keeps its other columns, a new row has none. */
  lemma {:induction false} UpsertAllListed(rows: map<string, LegacyRow>, names: seq<string>, vecs: seq<Vector>,
                                           k: nat)
    requires |vecs| == |names| && Distinct(names) && k < |names|
    ensures names[k] in UpsertAll(rows, names, vecs)
    ensures UpsertAll(rows, names, vecs)[names[k]]
            == if names[k] in rows then rows[names[k]].(embedding := Some(vecs[k]))
               else LegacyRow(Some(vecs[k]), map[])
    decreases |names|
  {
    var n := |names| - 1;
    var init, vinit := names[..n], vecs[..n];
    if k < n {
      assert init[k] == names[k] && vinit[k] == vecs[k];
      UpsertAllListed(rows, init, vinit, k);
    } else {
      assert names[n] !in init by {
        forall j | 0 <= j < n ensures init[j] != names[n] {
          assert init[j] == names[j];
        }
      }
      UpsertAllUnlisted(rows, init, vinit, names[n]);
    }
  }

  /** One statement per listed name, in list order. */
  function Statements(names: seq<string>, vecs: seq<Vector>, upsert: bool): (log: seq<Statement>)
    requires |vecs| == |names|
    ensures |log| == |names|
    ensures forall k :: 0 <= k < |names| ==>
              log[k] == (if upsert then UpsertStatement(names[k], vecs[k]) else UpdateStatement(names[k], vecs[k]))
  {
    seq(|names|, k requires 0 <= k < |names| =>
      if upsert then UpsertStatement(names[k], vecs[k]) else UpdateStatement(names[k], vecs[k]))
  }

  /** One more update, in list order. */
  lemma UpdateAllStep(rows: map<string, LegacyRow>, names: seq<string>, vecs: seq<Vector>, i: nat)
    requires |vecs| == |names| && i < |names|
    ensures UpdateAll(rows, names[..i + 1], vecs[..i + 1])
            == UpdateRow(UpdateAll(rows, names[..i], vecs[..i]), names[i], vecs[i])
  {
    assert names[..i + 1][..i] == names[..i] && vecs[..i + 1][..i] == vecs[..i];
  }

  /** One more insert-or-update, in list order. */
  lemma UpsertAllStep(rows: map<string, LegacyRow>, names: seq<string>, vecs: seq<Vector>, i: nat)
    requires |vecs| == |names| && i < |names|
    ensures UpsertAll(rows, names[..i + 1], vecs[..i + 1])
            == UpsertRow(UpsertAll(rows, names[..i], vecs[..i]), names[i], vecs[i])
  {
    assert names[..i + 1][..i] == names[..i] && vecs[..i + 1][..i] == vecs[..i];
  }

  /** One more logged statement, in list order. */
  lemma StatementsStep(names: seq<string>, vecs: seq<Vector>, upsert: bool, i: nat)
    requires |vecs| == |names| && i < |names|
    ensures Statements(names[..i + 1], vecs[..i + 1], upsert)
            == Statements(names[..i], vecs[..i], upsert)
               + [if upsert then UpsertStatement(names[i], vecs[i]) else UpdateStatement(names[i], vecs[i])]
  {
  }

  /** The table as the scripts' client sees it. */
  class FoodsTable {
    var rows: map<string, LegacyRow>
    var log: seq<Statement>

    constructor (rows: map<string, LegacyRow>)
      ensures this.rows == rows && log == []
    {
      this.rows := rows;
      log := [];
    }

    method Update(name: string, vec: Vector)
      modifies this
      ensures rows == UpdateRow(old(rows), name, vec)
      ensures log == old(log) + [UpdateStatement(name, vec)]
    {
      if name in rows {
        rows := rows[name := rows[name].(embedding := Some(vec))];
      }
      log := log + [UpdateStatement(name, vec)];
    }

    method Upsert(name: string, vec: Vector)
      modifies this
      ensures rows == UpsertRow(old(rows), name, vec)
      ensures log == old(log) + [UpsertStatement(name, vec)]
    {
      if name in rows {
        rows := rows[name := rows[name].(embedding := Some(vec))];
      } else {
        rows := rows[name := LegacyRow(Some(vec), map[])];
      }
      log := log + [UpsertStatement(name, vec)];
    }
  }
}
