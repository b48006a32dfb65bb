/** The Gemini embedding job (`api/src/google_food_embedder.ts`): select the
    foods whose embedding column is NULL, probe the embedding width with the
    first food, make sure the column exists with that width, then embed the
    foods in batches of 100 and store every vector that came back with the
    probed width, counting the stores and reporting progress after each
    batch. The Gemini service is a parameter: a function from the texts of a
    request to its reply. */
module GeminiEmbedder {
  import opened Common
  import opened VectorTypes
  import opened Storage
  import opened Db
  import opened Batching

  const DefaultModelId: string := "gemini-embedding-001"
  const BatchSize: nat := 100

  /** The parts of an `embedContent` reply the job reads: an optional
      `embeddings` list whose entries hold optional `values`. */
  datatype ContentEmbedding = ContentEmbedding(values: Option<Vector>)
  datatype EmbedResponse = EmbedResponse(embeddings: Option<seq<ContentEmbedding>>)

  /** A request either yields a reply or throws (network, quota, API error). */
  datatype ApiReply = Replied(response: EmbedResponse) | ApiFailed

  type EmbedApi = seq<string> -> ApiReply

  /** `getEmbeddings`: the `values` of each returned embedding, in order; a
      reply without `embeddings` gives the empty list. */
  function GetEmbeddings(resp: EmbedResponse): (vectors: seq<Option<Vector>>)
    ensures resp.embeddings.None? ==> vectors == []
    ensures resp.embeddings.Some? ==> |vectors| == |resp.embeddings.value|
    ensures resp.embeddings.Some? ==>
              forall j :: 0 <= j < |vectors| ==> vectors[j] == resp.embeddings.value[j].values
  {
    match resp.embeddings
    case None => []
    case Some(es) => seq(|es|, j requires 0 <= j < |es| => es[j].values)
  }

  /** `probe?.[0]?.length ?? 0`. */
  function ProbeDim(probe: seq<Option<Vector>>): (dim: nat)
    ensures dim >= 1 <==> |probe| > 0 && probe[0].Some? && |probe[0].value| >= 1
    ensures dim >= 1 ==> dim == |probe[0].value|
  {
    if |probe| > 0 && probe[0].Some? then |probe[0].value| else 0
  }

  /** The record at `j` is stored: a vector came back for it (`vectors[j]`
      is defined) and it has the probed width. */
  predicate Acceptable(vectors: seq<Option<Vector>>, j: nat, dim: nat) {
    j < |vectors| && vectors[j].Some? && |vectors[j].value| == dim
  }

  /** The updates one batch issues, in batch order; skipped records issue
      nothing and do not end the batch. */
  function Accepted(batch: seq<string>, vectors: seq<Option<Vector>>, dim: nat): (ws: seq<Write>)
    ensures |ws| <= |batch|
    ensures forall k :: 0 <= k < |ws| ==> |ws[k].vec| == dim
    decreases |batch|
  {
    if batch == [] then []
    else
      var j := |batch| - 1;
      var prev := Accepted(batch[..j], vectors, dim);
      if Acceptable(vectors, j, dim) then prev + [Write(batch[j], vectors[j].value)] else prev
  }

  /** An update is issued exactly for each record that passes the check,
      with that record's name and vector. */
  lemma {:induction false} AcceptedMembers(batch: seq<string>, vectors: seq<Option<Vector>>, dim: nat, w: Write)
    ensures w in Accepted(batch, vectors, dim) <==>
            exists j :: 0 <= j < |batch| && batch[j] == w.name && Acceptable(vectors, j, dim)
                        && vectors[j].value == w.vec
    decreases |batch|
  {
    if batch != [] {
      var j := |batch| - 1;
      var init := batch[..j];
      AcceptedMembers(init, vectors, dim, w);
      if exists i :: 0 <= i < |batch| && batch[i] == w.name && Acceptable(vectors, i, dim)
                     && vectors[i].value == w.vec {
        var i :| 0 <= i < |batch| && batch[i] == w.name && Acceptable(vectors, i, dim)
                 && vectors[i].value == w.vec;
        if i < j {
          assert init[i] == batch[i];
        }
      }
      if w in Accepted(init, vectors, dim) {
        var i :| 0 <= i < |init| && init[i] == w.name && Acceptable(vectors, i, dim)
                 && vectors[i].value == w.vec;
        assert batch[i] == init[i];
      }
    }
  }

  /** A batch whose reply carried no vectors (for instance no `embeddings`
      field) stores nothing. */
  lemma {:induction false} AcceptedNoVectors(batch: seq<string>, dim: nat)
    ensures Accepted(batch, [], dim) == []
    decreases |batch|
  {
    if batch != [] {
      AcceptedNoVectors(batch[..|batch| - 1], dim);
    }
  }

  /** When every record passes the check, every record is stored, in order. */
  lemma {:induction false} AcceptedAll(batch: seq<string>, vectors: seq<Option<Vector>>, dim: nat)
    requires forall j :: 0 <= j < |batch| ==> Acceptable(vectors, j, dim)
    ensures |Accepted(batch, vectors, dim)| == |batch|
    ensures forall k :: 0 <= k < |batch| ==> Accepted(batch, vectors, dim)[k].name == batch[k]
    decreases |batch|
  {
    if batch != [] {
      var init := batch[..|batch| - 1];
      AcceptedAll(init, vectors, dim);
    }
  }

  /** The remaining batches, from the state reached so far. */
  function EmbedBatches(bs: seq<seq<string>>, dim: nat, api: EmbedApi, acc: Progress): Progress
    decreases |bs|
  {
    if bs == [] then acc
    else
      match api(bs[0])
      case ApiFailed => acc.(failed := true)
      case Replied(resp) =>
        var ws := acc.writes + Accepted(bs[0], GetEmbeddings(resp), dim);
        EmbedBatches(bs[1..], dim, api, Progress(ws, acc.lines + [|ws|], false))
  }

  /** What the batches add: updates of the probed width, at most one per
      name, one progress line per finished batch, all of them in order. */
  lemma EmbedBatchesFacts(bs: seq<seq<string>>, dim: nat, api: EmbedApi, acc: Progress)
    requires ProgressOk(acc) && !acc.failed
    ensures var p := EmbedBatches(bs, dim, api, acc);
            ProgressOk(p) && Extends(acc, p, dim)
            && |p.writes| <= |acc.writes| + |Flatten(bs)|
            && (p.failed ==> |p.lines| < |acc.lines| + |bs|)
            && (!p.failed ==> |p.lines| == |acc.lines| + |bs|)
  {
    EmbedBatchesExtends(bs, dim, api, acc);
    EmbedBatchesLines(bs, dim, api, acc);
  }

  lemma {:induction false} EmbedBatchesExtends(bs: seq<seq<string>>, dim: nat, api: EmbedApi, acc: Progress)
    ensures var p := EmbedBatches(bs, dim, api, acc);
            Extends(acc, p, dim) && |p.writes| <= |acc.writes| + |Flatten(bs)|
    decreases |bs|
  {
    assert acc.writes[..|acc.writes|] == acc.writes && acc.lines[..|acc.lines|] == acc.lines;
    if bs != [] {
      match api(bs[0])
      case ApiFailed =>
      case Replied(resp) =>
        var ws := acc.writes + Accepted(bs[0], GetEmbeddings(resp), dim);
        var next := Progress(ws, acc.lines + [|ws|], false);
        assert Extends(acc, next, dim) by {
          assert ws[..|acc.writes|] == acc.writes;
          assert next.lines[..|acc.lines|] == acc.lines;
        }
        EmbedBatchesExtends(bs[1..], dim, api, next);
        ExtendsTrans(acc, next, EmbedBatches(bs[1..], dim, api, next), dim);
        assert |Flatten(bs)| == |bs[0]| + |Flatten(bs[1..])|;
    }
  }

  lemma {:induction false} EmbedBatchesLines(bs: seq<seq<string>>, dim: nat, api: EmbedApi, acc: Progress)
    requires ProgressOk(acc) && !acc.failed
    ensures var p := EmbedBatches(bs, dim, api, acc);
            ProgressOk(p)
            && (p.failed ==> |p.lines| < |acc.lines| + |bs|)
            && (!p.failed ==> |p.lines| == |acc.lines| + |bs|)
    decreases |bs|
  {
    if bs != [] {
      match api(bs[0])
      case ApiFailed =>
      case Replied(resp) =>
        var ws := acc.writes + Accepted(bs[0], GetEmbeddings(resp), dim);
        var next := Progress(ws, acc.lines + [|ws|], false);
        assert ProgressOk(next);
        EmbedBatchesLines(bs[1..], dim, api, next);
    }
  }

  datatype RunError =
    | SelectFailed
    | ProbeFailed
    | DimensionInvalid(dim: nat)
    | SchemaRejected(error: SchemaError)
    | BatchFailed(batch: nat)

  /** How `main` ends: early when there is nothing to do, normally with the
      final counter, or by a thrown error. */
  datatype RunOutcome = NoFoods | Done(count: nat) | Failed(error: RunError)

  /** A whole run: its outcome, the probed width (0 when there was no usable
      probe), the schema afterwards, the updates issued in order and the
      progress lines printed. */
  datatype Run = Run(outcome: RunOutcome, dim: nat, columns: map<string, string>,
                     writes: seq<Write>, progress: seq<nat>)

  /** `main` under the given program, on a table whose schema is `columns`
      and whose rows are `rows`. A failing first query rejects `main`, as
      any thrown error does. */
  function GeminiRun(prog: Program, columns: map<string, string>, rows: seq<Row>, column: string,
                     api: EmbedApi): Run {
    match SelectPending(prog, columns, rows, column)
    case None => Run(Failed(SelectFailed), 0, columns, [], [])
    case Some(foods) =>
      if foods == [] then Run(NoFoods, 0, columns, [], [])
      else
        match api([foods[0]])
        case ApiFailed => Run(Failed(ProbeFailed), 0, columns, [], [])
        case Replied(resp) =>
          var dim := ProbeDim(GetEmbeddings(resp));
          if dim < 1 then Run(Failed(DimensionInvalid(dim)), dim, columns, [], [])
          else
            var ensured := EnsureColumn(columns, column, dim);
            if ensured.outcome.Fail? then
              Run(Failed(SchemaRejected(ensured.outcome.error)), dim, columns, [], [])
            else
              var p := EmbedBatches(Batches(foods, BatchSize), dim, api, Progress([], [], false));
              Run(if p.failed then Failed(BatchFailed(|p.lines|)) else Done(|p.writes|),
                  dim, ensured.columns, p.writes, p.lines)
  }

  /** Until the column has been ensured nothing changes: a failed first
      query (as written, on a table without the column), no foods, a failed
      probe, an unusable width or a refused schema stop the run with the
      schema as it was, no update and no progress line. */
  lemma GeminiEarlyExits(prog: Program, columns: map<string, string>, rows: seq<Row>, column: string,
                         api: EmbedApi)
    ensures var run := GeminiRun(prog, columns, rows, column, api);
            (run.outcome == Failed(SelectFailed) <==> prog.AsWritten? && column !in columns)
            && (run.outcome.NoFoods? <==> (prog.Corrected? || column in columns) && WorkingSet(rows, column) == [])
            && (run.outcome.NoFoods? || (run.outcome.Failed? && !run.outcome.error.BatchFailed?) ==>
                  run.columns == columns && run.writes == [] && run.progress == [])
            && (run.outcome.Failed? && run.outcome.error.DimensionInvalid? ==> run.dim == 0)
  {
    var foods := WorkingSet(rows, column);
    if SelectPending(prog, columns, rows, column).Some? && foods != [] && api([foods[0]]).Replied? {
      var dim := ProbeDim(GetEmbeddings(api([foods[0]]).response));
      if dim >= 1 && EnsureColumn(columns, column, dim).outcome.Pass? {
        assert GeminiRun(prog, columns, rows, column, api).outcome.Done?
               || GeminiRun(prog, columns, rows, column, api).outcome.error.BatchFailed?;
      }
    }
  }

  /** The counter and the progress lines: at most one update per food, the
      lines never go down and end at the final count, and a finished run
      printed exactly one line per batch. */
  lemma GeminiCounting(prog: Program, columns: map<string, string>, rows: seq<Row>, column: string,
                       api: EmbedApi)
    ensures var run := GeminiRun(prog, columns, rows, column, api);
            var foods := WorkingSet(rows, column);
            |run.writes| <= |foods|
            && NonDecreasing(run.progress)
            && (forall a :: 0 <= a < |run.progress| ==> run.progress[a] <= |run.writes|)
            && (run.progress != [] ==> run.progress[|run.progress| - 1] == |run.writes|)
            && (run.outcome.Done? ==> run.outcome.count == |run.writes|
                                      && |run.progress| == |Batches(foods, BatchSize)|)
            && (run.outcome.Failed? && run.outcome.error.BatchFailed? ==>
                  run.outcome.error.batch == |run.progress| < |Batches(foods, BatchSize)|)
  {
    var foods := WorkingSet(rows, column);
    var run := GeminiRun(prog, columns, rows, column, api);
    if SelectPending(prog, columns, rows, column).Some? && foods != [] && api([foods[0]]).Replied? {
      var dim := ProbeDim(GetEmbeddings(api([foods[0]]).response));
      if dim >= 1 && EnsureColumn(columns, column, dim).outcome.Pass? {
        var acc := Progress([], [], false);
        EmbedBatchesFacts(Batches(foods, BatchSize), dim, api, acc);
        BatchesFlatten(foods, BatchSize);
      }
    }
  }

  /** Every update carries a vector of the probed width into a column whose
      declared type is that width, so the datastore accepts each one and the
      table keeps the invariant that stored vectors fit their columns. */
  lemma GeminiWritesFit(prog: Program, columns: map<string, string>, rows: seq<Row>, column: string,
                        api: EmbedApi)
    requires TableInvariant(columns, rows)
    ensures var run := GeminiRun(prog, columns, rows, column, api);
            (forall k :: 0 <= k < |run.writes| ==>
               |run.writes[k].vec| == run.dim && CellFits(run.columns, column, run.writes[k].vec))
            && TableInvariant(run.columns, ApplyWrites(prog, rows, column, run.writes))
  {
    var foods := WorkingSet(rows, column);
    var run := GeminiRun(prog, columns, rows, column, api);
    if SelectPending(prog, columns, rows, column).Some? && foods != [] && api([foods[0]]).Replied? {
      var dim := ProbeDim(GetEmbeddings(api([foods[0]]).response));
      if dim >= 1 && EnsureColumn(columns, column, dim).outcome.Pass? {
        EmbedBatchesFacts(Batches(foods, BatchSize), dim, api, Progress([], [], false));
        assert TableInvariant(run.columns, rows);
      }
    }
    ApplyWritesKeepsInvariant(prog, run.columns, rows, column, run.writes);
  }

  /** The corrected job, on a table that does not have the column yet: a
      run that gets a usable probe adds it as `vector(dim)`, then embeds. */
  lemma GeminiAddsColumn(columns: map<string, string>, rows: seq<Row>, column: string, api: EmbedApi)
    requires column !in columns
    requires WorkingSet(rows, column) != []
    requires api([WorkingSet(rows, column)[0]]).Replied?
    requires ProbeDim(GetEmbeddings(api([WorkingSet(rows, column)[0]]).response)) >= 1
    ensures var run := GeminiRun(Corrected, columns, rows, column, api);
            run.columns == columns[column := VectorTypeName(run.dim)]
            && (run.outcome.Done? || run.outcome.error.BatchFailed?)
  {
  }

  /** The job as written never changes the schema: on a table without the
      column its first query fails, and otherwise the column is there
      already. */
  lemma GeminiAsWrittenKeepsSchema(columns: map<string, string>, rows: seq<Row>, column: string, api: EmbedApi)
    ensures var run := GeminiRun(AsWritten, columns, rows, column, api);
            run.columns == columns
            && (column !in columns ==> run.outcome == Failed(SelectFailed) && run.writes == [])
  {
    var foods := WorkingSet(rows, column);
    if column in columns && foods != [] && api([foods[0]]).Replied? {
      var dim := ProbeDim(GetEmbeddings(api([foods[0]]).response));
      AddBranchUnreachable(columns, rows, column, dim);
    }
  }

  /** A record that passes the check adds its update after the earlier ones. */
  lemma AcceptedTake(batch: seq<string>, vectors: seq<Option<Vector>>, dim: nat, j: nat)
    requires j < |batch| && Acceptable(vectors, j, dim)
    ensures Accepted(batch[..j + 1], vectors, dim)
            == Accepted(batch[..j], vectors, dim) + [Write(batch[j], vectors[j].value)]
  {
    assert batch[..j + 1][..j] == batch[..j];
  }

  /** A record that fails the check adds nothing. */
  lemma AcceptedSkip(batch: seq<string>, vectors: seq<Option<Vector>>, dim: nat, j: nat)
    requires j < |batch| && !Acceptable(vectors, j, dim)
    ensures Accepted(batch[..j + 1], vectors, dim) == Accepted(batch[..j], vectors, dim)
  {
    assert batch[..j + 1][..j] == batch[..j];
  }

  /** The inner `for j` loop over one batch: store each record that passes
      the check, counting the stores. */
  method StoreBatch(prog: Program, table: FoodTable, column: string, batch: seq<string>, vectors: seq<Option<Vector>>,
                    dim: nat, counter: nat)
    returns (counter': nat)
    requires table.Valid() && column in table.columns
    requires ParseVectorWidth(table.columns[column]) == Some(dim)
    modifies table
    ensures table.Valid() && table.columns == old(table.columns)
    ensures table.rows == ApplyWrites(prog, old(table.rows), column, Accepted(batch, vectors, dim))
    ensures counter' == counter + |Accepted(batch, vectors, dim)|
  {
    counter' := counter;
    var j := 0;
    while j < |batch|
      invariant 0 <= j <= |batch|
      invariant counter' == counter + |Accepted(batch[..j], vectors, dim)|
      invariant table.Valid() && table.columns == old(table.columns)
      invariant table.rows == ApplyWrites(prog, old(table.rows), column, Accepted(batch[..j], vectors, dim))
    {
      var name := batch[j];
      if j < |vectors| && vectors[j].Some? && |vectors[j].value| == dim {
        var vec := vectors[j].value;
        var ok := table.Update(prog, name, column, vec);
        assert ok;
        AcceptedTake(batch, vectors, dim, j);
        ApplyWritesSnoc(prog, old(table.rows), column, Accepted(batch[..j], vectors, dim), Write(name, vec));
        counter' := counter' + 1;
      } else {
        AcceptedSkip(batch, vectors, dim, j);
      }
      j := j + 1;
    }
    assert batch[..|batch|] == batch;
  }

  /** The remaining batches from batch `b` on: its request, then the rest. */
  lemma EmbedBatchesStep(bs: seq<seq<string>>, b: nat, dim: nat, api: EmbedApi, acc: Progress)
    requires b < |bs|
    ensures EmbedBatches(bs[b..], dim, api, acc)
            == match api(bs[b])
               case ApiFailed => acc.(failed := true)
               case Replied(resp) =>
                 var ws := acc.writes + Accepted(bs[b], GetEmbeddings(resp), dim);
                 EmbedBatches(bs[b + 1..], dim, api, Progress(ws, acc.lines + [|ws|], false))
  {
    assert bs[b..][0] == bs[b] && bs[b..][1..] == bs[b + 1..];
  }

  /** One iteration of the batch loop: the request, then its stores. */
  method EmbedBatch(prog: Program, table: FoodTable, column: string, batch: seq<string>, dim: nat, api: EmbedApi,
                    counter: nat)
    returns (failed: bool, counter': nat, ghost stored: seq<Write>)
    requires table.Valid() && column in table.columns
    requires ParseVectorWidth(table.columns[column]) == Some(dim)
    modifies table
    ensures table.Valid() && table.columns == old(table.columns)
    ensures failed == api(batch).ApiFailed?
    ensures failed ==> table.rows == old(table.rows) && counter' == counter
    ensures !failed ==> stored == Accepted(batch, GetEmbeddings(api(batch).response), dim)
                        && table.rows == ApplyWrites(prog, old(table.rows), column, stored)
                        && counter' == counter + |stored|
  {
    var reply := api(batch);
    if reply.ApiFailed? {
      return true, counter, [];
    }
    var vectors := GetEmbeddings(reply.response);
    stored := Accepted(batch, vectors, dim);
    counter' := StoreBatch(prog, table, column, batch, vectors, dim, counter);
    failed := false;
  }

  /** The outer loop: `for (i = 0; i < foods.length; i += 100)`, one request
      per batch and one progress line after each batch's stores; a request
      that throws ends the run. */
  method EmbedAll(prog: Program, table: FoodTable, column: string, foods: seq<string>, dim: nat, api: EmbedApi)
    returns (failed: bool, progress: seq<nat>, counter: nat)
    requires table.Valid() && column in table.columns
    requires ParseVectorWidth(table.columns[column]) == Some(dim)
    modifies table
    ensures table.Valid() && table.columns == old(table.columns)
    ensures var p := EmbedBatches(Batches(foods, BatchSize), dim, api, Progress([], [], false));
            failed == p.failed && progress == p.lines && counter == |p.writes|
            && table.rows == ApplyWrites(prog, old(table.rows), column, p.writes)
  {
    ghost var bs := Batches(foods, BatchSize);
    ghost var b := 0;
    ghost var writes: seq<Write> := [];
    counter := 0;
    progress := [];
    var i := 0;
    while i < |foods|
      invariant 0 <= i && 0 <= b <= |bs|
      invariant Batches(foods[Min(i, |foods|)..], BatchSize) == bs[b..]
      invariant table.Valid() && table.columns == old(table.columns)
      invariant table.rows == ApplyWrites(prog, old(table.rows), column, writes)
      invariant counter == |writes|
      invariant EmbedBatches(bs[b..], dim, api, Progress(writes, progress, false))
                == EmbedBatches(bs, dim, api, Progress([], [], false))
      decreases |foods| - i
    {
      BatchesStep(foods, BatchSize, i, bs, b);
      var batch := foods[i..Min(i + BatchSize, |foods|)];
      EmbedBatchesStep(bs, b, dim, api, Progress(writes, progress, false));
      var batchFailed;
      ghost var stored;
      batchFailed, counter, stored := EmbedBatch(prog, table, column, batch, dim, api, counter);
      if batchFailed {
        return true, progress, counter;
      }
      ApplyWritesConcat(prog, old(table.rows), column, writes, stored);
      writes := writes + stored;
      progress := progress + [counter];
      b := b + 1;
      i := i + BatchSize;
    }
    BatchesDone(foods, BatchSize, i, bs, b);
    failed := false;
  }

  /** `main` itself, changing the table in place as its statements do. */
  method RunGeminiEmbedder(prog: Program, table: FoodTable, column: string, api: EmbedApi)
    returns (outcome: RunOutcome, progress: seq<nat>)
    requires table.Valid()
    modifies table
    ensures table.Valid()
    ensures var run := GeminiRun(prog, old(table.columns), old(table.rows), column, api);
            outcome == run.outcome && progress == run.progress && table.columns == run.columns
            && table.rows == ApplyWrites(prog, old(table.rows), column, run.writes)
  {
    var selected := SelectPending(prog, table.columns, table.rows, column);
    if selected.None? {
      return Failed(SelectFailed), [];
    }
    var foods := selected.value;
    if |foods| == 0 {
      return NoFoods, [];
    }
    var probe := api([foods[0]]);
    if probe.ApiFailed? {
      return Failed(ProbeFailed), [];
    }
    var dim := ProbeDim(GetEmbeddings(probe.response));
    if dim < 1 {
      return Failed(DimensionInvalid(dim)), [];
    }
    var ensured := EnsureEmbeddingColumn(table, column, dim);
    if ensured.Fail? {
      return Failed(SchemaRejected(ensured.error)), [];
    }
    var failed, counter;
    failed, progress, counter := EmbedAll(prog, table, column, foods, dim, api);
    outcome := if failed then Failed(BatchFailed(|progress|)) else Done(counter);
  }
}
