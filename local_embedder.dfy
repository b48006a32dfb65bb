/** The local embedding job (`api/src/food_embedder.ts`): the same working
    set, probe and column check as the Gemini job, but the vectors come from
    a local feature-extraction model, are mean-pooled over tokens, and every
    record is stored without a width check, in batches of 128. A stored
    vector of the wrong width is refused by the datastore, which makes the
    statement, and with it the job, fail. The extractor is a parameter: per
    batch, the token vectors of each text. */
module LocalEmbedder {
  import opened Common
  import opened VectorTypes
  import opened Storage
  import opened Db
  import opened Batching
  import opened Pooling

  const DefaultModelId: string := "Xenova/all-MiniLM-L6-v2"
  const BatchSize: nat := 128

  /** `probeTokens[0].length`: the feature count of the first token of the
      first food. */
  function ProbeDim(extract: Extractor, food: string): (dim: nat)
    requires ExtractorShape(extract)
    ensures dim == |Embed(extract, [food])[0]|
  {
    assert WellShaped([food], extract([food]));
    |extract([food])[0][0]|
  }

  /** The statements of one batch from record `j` on: one update per record
      in order, until the datastore refuses a vector whose width is not the
      column's. */
  datatype StoreResult = StoreResult(writes: seq<Write>, rejected: bool)

  function StoreFrom(batch: seq<string>, pooled: seq<Vector>, dim: nat, j: nat): (r: StoreResult)
    requires |pooled| == |batch| && j <= |batch|
    ensures |r.writes| <= |batch| - j
    decreases |batch| - j
  {
    if j == |batch| then StoreResult([], false)
    else if |pooled[j]| != dim then StoreResult([], true)
    else
      var rest := StoreFrom(batch, pooled, dim, j + 1);
      StoreResult([Write(batch[j], pooled[j])] + rest.writes, rest.rejected)
  }

  /** Every update carries a vector of the column's width; a batch that is
      not refused stores every record from `j` on, under its own name, in
      batch order; a refused batch stores fewer. */
  lemma {:induction false} StoreFromFacts(batch: seq<string>, pooled: seq<Vector>, dim: nat, j: nat)
    requires |pooled| == |batch| && j <= |batch|
    ensures var r := StoreFrom(batch, pooled, dim, j);
            (forall k :: 0 <= k < |r.writes| ==> |r.writes[k].vec| == dim)
            && (!r.rejected ==> Names(r.writes) == batch[j..])
            && (r.rejected ==> |r.writes| < |batch| - j)
            && (r.rejected <==> exists k :: j <= k < |batch| && |pooled[k]| != dim)
    decreases |batch| - j
  {
    if j < |batch| && |pooled[j]| == dim {
      StoreFromFacts(batch, pooled, dim, j + 1);
      var rest := StoreFrom(batch, pooled, dim, j + 1);
      var r := StoreFrom(batch, pooled, dim, j);
      assert r.writes == [Write(batch[j], pooled[j])] + rest.writes;
      if !r.rejected {
        assert batch[j..] == [batch[j]] + batch[j + 1..];
        assert Names(r.writes) == [batch[j]] + Names(rest.writes);
      }
      if exists k :: j <= k < |batch| && |pooled[k]| != dim {
        var k :| j <= k < |batch| && |pooled[k]| != dim;
        assert k != j;
      }
    }
  }

  /** The remaining batches, from the state reached so far. */
  function LocalBatches(bs: seq<seq<string>>, dim: nat, extract: Extractor, acc: Progress): Progress
    requires ExtractorShape(extract)
    decreases |bs|
  {
    if bs == [] then acc
    else
      var r := StoreFrom(bs[0], Embed(extract, bs[0]), dim, 0);
      var ws := acc.writes + r.writes;
      if r.rejected then Progress(ws, acc.lines, true)
      else LocalBatches(bs[1..], dim, extract, Progress(ws, acc.lines + [|ws|], false))
  }

  /** What the batches add: updates of the column's width and one progress
      line per finished batch, all in order. */
  lemma LocalBatchesFacts(bs: seq<seq<string>>, dim: nat, extract: Extractor, acc: Progress)
    requires ExtractorShape(extract) && ProgressOk(acc) && !acc.failed
    ensures var p := LocalBatches(bs, dim, extract, acc);
            NonDecreasing(p.lines)
            && (forall a :: 0 <= a < |p.lines| ==> p.lines[a] <= |p.writes|)
            && (!p.failed ==> ProgressOk(p))
            && Extends(acc, p, dim)
            && (p.failed ==> |p.lines| < |acc.lines| + |bs|)
  {
    LocalBatchesExtends(bs, dim, extract, acc);
    LocalBatchesLines(bs, dim, extract, acc);
  }

  lemma {:induction false} LocalBatchesExtends(bs: seq<seq<string>>, dim: nat, extract: Extractor, acc: Progress)
    requires ExtractorShape(extract)
    ensures Extends(acc, LocalBatches(bs, dim, extract, acc), dim)
    decreases |bs|
  {
    assert acc.writes[..|acc.writes|] == acc.writes && acc.lines[..|acc.lines|] == acc.lines;
    if bs != [] {
      var pooled := Embed(extract, bs[0]);
      var r := StoreFrom(bs[0], pooled, dim, 0);
      StoreFromFacts(bs[0], pooled, dim, 0);
      var ws := acc.writes + r.writes;
      assert WidthFrom(ws, |acc.writes|, dim) by {
        forall k | |acc.writes| <= k < |ws| ensures |ws[k].vec| == dim {
          assert ws[k] == r.writes[k - |acc.writes|];
        }
      }
      assert ws[..|acc.writes|] == acc.writes;
      if !r.rejected {
        var next := Progress(ws, acc.lines + [|ws|], false);
        assert Extends(acc, next, dim) by {
          assert next.lines[..|acc.lines|] == acc.lines;
        }
        LocalBatchesExtends(bs[1..], dim, extract, next);
        ExtendsTrans(acc, next, LocalBatches(bs[1..], dim, extract, next), dim);
      }
    }
  }

  lemma {:induction false} LocalBatchesLines(bs: seq<seq<string>>, dim: nat, extract: Extractor, acc: Progress)
    requires ExtractorShape(extract) && ProgressOk(acc) && !acc.failed
    ensures var p := LocalBatches(bs, dim, extract, acc);
            NonDecreasing(p.lines)
            && (forall a :: 0 <= a < |p.lines| ==> p.lines[a] <= |p.writes|)
            && (!p.failed ==> ProgressOk(p))
            && (p.failed ==> |p.lines| < |acc.lines| + |bs|)
    decreases |bs|
  {
    if bs != [] {
      var r := StoreFrom(bs[0], Embed(extract, bs[0]), dim, 0);
      var ws := acc.writes + r.writes;
      if !r.rejected {
        var next := Progress(ws, acc.lines + [|ws|], false);
        assert ProgressOk(next);
        LocalBatchesLines(bs[1..], dim, extract, next);
      }
    }
  }

  /** Unless a store was refused, the batches add one update per food of
      every batch, in order, and one progress line per batch. */
  lemma {:induction false} LocalBatchesNames(bs: seq<seq<string>>, dim: nat, extract: Extractor, acc: Progress)
    requires ExtractorShape(extract) && !acc.failed
    ensures var p := LocalBatches(bs, dim, extract, acc);
            !p.failed ==> Names(p.writes) == Names(acc.writes) + Flatten(bs)
                          && |p.lines| == |acc.lines| + |bs|
    decreases |bs|
  {
    if bs != [] {
      var pooled := Embed(extract, bs[0]);
      var r := StoreFrom(bs[0], pooled, dim, 0);
      if !r.rejected {
        StoreFromFacts(bs[0], pooled, dim, 0);
        var ws := acc.writes + r.writes;
        var next := Progress(ws, acc.lines + [|ws|], false);
        LocalBatchesNames(bs[1..], dim, extract, next);
        assert bs[0][0..] == bs[0];
        assert Names(ws) == Names(acc.writes) + bs[0];
        assert Flatten(bs) == bs[0] + Flatten(bs[1..]);
      }
    }
  }

  datatype RunError =
    | SelectFailed
    | DimensionInvalid(dim: nat)
    | SchemaRejected(error: SchemaError)
    | StoreRejected(count: nat)

  /** How `main` ends. */
  datatype RunOutcome = NoFoods | Done(count: nat) | Failed(error: RunError)

  datatype Run = Run(outcome: RunOutcome, dim: nat, columns: map<string, string>,
                     writes: seq<Write>, progress: seq<nat>)

  /** `main` under the given program, on a table whose schema is `columns`
      and whose rows are `rows`. A failing first query rejects `main`. Its
      second `foods.length === 0` test can never be reached and has no
      counterpart here. */
  function LocalRun(prog: Program, columns: map<string, string>, rows: seq<Row>, column: string,
                    extract: Extractor): Run
    requires ExtractorShape(extract)
  {
    match SelectPending(prog, columns, rows, column)
    case None => Run(Failed(SelectFailed), 0, columns, [], [])
    case Some(foods) =>
      if foods == [] then Run(NoFoods, 0, columns, [], [])
      else
        var dim := ProbeDim(extract, foods[0]);
        if dim < 1 then Run(Failed(DimensionInvalid(dim)), dim, columns, [], [])
        else
          var ensured := EnsureColumn(columns, column, dim);
          if ensured.outcome.Fail? then
            Run(Failed(SchemaRejected(ensured.outcome.error)), dim, columns, [], [])
          else
            var p := LocalBatches(Batches(foods, BatchSize), dim, extract, Progress([], [], false));
            Run(if p.failed then Failed(StoreRejected(|p.writes|)) else Done(|p.writes|),
                dim, ensured.columns, p.writes, p.lines)
  }

  /** Until the column has been ensured nothing changes: a failed first
      query (as written, on a table without the column), no foods, an
      unusable width or a refused schema stop the run with no change. */
  lemma LocalEarlyExits(prog: Program, columns: map<string, string>, rows: seq<Row>, column: string,
                        extract: Extractor)
    requires ExtractorShape(extract)
    ensures var run := LocalRun(prog, columns, rows, column, extract);
            (run.outcome == Failed(SelectFailed) <==> prog.AsWritten? && column !in columns)
            && (run.outcome.NoFoods? <==> (prog.Corrected? || column in columns) && WorkingSet(rows, column) == [])
            && (run.outcome.NoFoods? || (run.outcome.Failed? && !run.outcome.error.StoreRejected?) ==>
                  run.columns == columns && run.writes == [] && run.progress == [])
  {
  }

  /** The job as written never changes the schema: on a table without the
      column its first query fails, and otherwise the column is there
      already. */
  lemma LocalAsWrittenKeepsSchema(columns: map<string, string>, rows: seq<Row>, column: string,
                                  extract: Extractor)
    requires ExtractorShape(extract)
    ensures var run := LocalRun(AsWritten, columns, rows, column, extract);
            run.columns == columns
            && (column !in columns ==> run.outcome == Failed(SelectFailed) && run.writes == [])
  {
    var foods := WorkingSet(rows, column);
    if column in columns && foods != [] {
      AddBranchUnreachable(columns, rows, column, ProbeDim(extract, foods[0]));
    }
  }

  /** A run that finishes stores every food of the working set, one update
      each and in order, so its counter is the number of foods; it printed
      one progress line per batch, ending at that count. */
  lemma LocalDoneStoresAll(prog: Program, columns: map<string, string>, rows: seq<Row>, column: string,
                           extract: Extractor)
    requires ExtractorShape(extract)
    ensures var run := LocalRun(prog, columns, rows, column, extract);
            var foods := WorkingSet(rows, column);
            NonDecreasing(run.progress)
            && (forall a :: 0 <= a < |run.progress| ==> run.progress[a] <= |run.writes|)
            && (run.outcome.Done? && run.progress != [] ==> run.progress[|run.progress| - 1] == |run.writes|)
            && (run.outcome.Done? ==> Names(run.writes) == foods && run.outcome.count == |foods|
                                      && |run.progress| == |Batches(foods, BatchSize)|)
            && (run.outcome.Failed? && run.outcome.error.StoreRejected? ==>
                  run.outcome.error.count == |run.writes|)
  {
    var foods := WorkingSet(rows, column);
    if SelectPending(prog, columns, rows, column).Some? && foods != [] {
      var dim := ProbeDim(extract, foods[0]);
      if dim >= 1 && EnsureColumn(columns, column, dim).outcome.Pass? {
        var bs := Batches(foods, BatchSize);
        var p := LocalBatches(bs, dim, extract, Progress([], [], false));
        var run := LocalRun(prog, columns, rows, column, extract);
        assert run.writes == p.writes && run.progress == p.lines
               && run.outcome == if p.failed then Failed(StoreRejected(|p.writes|)) else Done(|p.writes|);
        LocalBatchesFacts(bs, dim, extract, Progress([], [], false));
        LocalBatchesNames(bs, dim, extract, Progress([], [], false));
        BatchesFlatten(foods, BatchSize);
        assert Names([]) == [];
      }
    }
  }

  /** After a run that finishes, running the job again finds no food to
      embed: always for the corrected job, and for the job as written when no
      pending row stores its name with edge white space. */
  lemma LocalRerunFindsNothing(prog: Program, columns: map<string, string>, rows: seq<Row>, column: string,
                               extract: Extractor)
    requires ExtractorShape(extract)
    requires prog.Corrected? || NamesTrimmed(rows, column)
    requires LocalRun(prog, columns, rows, column, extract).outcome.Done?
    ensures var run := LocalRun(prog, columns, rows, column, extract);
            WorkingSet(ApplyWrites(prog, rows, column, run.writes), column) == []
  {
    LocalDoneStoresAll(prog, columns, rows, column, extract);
    WritesAllEmptyWorkingSet(prog, rows, column, LocalRun(prog, columns, rows, column, extract).writes);
  }

  /** Every update the datastore accepted fits its column, so the table keeps
      its invariant; a refused store is not among the updates. */
  lemma LocalWritesFit(prog: Program, columns: map<string, string>, rows: seq<Row>, column: string,
                       extract: Extractor)
    requires ExtractorShape(extract) && TableInvariant(columns, rows)
    ensures var run := LocalRun(prog, columns, rows, column, extract);
            (forall k :: 0 <= k < |run.writes| ==>
               |run.writes[k].vec| == run.dim && CellFits(run.columns, column, run.writes[k].vec))
            && TableInvariant(run.columns, ApplyWrites(prog, rows, column, run.writes))
  {
    var foods := WorkingSet(rows, column);
    var run := LocalRun(prog, columns, rows, column, extract);
    if SelectPending(prog, columns, rows, column).Some? && foods != [] {
      var dim := ProbeDim(extract, foods[0]);
      if dim >= 1 && EnsureColumn(columns, column, dim).outcome.Pass? {
        LocalBatchesFacts(Batches(foods, BatchSize), dim, extract, Progress([], [], false));
        assert TableInvariant(run.columns, rows);
      }
    }
    ApplyWritesKeepsInvariant(prog, run.columns, rows, column, run.writes);
  }

  /** One stored record: the rest of the batch continues after it. */
  lemma StoreFromStep(batch: seq<string>, pooled: seq<Vector>, dim: nat, i: nat,
                      done: seq<Write>, whole: StoreResult)
    requires |pooled| == |batch| && i < |batch| && |pooled[i]| == dim
    requires whole.writes == done + StoreFrom(batch, pooled, dim, i).writes
    requires whole.rejected == StoreFrom(batch, pooled, dim, i).rejected
    ensures whole.writes == done + [Write(batch[i], pooled[i])] + StoreFrom(batch, pooled, dim, i + 1).writes
    ensures whole.rejected == StoreFrom(batch, pooled, dim, i + 1).rejected
  {
    var w := Write(batch[i], pooled[i]);
    var rest := StoreFrom(batch, pooled, dim, i + 1).writes;
    assert done + ([w] + rest) == done + [w] + rest;
  }

  /** A refused record ends the batch: nothing after it is stored. */
  lemma StoreFromStop(batch: seq<string>, pooled: seq<Vector>, dim: nat, i: nat,
                      done: seq<Write>, whole: StoreResult)
    requires |pooled| == |batch| && i < |batch| && |pooled[i]| != dim
    requires whole.writes == done + StoreFrom(batch, pooled, dim, i).writes
    requires whole.rejected == StoreFrom(batch, pooled, dim, i).rejected
    ensures whole.writes == done && whole.rejected
  {
    assert done + [] == done;
  }

  /** `for (const [i, food] of batch.entries())`: store each record of the
      batch in order; a refused statement ends the job. */
  method StoreBatch(prog: Program, table: FoodTable, column: string, batch: seq<string>, pooled: seq<Vector>,
                    dim: nat, counter: nat)
    returns (rejected: bool, counter': nat)
    requires table.Valid() && column in table.columns
    requires ParseVectorWidth(table.columns[column]) == Some(dim)
    requires |pooled| == |batch|
    modifies table
    ensures table.Valid() && table.columns == old(table.columns)
    ensures var r := StoreFrom(batch, pooled, dim, 0);
            rejected == r.rejected && counter' == counter + |r.writes|
            && table.rows == ApplyWrites(prog, old(table.rows), column, r.writes)
  {
    ghost var whole := StoreFrom(batch, pooled, dim, 0);
    ghost var done: seq<Write> := [];
    counter' := counter;
    var i := 0;
    while i < |batch|
      invariant 0 <= i <= |batch|
      invariant table.Valid() && table.columns == old(table.columns)
      invariant table.rows == ApplyWrites(prog, old(table.rows), column, done)
      invariant counter' == counter + |done|
      invariant whole.writes == done + StoreFrom(batch, pooled, dim, i).writes
      invariant whole.rejected == StoreFrom(batch, pooled, dim, i).rejected
    {
      var ok := table.Update(prog, batch[i], column, pooled[i]);
      if !ok {
        StoreFromStop(batch, pooled, dim, i, done, whole);
        return true, counter';
      }
      ghost var w := Write(batch[i], pooled[i]);
      ApplyWritesSnoc(prog, old(table.rows), column, done, w);
      StoreFromStep(batch, pooled, dim, i, done, whole);
      done := done + [w];
      counter' := counter' + 1;
      i := i + 1;
    }
    assert done + [] == done;
    rejected := false;
  }

  /** The remaining batches from batch `b` on: its stores, then the rest. */
  lemma LocalBatchesStep(bs: seq<seq<string>>, b: nat, dim: nat, extract: Extractor, acc: Progress)
    requires ExtractorShape(extract) && b < |bs|
    ensures var r := StoreFrom(bs[b], Embed(extract, bs[b]), dim, 0);
            var ws := acc.writes + r.writes;
            LocalBatches(bs[b..], dim, extract, acc)
            == if r.rejected then Progress(ws, acc.lines, true)
               else LocalBatches(bs[b + 1..], dim, extract, Progress(ws, acc.lines + [|ws|], false))
  {
    assert bs[b..][0] == bs[b] && bs[b..][1..] == bs[b + 1..];
  }

  /** The outer loop: `for (start = 0; start < foods.length; start += 128)`,
      extracting and pooling each batch, storing it, then printing one
      progress line. */
  method EmbedAll(prog: Program, table: FoodTable, column: string, foods: seq<string>, dim: nat, extract: Extractor)
    returns (failed: bool, progress: seq<nat>, counter: nat)
    requires ExtractorShape(extract)
    requires table.Valid() && column in table.columns
    requires ParseVectorWidth(table.columns[column]) == Some(dim)
    modifies table
    ensures table.Valid() && table.columns == old(table.columns)
    ensures var p := LocalBatches(Batches(foods, BatchSize), dim, extract, Progress([], [], false));
            failed == p.failed && progress == p.lines && counter == |p.writes|
            && table.rows == ApplyWrites(prog, old(table.rows), column, p.writes)
  {
    ghost var bs := Batches(foods, BatchSize);
    ghost var b := 0;
    ghost var writes: seq<Write> := [];
    counter := 0;
    progress := [];
    var start := 0;
    while start < |foods|
      invariant 0 <= start && 0 <= b <= |bs|
      invariant Batches(foods[Min(start, |foods|)..], BatchSize) == bs[b..]
      invariant table.Valid() && table.columns == old(table.columns)
      invariant table.rows == ApplyWrites(prog, old(table.rows), column, writes)
      invariant counter == |writes|
      invariant LocalBatches(bs[b..], dim, extract, Progress(writes, progress, false))
                == LocalBatches(bs, dim, extract, Progress([], [], false))
      decreases |foods| - start
    {
      BatchesStep(foods, BatchSize, start, bs, b);
      var batch := foods[start..Min(start + BatchSize, |foods|)];
      LocalBatchesStep(bs, b, dim, extract, Progress(writes, progress, false));
      var pooled := Embed(extract, batch);
      ghost var stored := StoreFrom(batch, pooled, dim, 0).writes;
      ApplyWritesConcat(prog, old(table.rows), column, writes, stored);
      var rejected;
      rejected, counter := StoreBatch(prog, table, column, batch, pooled, dim, counter);
      writes := writes + stored;
      if rejected {
        return true, progress, counter;
      }
      progress := progress + [counter];
      b := b + 1;
      start := start + BatchSize;
    }
    BatchesDone(foods, BatchSize, start, bs, b);
    failed := false;
  }

  /** `main` itself, changing the table in place as its statements do. */
  method RunLocalEmbedder(prog: Program, table: FoodTable, column: string, extract: Extractor)
    returns (outcome: RunOutcome, progress: seq<nat>)
    requires ExtractorShape(extract) && table.Valid()
    modifies table
    ensures table.Valid()
    ensures var run := LocalRun(prog, old(table.columns), old(table.rows), column, extract);
            outcome == run.outcome && progress == run.progress && table.columns == run.columns
            && table.rows == ApplyWrites(prog, old(table.rows), column, run.writes)
  {
    var selected := SelectPending(prog, table.columns, table.rows, column);
    if selected.None? {
      return Failed(SelectFailed), [];
    }
    var foods := selected.value;
    if |foods| == 0 {
      return NoFoods, [];
    }
    var dim := ProbeDim(extract, foods[0]);
    if dim < 1 {
      return Failed(DimensionInvalid(dim)), [];
    }
    var ensured := EnsureEmbeddingColumn(table, column, dim);
    if ensured.Fail? {
      return Failed(SchemaRejected(ensured.error)), [];
    }
    var failed, counter;
    failed, progress, counter := EmbedAll(prog, table, column, foods, dim, extract);
    outcome := if failed then Failed(StoreRejected(counter)) else Done(counter);
  }
}
