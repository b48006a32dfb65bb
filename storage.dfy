/** The food table the embedding jobs read and write, seen through the few
    statements they issue: the schema as a map from column name to its type
    text, and the rows in the order a `SELECT` returns them. A row holds its
    `name` (None for SQL NULL) and the embedding columns that are not NULL. */
module Storage {
  import opened Common
  import opened VectorTypes

  type Vector = seq<real>

  datatype Row = Row(name: Option<string>, cells: map<string, Vector>)

  /** One `UPDATE ... SET column = vec WHERE name = $1` a job issues. */
  datatype Write = Write(name: string, vec: Vector)

  /** pgvector refuses a value whose length is not the declared width. */
  predicate CellFits(columns: map<string, string>, column: string, vec: Vector) {
    column in columns && ParseVectorWidth(columns[column]) == Some(|vec|)
  }

  /** Every stored vector has the width its column declares. */
  ghost predicate TableInvariant(columns: map<string, string>, rows: seq<Row>) {
    forall i, c :: 0 <= i < |rows| && c in rows[i].cells ==> CellFits(columns, c, rows[i].cells[c])
  }

  /** `String(r.name ?? '')`. */
  function NameText(r: Row): string {
    r.name.GetOr("")
  }

  /** A row the `WHERE column IS NULL` query selects whose trimmed name is not
      empty. */
  predicate Pending(r: Row, column: string) {
    column !in r.cells && Trim(NameText(r)) != []
  }

  /** A pending row that contributes `f` to the working set. */
  predicate Yields(r: Row, column: string, f: string) {
    Pending(r, column) && Trim(NameText(r)) == f
  }

  /** The working set of both embedding jobs: the trimmed names of the rows
      whose column is NULL, empty names dropped, in table order. A row whose
      table has no such column yet counts as NULL. */
  function WorkingSet(rows: seq<Row>, column: string): (foods: seq<string>)
    ensures |foods| <= |rows|
    decreases |rows|
  {
    if rows == [] then []
    else
      var prev := WorkingSet(rows[..|rows| - 1], column);
      var r := rows[|rows| - 1];
      if Pending(r, column) then prev + [Trim(NameText(r))] else prev
  }

  /** A name is in the working set exactly when some pending row trims to it. */
  lemma {:induction false} WorkingSetMembers(rows: seq<Row>, column: string, f: string)
    ensures f in WorkingSet(rows, column) <==> exists i :: 0 <= i < |rows| && Yields(rows[i], column, f)
    decreases |rows|
  {
    if rows != [] {
      var init := rows[..|rows| - 1];
      WorkingSetMembers(init, column, f);
      if f in WorkingSet(init, column) {
        var i :| 0 <= i < |init| && Yields(init[i], column, f);
        assert rows[i] == init[i];
      }
      if exists i :: 0 <= i < |rows| && Yields(rows[i], column, f) {
        var i :| 0 <= i < |rows| && Yields(rows[i], column, f);
        if i < |init| {
          assert init[i] == rows[i];
        }
      }
    }
  }

  function SetCell(r: Row, column: string, vec: Vector): Row {
    r.(cells := r.cells[column := vec])
  }

  /** The statement as the jobs write it: `WHERE name = $1` compares the
      stored name with the (trimmed) working-set name. */
  function UpdateByName(rows: seq<Row>, name: string, column: string, vec: Vector): (rows': seq<Row>)
    ensures |rows'| == |rows|
    ensures forall i :: 0 <= i < |rows| ==> rows'[i].name == rows[i].name
    ensures forall i :: 0 <= i < |rows| && rows[i].name == Some(name) ==>
              rows'[i].cells == rows[i].cells[column := vec]
    ensures forall i :: 0 <= i < |rows| && rows[i].name != Some(name) ==> rows'[i] == rows[i]
  {
    seq(|rows|, i requires 0 <= i < |rows| =>
      if rows[i].name == Some(name) then SetCell(rows[i], column, vec) else rows[i])
  }

  /** The statement a working-set name was taken from: it reaches every row
      whose trimmed name is that name. */
  predicate NamedBy(r: Row, name: string) {
    r.name.Some? && Trim(r.name.value) == name
  }

  function UpdateByTrimmedName(rows: seq<Row>, name: string, column: string, vec: Vector): (rows': seq<Row>)
    ensures |rows'| == |rows|
    ensures forall i :: 0 <= i < |rows| ==> rows'[i].name == rows[i].name
    ensures forall i :: 0 <= i < |rows| && NamedBy(rows[i], name) ==>
              rows'[i].cells == rows[i].cells[column := vec]
    ensures forall i :: 0 <= i < |rows| && !NamedBy(rows[i], name) ==> rows'[i] == rows[i]
  {
    seq(|rows|, i requires 0 <= i < |rows| =>
      if NamedBy(rows[i], name) then SetCell(rows[i], column, vec) else rows[i])
  }

  /** Which statements a job issues. `AsWritten` is the jobs' own code: the
      first query names the column in its `WHERE` and so needs it to exist,
      and the update compares the stored name with the trimmed one.
      `Corrected` is the program the jobs evidently intend: a table without
      the column counts as all-NULL, and the update reaches every row whose
      name trims to the working-set name. */
  datatype Program = AsWritten | Corrected

  /** The rows one update reaches under each program. */
  predicate Reaches(prog: Program, r: Row, name: string) {
    if prog.AsWritten? then r.name == Some(name) else NamedBy(r, name)
  }

  /** One update as the program issues it. */
  function UpdateRows(prog: Program, rows: seq<Row>, name: string, column: string, vec: Vector): (rows': seq<Row>)
    ensures |rows'| == |rows|
    ensures forall i :: 0 <= i < |rows| ==>
              rows'[i] == if Reaches(prog, rows[i], name) then SetCell(rows[i], column, vec) else rows[i]
  {
    if prog.AsWritten? then UpdateByName(rows, name, column, vec)
    else UpdateByTrimmedName(rows, name, column, vec)
  }

  /** The rows after a sequence of updates, applied in order. */
  function ApplyWrites(prog: Program, rows: seq<Row>, column: string, ws: seq<Write>): (rows': seq<Row>)
    ensures |rows'| == |rows|
    decreases |ws|
  {
    if ws == [] then rows
    else
      var last := ws[|ws| - 1];
      UpdateRows(prog, ApplyWrites(prog, rows, column, ws[..|ws| - 1]), last.name, column, last.vec)
  }

  lemma ApplyWritesSnoc(prog: Program, rows: seq<Row>, column: string, ws: seq<Write>, w: Write)
    ensures ApplyWrites(prog, rows, column, ws + [w])
            == UpdateRows(prog, ApplyWrites(prog, rows, column, ws), w.name, column, w.vec)
  {
    assert (ws + [w])[..|ws|] == ws;
  }

  /** Applying two runs of updates one after the other is applying their
      concatenation. */
  lemma {:induction false} ApplyWritesConcat(prog: Program, rows: seq<Row>, column: string, ws: seq<Write>,
                                             more: seq<Write>)
    ensures ApplyWrites(prog, ApplyWrites(prog, rows, column, ws), column, more)
            == ApplyWrites(prog, rows, column, ws + more)
    decreases |more|
  {
    if more == [] {
      assert ws + more == ws;
    } else {
      var init := more[..|more| - 1];
      ApplyWritesConcat(prog, rows, column, ws, init);
      assert (ws + more)[..|ws + more| - 1] == ws + init;
      assert (ws + more)[|ws + more| - 1] == more[|more| - 1];
    }
  }

  /** Updates never add or remove rows, never change a name, and never touch
      another column; a row no write reaches is left exactly as it was. */
  lemma {:induction false} ApplyWritesFrame(prog: Program, rows: seq<Row>, column: string, ws: seq<Write>, i: nat)
    requires i < |rows|
    ensures ApplyWrites(prog, rows, column, ws)[i].name == rows[i].name
    ensures ApplyWrites(prog, rows, column, ws)[i].cells.Keys - {column} == rows[i].cells.Keys - {column}
    ensures forall c :: c != column && c in rows[i].cells ==>
              c in ApplyWrites(prog, rows, column, ws)[i].cells &&
              ApplyWrites(prog, rows, column, ws)[i].cells[c] == rows[i].cells[c]
    ensures (forall k :: 0 <= k < |ws| ==> !Reaches(prog, rows[i], ws[k].name)) ==>
              ApplyWrites(prog, rows, column, ws)[i] == rows[i]
    decreases |ws|
  {
    if ws != [] {
      ApplyWritesFrame(prog, rows, column, ws[..|ws| - 1], i);
    }
  }

  /** After the updates, a row whose column is still NULL had it NULL before
      and no write reaches it. */
  lemma {:induction false} ApplyWritesStillPending(prog: Program, rows: seq<Row>, column: string, ws: seq<Write>,
                                                   i: nat)
    requires i < |rows|
    requires column !in ApplyWrites(prog, rows, column, ws)[i].cells
    ensures column !in rows[i].cells
    ensures forall k :: 0 <= k < |ws| ==> !Reaches(prog, rows[i], ws[k].name)
    decreases |ws|
  {
    if ws != [] {
      var init := ws[..|ws| - 1];
      ApplyWritesFrame(prog, rows, column, init, i);
      ApplyWritesStillPending(prog, rows, column, init, i);
      forall k | 0 <= k < |ws| ensures !Reaches(prog, rows[i], ws[k].name) {
        if k < |init| {
          assert ws[k] == init[k];
        }
      }
    }
  }

  /** Every pending row stores its name already trimmed, so the update as
      written, which compares untrimmed names, still reaches it. */
  predicate NamesTrimmed(rows: seq<Row>, column: string) {
    forall i :: 0 <= i < |rows| && Pending(rows[i], column) ==> Trim(NameText(rows[i])) == NameText(rows[i])
  }

  /** Writing a name for every entry of the working set empties it, so a
      second run of a job finds nothing to do: always for the corrected
      update, and for the update as written when no pending name carries
      edge white space (`UpdateByNameMissesPaddedName` shows one that
      does). */
  lemma WritesEmptyWorkingSet(prog: Program, rows: seq<Row>, column: string, ws: seq<Write>)
    requires prog.Corrected? || NamesTrimmed(rows, column)
    requires forall f :: f in WorkingSet(rows, column) ==> exists k :: 0 <= k < |ws| && ws[k].name == f
    ensures WorkingSet(ApplyWrites(prog, rows, column, ws), column) == []
  {
    var rows' := ApplyWrites(prog, rows, column, ws);
    if WorkingSet(rows', column) != [] {
      var f := WorkingSet(rows', column)[0];
      WorkingSetMembers(rows', column, f);
      var i :| 0 <= i < |rows'| && Yields(rows'[i], column, f);
      ApplyWritesStillPending(prog, rows, column, ws, i);
      ApplyWritesFrame(prog, rows, column, ws, i);
      assert Yields(rows[i], column, f);
      WorkingSetMembers(rows, column, f);
      assert false;
    }
  }

  /** Each written vector that fits its column keeps the table invariant. */
  lemma {:induction false} ApplyWritesKeepsInvariant(prog: Program, columns: map<string, string>, rows: seq<Row>,
                                                     column: string, ws: seq<Write>)
    requires TableInvariant(columns, rows)
    requires forall k :: 0 <= k < |ws| ==> CellFits(columns, column, ws[k].vec)
    ensures TableInvariant(columns, ApplyWrites(prog, rows, column, ws))
    decreases |ws|
  {
    if ws != [] {
      ApplyWritesKeepsInvariant(prog, columns, rows, column, ws[..|ws| - 1]);
      assert CellFits(columns, column, ws[|ws| - 1].vec);
    }
  }

  /** The names the updates target, in order. */
  function Names(ws: seq<Write>): (names: seq<string>)
    ensures |names| == |ws| && forall k :: 0 <= k < |ws| ==> names[k] == ws[k].name
  {
    seq(|ws|, k requires 0 <= k < |ws| => ws[k].name)
  }

  /** Updating every working-set name, in working-set order, leaves nothing
      for the next run, under the same condition on the update as written. */
  lemma WritesAllEmptyWorkingSet(prog: Program, rows: seq<Row>, column: string, ws: seq<Write>)
    requires prog.Corrected? || NamesTrimmed(rows, column)
    requires Names(ws) == WorkingSet(rows, column)
    ensures WorkingSet(ApplyWrites(prog, rows, column, ws), column) == []
  {
    forall f | f in WorkingSet(rows, column) ensures exists k :: 0 <= k < |ws| && ws[k].name == f {
      var k :| 0 <= k < |Names(ws)| && Names(ws)[k] == f;
    }
    WritesEmptyWorkingSet(prog, rows, column, ws);
  }

  /** The statement as written, on a row whose stored name carries a
      leading space: the working set holds the trimmed name, the update
      compares it with the stored one and reaches no row, so the row is
      still selected on the next run although the job counted the store.
      The update that compares trimmed names reaches it. */
  lemma UpdateByNameMissesPaddedName()
    ensures var rows := [Row(Some(" apple"), map[])];
            WorkingSet(rows, "c") == ["apple"]
            && UpdateByName(rows, "apple", "c", [1.0]) == rows
            && WorkingSet(UpdateByName(rows, "apple", "c", [1.0]), "c") == ["apple"]
            && WorkingSet(UpdateByTrimmedName(rows, "apple", "c", [1.0]), "c") == []
  {
    var rows := [Row(Some(" apple"), map[])];
    assert " apple"[1..] == "apple";
    assert TrimStart("apple") == "apple";
    assert TrimEnd("apple") == "apple";
    assert Trim(" apple") == "apple";
    assert |rows[..0]| == 0;
    var updated := UpdateByTrimmedName(rows, "apple", "c", [1.0]);
    assert updated[0].cells == map["c" := [1.0]];
    assert |updated[..0]| == 0;
  }

  /** The job's state between batches: the updates issued so far, the
      counter printed after each finished batch, and whether a request
      threw. */
  datatype Progress = Progress(writes: seq<Write>, lines: seq<nat>, failed: bool)

  predicate NonDecreasing(s: seq<nat>) {
    forall a, c :: 0 <= a <= c < |s| ==> s[a] <= s[c]
  }

  /** The progress lines never go down, never exceed the number of updates,
      and the last one is the current count. */
  predicate ProgressOk(p: Progress) {
    NonDecreasing(p.lines)
    && (forall a :: 0 <= a < |p.lines| ==> p.lines[a] <= |p.writes|)
    && (p.lines != [] ==> p.lines[|p.lines| - 1] == |p.writes|)
  }

  /** A prefix of a prefix is a prefix. */
  lemma PrefixChain<X>(a: seq<X>, b: seq<X>, c: seq<X>)
    requires |a| <= |b| <= |c| && b[..|a|] == a && c[..|b|] == b
    ensures c[..|a|] == a
  {
    assert c[..|a|] == c[..|b|][..|a|];
  }

  /** The updates from position `from` on all have width `dim`. */
  predicate WidthFrom(ws: seq<Write>, from: nat, dim: nat) {
    forall k :: from <= k < |ws| ==> |ws[k].vec| == dim
  }

  /** Updates of width `dim` added in two steps were added with width `dim`. */
  lemma WidthChain(ws: seq<Write>, p: seq<Write>, from: nat, dim: nat)
    requires from <= |ws| <= |p| && p[..|ws|] == ws
    requires WidthFrom(ws, from, dim) && WidthFrom(p, |ws|, dim)
    ensures WidthFrom(p, from, dim)
  {
    forall k | from <= k < |p| ensures |p[k].vec| == dim {
      if k < |ws| {
        assert p[k] == p[..|ws|][k];
      }
    }
  }

  /** `p` continues `acc`: its updates and progress lines start with those
      of `acc`, and every update it adds has width `dim`. */
  predicate Extends(acc: Progress, p: Progress, dim: nat) {
    |acc.writes| <= |p.writes| && p.writes[..|acc.writes|] == acc.writes
    && WidthFrom(p.writes, |acc.writes|, dim)
    && |acc.lines| <= |p.lines| && p.lines[..|acc.lines|] == acc.lines
  }

  lemma ExtendsTrans(a: Progress, b: Progress, c: Progress, dim: nat)
    requires Extends(a, b, dim) && Extends(b, c, dim)
    ensures Extends(a, c, dim)
  {
    PrefixChain(a.writes, b.writes, c.writes);
    PrefixChain(a.lines, b.lines, c.lines);
    WidthChain(b.writes, c.writes, |a.writes|, dim);
  }

  /** The food table as the embedding jobs see it through their client. */
  class FoodTable {
    var columns: map<string, string>
    var rows: seq<Row>

    ghost predicate Valid()
      reads this
    {
      TableInvariant(columns, rows)
    }

    constructor (columns: map<string, string>, rows: seq<Row>)
      requires TableInvariant(columns, rows)
      ensures Valid() && this.columns == columns && this.rows == rows
    {
      this.columns := columns;
      this.rows := rows;
    }

    /** `ALTER TABLE ... ADD COLUMN column type`: the new column is NULL in
        every row. */
    method AddColumn(column: string, typeText: string)
      requires Valid() && column !in columns
      modifies this
      ensures Valid()
      ensures columns == old(columns)[column := typeText] && rows == old(rows)
    {
      columns := columns[column := typeText];
    }

    /** One `UPDATE` setting `column` to `vec` on the rows the name reaches
        under the program's `WHERE`. The datastore refuses a vector of the
        wrong width (or a column that does not exist) and then changes
        nothing. */
    method Update(prog: Program, name: string, column: string, vec: Vector) returns (ok: bool)
      requires Valid()
      modifies this
      ensures Valid()
      ensures ok == CellFits(columns, column, vec)
      ensures columns == old(columns)
      ensures rows == if ok then UpdateRows(prog, old(rows), name, column, vec) else old(rows)
    {
      ok := CellFits(columns, column, vec);
      if ok {
        rows := UpdateRows(prog, rows, name, column, vec);
      }
    }
  }
}
