/**
 * What a transfer does to the destination, stated over the statement
 * sequence `TransferSteps` that `ConnectionClients.Transfer` is proved to
 * execute: which statements appear, in which order, which rows are
 * inserted, and what the destination table holds afterwards.
 */
module TransferProperties {
  import opened SqlLiteral
  import opened ConnectionClients

  // ---------------------------------------------------------------- shape of the insert steps

  lemma {:induction false} InsertStepsAt(schema: string, table: string, rows: seq<Row>)
    ensures |InsertSteps(schema, table, rows)| == |rows|
    ensures forall k :: 0 <= k < |rows| ==> InsertSteps(schema, table, rows)[k] == InsertRow(schema, table, rows[k])
  {
    if rows != [] {
      InsertStepsAt(schema, table, rows[1..]);
    }
  }

  // ---------------------------------------------------------------- which statements appear

  /** The rows a step sequence inserts, in order. */
  function InsertedRows(steps: seq<Step>): seq<Row>
  {
    if steps == [] then []
    else (if steps[0].InsertRow? then [steps[0].row] else []) + InsertedRows(steps[1..])
  }

  lemma {:induction false} InsertedRowsAppend(a: seq<Step>, b: seq<Step>)
    ensures InsertedRows(a + b) == InsertedRows(a) + InsertedRows(b)
  {
    if a == [] {
      assert a + b == b;
    } else {
      InsertedRowsAppend(a[1..], b);
      assert (a + b)[1..] == a[1..] + b;
    }
  }

  lemma {:induction false} InsertedRowsOfInserts(schema: string, table: string, rows: seq<Row>)
    ensures InsertedRows(InsertSteps(schema, table, rows)) == rows
  {
    if rows != [] {
      InsertedRowsOfInserts(schema, table, rows[1..]);
    }
  }

  lemma PreparationInsertsNothing(c: ConnectionClient, tableExists: bool, columns: seq<Column>)
    ensures InsertedRows(PreparationSteps(c, tableExists, columns)) == []
  {
    var ds, dt := c.DestinationSchemaText(), c.DestinationTableName();
    var creation := CreationSteps(c, tableExists, columns);
    var checked := [CheckTable(ds, dt)] + creation;
    assert InsertedRows(creation) == [] by {
      if !tableExists {
        InsertedRowsAppend([ReadColumns(c.sourceSchemaName, c.sourceTableName)],
                           if columns == [] then [] else [CreateTable(ds, dt, columns)]);
      }
    }
    InsertedRowsAppend([CheckTable(ds, dt)], creation);
    InsertedRowsAppend(checked, TruncationSteps(c));
  }

  /**
   * One `INSERT` per row the transfer fetched, in fetch order: all rows of
   * the source query when the chunk size is at least 1, none when it is 0,
   * and none when the transfer fails.
   */
  lemma InsertedRowsOfTransfer(c: ConnectionClient, tableExists: bool, columns: seq<Column>, rows: seq<Row>)
    ensures InsertedRows(TransferSteps(c, tableExists, columns, rows))
            == if SchemaMissing(tableExists, columns) then [] else FetchedRows(c.rowChunkSize, rows)
    ensures !SchemaMissing(tableExists, columns) && c.rowChunkSize > 0 ==>
              InsertedRows(TransferSteps(c, tableExists, columns, rows)) == rows
  {
    var ds, dt := c.DestinationSchemaText(), c.DestinationTableName();
    var prep := PreparationSteps(c, tableExists, columns);
    PreparationInsertsNothing(c, tableExists, columns);
    if !SchemaMissing(tableExists, columns) {
      var inserts := InsertSteps(ds, dt, FetchedRows(c.rowChunkSize, rows));
      InsertedRowsAppend(prep, [SelectRows(c.SourceQuery())]);
      InsertedRowsAppend(prep + [SelectRows(c.SourceQuery())], inserts);
      InsertedRowsOfInserts(ds, dt, FetchedRows(c.rowChunkSize, rows));
    }
  }

  /**
   * Pagination is complete: the batches `Transfer` fetches, concatenated,
   * are exactly the rows it inserts.
   */
  lemma BatchesAreInserted(c: ConnectionClient, tableExists: bool, columns: seq<Column>, rows: seq<Row>)
    requires !SchemaMissing(tableExists, columns) && c.rowChunkSize > 0
    ensures Flatten(Chunks(rows, c.rowChunkSize)) == InsertedRows(TransferSteps(c, tableExists, columns, rows))
  {
    ChunksFlatten(rows, c.rowChunkSize);
    InsertedRowsOfTransfer(c, tableExists, columns, rows);
  }

  /** `CREATE TABLE` is issued exactly when the existence check found nothing and the source has columns. */
  lemma CreateOnlyWhenMissing(c: ConnectionClient, tableExists: bool, columns: seq<Column>, rows: seq<Row>)
    ensures var s := TransferSteps(c, tableExists, columns, rows);
            (exists k :: 0 <= k < |s| && s[k].CreateTable?) <==> !tableExists && columns != []
  {
    var s := TransferSteps(c, tableExists, columns, rows);
    var ds, dt := c.DestinationSchemaText(), c.DestinationTableName();
    var fetched := FetchedRows(c.rowChunkSize, rows);
    InsertStepsAt(ds, dt, fetched);
    if !tableExists && columns != [] {
      assert s[2] == CreateTable(ds, dt, columns);
    } else {
      forall k | 0 <= k < |s|
        ensures !s[k].CreateTable?
      {
        var prep := PreparationSteps(c, tableExists, columns);
        if k >= |prep| + 1 {
          assert s[k] == InsertSteps(ds, dt, fetched)[k - |prep| - 1];
        }
      }
    }
  }

  /** `DELETE FROM` is issued exactly for the disposition `truncate`, unless the transfer fails first. */
  lemma DeleteOnlyWhenTruncating(c: ConnectionClient, tableExists: bool, columns: seq<Column>, rows: seq<Row>)
    ensures var s := TransferSteps(c, tableExists, columns, rows);
            (exists k :: 0 <= k < |s| && s[k].DeleteAll?) <==> c.Truncates() && !SchemaMissing(tableExists, columns)
  {
    var s := TransferSteps(c, tableExists, columns, rows);
    var ds, dt := c.DestinationSchemaText(), c.DestinationTableName();
    var fetched := FetchedRows(c.rowChunkSize, rows);
    var prep := PreparationSteps(c, tableExists, columns);
    InsertStepsAt(ds, dt, fetched);
    if c.Truncates() && !SchemaMissing(tableExists, columns) {
      assert s[|prep| - 1] == DeleteAll(ds, dt);
    } else {
      forall k | 0 <= k < |s|
        ensures !s[k].DeleteAll?
      {
        if k >= |prep| + 1 {
          assert s[k] == InsertSteps(ds, dt, fetched)[k - |prep| - 1];
        }
      }
    }
  }

  // ---------------------------------------------------------------- order of the statements

  /** The phase of a transfer each kind of statement belongs to. */
  function Phase(s: Step): nat
  {
    match s
    case CheckTable(_, _) => 0
    case ReadColumns(_, _) => 1
    case CreateTable(_, _, _) => 2
    case DeleteAll(_, _) => 3
    case SelectRows(_) => 4
    case InsertRow(_, _, _) => 5
  }

  /** The statements run phase by phase, never going back to an earlier phase. */
  ghost predicate Phased(s: seq<Step>)
  {
    forall i, j :: 0 <= i < j < |s| ==> Phase(s[i]) <= Phase(s[j])
  }

  lemma PreparationPhased(c: ConnectionClient, tableExists: bool, columns: seq<Column>)
    ensures Phased(PreparationSteps(c, tableExists, columns))
    ensures forall k :: 0 <= k < |PreparationSteps(c, tableExists, columns)| ==>
              Phase(PreparationSteps(c, tableExists, columns)[k]) <= 3
  {
  }

  /**
   * The existence check comes first, then the column query and the
   * `CREATE TABLE`, then the `DELETE`, then the source `SELECT`, and every
   * `INSERT` comes last: the destination is emptied after it is created and
   * before any row is read, and no row is inserted before it is emptied.
   */
  lemma TransferPhased(c: ConnectionClient, tableExists: bool, columns: seq<Column>, rows: seq<Row>)
    ensures Phased(TransferSteps(c, tableExists, columns, rows))
  {
    var s := TransferSteps(c, tableExists, columns, rows);
    var ds, dt := c.DestinationSchemaText(), c.DestinationTableName();
    var fetched := FetchedRows(c.rowChunkSize, rows);
    var prep := PreparationSteps(c, tableExists, columns);
    PreparationPhased(c, tableExists, columns);
    if !SchemaMissing(tableExists, columns) {
      InsertStepsAt(ds, dt, fetched);
      forall i, j | 0 <= i < j < |s|
        ensures Phase(s[i]) <= Phase(s[j])
      {
        if j > |prep| {
          assert s[j] == InsertSteps(ds, dt, fetched)[j - |prep| - 1];
        }
        if i > |prep| {
          assert s[i] == InsertSteps(ds, dt, fetched)[i - |prep| - 1];
        }
      }
    }
  }

  // ---------------------------------------------------------------- contents of the destination table

  /** The destination table's rows after one statement: created and emptied tables hold none. */
  function ApplyStep(contents: seq<Row>, s: Step): seq<Row>
  {
    match s
    case CreateTable(_, _, _) => []
    case DeleteAll(_, _) => []
    case InsertRow(_, _, row) => contents + [row]
    case _ => contents
  }

  /** The destination table's rows after a sequence of statements. */
  function Apply(contents: seq<Row>, steps: seq<Step>): seq<Row>
    decreases |steps|
  {
    if steps == [] then contents else Apply(ApplyStep(contents, steps[0]), steps[1..])
  }

  lemma {:induction false} ApplyAppend(contents: seq<Row>, a: seq<Step>, b: seq<Step>)
    ensures Apply(contents, a + b) == Apply(Apply(contents, a), b)
    decreases |a|
  {
    if a == [] {
      assert a + b == b;
    } else {
      assert (a + b)[1..] == a[1..] + b;
      ApplyAppend(ApplyStep(contents, a[0]), a[1..], b);
    }
  }

  lemma {:induction false} ApplyInserts(contents: seq<Row>, schema: string, table: string, rows: seq<Row>)
    ensures Apply(contents, InsertSteps(schema, table, rows)) == contents + rows
    decreases |rows|
  {
    if rows != [] {
      ApplyInserts(contents + [rows[0]], schema, table, rows[1..]);
      assert contents + [rows[0]] + rows[1..] == contents + rows;
    }
  }

  /** The rows the table holds once the destination has been prepared. */
  lemma ApplyPreparation(contents: seq<Row>, c: ConnectionClient, tableExists: bool, columns: seq<Column>)
    requires !SchemaMissing(tableExists, columns)
    ensures Apply(contents, PreparationSteps(c, tableExists, columns))
            == if c.Truncates() || !tableExists then [] else contents
  {
    var ds, dt := c.DestinationSchemaText(), c.DestinationTableName();
    var creation := CreationSteps(c, tableExists, columns);
    ApplyAppend(contents, [CheckTable(ds, dt)] + creation, TruncationSteps(c));
    ApplyAppend(contents, [CheckTable(ds, dt)], creation);
    assert Apply(contents, [CheckTable(ds, dt)]) == contents;
    var created := Apply(contents, [CheckTable(ds, dt)] + creation);
    if tableExists {
      assert created == contents;
    } else {
      assert creation == [ReadColumns(c.sourceSchemaName, c.sourceTableName), CreateTable(ds, dt, columns)];
      assert [ReadColumns(c.sourceSchemaName, c.sourceTableName), CreateTable(ds, dt, columns)][1..]
             == [CreateTable(ds, dt, columns)];
      assert Apply(contents, creation) == Apply(contents, [CreateTable(ds, dt, columns)]) == [];
    }
    if c.Truncates() {
      assert Apply(created, TruncationSteps(c)) == [];
    } else {
      assert Apply(created, TruncationSteps(c)) == created;
    }
  }

  /**
   * What the destination table holds after a successful transfer, given
   * what it held before (nothing, when it did not exist): the fetched rows
   * alone when it was created or truncated, otherwise the earlier rows
   * followed by the fetched ones.
   */
  lemma ContentsAfterTransfer(contents: seq<Row>, c: ConnectionClient, tableExists: bool, columns: seq<Column>, rows: seq<Row>)
    requires !SchemaMissing(tableExists, columns)
    ensures Apply(contents, TransferSteps(c, tableExists, columns, rows))
            == (if c.Truncates() || !tableExists then [] else contents) + FetchedRows(c.rowChunkSize, rows)
  {
    var ds, dt := c.DestinationSchemaText(), c.DestinationTableName();
    var prep := PreparationSteps(c, tableExists, columns);
    var fetched := FetchedRows(c.rowChunkSize, rows);
    ApplyAppend(contents, prep + [SelectRows(c.SourceQuery())], InsertSteps(ds, dt, fetched));
    ApplyAppend(contents, prep, [SelectRows(c.SourceQuery())]);
    ApplyPreparation(contents, c, tableExists, columns);
    ApplyInserts(Apply(contents, prep + [SelectRows(c.SourceQuery())]), ds, dt, fetched);
  }

  /**
   * A truncating transfer is idempotent: running it again on the table it
   * produced (which now exists) leaves the same rows.
   */
  lemma TruncateIdempotent(contents: seq<Row>, c: ConnectionClient, tableExists: bool, columns: seq<Column>, rows: seq<Row>)
    requires c.Truncates() && !SchemaMissing(tableExists, columns)
    ensures var once := Apply(contents, TransferSteps(c, tableExists, columns, rows));
            Apply(once, TransferSteps(c, true, columns, rows)) == once
  {
    var once := Apply(contents, TransferSteps(c, tableExists, columns, rows));
    ContentsAfterTransfer(contents, c, tableExists, columns, rows);
    ContentsAfterTransfer(once, c, true, columns, rows);
  }

  /** An appending transfer into an existing table keeps every earlier row, in front. */
  lemma AppendKeepsRows(contents: seq<Row>, c: ConnectionClient, columns: seq<Column>, rows: seq<Row>)
    requires !c.Truncates() && c.rowChunkSize > 0
    ensures Apply(contents, TransferSteps(c, true, columns, rows)) == contents + rows
  {
    ContentsAfterTransfer(contents, c, true, columns, rows);
  }
}
