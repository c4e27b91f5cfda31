/**
  The relational sink as the loader sees it: named tables that pandas'
  `DataFrame.to_sql` either replaces or appends to. Rows are abstract (a
  type parameter); their columns are the frame's column names.
*/
module Sink {

  type TableName = string
  type Column = string

  /** A batch of rows with its column structure: one chunk read from the source. */
  datatype Frame<R> = Frame(columns: seq<Column>, rows: seq<R>) {

    /** `DataFrame.head(n)`: the same columns and the first n rows (all of them when there are fewer). */
    function Head(n: nat): (f: Frame<R>)
      ensures f.columns == columns
      ensures |f.rows| == if n < |rows| then n else |rows|
      ensures f.rows <= rows
    {
      Frame(columns, rows[..if n < |rows| then n else |rows|])
    }
  }

  /** A stored table: its column structure and its rows, in insertion order. */
  datatype Table<R> = Table(columns: seq<Column>, rows: seq<R>)

  /** The two `if_exists` modes the loader uses. */
  datatype IfExists = Replace | Append

  /** One `to_sql` call, as the sink records it. */
  datatype Write<R> = Write(name: TableName, mode: IfExists, frame: Frame<R>)

  /**
    The table a `to_sql` call leaves behind. Replace drops any table of that
    name and creates one from the frame. Append adds the frame's rows after
    the existing ones, or creates the table if there is none.
  */
  function Written<R>(tables: map<TableName, Table<R>>, w: Write<R>): (t: Table<R>)
    ensures w.mode == Replace ==> t == Table(w.frame.columns, w.frame.rows)
    ensures w.mode == Append && w.name in tables ==>
      t.columns == tables[w.name].columns && t.rows == tables[w.name].rows + w.frame.rows
    ensures w.mode == Append && w.name !in tables ==> t == Table(w.frame.columns, w.frame.rows)
  {
    if w.mode == Append && w.name in tables then
      Table(tables[w.name].columns, tables[w.name].rows + w.frame.rows)
    else
      Table(w.frame.columns, w.frame.rows)
  }

  /** The sink's tables after one `to_sql` call: only the named table changes. */
  function Apply<R>(tables: map<TableName, Table<R>>, w: Write<R>): (t: map<TableName, Table<R>>)
    ensures t.Keys == tables.Keys + {w.name}
    ensures t[w.name] == Written(tables, w)
    ensures forall n :: n in tables && n != w.name ==> t[n] == tables[n]
  {
    tables[w.name := Written(tables, w)]
  }

  /** The sink's tables after a sequence of `to_sql` calls, in order. */
  function Replay<R>(tables: map<TableName, Table<R>>, ws: seq<Write<R>>): map<TableName, Table<R>> {
    if |ws| == 0 then tables else Apply(Replay(tables, ws[..|ws| - 1]), ws[|ws| - 1])
  }

  /** A database reached through one engine: its tables and the writes it has received. */
  class Database<R> {
    var tables: map<TableName, Table<R>>
    /** Every `to_sql` call this database has received, oldest first. */
    ghost var history: seq<Write<R>>

    /** The database as it stands before any call: the history replays onto it. */
    ghost const initial: map<TableName, Table<R>>

    ghost predicate Valid()
      reads this
    {
      tables == Replay(initial, history)
    }

    constructor (existing: map<TableName, Table<R>>)
      ensures Valid()
      ensures tables == existing && initial == existing && history == []
    {
      tables := existing;
      initial := existing;
      history := [];
    }

    /** `frame.to_sql(name=name, con=engine, if_exists=ifExists)`. */
    method ToSql(frame: Frame<R>, name: TableName, ifExists: IfExists)
      requires Valid()
      modifies this
      ensures Valid()
      ensures tables == Apply(old(tables), Write(name, ifExists, frame))
      ensures history == old(history) + [Write(name, ifExists, frame)]
    {
      var w := Write(name, ifExists, frame);
      tables := tables[name := Written(tables, w)];
      history := history + [w];
      assert history[..|history| - 1] == old(history);
    }
  }
}
