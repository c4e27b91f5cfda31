/**
  The `run` entry point of the loader: build the source URL, then walk the
  chunks the CSV reader yields. The first chunk's zero-row head replaces the
  target table (creating its schema); every chunk, the first included, is
  then appended in order, and its row count is reported.

  The reader itself (HTTP fetch, gzip, CSV parsing and type coercion) is a
  parameter: `readCsv(url, chunksize)` is the finite sequence of chunks it
  yields for that URL and chunk size.
*/
module Ingest {
  import opened Sink
  import SourceUrl

  /** What `run` prints: "Table created" once, then "Inserted: n" per chunk. */
  datatype Message = TableCreated | Inserted(count: nat) {
    /** The row count a line reports: none for "Table created". */
    function Reported(): nat {
      if Inserted? then count else 0
    }
  }

  // ---------------------------------------------------------------------
  // What a run is meant to do

  /** The rows of the chunks, chunk after chunk, each in its own order. */
  function Rows<R>(chunks: seq<Frame<R>>): seq<R> {
    if |chunks| == 0 then [] else Rows(chunks[..|chunks| - 1]) + chunks[|chunks| - 1].rows
  }

  /**
    The tables after loading `chunks` into `target`: nothing changes when there
    are no chunks; otherwise the target holds exactly the chunks' rows, under
    the first chunk's columns, and every other table is as it was.
  */
  function Loaded<R>(tables: map<TableName, Table<R>>, target: TableName, chunks: seq<Frame<R>>)
    : map<TableName, Table<R>>
  {
    if |chunks| == 0 then tables else tables[target := Table(chunks[0].columns, Rows(chunks))]
  }

  /** One append of each chunk, in order. */
  function Appends<R>(target: TableName, chunks: seq<Frame<R>>): (ws: seq<Write<R>>)
    ensures |ws| == |chunks|
    ensures forall i :: 0 <= i < |chunks| ==> ws[i] == Write(target, Append, chunks[i])
  {
    seq(|chunks|, i requires 0 <= i < |chunks| => Write(target, Append, chunks[i]))
  }

  /** The writes a run issues: a zero-row replace from the first chunk, then the appends. */
  function Writes<R>(target: TableName, chunks: seq<Frame<R>>): seq<Write<R>> {
    if |chunks| == 0 then [] else [Write(target, Replace, chunks[0].Head(0))] + Appends(target, chunks)
  }

  /** The lines a run prints. */
  function Transcript<R>(chunks: seq<Frame<R>>): seq<Message> {
    if |chunks| == 0 then []
    else [TableCreated] + seq(|chunks|, i requires 0 <= i < |chunks| => Inserted(|chunks[i].rows|))
  }

  /** The sum of the counts reported by "Inserted" lines. */
  function ReportedTotal(out: seq<Message>): nat {
    if |out| == 0 then 0
    else
      ReportedTotal(out[..|out| - 1]) + out[|out| - 1].Reported()
  }

  /** How many of the writes replace a table. */
  function ReplaceCount<R>(ws: seq<Write<R>>): nat {
    if |ws| == 0 then 0
    else ReplaceCount(ws[..|ws| - 1]) + if ws[|ws| - 1].mode == Replace then 1 else 0
  }

  // ---------------------------------------------------------------------
  // The loader

  /**
    `run(year=year, month=month, target_table=targetTable, chunksize=chunksize)`
    against the database `db`: read the chunks from the month's URL and load them.
  */
  method Run<R>(db: Database<R>, year: int, month: int, targetTable: TableName, chunksize: int,
                readCsv: (string, int) -> seq<Frame<R>>)
    returns (url: string, out: seq<Message>)
    requires db.Valid()
    modifies db
    ensures db.Valid()
    ensures url == SourceUrl.SourceUrl(year, month)
    ensures db.tables == Loaded(old(db.tables), targetTable, readCsv(url, chunksize))
    ensures db.history == old(db.history) + Writes(targetTable, readCsv(url, chunksize))
    ensures out == Transcript(readCsv(url, chunksize))
  {
    url := SourceUrl.SourceUrl(year, month);
    var dfIter := readCsv(url, chunksize);
    out := Load(db, targetTable, dfIter);
  }

  /**
    The chunk loop of `run`: a `first` flag makes the first chunk's zero-row
    head replace the target table; every chunk is then appended and its length
    printed.
  */
  method Load<R>(db: Database<R>, targetTable: TableName, dfIter: seq<Frame<R>>)
    returns (out: seq<Message>)
    requires db.Valid()
    modifies db
    ensures db.Valid()
    ensures db.tables == Loaded(old(db.tables), targetTable, dfIter)
    ensures db.history == old(db.history) + Writes(targetTable, dfIter)
    ensures out == Transcript(dfIter)
    ensures |dfIter| == 0 ==> db.tables == old(db.tables) && db.history == old(db.history) && out == []
  {
    ghost var tables0, history0 := db.tables, db.history;
    var first := true;
    out := [];
    for i := 0 to |dfIter|
      invariant db.Valid()
      invariant first <==> i == 0
      invariant db.tables == Loaded(tables0, targetTable, dfIter[..i])
      invariant db.history == history0 + Writes(targetTable, dfIter[..i])
      invariant out == Transcript(dfIter[..i])
    {
      var dfChunk := dfIter[i];
      if i == 0 {
        LoadedFirst(tables0, targetTable, dfIter);
        WritesFirst(targetTable, dfIter);
        HistoryGrows(history0, Writes(targetTable, dfIter[..0]),
                     [Write(targetTable, Replace, dfChunk.Head(0)), Write(targetTable, Append, dfChunk)],
                     Writes(targetTable, dfIter[..1]));
        TranscriptFirst(dfIter);
      } else {
        LoadedNext(tables0, targetTable, dfIter, i);
        WritesNext(targetTable, dfIter, i);
        HistoryGrows(history0, Writes(targetTable, dfIter[..i]), [Write(targetTable, Append, dfChunk)],
                     Writes(targetTable, dfIter[..i + 1]));
        TranscriptNext(dfIter, i);
      }
      if first {
        db.ToSql(dfChunk.Head(0), targetTable, Replace);
        first := false;
        out := out + [TableCreated];
      }
      db.ToSql(dfChunk, targetTable, Append);
      out := out + [Inserted(|dfChunk.rows|)];
    }
    assert dfIter[..|dfIter|] == dfIter;
  }

  // The loop's step: how the specification functions grow by one chunk. The
  // first chunk adds a replace with its zero-row head and then an append of
  // the chunk; every later chunk adds only its append.

  lemma LoadedFirst<R>(tables: map<TableName, Table<R>>, target: TableName, chunks: seq<Frame<R>>)
    requires |chunks| > 0
    ensures Loaded(tables, target, chunks[..1])
         == Apply(Apply(Loaded(tables, target, chunks[..0]), Write(target, Replace, chunks[0].Head(0))),
                  Write(target, Append, chunks[0]))
  {
    RowsStep(chunks, 0);
    assert chunks[..0] == [] && chunks[..1][0] == chunks[0];
    assert [] + chunks[0].rows == chunks[0].rows;
  }

  lemma LoadedNext<R>(tables: map<TableName, Table<R>>, target: TableName, chunks: seq<Frame<R>>, i: nat)
    requires 0 < i < |chunks|
    ensures Loaded(tables, target, chunks[..i + 1])
         == Apply(Loaded(tables, target, chunks[..i]), Write(target, Append, chunks[i]))
  {
    RowsStep(chunks, i);
    assert chunks[..i + 1][0] == chunks[..i][0];
  }

  /** A history that grows by some writes grows by them one at a time, in order. */
  lemma HistoryGrows<R>(h: seq<Write<R>>, before: seq<Write<R>>, added: seq<Write<R>>, after: seq<Write<R>>)
    requires after == before + added
    ensures |added| == 1 ==> h + after == h + before + [added[0]]
    ensures |added| == 2 ==> h + after == h + before + [added[0]] + [added[1]]
  {
    if |added| == 2 {
      assert added == [added[0]] + [added[1]];
    }
  }

  lemma WritesFirst<R>(target: TableName, chunks: seq<Frame<R>>)
    requires |chunks| > 0
    ensures Writes(target, chunks[..1])
         == Writes(target, chunks[..0]) + [Write(target, Replace, chunks[0].Head(0))]
            + [Write(target, Append, chunks[0])]
  {
    var post := chunks[..1];
    assert post[..0] == [];
    assert Appends(target, post) == [Write(target, Append, chunks[0])];
  }

  lemma WritesNext<R>(target: TableName, chunks: seq<Frame<R>>, i: nat)
    requires 0 < i < |chunks|
    ensures Writes(target, chunks[..i + 1]) == Writes(target, chunks[..i]) + [Write(target, Append, chunks[i])]
  {
    var pre, post := chunks[..i], chunks[..i + 1];
    assert post[..i] == pre && post[0] == pre[0];
    assert Appends(target, post) == Appends(target, pre) + [Write(target, Append, chunks[i])];
    assert Writes(target, post) == Writes(target, pre) + [Write(target, Append, chunks[i])];
  }

  lemma TranscriptFirst<R>(chunks: seq<Frame<R>>)
    requires |chunks| > 0
    ensures Transcript(chunks[..1]) == Transcript(chunks[..0]) + [TableCreated] + [Inserted(|chunks[0].rows|)]
  {
    assert chunks[..0] == [];
  }

  lemma TranscriptNext<R>(chunks: seq<Frame<R>>, i: nat)
    requires 0 < i < |chunks|
    ensures Transcript(chunks[..i + 1]) == Transcript(chunks[..i]) + [Inserted(|chunks[i].rows|)]
  {
    var pre, post := chunks[..i], chunks[..i + 1];
    var longer, shorter := Transcript(post), Transcript(pre) + [Inserted(|chunks[i].rows|)];
    assert |longer| == |shorter| == i + 2;
    forall j | 0 < j < i + 2
      ensures longer[j] == shorter[j]
    {
      if j <= i {
        assert post[j - 1] == pre[j - 1];
      }
    }
    assert longer[0] == shorter[0];
  }

  // ---------------------------------------------------------------------
  // Properties of a run

  /** Within one load, two back-to-back stretches of chunks give the first stretch's rows, then the second's. */
  lemma {:induction false} RowsConcat<R>(a: seq<Frame<R>>, b: seq<Frame<R>>)
    ensures Rows(a + b) == Rows(a) + Rows(b)
  {
    if |b| == 0 {
      assert a + b == a;
    } else {
      var front := b[..|b| - 1];
      assert (a + b)[..|a + b| - 1] == a + front;
      assert (a + b)[|a + b| - 1] == b[|b| - 1];
      RowsConcat(a, front);
    }
  }

  /** The rows of the first i + 1 chunks are those of the first i, then chunk i's. */
  lemma RowsStep<R>(chunks: seq<Frame<R>>, i: nat)
    requires i < |chunks|
    ensures Rows(chunks[..i + 1]) == Rows(chunks[..i]) + chunks[i].rows
  {
    var upto := chunks[..i + 1];
    assert upto[..|upto| - 1] == chunks[..i] && upto[|upto| - 1] == chunks[i];
  }

  /** Cutting the chunks anywhere cuts their rows at the matching place. */
  lemma RowsSplit<R>(chunks: seq<Frame<R>>, k: nat)
    requires k <= |chunks|
    ensures Rows(chunks) == Rows(chunks[..k]) + Rows(chunks[k..])
  {
    var front, back := chunks[..k], chunks[k..];
    assert front + back == chunks;
    RowsConcat(front, back);
  }

  /** Every chunk's rows land exactly once, after all earlier chunks' rows and before all later ones. */
  lemma ChunkInPlace<R>(chunks: seq<Frame<R>>, k: nat)
    requires k < |chunks|
    ensures Rows(chunks) == Rows(chunks[..k]) + chunks[k].rows + Rows(chunks[k + 1..])
  {
    RowsSplit(chunks, k + 1);
    RowsStep(chunks, k);
  }

  /**
    After one or more chunks the target holds a prefix of the rows it ends
    with: the rows of the chunks so far, which the remaining chunks only extend.
    (Before the first chunk it still holds whatever it held before the run.)
  */
  lemma PrefixConsistent<R>(tables: map<TableName, Table<R>>, target: TableName,
                            chunks: seq<Frame<R>>, k: nat)
    requires 0 < k <= |chunks|
    ensures target in Loaded(tables, target, chunks[..k]) && target in Loaded(tables, target, chunks)
    ensures Loaded(tables, target, chunks[..k])[target].rows <= Loaded(tables, target, chunks)[target].rows
    ensures Loaded(tables, target, chunks)[target].rows
         == Loaded(tables, target, chunks[..k])[target].rows + Rows(chunks[k..])
  {
    RowsSplit(chunks, k);
  }

  /** A sequence of appends replaces nothing. */
  lemma {:induction false} NoReplaceAmongAppends<R>(ws: seq<Write<R>>)
    requires forall j :: 0 <= j < |ws| ==> ws[j].mode == Append
    ensures ReplaceCount(ws) == 0
  {
    if |ws| > 0 {
      NoReplaceAmongAppends(ws[..|ws| - 1]);
    }
  }

  /** Counting replaces distributes over a leading write. */
  lemma {:induction false} ReplaceCountCons<R>(w: Write<R>, ws: seq<Write<R>>)
    ensures ReplaceCount([w] + ws) == (if w.mode == Replace then 1 else 0) + ReplaceCount(ws)
  {
    if |ws| > 0 {
      assert ([w] + ws)[..|ws|] == [w] + ws[..|ws| - 1];
      ReplaceCountCons(w, ws[..|ws| - 1]);
    } else {
      assert [w] + ws == [w];
      assert [w][..0] == [];
    }
  }

  /**
    Schema creation happens exactly once and before any data: a non-empty run
    issues one replace, first, carrying the first chunk's columns and no rows;
    then one append per chunk, in chunk order. An empty run writes nothing.
    Every write names the target table.
  */
  lemma SchemaCreatedOnceBeforeData<R>(target: TableName, chunks: seq<Frame<R>>)
    ensures |chunks| == 0 ==> Writes(target, chunks) == []
    ensures |chunks| > 0 ==>
      var ws := Writes(target, chunks);
      && |ws| == |chunks| + 1
      && ws[0] == Write(target, Replace, Frame(chunks[0].columns, []))
      && (forall j :: 1 <= j < |ws| ==> ws[j] == Write(target, Append, chunks[j - 1]))
      && ReplaceCount(ws) == 1
    ensures forall w :: w in Writes(target, chunks) ==> w.name == target
  {
    if |chunks| > 0 {
      var appends := Appends(target, chunks);
      NoReplaceAmongAppends(appends);
      ReplaceCountCons(Write(target, Replace, chunks[0].Head(0)), appends);
    }
  }

  lemma ReplaySnoc<R>(tables: map<TableName, Table<R>>, ws: seq<Write<R>>, w: Write<R>)
    ensures Replay(tables, ws + [w]) == Apply(Replay(tables, ws), w)
  {
    assert (ws + [w])[..|ws|] == ws;
  }

  lemma ReportedSnoc(out: seq<Message>, m: Message)
    ensures ReportedTotal(out + [m]) == ReportedTotal(out) + m.Reported()
  {
    assert (out + [m])[..|out|] == out;
  }

  /** Replaying the run's writes through the sink's semantics gives exactly the loaded tables. */
  lemma {:induction false} ReplayPrefix<R>(tables: map<TableName, Table<R>>, target: TableName,
                                           chunks: seq<Frame<R>>, k: nat)
    requires k <= |chunks|
    ensures Replay(tables, Writes(target, chunks[..k])) == Loaded(tables, target, chunks[..k])
  {
    if k == 1 {
      var replace := Write(target, Replace, chunks[0].Head(0));
      var append := Write(target, Append, chunks[0]);
      WritesFirst(target, chunks);
      assert Writes(target, chunks[..0]) == [];
      assert Writes(target, chunks[..1]) == [replace] + [append];
      ReplaySnoc(tables, [replace], append);
      ReplaySnoc(tables, [], replace);
      assert [] + [replace] == [replace];
      LoadedFirst(tables, target, chunks);
    } else if k > 1 {
      ReplayPrefix(tables, target, chunks, k - 1);
      var append := Write(target, Append, chunks[k - 1]);
      WritesNext(target, chunks, k - 1);
      var pre := Writes(target, chunks[..k - 1]);
      ReplaySnoc(tables, pre, append);
      LoadedNext(tables, target, chunks, k - 1);
    }
  }

  /** The whole run: the recorded writes, replayed onto the old tables, give the new tables. */
  lemma ReplayMatchesLoaded<R>(tables: map<TableName, Table<R>>, target: TableName, chunks: seq<Frame<R>>)
    ensures Replay(tables, Writes(target, chunks)) == Loaded(tables, target, chunks)
  {
    ReplayPrefix(tables, target, chunks, |chunks|);
    assert chunks[..|chunks|] == chunks;
  }

  /** The transcript of one more chunk ends with that chunk's "Inserted" line. */
  lemma TranscriptSnoc<R>(chunks: seq<Frame<R>>, c: Frame<R>)
    requires |chunks| > 0
    ensures Transcript(chunks + [c]) == Transcript(chunks) + [Inserted(|c.rows|)]
  {
    var all := chunks + [c];
    assert all[..|chunks|] == chunks;
    TranscriptNext(all, |chunks|);
    assert all[..|chunks| + 1] == all;
  }

  /** A one-chunk run reports that chunk's length. */
  lemma ReportedSingle<R>(chunks: seq<Frame<R>>)
    requires |chunks| == 1
    ensures ReportedTotal(Transcript(chunks)) == |Rows(chunks)|
  {
    var t := [TableCreated] + [Inserted(|chunks[0].rows|)];
    assert Transcript(chunks) == t;
    ReportedSnoc([TableCreated], Inserted(|chunks[0].rows|));
    ReportedSnoc([], TableCreated);
    assert [] + [TableCreated] == [TableCreated];
    assert chunks[..0] == [];
  }

  /** The counts a run reports add up to the number of rows it loads. */
  lemma {:induction false} ReportedMatchesRows<R>(chunks: seq<Frame<R>>)
    ensures ReportedTotal(Transcript(chunks)) == |Rows(chunks)|
  {
    if |chunks| == 1 {
      ReportedSingle(chunks);
    } else if |chunks| > 1 {
      var pre, c := chunks[..|chunks| - 1], chunks[|chunks| - 1];
      assert chunks == pre + [c];
      ReportedMatchesRows(pre);
      TranscriptSnoc(pre, c);
      ReportedSnoc(Transcript(pre), Inserted(|c.rows|));
    }
  }

  /**
    Each chunk's "Inserted" line reports that chunk's length, and the reported
    counts of a non-empty run add up to the number of rows in the final table.
  */
  lemma ReportedCountsMatchTable<R>(tables: map<TableName, Table<R>>, target: TableName, chunks: seq<Frame<R>>)
    ensures |chunks| > 0 ==>
      && |Transcript(chunks)| == |chunks| + 1
      && Transcript(chunks)[0] == TableCreated
      && (forall i :: 0 <= i < |chunks| ==> Transcript(chunks)[i + 1] == Inserted(|chunks[i].rows|))
      && ReportedTotal(Transcript(chunks)) == |Loaded(tables, target, chunks)[target].rows|
  {
    ReportedMatchesRows(chunks);
  }

  /**
    The replace discards whatever the target held: after a non-empty run it
    holds this run's rows under the first chunk's columns, whatever the tables
    were before.
  */
  lemma PriorRowsDiscarded<R>(before1: map<TableName, Table<R>>, before2: map<TableName, Table<R>>,
                              target: TableName, chunks: seq<Frame<R>>)
    requires |chunks| > 0
    ensures target in Loaded(before1, target, chunks)
    ensures Loaded(before1, target, chunks)[target] == Loaded(before2, target, chunks)[target]
    ensures Loaded(before1, target, chunks)[target].rows == Rows(chunks)
  {
  }

  /** Running twice into the same table leaves only the second run's data. */
  lemma RerunKeepsOnlyLastRun<R>(tables: map<TableName, Table<R>>, target: TableName,
                                 first: seq<Frame<R>>, second: seq<Frame<R>>)
    requires |second| > 0
    ensures Loaded(Loaded(tables, target, first), target, second) == Loaded(tables, target, second)
  {
  }

  /** Only the target is written: every other table keeps its presence and its contents. */
  lemma OtherTablesUnchanged<R>(tables: map<TableName, Table<R>>, target: TableName,
                                chunks: seq<Frame<R>>, name: TableName)
    requires name != target
    ensures name in Loaded(tables, target, chunks) <==> name in tables
    ensures name in tables ==> Loaded(tables, target, chunks)[name] == tables[name]
  {
  }

  /** A reader that yields no chunks leaves the database untouched: no table is created or replaced. */
  lemma EmptySourceNoChange<R>(tables: map<TableName, Table<R>>, target: TableName)
    ensures Loaded(tables, target, []) == tables
    ensures Writes<R>(target, []) == [] && Transcript<R>([]) == []
  {
  }
}
