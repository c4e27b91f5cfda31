# Chunked load of monthly taxi trip records — a Dafny model

The loader's `run` function does two things, and this project models both:

1. It builds the address of one month of yellow-taxi trip records. That is a
   fixed release prefix, then `/yellow_tripdata_`, then the year as Python's
   `str` writes it, a dash, the month formatted with `02d`, and `.csv.gz`
   (module `SourceUrl`).
2. It streams the CSV reader's chunks into a relational sink (module `Ingest`,
   over the sink of module `Sink`). A one-shot `first` flag makes the first
   chunk's zero-row head replace the target table, so the table's schema is
   created once. Every chunk, the first included, is then appended in order,
   and its row count is printed.

The sink is a class `Sink.Database` holding a map from table name to table
(columns and rows). A ghost history records every `to_sql` call it receives.
Its invariant `Valid()` says that replaying the history onto the initial
tables gives the current tables. `Sink.Database.ToSql` models
`DataFrame.to_sql` in the two `if_exists` modes the loader uses:

- replace drops any table of that name and creates one from the frame;
- append adds the frame's rows after the existing ones, or creates the table
  if there is none.

The CSV reader is a parameter, `readCsv(url, chunksize)`. It stands for the
finite sequence of chunks pandas yields for that URL and chunk size. Rows are
a type parameter. The printed lines are returned as a transcript of
`Message`s: `TableCreated`, then `Inserted(n)` per chunk.

`Ingest.Run` builds the URL, reads the chunks and hands them to `Ingest.Load`,
the chunk loop. Both are proved against specification functions of the chunks:

- `Loaded`: the new tables;
- `Writes`: the sink calls issued;
- `Transcript`: the lines printed.

The lemmas then prove what the loader promises about those functions:

- the schema is created exactly once and before any data;
- each chunk is appended exactly once, in order;
- the final table holds exactly this run's rows;
- the reported counts add up to the table's size;
- only the target table is written;
- a reader that yields no chunks changes nothing.

A round-trip lemma proves that the URL determines its year and month.

## Model

| member | source | states |
|---|---|---|
| `SourceUrl.SourceUrl` | pipeline/ingest_data.py:47-48 | defines the URL as the release prefix, `/yellow_tripdata_`, the `{year}-{month:02d}` tag and `.csv.gz`; `SourceUrlRoundTrip`, `SourceUrlInjective`, `SourceUrlShape`, `OneDigitMonth` and `TwoDigitMonth` give it its meaning |
| `SourceUrl.IntToString` | pipeline/ingest_data.py:48 | `{year}`, Python's `str` on an integer: non-empty, starts with a minus sign exactly for negatives, all digits after it; `DateTagRoundTrip` shows it reads back as the year |
| `SourceUrl.ZeroPadded` | pipeline/ingest_data.py:48 | `{month:02d}`: exactly the width long when the sign and digits are shorter, otherwise exactly the sign and digits (never cut off, no extra zeros), so the month field is never shorter than two characters; a minus sign exactly for negatives, all digits after it; `ParseZeroPadded` shows it reads back as the month |
| `SourceUrl.SourceUrlRoundTrip` | pipeline/ingest_data.py:47-48 | reading the URL back yields exactly the (year, month) it was built from, for every pair of integers |
| `SourceUrl.SourceUrlInjective` | pipeline/ingest_data.py:47-48 | two (year, month) pairs that give the same URL are equal, so no two months share a source file |
| `SourceUrl.SourceUrlShape` | pipeline/ingest_data.py:47-48 | the URL starts with the release prefix followed by `/yellow_tripdata_` and ends with `.csv.gz` |
| `SourceUrl.DateTagRoundTrip` | pipeline/ingest_data.py:48 | the `{year}-{month:02d}` part parses back to the same year and month |
| `SourceUrl.OneDigitMonth` | pipeline/ingest_data.py:48 | months 0 to 9 are written as one leading zero followed by the digit |
| `SourceUrl.TwoDigitMonth` | pipeline/ingest_data.py:48 | months 10 to 99 are written as their own two digits, which denote the month |
| `SourceUrl.ParseZeroPadded` | pipeline/ingest_data.py:48 | the sign-aware zero-padded form of any integer, at any width, reads back as that integer; zero padding never changes the value |
| `SourceUrl.Decimal` | pipeline/ingest_data.py:48 | the digits of a natural number are non-empty decimal digits, start with `0` only for zero, and are a single digit exactly below ten |
| `SourceUrl.DecimalValue` | pipeline/ingest_data.py:48 | the digit string `str` writes for a natural number denotes that number |
| `Sink.Frame.Head` | pipeline/ingest_data.py:66 | `head(n)` keeps the columns and yields the first min(n, size) rows as a prefix, so `head(0)` is the schema with no rows |
| `Sink.Written` | pipeline/ingest_data.py:66-79 | the table one `to_sql` call leaves: replace gives the frame's columns and rows; append keeps the existing table's columns and adds the frame's rows after its rows, or creates the table from the frame when there is none |
| `Sink.Apply` | pipeline/ingest_data.py:66-79 | one `to_sql` call adds the named table if it was missing, gives it the `Written` table, and leaves every other table as it was |
| `Sink.Database.ToSql` | pipeline/ingest_data.py:66-79 | one `to_sql` call changes only the named table, as replace or append semantics say, records the call in the history and keeps the history-replay invariant |
| `Ingest.Run` | pipeline/ingest_data.py:47-62 | the URL is the templated one for the year and month; the new tables, the sink's new history and the printed transcript are exactly `Loaded`, `Writes` and `Transcript` of the chunks the reader yields for that URL and chunk size |
| `Ingest.Load` | pipeline/ingest_data.py:60-81 | the chunk loop leaves the tables, the history and the transcript equal to `Loaded`, `Writes` and `Transcript` of the chunks; its invariant keeps the `first` flag true exactly before the first chunk, so it never comes back, and after every chunk the state is that of a load of the chunks so far; a reader that yields no chunks changes nothing |
| `Ingest.LoadedNext` | pipeline/ingest_data.py:75-79 | after the first chunk, one more chunk changes the tables by exactly one append of that chunk |
| `Ingest.WritesFirst` | pipeline/ingest_data.py:64-79 | the first chunk issues a replace with its zero-row head and then an append of the chunk, in that order |
| `Ingest.WritesNext` | pipeline/ingest_data.py:75-79 | every later chunk issues exactly one write, an append of that chunk |
| `Ingest.SchemaCreatedOnceBeforeData` | pipeline/ingest_data.py:60-79 | a non-empty run issues exactly one replace, as its first write, with the first chunk's columns and no rows, then one append of each chunk in order; every write names the target; an empty run writes nothing |
| `Ingest.NoReplaceAmongAppends` | pipeline/ingest_data.py:75-79 | the per-chunk appends never replace a table |
| `Ingest.RowsConcat` | pipeline/ingest_data.py:75-79 | within one load, two back-to-back stretches of chunks give the first stretch's rows followed by the second's |
| `Ingest.ChunkInPlace` | pipeline/ingest_data.py:62-79 | in the final table, each chunk's rows appear exactly once, after every earlier chunk's rows and before every later chunk's rows |
| `Ingest.PrefixConsistent` | pipeline/ingest_data.py:62-79 | after one or more chunks, the target table's rows are a prefix of the rows it ends with, and the remaining chunks' rows are exactly what follows; before the first chunk the target still holds its old rows |
| `Ingest.ReplayPrefix` | pipeline/ingest_data.py:62-79 | after any number of chunks, replaying the writes issued so far through the sink's semantics gives the loaded tables |
| `Ingest.ReplayMatchesLoaded` | pipeline/ingest_data.py:66-79 | replaying all the run's writes onto the old tables gives exactly `Loaded` |
| `Ingest.ReportedMatchesRows` | pipeline/ingest_data.py:75-81 | the counts printed by a run add up to the number of rows it loads |
| `Ingest.ReportedCountsMatchTable` | pipeline/ingest_data.py:72-81 | a non-empty run prints "Table created" first and then each chunk's length in order; the printed counts add up to the size of the final table |
| `Ingest.PriorRowsDiscarded` | pipeline/ingest_data.py:66-70 | after a non-empty run the target holds only this run's rows, whatever it held before |
| `Ingest.RerunKeepsOnlyLastRun` | pipeline/ingest_data.py:66-70 | running again into the same table leaves only the second run's data |
| `Ingest.OtherTablesUnchanged` | pipeline/ingest_data.py:67-76 | every table other than the target keeps its presence and its contents |
| `Ingest.EmptySourceNoChange` | pipeline/ingest_data.py:60-62 | with no chunks, no table is created or replaced, nothing is written and nothing is printed |

## Left out

- CSV and gzip parsing, the HTTP fetch, and dtype and date coercion (`pd.read_csv` and the `dtype` and `parse_dates` declarations, lines 11-33 and 52-58). That is library code over floating-point data. The chunks are the given result `readCsv(url, chunksize)`. That each chunk holds at most `chunksize` rows is an assumption about pandas; no contract relies on it. A `chunksize` below 1 makes `pd.read_csv` raise before any write, so such a run fails; `Ingest.Run` instead loads whatever `readCsv(url, chunksize)` yields. Whether pandas ever yields no chunks at all is not modelled; a header-only file yields one chunk with no rows, which does replace the table.
- The engine and its connection string (line 50). These are credentials; the database is the `db` argument.
- `to_sql` internals: the pandas index column it writes and the mapping of types to Postgres. Only the replace or append effect on the abstract tables is modelled.
- Sink.Database.ToSql: an append is modelled by column structure only. pandas inserts under the frame's own column names, so an append with a column the table lacks fails in the database, and a frame missing some of the table's columns leaves those columns at their default (NULL). The model appends the rows under the table's columns in both cases. `run` issues neither, since all chunks come from one reader.
- The `tqdm` progress bar (line 62), `run`'s own keyword defaults (lines 36-44: year 2021, month 1, target table `yellow_taxi_data`, chunk size 100000, and the connection defaults), and the `click` command-line wrapper with its defaults (lines 84-113). This is display and argument plumbing; `Ingest.Run` takes every argument explicitly. The printed lines are kept, as the returned transcript.
- Failures of the network or the database. The code has none of its own handling, and exceptions end the run. Which failure kinds occur is not modelled. `Ingest.PrefixConsistent` and the loop invariant of `Ingest.Load` describe what a stop after any chunk leaves behind: `Loaded` of the chunks done so far. A stop between the first chunk's replace and its append is not such a state: the target is then empty under the first chunk's columns, its old rows already gone.
