/** Copying a database into another system (`src/db/migrate.rs`): batches, and the order of the statements. */
module Migration {
  import opened Wrappers
  import opened SqlText

  const CHUNK_SIZE: nat := 500

  // ---- batches --------------------------------------------------------

  /** Rows cut into batches: full ones, and what remains. */
  function Chunks(rows: seq<Row>): seq<seq<Row>> {
    if rows == [] then []
    else if |rows| <= CHUNK_SIZE then [rows]
    else [rows[..CHUNK_SIZE]] + Chunks(rows[CHUNK_SIZE..])
  }

  function Concat(batches: seq<seq<Row>>): seq<Row> {
    if batches == [] then [] else batches[0] + Concat(batches[1..])
  }

  /** The batches are the rows in order; all are full except perhaps the last, and none is empty. */
  lemma {:induction false} ChunksShape(rows: seq<Row>)
    ensures Concat(Chunks(rows)) == rows
    ensures forall i | 0 <= i < |Chunks(rows)| :: 1 <= |Chunks(rows)[i]| <= 500
    ensures forall i | 0 <= i < |Chunks(rows)| - 1 :: |Chunks(rows)[i]| == 500
    decreases |rows|
  {
    if |rows| > CHUNK_SIZE {
      var rest := rows[CHUNK_SIZE..];
      ChunksShape(rest);
      assert Chunks(rows)[1..] == Chunks(rest);
      assert rows == rows[..CHUNK_SIZE] + rest;
    } else if rows != [] {
      assert Chunks(rows)[1..] == [] && rows + [] == rows;
    }
  }

  lemma {:induction false} ChunksAppend(a: seq<Row>, b: seq<Row>)
    requires |a| % CHUNK_SIZE == 0 && 1 <= |b| <= CHUNK_SIZE
    ensures Chunks(a + b) == Chunks(a) + [b]
    decreases |a|
  {
    if a == [] {
      assert a + b == b;
    } else {
      var rest := a[CHUNK_SIZE..];
      ChunksAppend(rest, b);
      assert (a + b)[..CHUNK_SIZE] == a[..CHUNK_SIZE] && (a + b)[CHUNK_SIZE..] == rest + b;
      if |a| == CHUNK_SIZE {
        assert rest == [] && a[..CHUNK_SIZE] == a;
        assert Chunks(a) == [a];
      }
    }
  }

  // ---- the target -----------------------------------------------------

  datatype Table = Table(kinds: seq<Kind>, rows: seq<Row>)

  datatype Statement =
    | Create(table: string)
    | Truncate(table: string)
    | Insert(table: string, rows: seq<Row>)
    | Index(table: string, name: string)
    | SetSequence(table: string, column: string)
    | AddKey(child: string, parent: string)

  /** What is sent to the server, accepted or not: a statement, or the text of an INSERT. */
  datatype Request = Send(statement: Statement) | SendText(sql: string)

  /** A foreign key: the first table refers to the second. */
  type Key = (string, string)

  /** The tables that refer to one of `reached`, directly or through others, and `reached` itself. */
  function Referencing(keys: set<Key>, reached: set<string>): (r: set<string>)
    ensures reached <= r
    decreases (set k | k in keys :: k.0) - reached
  {
    var next := reached + set k | k in keys && k.1 in reached :: k.0;
    if next == reached then reached
    else
      assert exists x :: x in next && x !in reached;
      Referencing(keys, next)
  }

  ghost predicate IsChain(keys: set<Key>, p: seq<string>) {
    p != [] && forall i | 0 <= i < |p| - 1 :: (p[i], p[i + 1]) in keys
  }

  /** A chain of foreign keys leads from `u` to `t`: truncating `t` with CASCADE empties `u`. */
  ghost predicate Refers(keys: set<Key>, u: string, t: string) {
    exists p :: IsChain(keys, p) && p[0] == u && p[|p| - 1] == t
  }

  lemma {:induction false} ReferencingSound(keys: set<Key>, reached: set<string>, t: string, u: string)
    requires forall x | x in reached :: Refers(keys, x, t)
    requires u in Referencing(keys, reached)
    ensures Refers(keys, u, t)
    decreases (set k | k in keys :: k.0) - reached
  {
    var next := reached + set k | k in keys && k.1 in reached :: k.0;
    if next != reached {
      forall x | x in next
        ensures Refers(keys, x, t)
      {
        if x !in reached {
          var k :| k in keys && k.1 in reached && k.0 == x;
          var p :| IsChain(keys, p) && p[0] == k.1 && p[|p| - 1] == t;
          assert IsChain(keys, [x] + p);
        }
      }
      assert exists x :: x in next && x !in reached;
      ReferencingSound(keys, next, t, u);
    }
  }

  lemma {:induction false} ReferencingClosed(keys: set<Key>, reached: set<string>)
    ensures var r := Referencing(keys, reached); forall k | k in keys && k.1 in r :: k.0 in r
    decreases (set k | k in keys :: k.0) - reached
  {
    var next := reached + set k | k in keys && k.1 in reached :: k.0;
    if next != reached {
      assert exists x :: x in next && x !in reached;
      ReferencingClosed(keys, next);
    } else {
      forall k | k in keys && k.1 in reached
        ensures k.0 in reached
      {
        assert k.0 in next;
      }
    }
  }

  lemma {:induction false} ChainStays(keys: set<Key>, p: seq<string>, r: set<string>)
    requires IsChain(keys, p) && p[|p| - 1] in r && forall k | k in keys && k.1 in r :: k.0 in r
    ensures p[0] in r
    decreases |p|
  {
    if |p| <= 1 {
    } else {
      var q := p[1..];
      assert forall i | 0 <= i < |q| :: q[i] == p[i + 1];
      ChainStays(keys, q, r);
      assert (p[0], p[1]) in keys;
    }
  }

  /** The fixpoint is exactly the tables from which a chain of foreign keys leads to `t`. */
  lemma ReferencingIsRefers(keys: set<Key>, t: string, u: string)
    ensures u in Referencing(keys, {t}) <==> Refers(keys, u, t)
  {
    assert IsChain(keys, [t]);
    if u in Referencing(keys, {t}) {
      ReferencingSound(keys, {t}, t, u);
    }
    if Refers(keys, u, t) {
      var p :| IsChain(keys, p) && p[0] == u && p[|p| - 1] == t;
      ReferencingClosed(keys, {t});
      ChainStays(keys, p, Referencing(keys, {t}));
    }
  }

  /** The target server. Any statement may fail, and then changes nothing. */
  class Database {
    const dialect: Dialect
    var tables: map<string, Table>
    var keys: set<Key>
    ghost var history: seq<Statement>
    ghost var requests: seq<Request>

    constructor (dialect: Dialect, tables: map<string, Table>, keys: set<Key>)
      ensures this.dialect == dialect && this.tables == tables && this.keys == keys && history == [] && requests == []
    {
      this.dialect := dialect;
      this.tables := tables;
      this.keys := keys;
      history, requests := [], [];
    }

    /** CREATE TABLE IF NOT EXISTS. */
    method CreateTable(table: string, kinds: seq<Kind>) returns (ok: bool)
      modifies this
      ensures keys == old(keys)
      ensures ok ==> tables == (if table in old(tables) then old(tables) else old(tables)[table := Table(kinds, [])])
      ensures ok ==> history == old(history) + [Create(table)]
      ensures !ok ==> tables == old(tables) && history == old(history)
      ensures requests == old(requests) + [Send(Create(table))]
    {
      requests := requests + [Send(Create(table))];
      ok := *;
      if ok {
        if table !in tables {
          tables := tables[table := Table(kinds, [])];
        }
        history := history + [Create(table)];
      }
    }

    /** The foreign keys that a truncation follows: CASCADE is only asked of PostgreSQL. */
    function Cascading(): set<Key>
      reads this`keys
    {
      if dialect.Postgres? then keys else {}
    }

    /** TRUNCATE TABLE, on PostgreSQL with CASCADE, which also empties all tables that refer to it. */
    method TruncateTable(table: string) returns (ok: bool)
      modifies this`tables, this`history, this`requests
      ensures ok ==> tables == Emptied(old(tables), Referencing(Cascading(), {table}))
      ensures ok ==> history == old(history) + [Truncate(table)]
      ensures !ok ==> tables == old(tables) && history == old(history)
      ensures requests == old(requests) + [Send(Truncate(table))]
    {
      requests := requests + [Send(Truncate(table))];
      ok := *;
      if ok {
        tables := Emptied(tables, Referencing(Cascading(), {table}));
        history := history + [Truncate(table)];
      }
    }

    /** Runs an INSERT: the server reads its text. */
    method Execute(sql: string) returns (ok: bool)
      modifies this
      ensures keys == old(keys)
      ensures ok ==> Meaning(dialect, old(tables), sql).Some?
      ensures ok ==> var (table, rows) := Meaning(dialect, old(tables), sql).value;
        tables == Appended(old(tables), table, rows) && history == old(history) + [Insert(table, rows)]
      ensures !ok ==> tables == old(tables) && history == old(history)
      ensures requests == old(requests) + [SendText(sql)]
    {
      requests := requests + [SendText(sql)];
      ok := *;
      var meaning := Meaning(dialect, tables, sql);
      if ok && meaning.Some? {
        tables := Appended(tables, meaning.value.0, meaning.value.1);
        history := history + [Insert(meaning.value.0, meaning.value.1)];
      } else {
        ok := false;
      }
    }

    /** A statement that adds an index or resets a sequence; the rows do not change. */
    method Maintain(statement: Statement)
      requires statement.Index? || statement.SetSequence?
      modifies this`history, this`requests
      ensures history == old(history) || history == old(history) + [statement]
      ensures requests == old(requests) + [Send(statement)]
    {
      requests := requests + [Send(statement)];
      if * {
        history := history + [statement];
      }
    }

    /** ALTER TABLE … ADD CONSTRAINT … FOREIGN KEY. */
    method AddForeignKey(child: string, parent: string)
      modifies this`keys, this`history, this`requests
      ensures (keys == old(keys) && history == old(history))
        || (keys == old(keys) + {(child, parent)} && history == old(history) + [AddKey(child, parent)])
      ensures requests == old(requests) + [Send(AddKey(child, parent))]
    {
      requests := requests + [Send(AddKey(child, parent))];
      if * {
        keys := keys + {(child, parent)};
        history := history + [AddKey(child, parent)];
      }
    }
  }

  /** `tables` with the rows of those in `names` removed. */
  function Emptied(tables: map<string, Table>, names: set<string>): (r: map<string, Table>)
    ensures r.Keys == tables.Keys
  {
    map t | t in tables :: if t in names then tables[t].(rows := []) else tables[t]
  }

  function Appended(tables: map<string, Table>, table: string, rows: seq<Row>): (r: map<string, Table>)
    requires table in tables
    ensures table in r && r[table].kinds == tables[table].kinds
  {
    tables[table := tables[table].(rows := tables[table].rows + rows)]
  }

  /** The existing table that an INSERT names and the rows it carries, read with the table's column types. */
  function Meaning(d: Dialect, tables: map<string, Table>, sql: string): (r: Option<(string, seq<Row>)>)
    ensures r.Some? ==> r.value.0 in tables
  {
    var table :- InsertTarget(d, sql);
    if table !in tables then None
    else
      var (_, _, rows) :- ReadInsert(d, tables[table].kinds, sql);
      Some((table, rows))
  }

  // ---- one table ------------------------------------------------------

  /** A table of the source as the introspection finds it; reading its rows may break off behind the last one. */
  datatype Schema = Schema(
    table: string, columns: seq<string>, kinds: seq<Kind>, rows: seq<Row>, broken: bool,
    indexes: seq<string>, sequences: seq<string>, references: seq<string>)
  {
    ghost predicate Valid() {
      |columns| == |kinds| && forall i | 0 <= i < |rows| :: RowFits(kinds, rows[i])
    }
  }

  datatype Error = CreateFailed(table: string) | InsertFailed(table: string) | SourceFailed(table: string)

  function Inserts(table: string, batches: seq<seq<Row>>): seq<Statement> {
    seq(|batches|, i requires 0 <= i < |batches| => Insert(table, batches[i]))
  }

  // ---- what is sent ---------------------------------------------------

  function Texts(d: Dialect, s: Schema, batches: seq<seq<Row>>): seq<Request> {
    seq(|batches|, i requires 0 <= i < |batches| => SendText(InsertText(d, s.table, s.columns, batches[i])))
  }

  /** Loading a table: it is cleared, and one INSERT follows for each batch. */
  function LoadRequests(d: Dialect, s: Schema): seq<Request> {
    [Send(Truncate(s.table))] + Texts(d, s, Chunks(s.rows))
  }

  function LoadOf(d: Dialect): Schema -> seq<Request> {
    s => LoadRequests(d, s)
  }

  function CreateOf(s: Schema): seq<Request> {
    [Send(Create(s.table))]
  }

  function IndexesOf(s: Schema): seq<Request> {
    seq(|s.indexes|, i requires 0 <= i < |s.indexes| => Send(Index(s.table, s.indexes[i])))
  }

  function SequencesOf(s: Schema): seq<Request> {
    seq(|s.sequences|, i requires 0 <= i < |s.sequences| => Send(SetSequence(s.table, s.sequences[i])))
  }

  /** The table itself refers to the tables of its foreign keys. */
  function KeysOf(s: Schema): seq<Request> {
    seq(|s.references|, i requires 0 <= i < |s.references| => Send(AddKey(s.table, s.references[i])))
  }

  /** The requests of every table, table by table. */
  function ForAll(schemas: seq<Schema>, of: Schema -> seq<Request>): seq<Request> {
    if schemas == [] then [] else ForAll(schemas[..|schemas| - 1], of) + of(schemas[|schemas| - 1])
  }

  lemma ForAllStep(schemas: seq<Schema>, of: Schema -> seq<Request>, n: nat)
    requires n < |schemas|
    ensures ForAll(schemas[..n + 1], of) == ForAll(schemas[..n], of) + of(schemas[n])
  {
    assert schemas[..n + 1][..n] == schemas[..n];
  }

  lemma {:induction false} ForAllStarts(schemas: seq<Schema>, of: Schema -> seq<Request>, n: nat)
    requires n <= |schemas|
    ensures ForAll(schemas[..n], of) <= ForAll(schemas, of)
    decreases |schemas| - n
  {
    if n == |schemas| {
      assert schemas[..n] == schemas;
    } else {
      ForAllStep(schemas, of, n);
      ForAllStarts(schemas, of, n + 1);
    }
  }

  function Creates(schemas: seq<Schema>): seq<Request> {
    ForAll(schemas, CreateOf)
  }

  function Loads(d: Dialect, schemas: seq<Schema>): seq<Request> {
    ForAll(schemas, LoadOf(d))
  }

  /** Everything a migration to PostgreSQL sends behind the data. */
  function Constraints(schemas: seq<Schema>): seq<Request> {
    ForAll(schemas, IndexesOf) + ForAll(schemas, SequencesOf) + ForAll(schemas, KeysOf)
  }

  /** The foreign keys that the source declares. */
  function Declared(schemas: seq<Schema>): set<Key> {
    set s, p | s in schemas && p in s.references :: (s.table, p)
  }

  method InsertBatch(db: Database, s: Schema, batch: seq<Row>) returns (r: Result<(), Error>)
    requires s.table in db.tables && db.tables[s.table].kinds == s.kinds && |s.columns| == |s.kinds|
    requires forall i | 0 <= i < |batch| :: RowFits(s.kinds, batch[i])
    modifies db
    ensures db.keys == old(db.keys)
    ensures r.Ok? ==> db.tables == Appended(old(db.tables), s.table, batch)
    ensures r.Ok? ==> AcceptsAll(db.dialect, batch)
    ensures r.Ok? && batch != [] ==> db.history == old(db.history) + [Insert(s.table, batch)]
    ensures db.requests == old(db.requests)
      + if batch == [] then [] else [SendText(InsertText(db.dialect, s.table, s.columns, batch))]
    ensures r.Err? ==> db.tables == old(db.tables) && db.history == old(db.history) && r.error == InsertFailed(s.table)
  {
    if batch == [] {
      assert db.tables[s.table].rows + [] == db.tables[s.table].rows;
      return Ok(());
    }
    InsertReads(db.dialect, s.table, s.columns, s.kinds, batch);
    var ok := db.Execute(InsertText(db.dialect, s.table, s.columns, batch));
    r := if ok then Ok(()) else Err(InsertFailed(s.table));
  }

  /**
   Streams one table. Whatever happens, the accepted batches are the chunks of
   the first `done` source rows, which stand behind what the truncation left;
   without an error these are all the rows, and their number is returned.
   */
  method TransferTable(db: Database, s: Schema)
    returns (r: Result<nat, Error>, ghost cleared: bool, ghost done: nat)
    requires s.Valid() && s.table in db.tables && db.tables[s.table].kinds == s.kinds
    modifies db
    ensures db.keys == old(db.keys)
    ensures done <= |s.rows|
    ensures var before := if cleared then Emptied(old(db.tables), Referencing(db.Cascading(), {s.table})) else old(db.tables);
      db.tables == Appended(before, s.table, s.rows[..done])
    ensures db.history == old(db.history) + (if cleared then [Truncate(s.table)] else [])
      + Inserts(s.table, Chunks(s.rows[..done]))
    ensures r.Ok? ==> !s.broken && done == |s.rows| && r.value == |s.rows|
    ensures r.Ok? ==> db.requests == old(db.requests) + LoadRequests(db.dialect, s)
    ensures old(db.requests) <= db.requests <= old(db.requests) + LoadRequests(db.dialect, s)
    ensures r.Err? ==> done % CHUNK_SIZE == 0 && (r.error == InsertFailed(s.table) || r.error == SourceFailed(s.table))
  {
    hide Chunks, Appended, Emptied, Referencing, RowFits, Texts, InsertText, Inserts;
    cleared := db.TruncateTable(s.table);
    ghost var before := db.tables;
    ghost var log := db.history;
    ghost var sent := db.requests;
    var batch: seq<Row> := [];
    var total := 0;
    done := 0;
    NothingLoaded(s, old(db.tables), Referencing(db.Cascading(), {s.table}), before, log);
    NoBatchSent(db.dialect, s, sent);
    for i := 0 to |s.rows|
      invariant db.keys == old(db.keys)
      invariant 0 <= done <= i && total == done && done % CHUNK_SIZE == 0
      invariant batch == s.rows[done..i] && |batch| < CHUNK_SIZE
      invariant db.tables == Appended(before, s.table, s.rows[..done])
      invariant db.history == log + Inserts(s.table, Chunks(s.rows[..done]))
      invariant db.requests == sent + Texts(db.dialect, s, Chunks(s.rows[..done]))
    {
      batch := batch + [s.rows[i]];
      if |batch| >= CHUNK_SIZE {
        BatchFits(s, done, batch);
        BatchSent(db.dialect, s, sent, done, batch);
        var inserted := InsertBatch(db, s, batch);
        if inserted.Err? {
          return Err(inserted.error), cleared, done;
        }
        Loaded(s, before, log, done, batch);
        total := total + |batch|;
        done := done + |batch|;
        batch := [];
      }
    }
    AllSent(db.dialect, s, done);
    if s.broken {
      return Err(SourceFailed(s.table)), cleared, done;
    }
    if batch != [] {
      BatchFits(s, done, batch);
      BatchSent(db.dialect, s, sent, done, batch);
      var inserted := InsertBatch(db, s, batch);
      if inserted.Err? {
        return Err(inserted.error), cleared, done;
      }
      Loaded(s, before, log, done, batch);
      total := total + |batch|;
      done := done + |batch|;
    }
    AllSent(db.dialect, s, done);
    r := Ok(total);
  }

  /** One more batch is sent, and what has been sent is the start of what loading the table sends. */
  lemma BatchSent(d: Dialect, s: Schema, sent: seq<Request>, done: nat, batch: seq<Row>)
    requires done + |batch| <= |s.rows| && batch == s.rows[done..done + |batch|]
    requires done % CHUNK_SIZE == 0 && 1 <= |batch| <= CHUNK_SIZE
    requires |batch| == CHUNK_SIZE || done + |batch| == |s.rows|
    ensures sent + Texts(d, s, Chunks(s.rows[..done])) + [SendText(InsertText(d, s.table, s.columns, batch))]
      == sent + Texts(d, s, Chunks(s.rows[..done + |batch|]))
    ensures Texts(d, s, Chunks(s.rows[..done + |batch|])) <= Texts(d, s, Chunks(s.rows))
  {
    hide InsertText;
    var rows, more, rest := s.rows[..done], s.rows[..done + |batch|], s.rows[done + |batch|..];
    assert more == rows + batch && s.rows == more + rest;
    ChunksAppend(rows, batch);
    assert Texts(d, s, Chunks(rows) + [batch])
      == Texts(d, s, Chunks(rows)) + [SendText(InsertText(d, s.table, s.columns, batch))];
    TextsStart(d, s, more, rest);
  }

  lemma TextsStart(d: Dialect, s: Schema, rows: seq<Row>, rest: seq<Row>)
    requires |rows| % CHUNK_SIZE == 0 || rest == []
    ensures Texts(d, s, Chunks(rows)) <= Texts(d, s, Chunks(rows + rest))
  {
    hide InsertText;
    if rest == [] {
      assert rows + rest == rows;
    } else {
      ChunksConcat(rows, rest);
    }
  }

  /** The first full batch, and the batches of the other rows. */
  lemma ChunksStep(rows: seq<Row>)
    requires |rows| >= CHUNK_SIZE
    ensures Chunks(rows) == [rows[..CHUNK_SIZE]] + Chunks(rows[CHUNK_SIZE..])
  {
    if |rows| == CHUNK_SIZE {
      assert rows[..CHUNK_SIZE] == rows;
    }
  }

  lemma {:induction false} ChunksConcat(a: seq<Row>, b: seq<Row>)
    requires |a| % CHUNK_SIZE == 0
    ensures Chunks(a + b) == Chunks(a) + Chunks(b)
    decreases |a|
  {
    if a == [] {
      assert a + b == b;
    } else {
      hide Chunks;
      var rest := a[CHUNK_SIZE..];
      ChunksConcat(rest, b);
      assert (a + b)[..CHUNK_SIZE] == a[..CHUNK_SIZE] && (a + b)[CHUNK_SIZE..] == rest + b;
      ChunksStep(a);
      ChunksStep(a + b);
    }
  }

  lemma NoBatchSent(d: Dialect, s: Schema, sent: seq<Request>)
    ensures sent == sent + Texts(d, s, Chunks(s.rows[..0]))
  {
  }

  lemma AllSent(d: Dialect, s: Schema, done: nat)
    requires done <= |s.rows| && (done % CHUNK_SIZE == 0 || done == |s.rows|)
    ensures Texts(d, s, Chunks(s.rows[..done])) <= Texts(d, s, Chunks(s.rows))
    ensures done == |s.rows| ==> s.rows[..done] == s.rows
  {
    assert s.rows == s.rows[..done] + s.rows[done..];
    TextsStart(d, s, s.rows[..done], s.rows[done..]);
  }

  lemma BatchFits(s: Schema, done: nat, batch: seq<Row>)
    requires s.Valid() && done + |batch| <= |s.rows| && batch == s.rows[done..done + |batch|]
    ensures forall i | 0 <= i < |batch| :: RowFits(s.kinds, batch[i])
  {
    assert forall i | 0 <= i < |batch| :: batch[i] == s.rows[done + i];
  }

  lemma NothingLoaded(
    s: Schema, tables: map<string, Table>, names: set<string>, before: map<string, Table>, log: seq<Statement>)
    requires s.table in tables && (before == tables || before == Emptied(tables, names))
    ensures s.table in before && before[s.table].kinds == tables[s.table].kinds
    ensures before == Appended(before, s.table, s.rows[..0])
    ensures log == log + Inserts(s.table, Chunks(s.rows[..0]))
  {
    assert before[s.table].rows + s.rows[..0] == before[s.table].rows;
    assert log + Inserts(s.table, []) == log;
  }

  /** One more accepted batch. */
  lemma Loaded(s: Schema, before: map<string, Table>, log: seq<Statement>, done: nat, batch: seq<Row>)
    requires s.table in before && done + |batch| <= |s.rows| && batch == s.rows[done..done + |batch|]
    requires done % CHUNK_SIZE == 0 && 1 <= |batch| <= CHUNK_SIZE
    ensures Appended(Appended(before, s.table, s.rows[..done]), s.table, batch)
      == Appended(before, s.table, s.rows[..done + |batch|])
    ensures log + Inserts(s.table, Chunks(s.rows[..done])) + [Insert(s.table, batch)]
      == log + Inserts(s.table, Chunks(s.rows[..done + |batch|]))
  {
    var rows := s.rows[..done];
    assert s.rows[..done + |batch|] == rows + batch;
    ChunksAppend(rows, batch);
    assert before[s.table].rows + rows + batch == before[s.table].rows + (rows + batch);
    assert Inserts(s.table, Chunks(rows) + [batch]) == Inserts(s.table, Chunks(rows)) + [Insert(s.table, batch)];
  }

  // ---- the whole run --------------------------------------------------

  ghost predicate DistinctTables(schemas: seq<Schema>) {
    forall i, j | 0 <= i < j < |schemas| :: schemas[i].table != schemas[j].table
  }

  /** Truncating one of the tables from `from` up to `to` empties `table`. */
  ghost predicate Hit(keys: set<Key>, schemas: seq<Schema>, table: string, from: nat, to: nat)
    requires to <= |schemas|
  {
    exists j | from <= j < to :: table in Referencing(keys, {schemas[j].table})
  }

  /** The rows of the `i`-th table once the first `n` tables have been loaded. */
  ghost function Remaining(keys: set<Key>, schemas: seq<Schema>, i: nat, n: nat): seq<Row>
    requires i < n <= |schemas|
  {
    if Hit(keys, schemas, schemas[i].table, i + 1, n) then [] else schemas[i].rows
  }

  function TotalRows(schemas: seq<Schema>): nat {
    if schemas == [] then 0 else TotalRows(schemas[..|schemas| - 1]) + |schemas[|schemas| - 1].rows|
  }

  /** The rows of all schemas, each counted once. */
  lemma {:induction false} TotalRowsAdd(a: seq<Schema>, b: seq<Schema>, s: Schema)
    ensures TotalRows([s]) == |s.rows| && TotalRows(a + b) == TotalRows(a) + TotalRows(b)
    decreases |b|
  {
    assert [s][..0] == [];
    if b == [] {
      assert a + b == a;
    } else {
      var n, all := |b| - 1, a + b;
      assert all[..|all| - 1] == a + b[..n] && all[|all| - 1] == b[n];
      TotalRowsAdd(a, b[..n], s);
    }
  }

  /** The selected tables exist with the expected column types. */
  ghost predicate Prepared(tables: map<string, Table>, schemas: seq<Schema>, n: nat)
    requires n <= |schemas|
  {
    forall i | 0 <= i < n :: schemas[i].table in tables && tables[schemas[i].table].kinds == schemas[i].kinds
  }

  /** Every table of before the run has kept its rows, unless it is selected or one of the first `n` truncations hit it. */
  ghost predicate OthersKept(
    before: map<string, Table>, tables: map<string, Table>, keys: set<Key>, schemas: seq<Schema>, n: nat)
    requires n <= |schemas|
  {
    forall u | u in before && (forall i | 0 <= i < |schemas| :: schemas[i].table != u) ::
      u in tables && (!Hit(keys, schemas, u, 0, n) ==> tables[u] == before[u])
  }

  /** The first `n` tables hold what remains of their source rows. */
  ghost predicate AllRemain(tables: map<string, Table>, keys: set<Key>, schemas: seq<Schema>, n: nat)
    requires n <= |schemas|
  {
    forall i | 0 <= i < n ::
      schemas[i].table in tables && tables[schemas[i].table].rows == Remaining(keys, schemas, i, n)
  }

  /** The rows of before the run that the `i`-th table still has after the first `n` truncations, before it is loaded. */
  ghost function Standing(start: map<string, Table>, keys: set<Key>, schemas: seq<Schema>, i: nat, n: nat): seq<Row>
    requires i < |schemas| && n <= |schemas|
  {
    var t := schemas[i].table;
    if t in start && !Hit(keys, schemas, t, 0, n) then start[t].rows else []
  }

  /** The tables from `from` on have not been loaded. */
  ghost predicate Pending(
    start: map<string, Table>, tables: map<string, Table>, keys: set<Key>, schemas: seq<Schema>, from: nat, n: nat)
    requires n <= |schemas|
  {
    forall i | from <= i < |schemas| ::
      schemas[i].table in tables && tables[schemas[i].table].rows == Standing(start, keys, schemas, i, n)
  }

  /**
   The run stopped in table `n`: those before it hold what remains of their
   rows, it holds a prefix of its own behind what its truncation, if it was
   accepted, left, and those behind it have not been loaded.
   */
  ghost predicate Stopped(
    start: map<string, Table>, tables: map<string, Table>, keys: set<Key>, schemas: seq<Schema>, n: nat, done: nat, hit: bool)
    requires n < |schemas| && done <= |schemas[n].rows|
  {
    var m := if hit then n + 1 else n;
    && (forall i | 0 <= i < n :: schemas[i].table in tables && tables[schemas[i].table].rows == Remaining(keys, schemas, i, m))
    && schemas[n].table in tables
    && tables[schemas[n].table].rows
       == (if hit then [] else Standing(start, keys, schemas, n, n)) + schemas[n].rows[..done]
    && Pending(start, tables, keys, schemas, n + 1, m)
  }

  /** What a failure in table `n` leaves, if the truncations before it were accepted. */
  ghost predicate FailsAt(
    start: map<string, Table>, tables: map<string, Table>, from: nat, history: seq<Statement>, keys: set<Key>,
    schemas: seq<Schema>, n: nat, done: nat)
  {
    && n < |schemas| && done <= |schemas[n].rows| && done % CHUNK_SIZE == 0
    && (AllTruncated(history, from, schemas, n) ==>
          Stopped(start, tables, keys, schemas, n, done, Truncated(history, from, schemas[n].table)))
  }

  lemma NothingYet(start: map<string, Table>, tables: map<string, Table>, keys: set<Key>, schemas: seq<Schema>)
    requires forall u | u in start :: u in tables && tables[u] == start[u]
    requires forall u | u in tables && u !in start :: tables[u].rows == []
    requires Prepared(tables, schemas, |schemas|)
    ensures AllRemain(tables, keys, schemas, 0) && OthersKept(start, tables, keys, schemas, 0)
    ensures Pending(start, tables, keys, schemas, 0, 0)
  {
    forall i | 0 <= i < |schemas|
      ensures schemas[i].table in tables && tables[schemas[i].table].rows == Standing(start, keys, schemas, i, 0)
    {
      TablePrepared(tables, schemas, i);
    }
  }

  lemma TablePrepared(tables: map<string, Table>, schemas: seq<Schema>, n: nat)
    requires n < |schemas| && Prepared(tables, schemas, |schemas|)
    ensures schemas[n].table in tables && tables[schemas[n].table].kinds == schemas[n].kinds
  {
  }

  lemma HitStep(keys: set<Key>, schemas: seq<Schema>, n: nat)
    requires n < |schemas|
    ensures forall u: string, from: nat | from <= n ::
      Hit(keys, schemas, u, from, n + 1) <==> Hit(keys, schemas, u, from, n) || u in Referencing(keys, {schemas[n].table})
  {
    hide Referencing;
  }

  /** What loading the first `done` rows of table `n` does to the others and to itself. */
  lemma StopStep(
    keys: set<Key>, schemas: seq<Schema>, n: nat, before: map<string, Table>, after: map<string, Table>, hit: bool,
    start: map<string, Table>, done: nat)
    requires DistinctTables(schemas) && n < |schemas| && done <= |schemas[n].rows| && Prepared(before, schemas, |schemas|)
    requires var base := if hit then Emptied(before, Referencing(keys, {schemas[n].table})) else before;
      schemas[n].table in base && after == Appended(base, schemas[n].table, schemas[n].rows[..done])
    requires AllRemain(before, keys, schemas, n) && Pending(start, before, keys, schemas, n, n)
    ensures Stopped(start, after, keys, schemas, n, done, hit)
  {
    HitStep(keys, schemas, n);
    hide Referencing, Hit;
    var m := if hit then n + 1 else n;
    forall i | 0 <= i < n
      ensures schemas[i].table in after && after[schemas[i].table].rows == Remaining(keys, schemas, i, m)
    {
      TablePrepared(before, schemas, i);
    }
    forall i | n < i < |schemas|
      ensures schemas[i].table in after && after[schemas[i].table].rows == Standing(start, keys, schemas, i, m)
    {
      TablePrepared(before, schemas, i);
    }
  }

  /** What loading table `n` does to the others and to itself. */
  lemma LoadStep(
    keys: set<Key>, schemas: seq<Schema>, n: nat, before: map<string, Table>, after: map<string, Table>, hit: bool,
    start: map<string, Table>)
    requires DistinctTables(schemas) && n < |schemas| && Prepared(before, schemas, |schemas|)
    requires var base := if hit then Emptied(before, Referencing(keys, {schemas[n].table})) else before;
      schemas[n].table in base && after == Appended(base, schemas[n].table, schemas[n].rows)
    ensures Prepared(after, schemas, |schemas|)
    ensures hit && AllRemain(before, keys, schemas, n) ==> AllRemain(after, keys, schemas, n + 1)
    ensures OthersKept(start, before, keys, schemas, n) ==> OthersKept(start, after, keys, schemas, n + 1)
    ensures hit && Pending(start, before, keys, schemas, n, n) ==> Pending(start, after, keys, schemas, n + 1, n + 1)
  {
    hide Referencing;
    var t := schemas[n].table;
    forall i | 0 <= i < |schemas|
      ensures schemas[i].table in after && after[schemas[i].table].kinds == schemas[i].kinds
    {
      TablePrepared(before, schemas, i);
    }
    HitStep(keys, schemas, n);
    if hit && Pending(start, before, keys, schemas, n, n) {
      forall i | n < i < |schemas|
        ensures schemas[i].table in after && after[schemas[i].table].rows == Standing(start, keys, schemas, i, n + 1)
      {
        TablePrepared(before, schemas, i);
      }
    }
    if hit && AllRemain(before, keys, schemas, n) {
      forall i | 0 <= i < n + 1
        ensures after[schemas[i].table].rows == Remaining(keys, schemas, i, n + 1)
      {
        TablePrepared(before, schemas, i);
      }
    }
  }

  /** Every selected table holds exactly its source rows, in order. */
  ghost predicate HoldsSource(tables: map<string, Table>, schemas: seq<Schema>) {
    forall i | 0 <= i < |schemas| :: schemas[i].table in tables && tables[schemas[i].table].rows == schemas[i].rows
  }

  lemma AllConserved(tables: map<string, Table>, schemas: seq<Schema>)
    requires DistinctTables(schemas) && AllRemain(tables, {}, schemas, |schemas|)
    ensures HoldsSource(tables, schemas)
  {
    hide Remaining;
    forall i | 0 <= i < |schemas|
      ensures tables[schemas[i].table].rows == schemas[i].rows
    {
      ConservedWithoutKeys(schemas, i);
    }
  }

  /** A truncation of the table was accepted, at `from` in the history or later. */
  ghost predicate Truncated(history: seq<Statement>, from: nat, table: string) {
    exists k | from <= k < |history| :: history[k] == Truncate(table)
  }

  ghost predicate AllTruncated(history: seq<Statement>, from: nat, schemas: seq<Schema>, n: nat)
    requires n <= |schemas|
  {
    forall i | 0 <= i < n :: Truncated(history, from, schemas[i].table)
  }

  /** Loading a table truncates it, if at all, and no other one. */
  lemma TruncatedStep(
    before: seq<Statement>, after: seq<Statement>, from: nat, schemas: seq<Schema>, n: nat, hit: bool, batches: seq<seq<Row>>)
    requires DistinctTables(schemas) && from <= |before| && n < |schemas|
    requires after == before + (if hit then [Truncate(schemas[n].table)] else []) + Inserts(schemas[n].table, batches)
    ensures forall t :: Truncated(after, from, t) <==> Truncated(before, from, t) || (hit && t == schemas[n].table)
    ensures AllTruncated(after, from, schemas, n) <==> AllTruncated(before, from, schemas, n)
    ensures !Truncated(before, from, schemas[n].table) && AllTruncated(after, from, schemas, n + 1) ==>
      hit && AllTruncated(before, from, schemas, n)
  {
    var front := before + if hit then [Truncate(schemas[n].table)] else [];
    assert forall k | 0 <= k < |before| :: after[k] == before[k];
    assert hit ==> after[|before|] == Truncate(schemas[n].table);
    assert forall k | |front| <= k < |after| :: after[k].Insert?;
    forall t
      ensures Truncated(after, from, t) <==> Truncated(before, from, t) || (hit && t == schemas[n].table)
    {
      if Truncated(before, from, t) {
        var k :| from <= k < |before| && before[k] == Truncate(t);
        assert after[k] == Truncate(t);
      }
    }
  }

  lemma NothingTruncated(before: seq<Statement>, after: seq<Statement>)
    requires before <= after && forall k | |before| <= k < |after| :: !after[k].Truncate?
    ensures forall t :: !Truncated(after, |before|, t)
  {
  }

  lemma TruncatedRest(before: seq<Statement>, after: seq<Statement>, from: nat, schemas: seq<Schema>)
    requires before <= after && forall k | |before| <= k < |after| :: !after[k].Truncate?
    ensures AllTruncated(after, from, schemas, |schemas|) ==> AllTruncated(before, from, schemas, |schemas|)
  {
    forall t | Truncated(after, from, t)
      ensures Truncated(before, from, t)
    {
      var k :| from <= k < |after| && after[k] == Truncate(t);
      assert before[k] == Truncate(t);
    }
  }

  lemma NothingCreated(schemas: seq<Schema>)
    ensures Creates(schemas[..0]) == []
  {
  }

  lemma CreateStep(schemas: seq<Schema>, n: nat)
    requires n < |schemas|
    ensures Creates(schemas[..n]) + [Send(Create(schemas[n].table))] == Creates(schemas[..n + 1])
    ensures Creates(schemas[..n + 1]) <= Creates(schemas)
  {
    ForAllStep(schemas, CreateOf, n);
    ForAllStarts(schemas, CreateOf, n + 1);
  }

  lemma LoadedStep(d: Dialect, schemas: seq<Schema>, n: nat)
    requires n < |schemas|
    ensures Loads(d, schemas[..n]) + LoadRequests(d, schemas[n]) == Loads(d, schemas[..n + 1])
    ensures Loads(d, schemas[..n + 1]) <= Loads(d, schemas)
  {
    hide LoadRequests;
    ForAllStep(schemas, LoadOf(d), n);
    ForAllStarts(schemas, LoadOf(d), n + 1);
  }

  /** What has been sent for a table that is not finished is the start of what the run sends. */
  lemma SentStarts(sent: seq<Request>, done: seq<Request>, part: seq<Request>, all: seq<Request>, now: seq<Request>)
    requires now <= sent + done + part && done + part <= all
    ensures now <= sent + all
  {
    assert sent + done + part == sent + (done + part);
    assert all[..|done + part|] == done + part;
    assert (sent + all)[..|sent + (done + part)|] == sent + (done + part);
  }

  method CreateTables(db: Database, schemas: seq<Schema>) returns (r: Result<(), Error>)
    requires DistinctTables(schemas)
    requires forall i | 0 <= i < |schemas| && schemas[i].table in db.tables ::
      db.tables[schemas[i].table].kinds == schemas[i].kinds
    modifies db
    ensures db.keys == old(db.keys)
    ensures r.Ok? ==> Prepared(db.tables, schemas, |schemas|)
    ensures forall u | u in old(db.tables) :: u in db.tables && db.tables[u] == old(db.tables)[u]
    ensures forall u | u in db.tables && u !in old(db.tables) :: db.tables[u].rows == []
    ensures r.Err? ==> r.error.CreateFailed?
    ensures r.Ok? ==> db.requests == old(db.requests) + Creates(schemas)
    ensures db.requests <= old(db.requests) + Creates(schemas)
    ensures old(db.history) <= db.history
    ensures forall k | old(|db.history|) <= k < |db.history| :: db.history[k].Create?
  {
    hide ForAll, CreateOf;
    NothingCreated(schemas);
    for n := 0 to |schemas|
      invariant db.keys == old(db.keys)
      invariant Prepared(db.tables, schemas, n)
      invariant forall u | u in old(db.tables) :: u in db.tables && db.tables[u] == old(db.tables)[u]
      invariant forall u | u in db.tables && u !in old(db.tables) ::
        db.tables[u].rows == [] && exists i | 0 <= i < n :: schemas[i].table == u
      invariant old(db.history) <= db.history
      invariant forall k | old(|db.history|) <= k < |db.history| :: db.history[k].Create?
      invariant db.requests == old(db.requests) + Creates(schemas[..n])
    {
      CreateStep(schemas, n);
      var ok := db.CreateTable(schemas[n].table, schemas[n].kinds);
      if !ok {
        return Err(CreateFailed(schemas[n].table));
      }
    }
    assert schemas[..|schemas|] == schemas;
    r := Ok(());
  }

  /** A failed run has not touched the tables of before, or it stopped in the table of the error. */
  ghost predicate KeepsOrStops(
    start: map<string, Table>, tables: map<string, Table>, from: nat, history: seq<Statement>, keys: set<Key>,
    schemas: seq<Schema>, error: Error)
  {
    if error.CreateFailed? then
      forall u | u in start :: u in tables && tables[u] == start[u]
    else
      exists n: nat, done: nat ::
        FailsAt(start, tables, from, history, keys, schemas, n, done) && schemas[n].table == error.table
  }

  /** The run to PostgreSQL, from the creation of the tables to the foreign keys. */
  method MigrateMysqlToPg(db: Database, schemas: seq<Schema>)
    returns (r: Result<nat, Error>, ghost loaded: nat)
    requires db.dialect == Postgres && DistinctTables(schemas)
    requires forall i | 0 <= i < |schemas| :: schemas[i].Valid()
    requires forall i | 0 <= i < |schemas| && schemas[i].table in db.tables ::
      db.tables[schemas[i].table].kinds == schemas[i].kinds
    modifies db
    // With every truncation accepted, each selected table holds its source rows, in order, unless a later
    // truncation reached it over the foreign keys that were there before the run.
    ensures r.Ok? ==> r.value == TotalRows(schemas)
    ensures r.Ok? && AllTruncated(db.history, old(|db.history|), schemas, |schemas|) ==>
      AllRemain(db.tables, old(db.keys), schemas, |schemas|)
    ensures r.Ok? && old(db.keys) == {} && AllTruncated(db.history, old(|db.history|), schemas, |schemas|) ==>
      HoldsSource(db.tables, schemas)
    ensures r.Ok? ==> OthersKept(old(db.tables), db.tables, old(db.keys), schemas, |schemas|)
    // A run that fails has changed no key and left every table in a known state.
    ensures r.Err? ==> db.keys == old(db.keys)
    ensures r.Err? ==> KeepsOrStops(old(db.tables), db.tables, old(|db.history|), db.history, old(db.keys), schemas, r.error)
    // What is sent, in order, up to where the run fails.
    ensures r.Ok? ==>
      db.requests == old(db.requests) + Creates(schemas) + Loads(Postgres, schemas) + Constraints(schemas)
    ensures r.Err? ==> db.requests <= old(db.requests) + Creates(schemas) + Loads(Postgres, schemas)
    // The keys that were declared are added, as far as their statements are accepted.
    ensures r.Ok? ==> old(db.keys) <= db.keys <= old(db.keys) + Declared(schemas)
    ensures r.Ok? ==> AddedKeys(old(db.keys), db.keys, old(db.history), db.history)
    // Every constraint is added after all data.
    ensures old(|db.history|) <= loaded <= |db.history| && old(db.history) <= db.history
    ensures forall k | old(|db.history|) <= k < loaded :: !db.history[k].AddKey?
    ensures forall k | loaded <= k < |db.history| ::
      db.history[k].Index? || db.history[k].SetSequence? || db.history[k].AddKey?
  {
    ghost var start := db.history;
    var count;
    count, loaded := CreateAndLoad(db, schemas);
    if count.Err? {
      return count, loaded;
    }
    if db.keys == {} && AllTruncated(db.history, old(|db.history|), schemas, |schemas|) {
      AllConserved(db.tables, schemas);
    }
    hide *;
    ghost var log := db.history;
    AddRest(db, schemas);
    TruncatedRest(log, db.history, old(|db.history|), schemas);
    NoKeyBefore(start, log, db.history, old(db.keys), db.keys);
    r := count;
  }

  lemma NoKeyBefore(
    start: seq<Statement>, log: seq<Statement>, history: seq<Statement>, before: set<Key>, keys: set<Key>)
    requires start <= log && AddedKeys(before, keys, log, history) && log <= history
    requires forall k | |start| <= k < |log| :: !log[k].AddKey?
    ensures AddedKeys(before, keys, start, history)
  {
  }

  /**
   The run to MySQL: with every truncation accepted, each selected table holds
   its source rows, in order, whatever foreign keys the target has.
   */
  method MigratePgToMysql(db: Database, schemas: seq<Schema>)
    returns (r: Result<nat, Error>)
    requires db.dialect == MySql && DistinctTables(schemas)
    requires forall i | 0 <= i < |schemas| :: schemas[i].Valid()
    requires forall i | 0 <= i < |schemas| && schemas[i].table in db.tables ::
      db.tables[schemas[i].table].kinds == schemas[i].kinds
    modifies db
    ensures db.keys == old(db.keys)
    ensures r.Ok? ==> r.value == TotalRows(schemas)
    ensures r.Ok? && AllTruncated(db.history, old(|db.history|), schemas, |schemas|) ==> HoldsSource(db.tables, schemas)
    ensures r.Ok? ==> OthersKept(old(db.tables), db.tables, {}, schemas, |schemas|)
    ensures r.Ok? ==> db.requests == old(db.requests) + Creates(schemas) + Loads(MySql, schemas)
    ensures r.Err? ==> db.requests <= old(db.requests) + Creates(schemas) + Loads(MySql, schemas)
    ensures r.Err? ==> KeepsOrStops(old(db.tables), db.tables, old(|db.history|), db.history, {}, schemas, r.error)
  {
    ghost var loaded;
    r, loaded := CreateAndLoad(db, schemas);
    if r.Ok? && AllTruncated(db.history, old(|db.history|), schemas, |schemas|) {
      AllConserved(db.tables, schemas);
    }
  }

  /** What both directions have in common: all tables are created, then all are loaded. */
  method CreateAndLoad(db: Database, schemas: seq<Schema>)
    returns (r: Result<nat, Error>, ghost loaded: nat)
    requires DistinctTables(schemas)
    requires forall i | 0 <= i < |schemas| :: schemas[i].Valid()
    requires forall i | 0 <= i < |schemas| && schemas[i].table in db.tables ::
      db.tables[schemas[i].table].kinds == schemas[i].kinds
    modifies db
    ensures db.keys == old(db.keys)
    ensures r.Ok? ==> r.value == TotalRows(schemas)
    ensures r.Ok? && AllTruncated(db.history, old(|db.history|), schemas, |schemas|) ==>
      AllRemain(db.tables, db.Cascading(), schemas, |schemas|)
    ensures r.Ok? ==> OthersKept(old(db.tables), db.tables, db.Cascading(), schemas, |schemas|)
    ensures r.Err? ==> KeepsOrStops(old(db.tables), db.tables, old(|db.history|), db.history, db.Cascading(), schemas, r.error)
    ensures r.Ok? ==> db.requests == old(db.requests) + Creates(schemas) + Loads(db.dialect, schemas)
    ensures db.requests <= old(db.requests) + Creates(schemas) + Loads(db.dialect, schemas)
    ensures loaded == |db.history| && old(db.history) <= db.history
    ensures forall k | old(|db.history|) <= k < loaded :: !db.history[k].AddKey?
  {
    hide Remaining, Hit, OthersKept, Referencing, Emptied, Appended, Chunks, AllRemain, Prepared;
    hide Truncated, AllTruncated, Pending, Standing, Stopped, ForAll, LoadRequests, Loads, Creates;
    ghost var start := db.tables;
    var created := CreateTables(db, schemas);
    loaded := |db.history|;
    if created.Err? {
      return Err(created.error), loaded;
    }
    ghost var sent := db.requests;
    var total := 0;
    NothingSent(db.dialect, schemas, sent);
    NothingYet(start, db.tables, db.Cascading(), schemas);
    NothingTruncated(old(db.history), db.history);
    for n := 0 to |schemas|
      invariant db.keys == old(db.keys)
      invariant Prepared(db.tables, schemas, |schemas|)
      invariant total == TotalRows(schemas[..n])
      invariant AllTruncated(db.history, old(|db.history|), schemas, n) ==>
        AllRemain(db.tables, db.Cascading(), schemas, n) && Pending(start, db.tables, db.Cascading(), schemas, n, n)
      invariant forall i | n <= i < |schemas| :: !Truncated(db.history, old(|db.history|), schemas[i].table)
      invariant OthersKept(start, db.tables, db.Cascading(), schemas, n)
      invariant db.requests == sent + Loads(db.dialect, schemas[..n])
      invariant loaded == |db.history| && old(db.history) <= db.history
      invariant forall k | old(|db.history|) <= k < loaded :: !db.history[k].AddKey?
    {
      ghost var before := db.tables;
      ghost var log := db.history;
      TablePrepared(before, schemas, n);
      LoadedStep(db.dialect, schemas, n);
      var count, hit, done := TransferTable(db, schemas[n]);
      loaded := |db.history|;
      SentStarts(
        sent, Loads(db.dialect, schemas[..n]), LoadRequests(db.dialect, schemas[n]), Loads(db.dialect, schemas),
        db.requests);
      if count.Err? {
        TruncatedStep(log, db.history, old(|db.history|), schemas, n, hit, Chunks(schemas[n].rows[..done]));
        if AllTruncated(db.history, old(|db.history|), schemas, n) {
          StopStep(db.Cascading(), schemas, n, before, db.tables, hit, start, done);
        }
        assert FailsAt(start, db.tables, old(|db.history|), db.history, db.Cascading(), schemas, n, done);
        return Err(count.error), loaded;
      }
      assert schemas[n].rows[..done] == schemas[n].rows;
      TruncatedStep(log, db.history, old(|db.history|), schemas, n, hit, Chunks(schemas[n].rows));
      LoadStep(db.Cascading(), schemas, n, before, db.tables, hit, start);
      assert schemas[..n + 1][..n] == schemas[..n];
      total := total + count.value;
    }
    assert schemas[..|schemas|] == schemas;
    r := Ok(total);
  }

  lemma NothingSent(d: Dialect, schemas: seq<Schema>, sent: seq<Request>)
    ensures sent == sent + Loads(d, schemas[..0])
  {
  }

  /** Indexes, sequences and foreign keys, whose failures are ignored. */
  method AddRest(db: Database, schemas: seq<Schema>)
    modifies db`keys, db`history, db`requests
    ensures db.requests == old(db.requests) + Constraints(schemas)
    ensures old(db.keys) <= db.keys <= old(db.keys) + Declared(schemas)
    ensures AddedKeys(old(db.keys), db.keys, old(db.history), db.history)
    ensures Rest(old(db.history), db.history)
  {
    hide Declared, ForAll, IndexesOf, SequencesOf, KeysOf;
    AddIndexes(db, schemas);
    AddSequences(db, schemas);
    AddKeys(db, schemas);
  }

  ghost predicate Rest(before: seq<Statement>, history: seq<Statement>) {
    && before <= history
    && forall k | |before| <= k < |history| :: history[k].Index? || history[k].SetSequence? || history[k].AddKey?
  }

  /** The keys that were added are exactly those whose statement was accepted. */
  ghost predicate AddedKeys(before: set<Key>, keys: set<Key>, log: seq<Statement>, history: seq<Statement>) {
    forall c: string, p: string ::
      (c, p) in keys <==> (c, p) in before || exists k | |log| <= k < |history| :: history[k] == AddKey(c, p)
  }

  method AddIndexes(db: Database, schemas: seq<Schema>)
    modifies db`history, db`requests
    ensures db.requests == old(db.requests) + ForAll(schemas, IndexesOf)
    ensures Rest(old(db.history), db.history) && forall k | old(|db.history|) <= k < |db.history| :: db.history[k].Index?
  {
    for n := 0 to |schemas|
      invariant db.requests == old(db.requests) + ForAll(schemas[..n], IndexesOf)
      invariant old(db.history) <= db.history
      invariant forall k | old(|db.history|) <= k < |db.history| :: db.history[k].Index?
    {
      ghost var sent := db.requests;
      for k := 0 to |schemas[n].indexes|
        invariant db.requests == sent + IndexesOf(schemas[n])[..k]
        invariant old(db.history) <= db.history
        invariant forall k | old(|db.history|) <= k < |db.history| :: db.history[k].Index?
      {
        db.Maintain(Index(schemas[n].table, schemas[n].indexes[k]));
      }
      ForAllStep(schemas, IndexesOf, n);
    }
    assert schemas[..|schemas|] == schemas;
  }

  method AddSequences(db: Database, schemas: seq<Schema>)
    modifies db`history, db`requests
    ensures db.requests == old(db.requests) + ForAll(schemas, SequencesOf)
    ensures Rest(old(db.history), db.history)
    ensures forall k | old(|db.history|) <= k < |db.history| :: db.history[k].SetSequence?
  {
    for n := 0 to |schemas|
      invariant db.requests == old(db.requests) + ForAll(schemas[..n], SequencesOf)
      invariant old(db.history) <= db.history
      invariant forall k | old(|db.history|) <= k < |db.history| :: db.history[k].SetSequence?
    {
      ghost var sent := db.requests;
      for k := 0 to |schemas[n].sequences|
        invariant db.requests == sent + SequencesOf(schemas[n])[..k]
        invariant old(db.history) <= db.history
        invariant forall k | old(|db.history|) <= k < |db.history| :: db.history[k].SetSequence?
      {
        db.Maintain(SetSequence(schemas[n].table, schemas[n].sequences[k]));
      }
      ForAllStep(schemas, SequencesOf, n);
    }
    assert schemas[..|schemas|] == schemas;
  }

  method AddKeys(db: Database, schemas: seq<Schema>)
    modifies db`keys, db`history, db`requests
    ensures db.requests == old(db.requests) + ForAll(schemas, KeysOf)
    ensures old(db.keys) <= db.keys <= old(db.keys) + Declared(schemas)
    ensures AddedKeys(old(db.keys), db.keys, old(db.history), db.history)
    ensures old(db.history) <= db.history
    ensures forall k | old(|db.history|) <= k < |db.history| :: db.history[k].AddKey?
  {
    hide AddedKeys, KeysOf, ForAll, Declared;
    NoKeysYet(db.keys, db.history, schemas);
    for n := 0 to |schemas|
      invariant db.requests == old(db.requests) + ForAll(schemas[..n], KeysOf)
      invariant old(db.keys) <= db.keys <= old(db.keys) + Declared(schemas)
      invariant AddedKeys(old(db.keys), db.keys, old(db.history), db.history)
      invariant old(db.history) <= db.history
      invariant forall k | old(|db.history|) <= k < |db.history| :: db.history[k].AddKey?
    {
      AddKeysOf(db, schemas[n], old(db.keys), old(db.history));
      DeclaredOf(schemas, n);
      ForAllStep(schemas, KeysOf, n);
    }
    assert schemas[..|schemas|] == schemas;
  }

  lemma NoKeysYet(keys: set<Key>, log: seq<Statement>, schemas: seq<Schema>)
    ensures AddedKeys(keys, keys, log, log) && ForAll(schemas[..0], KeysOf) == []
  {
  }

  lemma DeclaredOf(schemas: seq<Schema>, n: nat)
    requires n < |schemas|
    ensures Declared([schemas[n]]) <= Declared(schemas)
  {
  }

  method AddKeysOf(db: Database, s: Schema, ghost keys: set<Key>, ghost log: seq<Statement>)
    requires log <= db.history && AddedKeys(keys, db.keys, log, db.history)
    modifies db`keys, db`history, db`requests
    ensures db.requests == old(db.requests) + KeysOf(s)
    ensures old(db.keys) <= db.keys <= old(db.keys) + Declared([s])
    ensures AddedKeys(keys, db.keys, log, db.history)
    ensures old(db.history) <= db.history
    ensures forall k | old(|db.history|) <= k < |db.history| :: db.history[k].AddKey?
  {
    hide AddedKeys;
    for k := 0 to |s.references|
      invariant db.requests == old(db.requests) + KeysOf(s)[..k]
      invariant old(db.keys) <= db.keys <= old(db.keys) + Declared([s])
      invariant AddedKeys(keys, db.keys, log, db.history)
      invariant old(db.history) <= db.history
      invariant forall k | old(|db.history|) <= k < |db.history| :: db.history[k].AddKey?
    {
      ghost var before, start := db.keys, db.history;
      db.AddForeignKey(s.table, s.references[k]);
      KeyAdded(keys, log, before, start, db.keys, db.history, s.table, s.references[k]);
      assert s in [s] && (s.table, s.references[k]) in Declared([s]);
    }
  }

  lemma KeyAdded(
    before: set<Key>, start: seq<Statement>, keys: set<Key>, log: seq<Statement>, keys': set<Key>, log': seq<Statement>,
    child: string, parent: string)
    requires start <= log && AddedKeys(before, keys, start, log)
    requires (keys' == keys && log' == log) || (keys' == keys + {(child, parent)} && log' == log + [AddKey(child, parent)])
    ensures AddedKeys(before, keys', start, log')
  {
    if log' != log {
      forall c: string, p: string
        ensures (c, p) in keys' <==> (c, p) in before || exists k | |start| <= k < |log'| :: log'[k] == AddKey(c, p)
      {
        if k :| |start| <= k < |log| && log[k] == AddKey(c, p) {
          assert log'[k] == AddKey(c, p);
        }
        if (c, p) == (child, parent) {
          assert log'[|log|] == AddKey(c, p);
        }
      }
    }
  }

  // ---- main results ---------------------------------------------------

  /**
   A table ends up with exactly its source rows if and only if it has none or
   no foreign key of the target led from it to a table loaded after it.
   */
  lemma ConservedExactly(keys: set<Key>, schemas: seq<Schema>, i: nat)
    requires i < |schemas|
    ensures Remaining(keys, schemas, i, |schemas|) == schemas[i].rows
      <==> (schemas[i].rows == [] || forall j | i < j < |schemas| :: !Refers(keys, schemas[i].table, schemas[j].table))
  {
    forall j | i < j < |schemas|
      ensures schemas[i].table in Referencing(keys, {schemas[j].table})
        <==> Refers(keys, schemas[i].table, schemas[j].table)
    {
      ReferencingIsRefers(keys, schemas[j].table, schemas[i].table);
    }
  }

  /** On a target without foreign keys every table is conserved. */
  lemma ConservedWithoutKeys(schemas: seq<Schema>, i: nat)
    requires DistinctTables(schemas) && i < |schemas|
    ensures Remaining({}, schemas, i, |schemas|) == schemas[i].rows
  {
    assert forall t: string :: Referencing({}, {t}) == {t};
  }

  /** A table that refers to one loaded after it loses its row. */
  lemma CascadeLosesRows()
    ensures
      var a := Schema("a", ["x"], [IntKind], [[IntCell(1)]], false, [], [], ["b"]);
      var b := Schema("b", ["x"], [IntKind], [], false, [], [], []);
      a.Valid() && b.Valid() && Remaining({("a", "b")}, [a, b], 0, 2) == [] != a.rows
  {
    var a := Schema("a", ["x"], [IntKind], [[IntCell(1)]], false, [], [], ["b"]);
    var b := Schema("b", ["x"], [IntKind], [], false, [], [], []);
    var keys, schemas := {("a", "b")}, [a, b];
    assert IsChain(keys, ["a", "b"]);
    assert Refers(keys, schemas[0].table, schemas[1].table);
    ConservedExactly(keys, schemas, 0);
  }
}
