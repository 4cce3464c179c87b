/** The `rotate-encryption-key` one-shot: five sealed families rewritten in one
    transaction. */
module RotationTool {
  import opened Wrappers
  import opened Encoding
  import opened Primitives
  import opened AtRestCipher
  import opened JsonDocument
  import opened Rotation
  import Text

  datatype Family = Family(name: string, table: string, column: string, pemOK: bool, json: bool)

  const SealedFamilies: seq<Family> := [
    Family("signing_keys.private_key", "signing_keys", "private_key", true, false),
    Family("users.mfa_secret", "users", "mfa_secret", false, false),
    Family("mfa_pending_login_sessions.secret", "mfa_pending_login_sessions", "secret", false, false),
    Family("oidc_states.pkce_verifier_encrypted", "oidc_states", "pkce_verifier_encrypted", false, false),
    Family("identity_providers.config (2 sealed fields)", "identity_providers", "config", false, true)
  ]

  /** Row key to column value; None is SQL NULL. */
  type Table = map<string, Option<string>>

  /** One table per family, in the order of `SealedFamilies`. */
  type Store = seq<Table>

  datatype Counts = Counts(converted: nat, skipped: nat)

  /** The rotation at hand, and how provider documents are coded. */
  datatype Job = Job(rot: Rotor, codec: JsonCodec) {

    /** The rows a family's query returns. */
    predicate Selected(fam: Family, cell: Option<string>) {
      cell.Some? && (fam.json || cell.value != "")
    }

    predicate Rotatable(fam: Family, val: string) {
      if fam.json then codec.Decode(val).Some? && DocRotatable(rot, codec.Decode(val).value)
      else rot.Rotatable(val, fam.pemOK)
    }

    predicate Stale(fam: Family, val: string) {
      if fam.json then codec.Decode(val).Some? && DocStale(rot, codec.Decode(val).value)
      else rot.Stale(val)
    }

    /** `next` is what rewriting the stale `val` may store. */
    ghost predicate Replaces(fam: Family, val: string, next: string) {
      if fam.json then
        codec.Decode(val).Some? && exists d :: DocReplaces(rot, codec.Decode(val).value, d, SealedFields) && next == codec.Encode(d)
      else rot.Replaces(val, fam.pemOK, next)
    }

    predicate SelectedStale(fam: Family, cell: Option<string>) {
      Selected(fam, cell) && Stale(fam, cell.value)
    }

    /** How one cell may look after the run. */
    ghost predicate CellRotated(fam: Family, before: Option<string>, after: Option<string>) {
      if SelectedStale(fam, before)
      then after.Some? && Replaces(fam, before.value, after.value)
      else after == before
    }

    /** `after` is `before` with exactly the stale values under `done` rewritten. */
    ghost predicate TableRotated(fam: Family, before: Table, after: Table, done: set<string>) {
      && after.Keys == before.Keys
      && forall k :: k in before ==>
           if k in done then CellRotated(fam, before[k], after[k]) else after[k] == before[k]
    }

    function SelectedKeys(fam: Family, t: Table): set<string> {
      set k | k in t && Selected(fam, t[k])
    }

    function StaleKeys(fam: Family, t: Table): set<string> {
      set k | k in t && SelectedStale(fam, t[k])
    }

    /** The value can be rotated and, if it changes, written back. */
    predicate RowRotatable(fam: Family, fi: nat, k: string, v: string, faults: Faults) {
      Rotatable(fam, v) && (Stale(fam, v) ==> !faults.write(fi, k))
    }

    /** Every selected value of the table can be rotated and written. */
    ghost predicate TableRotatable(fam: Family, fi: nat, t: Table, faults: Faults) {
      forall k :: k in SelectedKeys(fam, t) ==>
        RowRotatable(fam, fi, k, t[k].value, faults)
    }
  }

  /** What the database may refuse to do. */
  datatype Faults = Faults(
    open: bool, leaseHeld: bool, begin: bool, probe: bool, read: nat -> bool, write: (nat, string) -> bool, commit: bool)

  /** The rows of a query, drained before any write runs. */
  predicate Rows(job: Job, fam: Family, t: Table, rows: seq<(string, string)>) {
    && (forall i :: 0 <= i < |rows| ==>
          rows[i].0 in t && job.Selected(fam, t[rows[i].0]) && t[rows[i].0].value == rows[i].1)
    && (forall i, j :: 0 <= i < j < |rows| ==> rows[i].0 != rows[j].0)
    && KeysOf(rows) == job.SelectedKeys(fam, t)
  }

  function KeysOf(rows: seq<(string, string)>): (ks: set<string>) {
    set i | 0 <= i < |rows| :: rows[i].0
  }

  /** `collectKV`: the database returns rows in an order of its own. */
  method CollectKV(job: Job, fam: Family, t: Table) returns (rows: seq<(string, string)>)
    ensures Rows(job, fam, t, rows)
  {
    rows := [];
    var todo := job.SelectedKeys(fam, t);
    while todo != {}
      invariant todo <= job.SelectedKeys(fam, t)
      invariant KeysOf(rows) == job.SelectedKeys(fam, t) - todo
      invariant forall i :: 0 <= i < |rows| ==>
                  rows[i].0 in t && job.Selected(fam, t[rows[i].0]) && t[rows[i].0].value == rows[i].1 && rows[i].0 !in todo
      invariant forall i, j :: 0 <= i < j < |rows| ==> rows[i].0 != rows[j].0
      decreases todo
    {
      var k :| k in todo;
      KeysAppend(rows, (k, t[k].value));
      rows := rows + [(k, t[k].value)];
      todo := todo - {k};
    }
  }

  lemma KeysAppend(rows: seq<(string, string)>, row: (string, string))
    ensures KeysOf(rows + [row]) == KeysOf(rows) + {row.0}
  {
    var all := rows + [row];
    assert all[|rows|] == row;
    forall k | k in KeysOf(rows)
      ensures k in KeysOf(all)
    {
      var i :| 0 <= i < |rows| && rows[i].0 == k;
      assert all[i].0 == k;
    }
  }

  /** Only the table at `fi` differs. */
  predicate OthersKept(before: Store, after: Store, fi: nat) {
    |after| == |before| && forall f :: 0 <= f < |after| && f != fi ==> after[f] == before[f]
  }

  /** The working copy a transaction writes to. */
  class Transaction {
    var tables: Store

    constructor (tables: Store)
      ensures this.tables == tables
    {
      this.tables := tables;
    }

    method Exec(fi: nat, k: string, next: string)
      requires fi < |tables|
      modifies this
      ensures tables == old(tables)[fi := old(tables)[fi][k := Some(next)]]
    {
      tables := tables[fi := tables[fi][k := Some(next)]];
    }
  }

  /** One value through the family's rewriting function. */
  method RotateValue(job: Job, fam: Family, val: string, nonces: seq<Nonce>) returns (r: Result<(string, bool), RotateError>)
    requires |nonces| == 2
    ensures r.Ok? <==> job.Rotatable(fam, val)
    ensures r.Ok? ==> r.value.1 == job.Stale(fam, val)
    ensures r.Ok? && r.value.1 ==> job.Replaces(fam, val, r.value.0)
  {
    if fam.json {
      r := RotateProviderConfig(job.rot, job.codec, val, nonces);
    } else {
      r := job.rot.RotateCiphertext(val, fam.pemOK, nonces[0]);
    }
  }

  /** A stale value has been replaced in its row; a current one left alone. */
  ghost predicate RowWritten(job: Job, fam: Family, k: string, v: string, was: Table, now: Table) {
    if job.Stale(fam, v) then exists next :: job.Replaces(fam, v, next) && now == was[k := Some(next)]
    else now == was
  }

  /** The body of the core's inner loop: one row. */
  method RotateRow(job: Job, tx: Transaction, fam: Family, fi: nat, k: string, v: string, faults: Faults, nonces: seq<Nonce>)
    returns (r: Result<bool, RotateError>)
    requires fi < |tx.tables| && |nonces| == 2
    modifies tx
    ensures OthersKept(old(tx.tables), tx.tables, fi)
    ensures r.Ok? <==> job.RowRotatable(fam, fi, k, v, faults)
    ensures r.Ok? ==> r.value == job.Stale(fam, v)
    ensures r.Ok? ==> RowWritten(job, fam, k, v, old(tx.tables)[fi], tx.tables[fi])
  {
    var next := RotateValue(job, fam, v, nonces);
    if next.Err? {
      return Err(next.error);
    }
    if !next.value.1 {
      return Ok(false);
    }
    if faults.write(fi, k) {
      return Err(WriteFailed);
    }
    tx.Exec(fi, k, next.value.0);
    r := Ok(true);
  }

  /** All of a family's stale values are rewritten, and every selected row counted. */
  ghost predicate FamilyRotated(job: Job, fam: Family, before: Table, after: Table, c: Counts) {
    && job.TableRotated(fam, before, after, before.Keys)
    && c.converted == |job.StaleKeys(fam, before)|
    && c.converted + c.skipped == |job.SelectedKeys(fam, before)|
  }

  /** The inner loop of the core: one family. */
  method RotateFamily(job: Job, tx: Transaction, fam: Family, fi: nat, faults: Faults, entropy: nat -> Nonce, draws: nat)
    returns (r: Result<Counts, RotateError>, drawn: nat)
    requires fi < |tx.tables|
    modifies tx
    ensures OthersKept(old(tx.tables), tx.tables, fi)
    ensures r.Ok? <==> job.TableRotatable(fam, fi, old(tx.tables)[fi], faults)
    ensures r.Ok? ==> FamilyRotated(job, fam, old(tx.tables)[fi], tx.tables[fi], r.value)
  {
    drawn := draws;
    ghost var start := tx.tables;
    var rows := CollectKV(job, fam, tx.tables[fi]);
    var c := Counts(0, 0);
    var i := 0;
    while i < |rows|
      invariant 0 <= i <= |rows| && OthersKept(start, tx.tables, fi)
      invariant Swept(job, fam, fi, start[fi], tx.tables[fi], rows, i, c, faults)
    {
      var next := SweepNext(job, tx, fam, fi, start[fi], rows, i, c, faults, [entropy(drawn), entropy(drawn + 1)]);
      drawn := drawn + 2;
      if next.Err? {
        NotRotatable(job, fam, start[fi], rows, i, fi, faults);
        return Err(next.error), drawn;
      }
      c, i := next.value, i + 1;
    }
    SweepDone(job, fam, fi, start[fi], tx.tables[fi], rows, c, faults);
    r := Ok(c);
  }

  /** One turn of that loop: the row, and its counter. */
  method SweepNext(job: Job, tx: Transaction, fam: Family, fi: nat, ghost before: Table, rows: seq<(string, string)>, i: nat,
                   c: Counts, faults: Faults, nonces: seq<Nonce>)
    returns (r: Result<Counts, RotateError>)
    requires fi < |tx.tables| && |nonces| == 2 && i < |rows| && Rows(job, fam, before, rows)
    requires Swept(job, fam, fi, before, tx.tables[fi], rows, i, c, faults)
    modifies tx
    ensures OthersKept(old(tx.tables), tx.tables, fi)
    ensures r.Ok? <==> job.RowRotatable(fam, fi, rows[i].0, rows[i].1, faults)
    ensures r.Ok? ==> Swept(job, fam, fi, before, tx.tables[fi], rows, i + 1, r.value, faults)
  {
    ghost var was := tx.tables[fi];
    var changed := RotateRow(job, tx, fam, fi, rows[i].0, rows[i].1, faults, nonces);
    if changed.Err? {
      return Err(changed.error);
    }
    var next := if changed.value then Counts(c.converted + 1, c.skipped) else Counts(c.converted, c.skipped + 1);
    SweepRow(job, fam, fi, before, was, tx.tables[fi], rows, i, c, next, faults);
    r := Ok(next);
  }

  /** The first `i` rows have been rotated, counted and written. */
  ghost predicate Swept(job: Job, fam: Family, fi: nat, before: Table, after: Table,
                        rows: seq<(string, string)>, i: nat, c: Counts, faults: Faults)
  {
    && i <= |rows|
    && job.TableRotated(fam, before, after, KeysOf(rows[..i]))
    && (forall j :: 0 <= j < i ==> job.RowRotatable(fam, fi, rows[j].0, rows[j].1, faults))
    && c.converted + c.skipped == i
    && c.converted == |KeysOf(rows[..i]) * job.StaleKeys(fam, before)|
  }

  lemma SweepRow(job: Job, fam: Family, fi: nat, before: Table, was: Table, now: Table,
                 rows: seq<(string, string)>, i: nat, c: Counts, c': Counts, faults: Faults)
    requires Rows(job, fam, before, rows) && i < |rows|
    requires Swept(job, fam, fi, before, was, rows, i, c, faults)
    requires job.RowRotatable(fam, fi, rows[i].0, rows[i].1, faults)
    requires RowWritten(job, fam, rows[i].0, rows[i].1, was, now)
    requires c' == if job.Stale(fam, rows[i].1) then Counts(c.converted + 1, c.skipped) else Counts(c.converted, c.skipped + 1)
    ensures Swept(job, fam, fi, before, now, rows, i + 1, c', faults)
  {
    RowCounted(job, fam, before, rows, i);
    CellWritten(job, fam, before, was, now, KeysOf(rows[..i]), rows[i].0, rows[i].1);
  }

  /** Writing one more selected cell extends the rotated part of the table. */
  lemma CellWritten(job: Job, fam: Family, before: Table, was: Table, now: Table, done: set<string>, k: string, v: string)
    requires job.TableRotated(fam, before, was, done)
    requires k in before && k !in done && before[k] == Some(v) && job.Selected(fam, before[k])
    requires RowWritten(job, fam, k, v, was, now)
    ensures job.TableRotated(fam, before, now, done + {k})
  {
  }

  /** Visiting row `i` adds its key to the visited ones, and to the converted
      ones when its value is stale. */
  lemma RowCounted(job: Job, fam: Family, t: Table, rows: seq<(string, string)>, i: nat)
    requires Rows(job, fam, t, rows) && i < |rows|
    ensures KeysOf(rows[..i + 1]) == KeysOf(rows[..i]) + {rows[i].0}
    ensures rows[i].0 !in KeysOf(rows[..i])
    ensures |KeysOf(rows[..i + 1]) * job.StaleKeys(fam, t)|
         == |KeysOf(rows[..i]) * job.StaleKeys(fam, t)| + if job.Stale(fam, rows[i].1) then 1 else 0
  {
    var k, stale := rows[i].0, job.StaleKeys(fam, t);
    assert rows[..i + 1] == rows[..i] + [rows[i]];
    KeysAppend(rows[..i], rows[i]);
    assert k !in KeysOf(rows[..i]);
    if job.Stale(fam, rows[i].1) {
      assert KeysOf(rows[..i + 1]) * stale == KeysOf(rows[..i]) * stale + {k};
    } else {
      assert KeysOf(rows[..i + 1]) * stale == KeysOf(rows[..i]) * stale;
    }
  }

  lemma NotRotatable(job: Job, fam: Family, t: Table, rows: seq<(string, string)>, i: nat, fi: nat, faults: Faults)
    requires Rows(job, fam, t, rows) && i < |rows|
    requires !job.RowRotatable(fam, fi, rows[i].0, rows[i].1, faults)
    ensures !job.TableRotatable(fam, fi, t, faults)
  {
  }

  /** When every row has been visited the whole table is rotated and counted. */
  lemma SweepDone(job: Job, fam: Family, fi: nat, before: Table, after: Table,
                  rows: seq<(string, string)>, c: Counts, faults: Faults)
    requires Rows(job, fam, before, rows)
    requires Swept(job, fam, fi, before, after, rows, |rows|, c, faults)
    ensures FamilyRotated(job, fam, before, after, c)
    ensures job.TableRotatable(fam, fi, before, faults)
  {
    assert rows[..|rows|] == rows;
    DistinctKeysCount(rows);
    assert KeysOf(rows) * job.StaleKeys(fam, before) == job.StaleKeys(fam, before);
    forall k | k in job.SelectedKeys(fam, before)
      ensures job.RowRotatable(fam, fi, k, before[k].value, faults)
    {
      var i :| 0 <= i < |rows| && rows[i].0 == k;
    }
  }

  lemma {:induction false} DistinctKeysCount(rows: seq<(string, string)>)
    requires forall i, j :: 0 <= i < j < |rows| ==> rows[i].0 != rows[j].0
    ensures |KeysOf(rows)| == |rows|
  {
    if rows != [] {
      var n := |rows| - 1;
      DistinctKeysCount(rows[..n]);
      KeysAppend(rows[..n], rows[n]);
      assert rows == rows[..n] + [rows[n]];
    }
  }

  // ---------------------------------------------------------------- The core

  ghost predicate StoreRotatable(job: Job, store: Store, faults: Faults)
    requires |store| == |SealedFamilies|
  {
    forall f :: 0 <= f < |store| ==> !faults.read(f) && job.TableRotatable(SealedFamilies[f], f, store[f], faults)
  }

  /** Every family's stale values rewritten, everything else untouched. */
  ghost predicate StoreRotated(job: Job, before: Store, after: Store)
    requires |before| == |SealedFamilies|
  {
    && |after| == |before|
    && forall f :: 0 <= f < |before| ==> job.TableRotated(SealedFamilies[f], before[f], after[f], before[f].Keys)
  }

  predicate Tallied(job: Job, fam: Family, before: Table, report: map<string, Counts>) {
    && fam.name in report
    && report[fam.name].converted == |job.StaleKeys(fam, before)|
    && report[fam.name].converted + report[fam.name].skipped == |job.SelectedKeys(fam, before)|
  }

  lemma FamilyNamesDistinct(f: nat, g: nat)
    requires f < g < |SealedFamilies|
    ensures SealedFamilies[f].name != SealedFamilies[g].name
  {
  }

  /** The first `i` families are rotated and tallied; the others still as they were. */
  ghost predicate FamiliesDone(job: Job, start: Store, now: Store, i: nat, report: map<string, Counts>, faults: Faults)
    requires |start| == |SealedFamilies|
  {
    && i <= |start| == |now|
    && (forall f :: i <= f < |start| ==> now[f] == start[f])
    && (forall f :: 0 <= f < i ==> FamilyDone(job, f, start[f], now[f], report, faults))
  }

  ghost predicate FamilyDone(job: Job, f: nat, before: Table, after: Table, report: map<string, Counts>, faults: Faults)
    requires f < |SealedFamilies|
  {
    var fam := SealedFamilies[f];
    && !faults.read(f) && job.TableRotatable(fam, f, before, faults)
    && job.TableRotated(fam, before, after, before.Keys)
    && Tallied(job, fam, before, report)
  }

  lemma FamilyNext(job: Job, start: Store, was: Store, now: Store, i: nat, report: map<string, Counts>, c: Counts, faults: Faults)
    requires |start| == |SealedFamilies| && i < |start|
    requires FamiliesDone(job, start, was, i, report, faults)
    requires OthersKept(was, now, i) && !faults.read(i)
    requires job.TableRotatable(SealedFamilies[i], i, start[i], faults)
    requires FamilyRotated(job, SealedFamilies[i], start[i], now[i], c)
    ensures FamiliesDone(job, start, now, i + 1, report[SealedFamilies[i].name := c], faults)
  {
    var next := report[SealedFamilies[i].name := c];
    forall f | 0 <= f < i
      ensures FamilyDone(job, f, start[f], now[f], next, faults)
    {
      FamilyNamesDistinct(f, i);
      assert FamilyDone(job, f, start[f], was[f], report, faults);
    }
    assert FamilyDone(job, i, start[i], now[i], next, faults);
  }

  /** `rotateEncryptionKeyCore`. An error leaves the working copy half written;
      the caller throws it away. */
  method RotateCore(job: Job, tx: Transaction, faults: Faults, entropy: nat -> Nonce)
    returns (r: Result<map<string, Counts>, RotateError>)
    requires |tx.tables| == |SealedFamilies|
    modifies tx
    ensures |tx.tables| == |old(tx.tables)|
    ensures r.Ok? <==> StoreRotatable(job, old(tx.tables), faults)
    ensures r.Ok? ==> StoreRotated(job, old(tx.tables), tx.tables)
    ensures r.Ok? ==> AllTallied(job, old(tx.tables), r.value)
  {
    var report: map<string, Counts> := map[];
    var drawn := 0;
    ghost var start := tx.tables;
    var i := 0;
    while i < |SealedFamilies|
      invariant 0 <= i <= |SealedFamilies|
      invariant FamiliesDone(job, start, tx.tables, i, report, faults)
    {
      if faults.read(i) {
        return Err(ReadFailed);
      }
      var fam := SealedFamilies[i];
      ghost var was := tx.tables;
      var c;
      c, drawn := RotateFamily(job, tx, fam, i, faults, entropy, drawn);
      if c.Err? {
        return Err(c.error);
      }
      FamilyNext(job, start, was, tx.tables, i, report, c.value, faults);
      report := report[fam.name := c.value];
      i := i + 1;
    }
    AllFamiliesDone(job, start, tx.tables, report, faults);
    r := Ok(report);
  }

  ghost predicate AllTallied(job: Job, before: Store, report: map<string, Counts>)
    requires |before| == |SealedFamilies|
  {
    forall f :: 0 <= f < |SealedFamilies| ==> Tallied(job, SealedFamilies[f], before[f], report)
  }

  lemma AllFamiliesDone(job: Job, start: Store, now: Store, report: map<string, Counts>, faults: Faults)
    requires |start| == |SealedFamilies|
    requires FamiliesDone(job, start, now, |start|, report, faults)
    ensures StoreRotatable(job, start, faults) && StoreRotated(job, start, now) && AllTallied(job, start, report)
  {
    forall f | 0 <= f < |SealedFamilies|
      ensures !faults.read(f) && job.TableRotatable(SealedFamilies[f], f, start[f], faults)
      ensures job.TableRotated(SealedFamilies[f], start[f], now[f], start[f].Keys)
      ensures Tallied(job, SealedFamilies[f], start[f], report)
    {
      assert FamilyDone(job, f, start[f], now[f], report, faults);
    }
  }

  // ------------------------------------------------------- Unknown-schema guard

  /** A text or JSON column of the live schema, with the values it holds. */
  datatype Column = Column(tbl: string, col: string, json: bool, values: seq<string>)

  predicate IsFamilyColumn(c: Column) {
    exists i :: 0 <= i < |SealedFamilies| && SealedFamilies[i].table == c.tbl && SealedFamilies[i].column == c.col
  }

  function UnknownColumns(all: seq<Column>): (out: seq<Column>)
    ensures forall c :: c in out <==> c in all && !IsFamilyColumn(c)
  {
    if all == [] then []
    else
      var front, last := all[..|all| - 1], all[|all| - 1];
      assert all == front + [last];
      UnknownColumns(front) + if IsFamilyColumn(last) then [] else [last]
  }

  /** A dotted name with one dot can be read in one way only. */
  lemma DottedNameUnambiguous(a: string, b: string, x: string, y: string)
    requires '.' !in x && '.' !in y
    requires a + "." + b == x + "." + y
    ensures a == x && b == y
  {
    var s, t := a + "." + b, x + "." + y;
    forall i | 0 <= i < |t| && i != |x|
      ensures t[i] != '.'
    {
      assert t[i] == if i < |x| then x[i] else y[i - |x| - 1];
    }
    assert s[|a|] == t[|a|] == '.';
    assert s[..|a|] == a && t[..|x|] == x && s[|a| + 1..] == b && t[|x| + 1..] == y;
  }

  predicate Undotted(f: Family) {
    '.' !in f.table && '.' !in f.column
  }

  lemma KeyAndUserNamesUndotted()
    ensures Undotted(SealedFamilies[0]) && Undotted(SealedFamilies[1])
  {
  }

  lemma PendingNamesUndotted()
    ensures Undotted(SealedFamilies[2])
  {
  }

  lemma StateNamesUndotted()
    ensures Undotted(SealedFamilies[3])
  {
  }

  lemma ProviderNamesUndotted()
    ensures Undotted(SealedFamilies[4])
  {
  }

  lemma FamilyNamesUndotted(i: nat)
    requires i < |SealedFamilies|
    ensures Undotted(SealedFamilies[i])
  {
    KeyAndUserNamesUndotted();
    PendingNamesUndotted();
    StateNamesUndotted();
    ProviderNamesUndotted();
  }

  /** `guardCandidateColumns`: comparing dotted names finds exactly the columns
      outside the family list. */
  method GuardCandidateColumns(all: seq<Column>) returns (out: seq<Column>)
    ensures out == UnknownColumns(all)
  {
    var known: set<string> := {};
    for i := 0 to |SealedFamilies|
      invariant forall s :: s in known <==> exists j :: 0 <= j < i && s == SealedFamilies[j].table + "." + SealedFamilies[j].column
    {
      known := known + {SealedFamilies[i].table + "." + SealedFamilies[i].column};
    }
    out := [];
    for i := 0 to |all|
      invariant out == UnknownColumns(all[..i])
    {
      var c := all[i];
      assert all[..i + 1][..i] == all[..i];
      assert c.tbl + "." + c.col in known <==> IsFamilyColumn(c) by {
        if c.tbl + "." + c.col in known {
          var j :| 0 <= j < |SealedFamilies| && c.tbl + "." + c.col == SealedFamilies[j].table + "." + SealedFamilies[j].column;
          FamilyNamesUndotted(j);
          DottedNameUnambiguous(c.tbl, c.col, SealedFamilies[j].table, SealedFamilies[j].column);
        }
      }
      if c.tbl + "." + c.col !in known {
        out := out + [c];
      }
    }
    assert all[..|all|] == all;
  }

  /** The probe `^v2:[0-9a-f]{16}:`. */
  predicate V2Shaped(s: string) {
    |s| >= 20 && s[..3] == "v2:" && IsKeyId(s[3..19]) && s[19] == ':'
  }

  predicate V1BodyChar(c: char) {
    'A' <= c <= 'Z' || 'a' <= c <= 'z' || '0' <= c <= '9' || c in "_=+/-"
  }

  /** The probe `^v1:[A-Za-z0-9_=+/-]+$`. */
  predicate V1Shaped(s: string) {
    |s| > 3 && s[..3] == "v1:" && forall i :: 3 <= i < |s| ==> V1BodyChar(s[i])
  }

  /** The probe `"v2:[0-9a-f]{16}:` anywhere in a document's text. */
  predicate EmbedsV2(s: string) {
    exists i :: 0 <= i < |s| && s[i] == '"' && V2Shaped(s[i + 1..])
  }

  predicate LooksSealed(c: Column, v: string) {
    if c.json then EmbedsV2(v) else V2Shaped(v) || V1Shaped(v)
  }

  predicate Hit(c: Column) {
    exists i :: 0 <= i < |c.values| && LooksSealed(c, c.values[i])
  }

  /** Whatever the cipher ever wrote in its current format is recognised by the
      guard, in a text column or inside a document, whichever key sealed it. */
  lemma GuardSeesEverySeal(p: Crypto, key: Bytes, nonce: Nonce, plain: string, pre: string, post: string)
    ensures V2Shaped(SealV2(p, key, nonce, plain))
    ensures EmbedsV2(pre + ['"'] + SealV2(p, key, nonce, plain) + post)
  {
    var c := SealV2(p, key, nonce, plain);
    SealedShape(KeyId(p, key), c[20..]);
    assert c == c[..20] + c[20..];
    SealedShape(KeyId(p, key), c[20..] + post);
    var s := pre + ['"'] + c + post;
    assert s[|pre|] == '"';
    assert s[|pre| + 1..] == c + post == "v2:" + KeyId(p, key) + ":" + (c[20..] + post);
  }

  lemma SealedShape(id: string, rest: string)
    requires IsKeyId(id)
    ensures V2Shaped("v2:" + id + ":" + rest)
  {
  }

  // ------------------------------------------------------------- The command

  class Database {
    var tables: Store
    var schema: seq<Column>

    constructor (tables: Store, schema: seq<Column>)
      ensures this.tables == tables && this.schema == schema
    {
      this.tables, this.schema := tables, schema;
    }
  }

  /** `env` holds the key `key`. */
  predicate HoldsKey(prims: Crypto, env: string, key: Bytes) {
    ParseKey(prims, Text.TrimSpace(env)) == Ok(Entry(prims, key))
  }

  /** The rotation the two environment variables ask for, if they are set, well
      formed and different: away from the old one's key, towards the new one's. */
  function JobFor(prims: Crypto, codec: JsonCodec, newEnv: string, oldEnv: string): (r: Option<Job>)
    ensures r.Some? ==> r.value.codec == codec && r.value.rot.prims == prims && r.value.rot.NewId() != r.value.rot.OldId()
    ensures r.Some? ==> HoldsKey(prims, newEnv, r.value.rot.newKey) && HoldsKey(prims, oldEnv, r.value.rot.oldKey)
    ensures r.None? ==> forall n, o :: HoldsKey(prims, newEnv, n) && HoldsKey(prims, oldEnv, o) ==> KeyId(prims, n) == KeyId(prims, o)
  {
    var newKey, oldKey := ParseKey(prims, Text.TrimSpace(newEnv)), ParseKey(prims, Text.TrimSpace(oldEnv));
    if newKey.Err? || oldKey.Err? || newKey.value.id == oldKey.value.id then None
    else Some(Job(Rotor(prims, oldKey.value.material, newKey.value.material), codec))
  }

  /** Installing the old key and swapping the new one in validates both, and
      yields the service that reads with either. */
  method Configure(prims: Crypto, codec: JsonCodec, newEnv: string, oldEnv: string) returns (job: Option<Job>)
    ensures job == JobFor(prims, codec, newEnv, oldEnv)
  {
    var newHex, oldHex := Text.TrimSpace(newEnv), Text.TrimSpace(oldEnv);
    if newHex == "" || oldHex == "" {
      return None;
    }
    var made := CryptoService.New(prims, oldHex);
    if made.Err? {
      return None;
    }
    var cs := made.value;
    var swap := cs.SwapActive(newHex);
    if swap.Err? || !swap.value.2 {
      return None;
    }
    var rot := Rotor(prims, cs.previous[swap.value.0].material, cs.active.material);
    assert cs.Ring() == rot.Both();
    job := Some(Job(rot, codec));
  }

  /** `probeUnknownSealedColumns`: the names of the offending columns. */
  method ProbeUnknownSealedColumns(schema: seq<Column>) returns (hits: seq<string>)
    ensures hits == [] <==> forall c :: c in schema && !IsFamilyColumn(c) ==> !Hit(c)
    ensures forall c :: c in schema && !IsFamilyColumn(c) && Hit(c) ==> c.tbl + "." + c.col in hits
    ensures forall h :: h in hits ==> exists c :: c in schema && !IsFamilyColumn(c) && Hit(c) && h == c.tbl + "." + c.col
  {
    var candidates := GuardCandidateColumns(schema);
    hits := [];
    for i := 0 to |candidates|
      invariant forall j :: 0 <= j < i && Hit(candidates[j]) ==> candidates[j].tbl + "." + candidates[j].col in hits
      invariant hits != [] ==> exists j :: 0 <= j < i && Hit(candidates[j])
      invariant forall h :: h in hits ==>
                  exists j :: 0 <= j < i && Hit(candidates[j]) && h == candidates[j].tbl + "." + candidates[j].col
    {
      if Hit(candidates[i]) {
        hits := hits + [candidates[i].tbl + "." + candidates[i].col];
      }
    }
  }

  /** Nothing stands in the way of rotating the whole database. */
  ghost predicate Unobstructed(job: Job, tables: Store, schema: seq<Column>, faults: Faults)
    requires |tables| == |SealedFamilies|
  {
    && !faults.open && !faults.leaseHeld && !faults.begin && !faults.probe && !faults.commit
    && (forall c :: c in schema && !IsFamilyColumn(c) ==> !Hit(c))
    && StoreRotatable(job, tables, faults)
  }

  /** The locked, single-transaction part: everything is committed or nothing is. */
  method RotateDatabase(job: Job, db: Database, faults: Faults, entropy: nat -> Nonce)
    returns (done: bool, report: map<string, Counts>)
    requires |db.tables| == |SealedFamilies|
    modifies db
    ensures done <==> Unobstructed(job, old(db.tables), old(db.schema), faults)
    ensures db.schema == old(db.schema)
    ensures !done ==> db.tables == old(db.tables)
    ensures done ==> StoreRotated(job, old(db.tables), db.tables)
    ensures done ==> AllTallied(job, old(db.tables), report)
  {
    if faults.open || faults.leaseHeld || faults.begin || faults.probe {
      return false, map[];
    }
    var tx := new Transaction(db.tables);
    var hits := ProbeUnknownSealedColumns(db.schema);
    if |hits| > 0 {
      return false, map[];
    }
    var r := RotateCore(job, tx, faults, entropy);
    if r.Err? || faults.commit {
      return false, map[];
    }
    db.tables := tx.tables;
    return true, r.value;
  }

  /** `dispatchRotateEncryptionKey`: 0 done, 1 refused or failed, 2 misconfigured. */
  method Dispatch(prims: Crypto, codec: JsonCodec, urlGiven: bool, newEnv: string, oldEnv: string, db: Database,
                  faults: Faults, entropy: nat -> Nonce)
    returns (rc: int, report: map<string, Counts>, job: Option<Job>)
    requires |db.tables| == |SealedFamilies|
    modifies db
    ensures job.Some? ==>
              && job.value.codec == codec && job.value.rot.prims == prims
              && HoldsKey(prims, newEnv, job.value.rot.newKey) && HoldsKey(prims, oldEnv, job.value.rot.oldKey)
              && job.value.rot.NewId() != job.value.rot.OldId()
    ensures job.None? <==>
              !urlGiven || forall n, o :: HoldsKey(prims, newEnv, n) && HoldsKey(prims, oldEnv, o) ==> KeyId(prims, n) == KeyId(prims, o)
    ensures rc == if job.None? then 2 else if Unobstructed(job.value, old(db.tables), old(db.schema), faults) then 0 else 1
    ensures rc == 0 ==>
              && !faults.open && !faults.leaseHeld && !faults.begin && !faults.probe && !faults.commit
              && (forall c, i :: c in old(db.schema) && !IsFamilyColumn(c) && 0 <= i < |c.values| ==> !LooksSealed(c, c.values[i]))
              && (forall f :: 0 <= f < |SealedFamilies| ==> !faults.read(f))
    ensures db.schema == old(db.schema)
    ensures rc != 0 ==> db.tables == old(db.tables)
    ensures rc == 0 ==> StoreRotated(job.value, old(db.tables), db.tables)
    ensures rc == 0 ==> AllTallied(job.value, old(db.tables), report)
  {
    if !urlGiven {
      return 2, map[], None;
    }
    job := Configure(prims, codec, newEnv, oldEnv);
    if job.None? {
      return 2, map[], job;
    }
    var done;
    done, report := RotateDatabase(job.value, db, faults, entropy);
    rc := if done then 0 else 1;
  }
}
