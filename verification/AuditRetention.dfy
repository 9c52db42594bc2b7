/** Retiring expired audit entries in archived chunks (internal/audit/manager.go). */
module AuditRetention {
  import opened Wrappers
  import opened Text
  import opened AuditChain
  import opened AuditOrder
  import opened AuditWindow
  import opened AuditTies

  const DEFAULT_RETENTION_CHUNK: nat := 5000
  const MAX_RETENTION_CHUNKS := 200

  /** effectiveRetentionDays: the shorter of the settings that are set, 0 for none. */
  function EffectiveRetentionDays(auditDays: int, logDays: int): (days: int)
    ensures days > 0 <==> auditDays > 0 || logDays > 0
    ensures auditDays > 0 ==> days <= auditDays
    ensures logDays > 0 ==> days <= logDays
    ensures days > 0 ==> days == auditDays || days == logDays
  {
    if auditDays <= 0 then if logDays > 0 then logDays else 0
    else if logDays <= 0 then auditDays
    else if auditDays < logDays then auditDays else logDays
  }

  /** Where one chunk is cut short, if it is.  A stop after the archive is complete
      and before the rows are gone is a failed delete. */
  datatype Trouble = Fine | ReadFails | ArchiveFails | DeleteFails

  datatype Store = Store(rows: seq<Entry>, archives: seq<seq<Entry>>)

  /** readExpired: WHERE timestamp < cutoff, in order, at most `n`. */
  function Expired(rows: seq<Entry>, cutoff: int, n: nat): seq<Entry> {
    if rows == [] || n == 0 then []
    else if rows[0].timestamp < cutoff then [rows[0]] + Expired(rows[1..], cutoff, n - 1)
    else Expired(rows[1..], cutoff, n)
  }

  function Ids(es: seq<Entry>): set<string> {
    set e | e in es :: e.id
  }

  /** deleteEntries: DELETE WHERE id IN (...). */
  function Without(rows: seq<Entry>, ids: set<string>): seq<Entry> {
    if rows == [] then []
    else (if rows[0].id in ids then [] else [rows[0]]) + Without(rows[1..], ids)
  }

  /** What retireChunk leaves, and how many rows it deleted (None when it failed). */
  function RetiredChunk(st: Store, cutoff: int, archive: bool, size: nat, t: Trouble): (Store, Option<nat>) {
    if t.ReadFails? then (st, None)
    else
      var logs := Expired(st.rows, cutoff, size);
      if logs == [] then (st, Some(0))
      else if archive && t.ArchiveFails? then (st, None)
      else
        var st' := if archive then st.(archives := st.archives + [logs]) else st;
        if t.DeleteFails? then (st', None)
        else (st'.(rows := Without(st.rows, Ids(logs))), Some(|logs|))
  }

  class AuditStore {
    var rows: seq<Entry>
    var archives: seq<seq<Entry>>
    const chunkSize: nat

    constructor (rows: seq<Entry>, retentionChunk: int)
      ensures this.rows == rows && archives == []
      ensures chunkSize == if retentionChunk > 0 then retentionChunk else DEFAULT_RETENTION_CHUNK
    {
      this.rows := rows;
      archives := [];
      chunkSize := if retentionChunk > 0 then retentionChunk else DEFAULT_RETENTION_CHUNK;
    }

    method RetireChunk(cutoff: int, archive: bool, t: Trouble) returns (deleted: Option<nat>)
      modifies this
      ensures (Store(rows, archives), deleted)
              == RetiredChunk(old(Store(rows, archives)), cutoff, archive, chunkSize, t)
    {
      if t.ReadFails? {
        return None;
      }
      var logs := Expired(rows, cutoff, chunkSize);
      if logs == [] {
        return Some(0);
      }
      if archive {
        if t.ArchiveFails? {
          return None;
        }
        archives := archives + [logs];
      }
      if t.DeleteFails? {
        return None;
      }
      rows := Without(rows, Ids(logs));
      return Some(|logs|);
    }

    /** checkRetention: chunks until one fails, comes up short, or the run is long enough. */
    method CheckRetention(cutoff: int, archive: bool, trouble: nat -> Trouble) returns (ghost chunks: nat)
      modifies this
      ensures 0 < chunks <= MAX_RETENTION_CHUNKS
      ensures Store(rows, archives) == Chunks(old(Store(rows, archives)), cutoff, archive, chunkSize, trouble, chunks)
      ensures NeverStops(old(Store(rows, archives)), cutoff, archive, chunkSize, trouble, chunks - 1)
      ensures chunks == MAX_RETENTION_CHUNKS
              || Stops(old(Store(rows, archives)), cutoff, archive, chunkSize, trouble, chunks - 1)
    {
      hide RetiredChunk;
      ghost var st := Store(rows, archives);
      chunks := 0;
      for i := 0 to MAX_RETENTION_CHUNKS
        invariant chunks == i
        invariant Store(rows, archives) == Chunks(st, cutoff, archive, chunkSize, trouble, i)
        invariant NeverStops(st, cutoff, archive, chunkSize, trouble, i)
      {
        var n := RetireChunk(cutoff, archive, trouble(i));
        chunks := chunks + 1;
        if n.None? || n.value < chunkSize {
          break;
        }
      }
    }
  }

  /** Chunk `i` of a pass fails or comes up short. */
  ghost predicate Stops(st: Store, cutoff: int, archive: bool, size: nat, trouble: nat -> Trouble, i: nat) {
    var n := RetiredChunk(Chunks(st, cutoff, archive, size, trouble, i), cutoff, archive, size, trouble(i)).1;
    n.None? || n.value < size
  }

  /** The store after `n` chunks of one pass. */
  function Chunks(st: Store, cutoff: int, archive: bool, size: nat, trouble: nat -> Trouble, n: nat): Store {
    if n == 0 then st
    else RetiredChunk(Chunks(st, cutoff, archive, size, trouble, n - 1), cutoff, archive, size, trouble(n - 1)).0
  }

  // ----- A chunk deletes a prefix -----

  lemma {:induction false} ExpiredIsPrefix(rows: seq<Entry>, cutoff: int, n: nat)
    requires TimeSorted(rows)
    ensures var logs := Expired(rows, cutoff, n);
            && |logs| <= |rows| && logs == rows[..|logs|] && |logs| <= n
            && (forall i :: 0 <= i < |logs| ==> logs[i].timestamp < cutoff)
            && (|logs| < n && |logs| < |rows| ==> rows[|logs|].timestamp >= cutoff)
    decreases |rows|
  {
    if rows != [] && n > 0 {
      var t := rows[1..];
      assert TimeSorted(t) by {
        forall i, j | 0 <= i < j < |t| ensures t[i].timestamp <= t[j].timestamp {
          assert t[i] == rows[i + 1] && t[j] == rows[j + 1];
        }
      }
      if rows[0].timestamp < cutoff {
        ExpiredIsPrefix(t, cutoff, n - 1);
        var logs := Expired(t, cutoff, n - 1);
        assert rows[..|logs| + 1] == [rows[0]] + t[..|logs|];
      } else {
        assert forall i :: 0 <= i < |t| ==> t[i] == rows[i + 1] && t[i].timestamp >= cutoff;
        NoneExpired(t, cutoff, n);
      }
    }
  }

  lemma {:induction false} NoneExpired(rows: seq<Entry>, cutoff: int, n: nat)
    requires forall i :: 0 <= i < |rows| ==> rows[i].timestamp >= cutoff
    ensures Expired(rows, cutoff, n) == []
    decreases |rows|
  {
    if rows != [] && n > 0 { NoneExpired(rows[1..], cutoff, n); }
  }

  lemma {:induction false} WithoutNone(rows: seq<Entry>, ids: set<string>)
    requires forall i :: 0 <= i < |rows| ==> rows[i].id !in ids
    ensures Without(rows, ids) == rows
    decreases |rows|
  {
    if rows != [] {
      assert rows[1..] == rows[1..][0..];
      WithoutNone(rows[1..], ids);
    }
  }

  lemma {:induction false} WithoutPrefix(rows: seq<Entry>, ids: set<string>, m: nat)
    requires m <= |rows|
    requires forall i :: 0 <= i < m ==> rows[i].id in ids
    requires forall i :: m <= i < |rows| ==> rows[i].id !in ids
    ensures Without(rows, ids) == rows[m..]
    decreases m
  {
    if m == 0 {
      WithoutNone(rows, ids);
    } else {
      assert rows[1..][m - 1..] == rows[m..];
      WithoutPrefix(rows[1..], ids, m - 1);
    }
  }

  lemma LogIsTimeSorted(log: seq<Entry>)
    requires IsLog(log)
    ensures TimeSorted(log)
  {
    forall i, j | 0 <= i < j < |log| ensures log[i].timestamp <= log[j].timestamp {
      assert RowBefore(log[i], log[j]);
    }
  }

  lemma SuffixIsLog(log: seq<Entry>, k: nat)
    requires IsLog(log) && k <= |log|
    ensures IsLog(log[k..])
  {
    forall i, j | 0 <= i < j < |log[k..]|
      ensures RowBefore(log[k..][i], log[k..][j]) && log[k..][i].id != log[k..][j].id
    {
      assert log[k..][i] == log[k + i] && log[k..][j] == log[k + j];
    }
  }

  /** A chunk that works archives and deletes the oldest expired rows, all of them up to its size; one
      that fails leaves the rows alone, with or without an archive of them. */
  lemma ChunkDeletesPrefix(st: Store, cutoff: int, archive: bool, size: nat, t: Trouble) returns (m: nat)
    requires IsLog(st.rows)
    ensures var (st', n) := RetiredChunk(st, cutoff, archive, size, t);
            && m <= |st.rows| && m <= size && st'.rows == st.rows[m..]
            && (forall i :: 0 <= i < m ==> st.rows[i].timestamp < cutoff)
            && (st'.archives == st.archives
                || (archive && st'.archives == st.archives + [Expired(st.rows, cutoff, size)]))
            && (m > 0 && archive ==> st'.archives == st.archives + [st.rows[..m]])
            && (n.None? ==> m == 0)
            && (n.Some? ==> n.value == m && (m == size || NothingExpired(st'.rows, cutoff)))
            && (n.None? <==> t.ReadFails? || (Expired(st.rows, cutoff, size) != []
                                              && (t.DeleteFails? || (archive && t.ArchiveFails?))))
  {
    var logs := Expired(st.rows, cutoff, size);
    ExpiredAreTheFirst(st.rows, cutoff, size);
    hide IsLog, Expired, Without, Ids, NothingExpired;
    m := if RetiredChunk(st, cutoff, archive, size, t).1.Some? then |logs| else 0;
    assert st.rows[0..] == st.rows;
  }

  lemma ExpiredAreTheFirst(rows: seq<Entry>, cutoff: int, size: nat)
    requires IsLog(rows)
    ensures var logs := Expired(rows, cutoff, size);
            && |logs| <= |rows| && |logs| <= size && logs == rows[..|logs|]
            && (forall i :: 0 <= i < |logs| ==> rows[i].timestamp < cutoff)
            && Without(rows, Ids(logs)) == rows[|logs|..]
            && (|logs| < size ==> NothingExpired(rows[|logs|..], cutoff))
  {
    var logs := Expired(rows, cutoff, size);
    LogIsTimeSorted(rows);
    ExpiredIsPrefix(rows, cutoff, size);
    RestIsNotExpired(rows, cutoff, |logs|);
    WithoutLogs(rows, logs);
    hide IsLog, Expired, Without, Ids, NothingExpired;
    assert forall i :: 0 <= i < |logs| ==> rows[i] == logs[i];
  }

  ghost predicate NothingExpired(rows: seq<Entry>, cutoff: int) {
    forall i :: 0 <= i < |rows| ==> rows[i].timestamp >= cutoff
  }

  lemma RestIsNotExpired(rows: seq<Entry>, cutoff: int, m: nat)
    requires TimeSorted(rows) && m <= |rows|
    ensures (m < |rows| ==> rows[m].timestamp >= cutoff) ==> NothingExpired(rows[m..], cutoff)
  {
    forall i | 0 <= i < |rows[m..]| ensures rows[m..][i].timestamp >= rows[m].timestamp {
      assert rows[m..][i] == rows[m + i];
    }
  }

  lemma WithoutLogs(rows: seq<Entry>, logs: seq<Entry>)
    requires IsLog(rows) && |logs| <= |rows| && logs == rows[..|logs|]
    ensures Without(rows, Ids(logs)) == rows[|logs|..]
  {
    forall i | 0 <= i < |logs| ensures rows[i].id in Ids(logs) {
      assert rows[i] == logs[i] && logs[i] in logs;
    }
    WithoutPrefix(rows, Ids(logs), |logs|);
  }

  /** One chunk more of a pass that has deleted the first `before` rows. */
  lemma PassStep(rows: seq<Entry>, before: nat, mid: Store, cutoff: int, archive: bool, size: nat, t: Trouble)
        returns (m: nat)
    requires IsLog(rows) && before <= |rows| && mid.rows == rows[before..]
    ensures var (st', n) := RetiredChunk(mid, cutoff, archive, size, t);
            && before <= m <= |rows| && st'.rows == rows[m..]
            && (forall i :: before <= i < m ==> rows[i].timestamp < cutoff)
            && (n.Some? && n.value >= size ==> m == before + size)
            && (t.Fine? && !(n.Some? && n.value >= size) ==> NothingExpired(rows[m..], cutoff))
  {
    SuffixIsLog(rows, before);
    var more := ChunkDeletesPrefix(mid, cutoff, archive, size, t);
    hide RetiredChunk, IsLog, NothingExpired, Expired;
    m := before + more;
    DropTwice(rows, before, more);
    forall i | before <= i < m ensures rows[i].timestamp < cutoff {
      assert mid.rows[i - before] == rows[i];
    }
  }

  ghost predicate NeverStops(st: Store, cutoff: int, archive: bool, size: nat, trouble: nat -> Trouble, n: nat) {
    forall i: nat :: i < n ==> !Stops(st, cutoff, archive, size, trouble, i)
  }

  /** A pass deletes the oldest expired rows.  If every chunk works it leaves nothing expired, or has
      filled every chunk it may take. */
  lemma {:induction false} PassDeletesPrefix(st: Store, cutoff: int, archive: bool, size: nat,
        trouble: nat -> Trouble, n: nat) returns (m: nat)
    requires IsLog(st.rows)
    ensures m <= |st.rows| && Chunks(st, cutoff, archive, size, trouble, n).rows == st.rows[m..]
    ensures forall i :: 0 <= i < m ==> st.rows[i].timestamp < cutoff
    ensures NeverStops(st, cutoff, archive, size, trouble, n) ==> m == Full(n, size)
    ensures n > 0 && trouble(n - 1).Fine? && Stops(st, cutoff, archive, size, trouble, n - 1) ==>
              NothingExpired(st.rows[m..], cutoff)
  {
    m := 0;
    if n == 0 {
      assert st.rows[0..] == st.rows;
    } else {
      hide RetiredChunk, IsLog, NothingExpired;
      var before := PassDeletesPrefix(st, cutoff, archive, size, trouble, n - 1);
      m := PassStep(st.rows, before, Chunks(st, cutoff, archive, size, trouble, n - 1), cutoff, archive, size,
          trouble(n - 1));
      FullStep(n - 1, size);
      if NeverStops(st, cutoff, archive, size, trouble, n) {
        assert !Stops(st, cutoff, archive, size, trouble, n - 1);
      }
    }
  }

  /** So a pass as checkRetention makes it, none of whose chunks fails, leaves nothing expired unless
      it has retired its most: every chunk it may take, full. */
  lemma PassRetiresWhatExpired(st: Store, cutoff: int, archive: bool, size: nat, trouble: nat -> Trouble, n: nat)
        returns (m: nat)
    requires IsLog(st.rows) && 0 < n <= MAX_RETENTION_CHUNKS && forall i: nat :: trouble(i).Fine?
    requires NeverStops(st, cutoff, archive, size, trouble, n - 1)
    requires n == MAX_RETENTION_CHUNKS || Stops(st, cutoff, archive, size, trouble, n - 1)
    ensures m <= |st.rows| && Chunks(st, cutoff, archive, size, trouble, n).rows == st.rows[m..]
    ensures forall i :: 0 <= i < m ==> st.rows[i].timestamp < cutoff
    ensures NothingExpired(st.rows[m..], cutoff) || m == Full(MAX_RETENTION_CHUNKS, size)
  {
    m := PassDeletesPrefix(st, cutoff, archive, size, trouble, n);
    if !Stops(st, cutoff, archive, size, trouble, n - 1) {
      assert NeverStops(st, cutoff, archive, size, trouble, n) by {
        forall i: nat | i < n ensures !Stops(st, cutoff, archive, size, trouble, i) {
          assert i < n - 1 || i == n - 1;
        }
      }
    }
    hide *;
  }

  /** `n` full chunks. */
  function Full(n: nat, size: nat): nat {
    if n == 0 then 0 else Full(n - 1, size) + size
  }

  lemma FullStep(n: nat, size: nat)
    ensures Full(n + 1, size) == Full(n, size) + size && Full(0, size) == 0
  {
  }

  lemma DropTwice(rows: seq<Entry>, a: nat, b: nat)
    requires a + b <= |rows|
    ensures rows[a..][b..] == rows[a + b..]
  {
  }

  // ----- Whole runs -----

  /** Retention chunks, each of any pass with any cutoff, and entries inserted meanwhile, in
      whatever order of their stamps. */
  datatype Event = Retire(cutoff: int, size: nat, trouble: Trouble) | Insert(entry: Entry)

  /** The rows with one more, in (timestamp, id) order. */
  function InsertRow(rows: seq<Entry>, e: Entry): (r: seq<Entry>)
    ensures |r| == |rows| + 1
  {
    if rows == [] || RowBefore(e, rows[0]) then [e] + rows else [rows[0]] + InsertRow(rows[1..], e)
  }

  function Apply(st: Store, e: Event): Store {
    match e
    case Retire(cutoff, size, t) => RetiredChunk(st, cutoff, true, size, t).0
    case Insert(entry) => st.(rows := InsertRow(st.rows, entry))
  }

  function RunFrom(st: Store, events: seq<Event>): Store {
    if events == [] then st else Apply(RunFrom(st, events[..|events| - 1]), events[|events| - 1])
  }

  /** Everything that was in the log at the start or inserted since, in order. */
  function Written(rows: seq<Entry>, events: seq<Event>): seq<Entry> {
    if events == [] then rows
    else
      var e := events[|events| - 1];
      var before := Written(rows, events[..|events| - 1]);
      if e.Insert? then InsertRow(before, e.entry) else before
  }

  /** Every entry is inserted under a new id. */
  ghost predicate FreshAt(rows: seq<Entry>, events: seq<Event>, j: nat)
    requires j < |events|
  {
    events[j].Insert? ==>
      events[j].entry.id != "" && forall e :: e in Written(rows, events[..j]) ==> e.id != events[j].entry.id
  }

  ghost predicate FreshInserts(rows: seq<Entry>, events: seq<Event>) {
    forall j :: 0 <= j < |events| ==> FreshAt(rows, events, j)
  }

  /** Entry `d` was there and is gone when event `j` happens. */
  ghost predicate DeletedBefore(st: Store, events: seq<Event>, j: nat, d: Entry)
    requires j <= |events|
  {
    d in Written(st.rows, events[..j]) && d !in RunFrom(st, events[..j]).rows
  }

  /** What is inserted at `j` comes after everything deleted by then. */
  ghost predicate AfterDeletedAt(st: Store, events: seq<Event>, j: nat)
    requires j < |events|
  {
    events[j].Insert? ==> forall d :: DeletedBefore(st, events, j, d) ==> RowBefore(d, events[j].entry)
  }

  ghost predicate InsertsAfterDeleted(st: Store, events: seq<Event>) {
    forall j :: 0 <= j < |events| ==> AfterDeletedAt(st, events, j)
  }

  /** An entry is inserted before it has expired for any pass so far. */
  ghost predicate InTimeAt(events: seq<Event>, j: nat)
    requires j < |events|
  {
    events[j].Insert? ==> forall i :: 0 <= i < j && events[i].Retire? ==> events[i].cutoff <= events[j].entry.timestamp
  }

  ghost predicate InsertedInTime(events: seq<Event>) {
    forall j :: 0 <= j < |events| ==> InTimeAt(events, j)
  }

  ghost predicate Archived(archives: seq<seq<Entry>>, e: Entry) {
    exists a :: 0 <= a < |archives| && e in archives[a]
  }

  ghost predicate BeforeSomeCutoff(events: seq<Event>, e: Entry) {
    exists i :: 0 <= i < |events| && events[i].Retire? && e.timestamp < events[i].cutoff
  }

  /** The first `k` entries of the log are archived, expired and gone; the rest are there. */
  ghost predicate Retained(log: seq<Entry>, st: Store, events: seq<Event>, k: nat) {
    && k <= |log| && st.rows == log[k..]
    && forall i :: 0 <= i < k ==> Archived(st.archives, log[i]) && BeforeSomeCutoff(events, log[i])
  }

  lemma ArchivedStays(archives: seq<seq<Entry>>, more: seq<seq<Entry>>, e: Entry)
    requires Archived(archives, e)
    ensures Archived(archives + more, e)
  {
    var a :| 0 <= a < |archives| && e in archives[a];
    assert (archives + more)[a] == archives[a];
  }

  lemma BeforeCutoffStays(events: seq<Event>, e: Entry)
    requires events != [] && BeforeSomeCutoff(events[..|events| - 1], e)
    ensures BeforeSomeCutoff(events, e)
  {
    var i :| 0 <= i < |events| - 1 && events[..|events| - 1][i].Retire?
        && e.timestamp < events[..|events| - 1][i].cutoff;
    assert events[i].Retire?;
  }

  lemma RetireStep(log: seq<Entry>, st: Store, events: seq<Event>, k: nat) returns (k': nat)
    requires events != [] && events[|events| - 1].Retire? && IsLog(log)
    requires Retained(log, st, events[..|events| - 1], k)
    ensures Retained(log, Apply(st, events[|events| - 1]), events, k')
  {
    var e := events[|events| - 1];
    SuffixIsLog(log, k);
    var m := ChunkDeletesPrefix(st, e.cutoff, true, e.size, e.trouble);
    var st' := Apply(st, e);
    k' := k + m;
    assert log[k..][m..] == log[k'..];
    forall i | 0 <= i < k' ensures Archived(st'.archives, log[i]) && BeforeSomeCutoff(events, log[i]) {
      if i < k {
        BeforeCutoffStays(events, log[i]);
        if st'.archives != st.archives {
          ArchivedStays(st.archives, [Expired(st.rows, e.cutoff, e.size)], log[i]);
        }
      } else {
        assert log[i] == st.rows[i - k];
        assert st.rows[..m][i - k] == log[i];
        assert st'.archives[|st.archives|] == st.rows[..m];
        assert BeforeSomeCutoff(events, log[i]);
      }
    }
  }

  lemma RowBeforeTransitive(a: Entry, b: Entry, c: Entry)
    requires RowBefore(a, b) && RowBefore(b, c)
    ensures RowBefore(a, c)
  {
    if a.timestamp == c.timestamp { LexTransitive(a.id, b.id, c.id); }
  }

  lemma RowBeforeTotal(a: Entry, b: Entry)
    requires a.id != b.id
    ensures RowBefore(a, b) <==> !RowBefore(b, a)
  {
    LexTotal(a.id, b.id);
  }

  /** Where a row goes. */
  lemma {:induction false} InsertPlace(rows: seq<Entry>, e: Entry) returns (p: nat)
    requires IsLog(rows) && forall d :: d in rows ==> d.id != e.id
    ensures p <= |rows| && InsertRow(rows, e) == rows[..p] + [e] + rows[p..]
    ensures forall i :: 0 <= i < p ==> RowBefore(rows[i], e)
    ensures forall i :: p <= i < |rows| ==> RowBefore(e, rows[i])
  {
    hide RowBefore, IsLog;
    if rows == [] || RowBefore(e, rows[0]) {
      p := 0;
      BeforeAll(rows, e);
    } else {
      RowBeforeTotal(e, rows[0]);
      TailIsLog(rows);
      var q := InsertPlace(rows[1..], e);
      p := q + 1;
      ShiftPlace(rows, e, q);
      forall i | 0 <= i < |rows| ensures i < p ==> RowBefore(rows[i], e) ensures i >= p ==> RowBefore(e, rows[i]) {
        assert i > 0 ==> rows[i] == rows[1..][i - 1];
      }
    }
  }

  lemma BeforeAll(rows: seq<Entry>, e: Entry)
    requires IsLog(rows) && (rows == [] || RowBefore(e, rows[0]))
    ensures forall i :: 0 <= i < |rows| ==> RowBefore(e, rows[i])
  {
    hide RowBefore;
    forall i | 0 <= i < |rows| ensures RowBefore(e, rows[i]) {
      if i > 0 { RowBeforeTransitive(e, rows[0], rows[i]); }
    }
  }

  lemma ShiftPlace(rows: seq<Entry>, e: Entry, q: nat)
    requires rows != [] && q < |rows|
    ensures [rows[0]] + (rows[1..][..q] + [e] + rows[1..][q..]) == rows[..q + 1] + [e] + rows[q + 1..]
  {
    assert rows[..q + 1] == [rows[0]] + rows[1..][..q] && rows[q + 1..] == rows[1..][q..];
  }

  lemma InsertKeepsLog(rows: seq<Entry>, e: Entry)
    requires IsLog(rows) && e.id != "" && forall d :: d in rows ==> d.id != e.id
    ensures IsLog(InsertRow(rows, e))
  {
    var p := InsertPlace(rows, e);
    var r := rows[..p] + [e] + rows[p..];
    forall i, j | 0 <= i < j < |r| ensures RowBefore(r[i], r[j]) && r[i].id != r[j].id {
      assert i < p ==> r[i] == rows[i];
      assert i > p ==> r[i] == rows[i - 1];
      assert j < p ==> r[j] == rows[j];
      assert j > p ==> r[j] == rows[j - 1];
    }
    forall i | 0 <= i < |r| ensures r[i].id != "" {
      assert i < p ==> r[i] == rows[i];
      assert i > p ==> r[i] == rows[i - 1];
    }
  }

  /** A row that comes after the first `k` goes among the rest. */
  lemma {:induction false} InsertAfter(log: seq<Entry>, e: Entry, k: nat)
    requires k <= |log| && forall i :: 0 <= i < k ==> RowBefore(log[i], e)
    ensures InsertRow(log, e)[..k] == log[..k] && InsertRow(log, e)[k..] == InsertRow(log[k..], e)
    decreases k
  {
    if k == 0 {
      assert log[0..] == log;
    } else {
      RowBeforeIrreflexive(log[0], e);
      InsertAfter(log[1..], e, k - 1);
      assert log[1..][k - 1..] == log[k..];
      var r := InsertRow(log[1..], e);
      assert InsertRow(log, e) == [log[0]] + r;
      assert ([log[0]] + r)[k..] == r[k - 1..] && ([log[0]] + r)[..k] == [log[0]] + r[..k - 1];
      assert log[..k] == [log[0]] + log[1..][..k - 1];
    }
  }

  /** One insert into a log of which the first `k` entries are gone. */
  lemma InsertStep(log: seq<Entry>, st: Store, events: seq<Event>, k: nat, entry: Entry)
    requires events != [] && events[|events| - 1] == Insert(entry)
    requires Retained(log, st, events[..|events| - 1], k) && forall i :: 0 <= i < k ==> RowBefore(log[i], entry)
    ensures Retained(InsertRow(log, entry), Apply(st, Insert(entry)), events, k)
  {
    forall i | 0 <= i < k ensures BeforeSomeCutoff(events, log[i]) { BeforeCutoffStays(events, log[i]); }
    InsertAfter(log, entry, k);
    hide InsertRow, BeforeSomeCutoff, Archived;
    forall i | 0 <= i < k ensures InsertRow(log, entry)[i] == log[i] {
      assert InsertRow(log, entry)[..k][i] == log[..k][i];
    }
  }

  /** Conversely, the rows are a suffix afterwards only if the entry comes after those gone. */
  lemma InsertStepBack(log: seq<Entry>, k: nat, entry: Entry, k': nat)
    requires IsLog(log) && k <= |log| && forall d :: d in log ==> d.id != entry.id
    requires k' <= |log| + 1 && InsertRow(log[k..], entry) == InsertRow(log, entry)[k'..]
    ensures forall i :: 0 <= i < k ==> RowBefore(log[i], entry)
  {
    SuffixIsLog(log, k);
    var p := InsertPlace(log, entry);
    var q := InsertPlace(log[k..], entry);
    hide IsLog, RowBefore, InsertRow;
    var all := log[..p] + [entry] + log[p..];
    assert |InsertRow(log[k..], entry)| == |log| - k + 1 && k' == k;
    assert (log[k..][..q] + [entry] + log[k..][q..])[q] == entry;
    assert all[k..][q] == all[k + q] == entry;
    forall t | 0 <= t < p ensures all[t] != entry { assert all[t] == log[t] && log[t] in log; }
  }

  lemma FreshPrefix(rows: seq<Entry>, events: seq<Event>, n: nat)
    requires n <= |events| && FreshInserts(rows, events)
    ensures FreshInserts(rows, events[..n])
  {
    hide Written;
    forall j | 0 <= j < n ensures FreshAt(rows, events[..n], j) {
      assert FreshAt(rows, events, j) && events[..n][..j] == events[..j];
    }
  }

  lemma AfterDeletedPrefix(st: Store, events: seq<Event>, n: nat)
    requires n <= |events| && InsertsAfterDeleted(st, events)
    ensures InsertsAfterDeleted(st, events[..n])
  {
    hide Written, RunFrom;
    forall j | 0 <= j < n ensures AfterDeletedAt(st, events[..n], j) {
      assert AfterDeletedAt(st, events, j) && events[..n][..j] == events[..j];
    }
  }

  lemma {:induction false} WrittenIsLog(rows: seq<Entry>, events: seq<Event>)
    requires IsLog(rows) && FreshInserts(rows, events)
    ensures IsLog(Written(rows, events))
    decreases |events|
  {
    if events != [] {
      var n := |events| - 1;
      FreshPrefix(rows, events, n);
      WrittenIsLog(rows, events[..n]);
      assert FreshAt(rows, events, n);
      hide IsLog, InsertRow;
      if events[n].Insert? { InsertKeepsLog(Written(rows, events[..n]), events[n].entry); }
    }
  }

  /** What is gone is the part of the log before the rows. */
  lemma GoneIsThePrefix(st: Store, events: seq<Event>, n: nat, k: nat, i: nat)
    requires n <= |events| && IsLog(Written(st.rows, events[..n]))
    requires Retained(Written(st.rows, events[..n]), RunFrom(st, events[..n]), events[..n], k) && i < k
    ensures DeletedBefore(st, events, n, Written(st.rows, events[..n])[i])
  {
    hide Written, RunFrom, RowBefore, Archived, BeforeSomeCutoff;
    var log := Written(st.rows, events[..n]);
    forall j | 0 <= j < |log[k..]| ensures log[k..][j] != log[i] { assert log[k..][j] == log[k + j]; }
  }

  /** Over any run, with entries inserted in any order as long as each comes after everything
      deleted by then: the log stays in order, and what is left of it is a suffix. */
  lemma {:induction false} RunRetains(st: Store, events: seq<Event>) returns (k: nat)
    requires IsLog(st.rows) && FreshInserts(st.rows, events) && InsertsAfterDeleted(st, events)
    ensures IsLog(Written(st.rows, events))
    ensures Retained(Written(st.rows, events), RunFrom(st, events), events, k)
    decreases |events|
  {
    WrittenIsLog(st.rows, events);
    if events == [] {
      k := 0;
    } else {
      var n := |events| - 1;
      var front, e := events[..n], events[n];
      var log := Written(st.rows, front);
      FreshPrefix(st.rows, events, n);
      AfterDeletedPrefix(st, events, n);
      k := RunRetains(st, front);
      assert AfterDeletedAt(st, events, n);
      hide IsLog, FreshInserts, InsertsAfterDeleted, DeletedBefore, Retained, InsertRow, RowBefore;
      if e.Retire? {
        k := RetireStep(log, RunFrom(st, front), events, k);
      } else {
        InsertRetains(st, events, k);
      }
    }
  }

  lemma InsertRetains(st: Store, events: seq<Event>, k: nat)
    requires events != [] && events[|events| - 1].Insert? && IsLog(Written(st.rows, events[..|events| - 1]))
    requires AfterDeletedAt(st, events, |events| - 1)
    requires Retained(Written(st.rows, events[..|events| - 1]), RunFrom(st, events[..|events| - 1]),
            events[..|events| - 1], k)
    ensures Retained(Written(st.rows, events), RunFrom(st, events), events, k)
  {
    var n := |events| - 1;
    var log := Written(st.rows, events[..n]);
    assert k <= |log|;
    forall i | 0 <= i < k ensures RowBefore(log[i], events[n].entry) { GoneIsThePrefix(st, events, n, k, i); }
    hide IsLog, AfterDeletedAt, Retained, InsertRow, RowBefore;
    InsertStep(log, RunFrom(st, events[..n]), events, k, events[n].entry);
  }

  /** At every moment the rows are a suffix of what was written, the rest archived and expired. */
  ghost predicate AlwaysRetained(st: Store, events: seq<Event>) {
    forall n :: 0 <= n <= |events| ==> RetainedAfter(st, events, n)
  }

  ghost predicate RetainedAfter(st: Store, events: seq<Event>, n: nat)
    requires n <= |events|
  {
    exists k: nat :: Retained(Written(st.rows, events[..n]), RunFrom(st, events[..n]), events[..n], k)
  }

  /** The exact condition, for every run: at every moment what is left is a suffix of what was
      written, with the rest archived and expired, if and only if every entry inserted comes
      after all that had been deleted by then. */
  lemma RunRetainsExactlyWhen(st: Store, events: seq<Event>)
    requires IsLog(st.rows) && FreshInserts(st.rows, events)
    ensures AlwaysRetained(st, events) <==> InsertsAfterDeleted(st, events)
  {
    hide IsLog, FreshInserts, RetainedAfter, AfterDeletedAt, Retained;
    if InsertsAfterDeleted(st, events) {
      forall n | 0 <= n <= |events| ensures RetainedAfter(st, events, n) {
        FreshPrefix(st.rows, events, n);
        AfterDeletedPrefix(st, events, n);
        var k := RunRetains(st, events[..n]);
        ItIsRetained(st, events, n, k);
      }
    }
    if AlwaysRetained(st, events) {
      forall j | 0 <= j < |events| ensures AfterDeletedAt(st, events, j) {
        assert RetainedAfter(st, events, j) && RetainedAfter(st, events, j + 1);
        RetainedNeedsAfterDeleted(st, events, j);
      }
    }
  }

  lemma ItIsRetained(st: Store, events: seq<Event>, n: nat, k: nat)
    requires n <= |events|
    requires Retained(Written(st.rows, events[..n]), RunFrom(st, events[..n]), events[..n], k)
    ensures RetainedAfter(st, events, n)
  {
  }

  lemma RetainedNeedsAfterDeleted(st: Store, events: seq<Event>, j: nat)
    requires IsLog(st.rows) && FreshInserts(st.rows, events) && j < |events|
    requires RetainedAfter(st, events, j) && RetainedAfter(st, events, j + 1)
    ensures AfterDeletedAt(st, events, j)
  {
    if events[j].Insert? {
      var log, rows, entry := Written(st.rows, events[..j]), RunFrom(st, events[..j]).rows, events[j].entry;
      assert events[..j + 1][..j] == events[..j] && FreshAt(st.rows, events, j);
      FreshPrefix(st.rows, events, j);
      WrittenIsLog(st.rows, events[..j]);
      var k: nat :| Retained(log, RunFrom(st, events[..j]), events[..j], k);
      var k': nat :| Retained(Written(st.rows, events[..j + 1]), RunFrom(st, events[..j + 1]), events[..j + 1], k');
      assert Written(st.rows, events[..j + 1]) == InsertRow(log, entry);
      assert RunFrom(st, events[..j + 1]).rows == InsertRow(rows, entry) && rows == log[k..];
      hide IsLog, FreshInserts, Written, RunFrom, InsertRow, RowBefore;
      InsertStepBack(log, k, entry, k');
      forall d | DeletedBefore(st, events, j, d) ensures RowBefore(d, entry) {
        var i :| 0 <= i < |log| && log[i] == d;
        SuffixMembers(log, k);
      }
    }
  }

  lemma SuffixMembers(log: seq<Entry>, k: nat)
    requires k <= |log|
    ensures forall i :: k <= i < |log| ==> log[i] in log[k..]
  {
    forall i | k <= i < |log| ensures log[i] in log[k..] { assert log[k..][i - k] == log[i]; }
  }

  lemma InTimePrefix(events: seq<Event>, n: nat)
    requires n <= |events| && InsertedInTime(events)
    ensures InsertedInTime(events[..n])
  {
    forall j | 0 <= j < n ensures InTimeAt(events[..n], j) {
      assert InTimeAt(events, j);
    }
  }

  /** A condition a writer can see to: inserting every entry before it expires. */
  lemma {:induction false} InTimeIsAfterDeleted(st: Store, events: seq<Event>)
    requires IsLog(st.rows) && FreshInserts(st.rows, events) && InsertedInTime(events)
    ensures InsertsAfterDeleted(st, events)
    decreases |events|
  {
    if events != [] {
      var n := |events| - 1;
      FreshPrefix(st.rows, events, n);
      InTimePrefix(events, n);
      InTimeIsAfterDeleted(st, events[..n]);
      var k := RunRetains(st, events[..n]);
      assert InTimeAt(events, n);
      DeletedIsExpired(st, events, k);
      forall j | 0 <= j < |events| ensures AfterDeletedAt(st, events, j) {
        if j < n {
          assert AfterDeletedAt(st, events[..n], j) && events[..n][..j] == events[..j];
        }
      }
    }
  }

  lemma DeletedIsExpired(st: Store, events: seq<Event>, k: nat)
    requires events != [] && InTimeAt(events, |events| - 1)
    requires Retained(Written(st.rows, events[..|events| - 1]), RunFrom(st, events[..|events| - 1]),
            events[..|events| - 1], k)
    ensures AfterDeletedAt(st, events, |events| - 1)
  {
    hide Written, RunFrom, Archived;
    var n := |events| - 1;
    var log := Written(st.rows, events[..n]);
    if events[n].Insert? {
      forall d | DeletedBefore(st, events, n, d) ensures RowBefore(d, events[n].entry) {
        var i :| 0 <= i < |log| && log[i] == d;
        SuffixMembers(log, k);
        var c :| 0 <= c < n && events[..n][c].Retire? && log[i].timestamp < events[..n][c].cutoff;
        assert events[c].Retire?;
      }
    }
  }

  /** A run that does not meet it: an entry inserted after a pass has deleted a later one is
      left behind it, and what remains is no suffix of what was written. */
  lemma LateInsertIsLeftBehind(d: Entry, e: Entry)
    requires d.id != "" && e.id != "" && d.id != e.id && e.timestamp < d.timestamp
    ensures var events := [Retire(d.timestamp + 1, 1, Fine), Insert(e)];
            && Written([d], events) == [e, d] && RunFrom(Store([d], []), events) == Store([e], [[d]])
            && !exists k: nat :: Retained([e, d], Store([e], [[d]]), events, k)
  {
    var events := [Retire(d.timestamp + 1, 1, Fine), Insert(e)];
    assert events[..1] == [events[0]] && events[..1][..0] == [];
    assert Expired([d], d.timestamp + 1, 1) == [d];
    assert Without([d], Ids([d])) == [] by { assert d in [d]; }
    assert RunFrom(Store([d], []), events[..1]) == Store([], [[d]]);
    assert RunFrom(Store([d], []), events) == Store([e], [[d]]);
    assert Written([d], events[..1]) == [d];
    assert InsertRow([d], e) == [e, d];
    forall k: nat ensures !Retained([e, d], Store([e], [[d]]), events, k) {
      if k == 1 { assert [e, d][1..] == [d]; }
    }
  }

  /** With archiving on, whatever fails and whenever: every entry that is gone is in a
      completed archive and was before some pass's cutoff, and what is left is a
      suffix of the log that VerifyChain accepts from the last deleted entry's signature. */
  lemma RetentionIsSafe(mac: Mac, key: string, st: Store, events: seq<Event>, genesis: string) returns (k: nat)
    requires key != "" && IsLog(st.rows) && FreshInserts(st.rows, events) && InsertsAfterDeleted(st, events)
    requires Verdict(mac, Written(st.rows, events), key, genesis).None?
    ensures Retained(Written(st.rows, events), RunFrom(st, events), events, k)
    ensures Verdict(mac, RunFrom(st, events).rows, key, Before(Written(st.rows, events), k, genesis)).None?
  {
    k := RunRetains(st, events);
    SuffixVerifies(mac, key, Written(st.rows, events), genesis, k);
  }

  lemma SuffixVerifies(mac: Mac, key: string, log: seq<Entry>, genesis: string, k: nat)
    requires key != "" && k <= |log| && Verdict(mac, log, key, genesis).None?
    ensures Verdict(mac, log[k..], key, Before(log, k, genesis)).None?
  {
    VerdictMeaning(mac, log, key, genesis);
    var rest, g := log[k..], Before(log, k, genesis);
    forall i | 0 <= i < |rest| ensures IntactAt(mac, key, rest, g, i) {
      assert rest[i] == log[k + i];
      assert IntactAt(mac, key, log, genesis, k + i);
    }
    VerdictMeaning(mac, rest, key, g);
  }

  /** VerifyRange, asked to start at the beginning, expects a first entry that follows
      nothing.  Once entries have been retired there is none: the first window, of any size,
      reports the first remaining entry. */
  lemma RetiredLogFromTheBeginning(mac: Mac, key: string, log: seq<Entry>, k: nat, limit: int)
    requires key != "" && IsLog(log) && 0 < k < |log|
    requires Verdict(mac, log, key, "").None?
    ensures RangeAnswer(mac, log[k..], key, ContinueFrom("", limit)) ==
            Success(VerifyResult(0, Some(ChainError(0, log[k].id, WrongPredecessor)), "", false))
  {
    var rows := log[k..];
    SuffixIsLog(log, k);
    VerdictMeaning(mac, log, key, "");
    forall i | 0 <= i < |rows| ensures rows[i].previousHash != "" && rows[i].signature != "" {
      assert IntactAt(mac, key, log, "", k + i) && IntactAt(mac, key, log, "", k + i - 1);
    }
    hide IsLog, Verdict;
    PieceAnswer(mac, key, rows, 0, limit);
    NothingFollows(mac, key, rows[0..WindowEnd(rows, 0, limit)], "");
  }

  /** Following the cursor from the beginning over what is left of a log that verified, with
      any limits, ends complete and unbroken exactly while no entry has been retired. */
  lemma RetiredLogVerifiesExactlyWhenWhole(mac: Mac, key: string, log: seq<Entry>, k: nat, limits: seq<int>,
        answers: seq<VerifyResult>)
    requires key != "" && IsLog(log) && k < |log| && DistinctSignatures(log, "")
    requires Verdict(mac, log, key, "").None?
    requires IsFollowing(mac, log[k..], key, limits, answers) && answers != []
            && answers[|answers| - 1].nextAfterId == ""
    ensures answers[|answers| - 1].complete && answers[|answers| - 1].broken.None? <==> k == 0
  {
    if k == 0 {
      assert log[0..] == log;
      VerdictMeaning(mac, log, key, "");
      assert Arranges(mac, key, log, log) && CleanCuts(log, log, limits);
      WindowsComposeWithTies(mac, log, key, limits, answers);
    } else {
      hide RangeAnswer, Verdict, IsLog, DistinctSignatures, IsFollowing;
      FollowingLengths(mac, log[k..], key, limits, answers);
      RetiredLogFromTheBeginning(mac, key, log, k, limits[0]);
      FollowingAt(mac, log[k..], key, limits, answers, 0);
    }
  }

  // ----- The tail, and what retention removes -----

  const DAY: int := 86_400_000_000

  /** The cutoff retention deletes by: the shorter of the two settings. */
  function RetentionCutoff(auditDays: int, logDays: int, now: int): Option<int> {
    var days := EffectiveRetentionDays(auditDays, logDays);
    if days > 0 then Some(now - days * DAY) else None
  }

  /** The cutoff checkTail goes by: the audit setting alone. */
  function TailCutoff(auditDays: int, now: int): Option<int> {
    if auditDays > 0 then Some(now - auditDays * DAY) else None
  }

  /** Retention, up to a pass at `pass`, has removed the first `k` entries of the log. */
  ghost predicate RetentionRemoved(auditDays: int, logDays: int, log: seq<Entry>, k: nat, pass: int) {
    && k <= |log|
    && forall i :: 0 <= i < k ==>
         var cutoff := RetentionCutoff(auditDays, logDays, pass);
         cutoff.Some? && log[i].timestamp < cutoff.value
  }

  /** The answer of a range at `now` over what is left, with the newest entry written as anchor. */
  ghost predicate TailAnswered(mac: Mac, key: string, auditDays: int, log: seq<Entry>, k: nat, now: int, req: Request,
                               r: VerifyResult, t: TailReport)
    requires log != [] && k <= |log|
  {
    var last := log[|log| - 1];
    FullAnswer(mac, log[k..], key, req, Tail(Some((last.id, last.timestamp)), TailCutoff(auditDays, now), true))
        == Success((r, t))
  }

  /** With these settings a missing tail is never retention's doing. */
  ghost predicate NoFalseAlarm(mac: Mac, key: string, auditDays: int, logDays: int) {
    forall log, k: nat, pass, now, req, r, t |
      log != [] && IsLog(log) && pass <= now && RetentionRemoved(auditDays, logDays, log, k, pass)
      && TailAnswered(mac, key, auditDays, log, k, now, req, r, t) :: !t.missing
  }

  lemma AlarmIsReal(mac: Mac, key: string, auditDays: int, logDays: int, log: seq<Entry>, k: nat, pass: int, now: int,
                    req: Request, r: VerifyResult, t: TailReport)
    requires EffectiveRetentionDays(auditDays, logDays) == if auditDays > 0 then auditDays else 0
    requires log != [] && IsLog(log) && pass <= now && RetentionRemoved(auditDays, logDays, log, k, pass)
    requires TailAnswered(mac, key, auditDays, log, k, now, req, r, t)
    ensures !t.missing
  {
    hide RangeAnswer;
    if k < |log| {
      SuffixIsLog(log, k);
      assert log[k..][|log| - k - 1] == log[|log| - 1];
      FindRowAt(log[k..], |log| - k - 1);
    } else {
      assert RetentionCutoff(auditDays, logDays, pass).Some?;
    }
  }

  /** That is so exactly when retention deletes by the audit setting: a shorter log setting, or
      one without the other, retires an anchor that checkTail still looks for. */
  lemma NoFalseAlarmExactlyWhen(mac: Mac, key: string, auditDays: int, logDays: int)
    requires key != ""
    ensures NoFalseAlarm(mac, key, auditDays, logDays)
       <==> EffectiveRetentionDays(auditDays, logDays) == if auditDays > 0 then auditDays else 0
  {
    if EffectiveRetentionDays(auditDays, logDays) == if auditDays > 0 then auditDays else 0 {
      forall log, k: nat, pass, now, req, r, t |
        log != [] && IsLog(log) && pass <= now && RetentionRemoved(auditDays, logDays, log, k, pass)
        && TailAnswered(mac, key, auditDays, log, k, now, req, r, t)
        ensures !t.missing
      {
        AlarmIsReal(mac, key, auditDays, logDays, log, k, pass, now, req, r, t);
      }
    } else {
      RetiredAnchorIsMissed(mac, key, auditDays, logDays);
    }
  }

  /** One entry, a moment older than retention keeps: it is retired, and its absence reported. */
  lemma RetiredAnchorIsMissed(mac: Mac, key: string, auditDays: int, logDays: int)
    requires key != "" && EffectiveRetentionDays(auditDays, logDays) != if auditDays > 0 then auditDays else 0
    ensures !NoFalseAlarm(mac, key, auditDays, logDays)
  {
    var days := EffectiveRetentionDays(auditDays, logDays);
    var e := Entry("a", "", "", "", "", -days * DAY - 1, "", "", "");
    var req, r, t := ContinueFrom("", 1), VerifyResult(0, None, "", true), TailReport(Some(e.timestamp), true);
    EmptyRange(mac, key);
    hide RangeAnswer;
    assert [e][1..] == [] && IsLog([e]);
    assert days > 0 && (auditDays > 0 ==> days + 1 <= auditDays && -auditDays * DAY <= -days * DAY - 1);
    assert RetentionCutoff(auditDays, logDays, 0) == Some(0 - days * DAY) && [e][0].timestamp < 0 - days * DAY;
    assert RetentionRemoved(auditDays, logDays, [e], 1, 0);
    assert TailAnswered(mac, key, auditDays, [e], 1, 0, req, r, t);
  }

  lemma EmptyRange(mac: Mac, key: string)
    requires key != ""
    ensures RangeAnswer(mac, [], key, ContinueFrom("", 1)) == Success(VerifyResult(0, None, "", true))
  {
    PieceAnswer(mac, key, [], 0, 1);
  }
}
