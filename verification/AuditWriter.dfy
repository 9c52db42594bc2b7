/** Signing and storing audit entries (internal/audit/manager.go, writer.go).  Entries
    are signed and linked under a mutex and stored outside it: log's one at a time, the
    system writer's a batch at a time, with the chain rolled back when a batch fails.
    Signing, each insert and each rollback are separate steps, in any interleaving. */
module AuditWriter {
  import opened Wrappers
  import opened AuditChain
  import opened AuditOrder

  /** What a caller of log or LogSystem hands in. */
  datatype Content = Content(userId: string, action: string, resource: string, details: string, ipAddress: string)

  /** AuditConfig; `None` for a gateway configured with no audit block. */
  datatype AuditConfig = AuditConfig(enabled: bool, signEntries: bool, signatureKey: string)

  /** The fields under the manager's mutex. */
  datatype Chain = Chain(lastHash: string, lastStamp: int)

  /** One entry to sign: its content, fresh id, and the clock when it is signed. */
  datatype Draft = Draft(content: Content, id: string, clock: int)

  /** nextStamp: the clock, held to at least a microsecond past the previous entry's. */
  function NextStamp(lastStamp: int, clock: int): (t: int)
    ensures t > lastStamp && t >= clock && (t == clock || t == lastStamp + 1)
  {
    if clock > lastStamp then clock else lastStamp + 1
  }

  function SignatureOf(mac: Mac, cfg: Option<AuditConfig>, e: Entry): string {
    if cfg.Some? && cfg.value.signEntries && cfg.value.signatureKey != ""
    then SignEntry(mac, e, cfg.value.signatureKey)
    else ""
  }

  /** The entry a draft becomes on top of `c`. */
  function Signed(mac: Mac, cfg: Option<AuditConfig>, c: Chain, d: Draft): Entry {
    var e := Entry(d.id, d.content.userId, d.content.action, d.content.resource, d.content.details,
                   NextStamp(c.lastStamp, d.clock), d.content.ipAddress, "", c.lastHash);
    e.(signature := SignatureOf(mac, cfg, e))
  }

  function Advance(mac: Mac, cfg: Option<AuditConfig>, c: Chain, d: Draft): Chain {
    var e := Signed(mac, cfg, c, d);
    Chain(e.signature, e.timestamp)
  }

  function SignedAll(mac: Mac, cfg: Option<AuditConfig>, c: Chain, ds: seq<Draft>): (es: seq<Entry>)
    ensures |es| == |ds|
  {
    if ds == [] then []
    else
      var front := ds[..|ds| - 1];
      SignedAll(mac, cfg, c, front) + [Signed(mac, cfg, AdvanceAll(mac, cfg, c, front), ds[|ds| - 1])]
  }

  function AdvanceAll(mac: Mac, cfg: Option<AuditConfig>, c: Chain, ds: seq<Draft>): Chain {
    if ds == [] then c else Advance(mac, cfg, AdvanceAll(mac, cfg, c, ds[..|ds| - 1]), ds[|ds| - 1])
  }

  /** `e` holds what draft `d` says. */
  predicate Carries(e: Entry, d: Draft) {
    && e.id == d.id && e.userId == d.content.userId && e.action == d.content.action
    && e.resource == d.content.resource && e.details == d.content.details && e.ipAddress == d.content.ipAddress
  }

  /** `e` is draft `d` on top of `c`: what the draft says, linked to the last hash, stamped with the
      first microsecond after the last stamp that is not before the clock, and signed. */
  predicate SignedFrom(mac: Mac, cfg: Option<AuditConfig>, e: Entry, d: Draft, c: Chain) {
    && Carries(e, d) && e.previousHash == c.lastHash
    && e.signature == (if cfg.Some? && cfg.value.signEntries && cfg.value.signatureKey != ""
                       then mac(cfg.value.signatureKey, Payload(e)) else "")
    && e.timestamp > c.lastStamp && e.timestamp >= d.clock
    && (e.timestamp == d.clock || e.timestamp == c.lastStamp + 1)
  }

  /** What entry `i` is signed on top of. */
  function ChainAt(es: seq<Entry>, i: nat, c: Chain): Chain
    requires i <= |es|
  {
    if i == 0 then c else Chain(es[i - 1].signature, es[i - 1].timestamp)
  }

  /** `es` are the drafts `ds` in order, each on top of the one before. */
  ghost predicate BatchOf(mac: Mac, cfg: Option<AuditConfig>, es: seq<Entry>, ds: seq<Draft>, c: Chain) {
    |es| == |ds| && forall i :: 0 <= i < |es| ==> SignedFrom(mac, cfg, es[i], ds[i], ChainAt(es, i, c))
  }

  lemma SignedIsFrom(mac: Mac, cfg: Option<AuditConfig>, c: Chain, d: Draft)
    ensures var e := Signed(mac, cfg, c, d);
            SignedFrom(mac, cfg, e, d, c) && Advance(mac, cfg, c, d) == Chain(e.signature, e.timestamp)
  {
    var e := Signed(mac, cfg, c, d);
    assert Payload(e) == Payload(e.(signature := ""));
    hide Payload;
  }

  lemma BatchGrows(mac: Mac, cfg: Option<AuditConfig>, es: seq<Entry>, ds: seq<Draft>, c: Chain, e: Entry, d: Draft)
    requires BatchOf(mac, cfg, es, ds, c) && SignedFrom(mac, cfg, e, d, ChainAt(es, |es|, c))
    ensures BatchOf(mac, cfg, es + [e], ds + [d], c)
  {
    hide SignedFrom;
  }

  lemma {:induction false} SignedAllIsBatch(mac: Mac, cfg: Option<AuditConfig>, c: Chain, ds: seq<Draft>)
    ensures var es := SignedAll(mac, cfg, c, ds);
            BatchOf(mac, cfg, es, ds, c) && AdvanceAll(mac, cfg, c, ds) == ChainAt(es, |es|, c)
  {
    hide SignedFrom, BatchOf, Signed, Advance;
    if ds == [] {
      NothingIsBatch(mac, cfg, c);
    } else {
      var front, last := ds[..|ds| - 1], ds[|ds| - 1];
      SignedAllStep(mac, cfg, c, ds);
      hide SignedAll, AdvanceAll;
      var es, before := SignedAll(mac, cfg, c, front), AdvanceAll(mac, cfg, c, front);
      SignedAllIsBatch(mac, cfg, c, front);
      SignedIsFrom(mac, cfg, before, last);
      BatchGrows(mac, cfg, es, front, c, Signed(mac, cfg, before, last), last);
      assert ds == front + [last];
    }
  }

  lemma SignedAllStep(mac: Mac, cfg: Option<AuditConfig>, c: Chain, ds: seq<Draft>)
    requires ds != []
    ensures var front, last := ds[..|ds| - 1], ds[|ds| - 1];
            var before := AdvanceAll(mac, cfg, c, front);
            && SignedAll(mac, cfg, c, ds) == SignedAll(mac, cfg, c, front) + [Signed(mac, cfg, before, last)]
            && AdvanceAll(mac, cfg, c, ds) == Advance(mac, cfg, before, last)
  {
    hide Signed, Advance;
  }

  lemma NothingIsBatch(mac: Mac, cfg: Option<AuditConfig>, c: Chain)
    ensures BatchOf(mac, cfg, [], [], c)
  {
  }

  // ----- The manager -----

  class AuditManager {
    const mac: Mac
    const config: Option<AuditConfig>
    var lastHash: string
    var lastStamp: int
    var anchor: Option<(string, int)>

    constructor (mac: Mac, config: Option<AuditConfig>, lastHash: string, anchor: Option<(string, int)>)
      ensures this.mac == mac && this.config == config && this.lastHash == lastHash && this.anchor == anchor
    {
      this.mac, this.config, this.lastHash, this.anchor := mac, config, lastHash, anchor;
      this.lastStamp := 0;
    }

    ghost function ChainState(): Chain
      reads this
    {
      Chain(lastHash, lastStamp)
    }

    /** The locked part of log. */
    method SignEntryLocked(d: Draft) returns (e: Option<Entry>)
      modifies this`lastHash, this`lastStamp
      ensures config.Some? && !config.value.enabled ==> e.None? && ChainState() == old(ChainState())
      ensures !(config.Some? && !config.value.enabled) ==>
                e == Some(Signed(mac, config, old(ChainState()), d))
                    && ChainState() == Advance(mac, config, old(ChainState()), d)
      ensures e.Some? ==>
                SignedFrom(mac, config, e.value, d, old(ChainState()))
                && lastHash == e.value.signature && lastStamp == e.value.timestamp
    {
      SignedIsFrom(mac, config, ChainState(), d);
      if config.Some? && !config.value.enabled {
        return None;
      }
      var t := d.clock;
      if !(t > lastStamp) {
        t := lastStamp + 1;
      }
      lastStamp := t;
      var entry := Entry(d.id, d.content.userId, d.content.action, d.content.resource, d.content.details, t,
                         d.content.ipAddress, "", lastHash);
      if config.Some? && config.value.signEntries && config.value.signatureKey != "" {
        entry := entry.(signature := SignEntry(mac, entry, config.value.signatureKey));
      }
      lastHash := entry.signature;
      return Some(entry);
    }

    /** signSystem: the batch signed in order, and the hash the chain had before it. */
    method SignSystem(batch: seq<Draft>) returns (r: Option<(seq<Entry>, string)>)
      modifies this`lastHash, this`lastStamp
      ensures config.Some? && !config.value.enabled ==> r.None? && ChainState() == old(ChainState())
      ensures !(config.Some? && !config.value.enabled) ==>
                && r == Some((SignedAll(mac, config, old(ChainState()), batch), old(lastHash)))
                && ChainState() == AdvanceAll(mac, config, old(ChainState()), batch)
      ensures r.Some? ==>
                && BatchOf(mac, config, r.value.0, batch, old(ChainState())) && r.value.1 == old(lastHash)
                && ChainState() == ChainAt(r.value.0, |batch|, old(ChainState()))
    {
      hide SignedFrom, BatchOf, Signed, Advance;
      SignedAllIsBatch(mac, config, ChainState(), batch);
      if config.Some? && !config.value.enabled {
        return None;
      }
      var prevHash := lastHash;
      var entries := [];
      for i := 0 to |batch|
        invariant entries == SignedAll(mac, config, old(ChainState()), batch[..i])
        invariant ChainState() == AdvanceAll(mac, config, old(ChainState()), batch[..i])
      {
        var e := SignEntryLocked(batch[i]);
        entries := entries + [e.value];
        assert batch[..i + 1][..i] == batch[..i];
      }
      assert batch[..|batch|] == batch;
      return Some((entries, prevHash));
    }

    /** writeSystem's answer to a failed insert. */
    method RollBack(entries: seq<Entry>, prevHash: string)
      requires entries != []
      modifies this`lastHash
      ensures lastHash == RolledBack(old(lastHash), entries, prevHash)
    {
      if lastHash == entries[|entries| - 1].signature {
        lastHash := prevHash;
      }
    }

    /** noteStored: the tail anchor moves forward only. */
    method NoteStored(e: Entry)
      modifies this`anchor
      ensures anchor == Noted(old(anchor), e)
    {
      if anchor.None? || !(e.timestamp < anchor.value.1) {
        anchor := Some((e.id, e.timestamp));
      }
    }
  }

  function RolledBack(lastHash: string, entries: seq<Entry>, prevHash: string): string
    requires entries != []
  {
    if lastHash == entries[|entries| - 1].signature then prevHash else lastHash
  }

  function Noted(anchor: Option<(string, int)>, e: Entry): Option<(string, int)> {
    if anchor.None? || !(e.timestamp < anchor.value.1) then Some((e.id, e.timestamp)) else anchor
  }

  // ----- Interleaved runs -----

  /** The system writer's batch in flight: signed, and perhaps failed to insert. */
  datatype Batch = Batch(entries: seq<Entry>, prevHash: string, failed: bool)

  /** `singles` are log's entries signed and not yet inserted, `unnoted` inserted entries
      noteStored has not yet seen, and `signed` everything signed so far, in order. */
  datatype State = State(chain: Chain, table: set<Entry>, singles: set<Entry>, batch: Option<Batch>,
                         unnoted: set<Entry>, anchor: Option<(string, int)>, signed: seq<Entry>)

  datatype Event =
    | SignLog(draft: Draft)
    | StoreLog(entry: Entry)
    | LoseLog(entry: Entry)
    | SignBatch(drafts: seq<Draft>)
    | StoreBatch
    | FailBatch
    | RollBackBatch
    | NoteStored(entry: Entry)

  /** One mutex, one mac and one key for the whole run; the log starts from `genesis`. */
  datatype Params = Params(mac: Mac, config: AuditConfig, genesis: string)

  ghost predicate SigningOn(p: Params) {
    p.config.enabled && p.config.signEntries && p.config.signatureKey != ""
  }

  ghost predicate Next(p: Params, s: State, e: Event, s': State) {
    var cfg := Some(p.config);
    match e
    case SignLog(d) =>
      var entry := Signed(p.mac, cfg, s.chain, d);
      s' == s.(chain := Advance(p.mac, cfg, s.chain, d), singles := s.singles + {entry}, signed := s.signed + [entry])
    case StoreLog(entry) =>
      entry in s.singles
      && s' == s.(singles := s.singles - {entry}, table := s.table + {entry}, unnoted := s.unnoted + {entry})
    case LoseLog(entry) => entry in s.singles && s' == s.(singles := s.singles - {entry})
    case SignBatch(ds) =>
      && s.batch.None? && ds != []
      && var es := SignedAll(p.mac, cfg, s.chain, ds);
         s' == s.(chain := AdvanceAll(p.mac, cfg, s.chain, ds), batch := Some(Batch(es, s.chain.lastHash, false)),
             signed := s.signed + es)
    case StoreBatch =>
      && s.batch.Some? && !s.batch.value.failed && s.batch.value.entries != []
      && var es := s.batch.value.entries;
         s' == s.(batch := None, table := s.table + (set x | x in es), unnoted := s.unnoted + {es[|es| - 1]})
    case FailBatch =>
      s.batch.Some? && !s.batch.value.failed && s' == s.(batch := Some(s.batch.value.(failed := true)))
    case RollBackBatch =>
      && s.batch.Some? && s.batch.value.failed && s.batch.value.entries != []
      && s' == s.(batch := None,
                  chain := s.chain.(lastHash := RolledBack(s.chain.lastHash, s.batch.value.entries,
                      s.batch.value.prevHash)))
    case NoteStored(entry) =>
      entry in s.unnoted && s' == s.(unnoted := s.unnoted - {entry}, anchor := Noted(s.anchor, entry))
  }

  datatype Run = Run(states: seq<State>, events: seq<Event>)

  ghost predicate IsRun(p: Params, run: Run) {
    && |run.states| == |run.events| + 1
    && forall k :: 0 <= k < |run.events| ==> Next(p, run.states[k], run.events[k], run.states[k + 1])
  }

  /** Nothing is waiting to be inserted, rolled back or noted. */
  predicate Quiescent(s: State) {
    s.singles == {} && s.batch.None? && s.unnoted == {}
  }

  /** The rows of the table in timestamp order. */
  ghost predicate InTimeOrder(rows: seq<Entry>, table: set<Entry>) {
    && (forall i, j :: 0 <= i < j < |rows| ==> rows[i].timestamp <= rows[j].timestamp && rows[i] != rows[j])
    && (set x | x in rows) == table
  }

  /** loadLastHash over an intact log of rows in time order.  The stamp of the newest row is
      not restored: the clock may read anything. */
  ghost predicate ConsistentStart(p: Params, s: State, rows: seq<Entry>) {
    && (forall i, j :: 0 <= i < j < |rows| ==> rows[i].timestamp <= rows[j].timestamp)
    && Verdict(p.mac, rows, p.config.signatureKey, p.genesis).None?
    && s.chain.lastHash == Before(rows, |rows|, p.genesis)
    && s.anchor == (if rows == [] then None else Some((rows[|rows| - 1].id, rows[|rows| - 1].timestamp)))
    && s == State(s.chain, set x | x in rows, {}, None, {}, s.anchor, rows)
  }

  // ----- The invariant -----

  /** Signed and not lost: stored, or still on its way to the table. */
  function Alive(s: State): set<Entry> {
    s.table + s.singles + if s.batch.Some? then (set x | x in s.batch.value.entries) else {}
  }

  /** `h` is the genesis hash or the signature of one of the first `n` entries signed. */
  ghost predicate Known(p: Params, signed: seq<Entry>, h: string, n: nat) {
    h == p.genesis || exists j :: 0 <= j < n && j < |signed| && signed[j].signature == h
  }

  ghost predicate WellSigned(p: Params, s: State) {
    && (forall i :: 0 <= i < |s.signed| ==>
          && s.signed[i].signature == SignEntry(p.mac, s.signed[i], p.config.signatureKey)
          && Known(p, s.signed, s.signed[i].previousHash, i))
    && Known(p, s.signed, s.chain.lastHash, |s.signed|)
    && (forall e :: e in Alive(s) ==> e in s.signed)
  }

  /** No two live entries follow the same hash, and none follows the one the next
      entry will follow. */
  ghost predicate UnforkedSet(alive: set<Entry>, lastHash: string) {
    && (forall e, f :: e in alive && f in alive && e != f ==> e.previousHash != f.previousHash)
    && (forall e :: e in alive ==> e.previousHash != lastHash)
  }

  ghost predicate Unforked(s: State) {
    UnforkedSet(Alive(s), s.chain.lastHash)
  }

  ghost predicate BatchLinked(p: Params, s: State) {
    s.batch.Some? ==>
      var b := s.batch.value;
      && Known(p, s.signed, b.prevHash, |s.signed|)
      && (b.entries == [] ==> s.chain.lastHash == b.prevHash)
      && Linked(b.entries, b.prevHash)
      && (forall x :: x in b.entries ==> x !in s.table + s.singles)
  }

  ghost predicate Inv(p: Params, s: State) {
    WellSigned(p, s) && Unforked(s) && BatchLinked(p, s)
  }

  // Signing one entry, into `singles` or into the batch being signed.

  /** The state once `d` is signed; `intoBatch` says where the entry goes. */
  function SignInto(p: Params, s: State, d: Draft, intoBatch: bool): State
    requires intoBatch ==> s.batch.Some?
  {
    var e := Signed(p.mac, Some(p.config), s.chain, d);
    var s' := s.(chain := Advance(p.mac, Some(p.config), s.chain, d), signed := s.signed + [e]);
    if intoBatch then s'.(batch := Some(s.batch.value.(entries := s.batch.value.entries + [e])))
    else s'.(singles := s.singles + {e})
  }

  lemma SignIntoAlive(p: Params, s: State, d: Draft, intoBatch: bool)
    requires intoBatch ==> s.batch.Some?
    ensures Alive(SignInto(p, s, d, intoBatch)) == Alive(s) + {Signed(p.mac, Some(p.config), s.chain, d)}
  {
  }

  lemma KnownGrows(p: Params, signed: seq<Entry>, e: Entry, h: string, n: nat, m: nat)
    requires Known(p, signed, h, n) && n <= m
    ensures Known(p, signed + [e], h, m)
  {
    if h != p.genesis {
      var j :| 0 <= j < n && j < |signed| && signed[j].signature == h;
      assert (signed + [e])[j].signature == h;
    }
  }

  lemma SignatureIgnoresItself(mac: Mac, e: Entry, sig: string, key: string)
    ensures SignEntry(mac, e.(signature := sig), key) == SignEntry(mac, e, key)
  {
  }

  lemma SignIntoWellSigned(p: Params, s: State, d: Draft, intoBatch: bool)
    requires SigningOn(p) && WellSigned(p, s) && (intoBatch ==> s.batch.Some?)
    ensures WellSigned(p, SignInto(p, s, d, intoBatch))
  {
    var s' := SignInto(p, s, d, intoBatch);
    var e := Signed(p.mac, Some(p.config), s.chain, d);
    SignatureIgnoresItself(p.mac, e, "", p.config.signatureKey);
    SignIntoAlive(p, s, d, intoBatch);
    forall i | 0 <= i < |s'.signed| ensures Known(p, s'.signed, s'.signed[i].previousHash, i) {
      if i < |s.signed| {
        KnownGrows(p, s.signed, e, s.signed[i].previousHash, i, i);
      } else {
        KnownGrows(p, s.signed, e, s.chain.lastHash, |s.signed|, |s.signed|);
      }
    }
    assert s'.signed[|s.signed|].signature == s'.chain.lastHash;
    assert Known(p, s'.signed, s'.chain.lastHash, |s'.signed|);
  }

  /** A fresh signature is nobody's predecessor yet. */
  lemma FreshHash(p: Params, s: State, e: Entry, f: Entry)
    requires WellSigned(p, s) && DistinctSignatures(s.signed + [e], p.genesis) && f in Alive(s)
    ensures f.previousHash != e.signature && f != e
  {
    var i :| 0 <= i < |s.signed| && s.signed[i] == f;
    var all := s.signed + [e];
    assert all[|s.signed|] == e;
    assert Known(p, s.signed, f.previousHash, i);
    if f.previousHash != p.genesis {
      var j :| 0 <= j < i && j < |s.signed| && s.signed[j].signature == f.previousHash;
      assert all[j] == s.signed[j];
    }
    assert all[i] == f;
  }

  lemma TipIsNotFresh(p: Params, s: State, e: Entry)
    requires WellSigned(p, s) && DistinctSignatures(s.signed + [e], p.genesis)
    ensures s.chain.lastHash != e.signature
  {
    var all := s.signed + [e];
    assert all[|s.signed|] == e;
    if s.chain.lastHash != p.genesis {
      var j :| 0 <= j < |s.signed| && s.signed[j].signature == s.chain.lastHash;
      assert all[j] == s.signed[j];
    }
  }

  lemma UnforkedExtends(alive: set<Entry>, e: Entry)
    requires UnforkedSet(alive, e.previousHash) && e.previousHash != e.signature
    requires forall f :: f in alive ==> f.previousHash != e.signature
    ensures UnforkedSet(alive + {e}, e.signature)
  {
  }

  lemma SignIntoUnforked(p: Params, s: State, d: Draft, intoBatch: bool)
    requires Inv(p, s) && (intoBatch ==> s.batch.Some?)
    requires DistinctSignatures(SignInto(p, s, d, intoBatch).signed, p.genesis)
    ensures Unforked(SignInto(p, s, d, intoBatch))
  {
    var e := Signed(p.mac, Some(p.config), s.chain, d);
    SignIntoAlive(p, s, d, intoBatch);
    forall f | f in Alive(s) ensures f.previousHash != e.signature { FreshHash(p, s, e, f); }
    TipIsNotFresh(p, s, e);
    UnforkedExtends(Alive(s), e);
  }

  /** A live entry is none that is signed next. */
  lemma NotFresh(p: Params, s: State, e: Entry, x: Entry)
    requires WellSigned(p, s) && DistinctSignatures(s.signed + [e], p.genesis) && x in s.table + s.singles
    ensures x != e
  {
    FreshHash(p, s, e, x);
  }

  lemma SignIntoBatchLinked(p: Params, s: State, d: Draft)
    requires WellSigned(p, s) && BatchLinked(p, s) && s.batch.Some?
    requires DistinctSignatures(SignInto(p, s, d, true).signed, p.genesis)
    requires s.batch.value.entries != [] ==>
               s.chain.lastHash == s.batch.value.entries[|s.batch.value.entries| - 1].signature
    ensures BatchLinked(p, SignInto(p, s, d, true))
  {
    hide WellSigned, DistinctSignatures, Linked, Known;
    var e := Signed(p.mac, Some(p.config), s.chain, d);
    KnownGrows(p, s.signed, e, s.batch.value.prevHash, |s.signed|, |s.signed| + 1);
    forall x | x in s.table + s.singles ensures x != e { NotFresh(p, s, e, x); }
    LinkedAppend(s.batch.value.entries, e, s.batch.value.prevHash);
  }

  lemma LinkedAppend(es: seq<Entry>, e: Entry, genesis: string)
    requires Linked(es, genesis) && e.previousHash == Before(es, |es|, genesis)
    ensures Linked(es + [e], genesis)
  {
    forall i | 0 <= i < |es + [e]| ensures LinkedAt(es + [e], genesis, i) {
      if i < |es| { assert LinkedAt(es, genesis, i); }
    }
  }

  lemma SignBesideBatch(p: Params, s: State, d: Draft)
    requires WellSigned(p, s) && BatchLinked(p, s) && BatchNonEmpty(s)
    requires DistinctSignatures(SignInto(p, s, d, false).signed, p.genesis)
    ensures BatchLinked(p, SignInto(p, s, d, false))
  {
    if s.batch.Some? {
      var e := Signed(p.mac, Some(p.config), s.chain, d);
      KnownGrows(p, s.signed, e, s.batch.value.prevHash, |s.signed|, |s.signed| + 1);
      forall x | x in s.batch.value.entries ensures x != e {
        assert x in Alive(s);
        FreshHash(p, s, e, x);
      }
    }
  }

  lemma DistinctPrefix(es: seq<Entry>, more: seq<Entry>, genesis: string)
    requires DistinctSignatures(es + more, genesis)
    ensures DistinctSignatures(es, genesis)
  {
    assert forall i :: 0 <= i < |es| ==> (es + more)[i] == es[i];
  }

  /** A batch is signed entry by entry; the chain follows it all the way. */
  lemma {:induction false} SignBatchInv(p: Params, s: State, ds: seq<Draft>)
    requires SigningOn(p) && Inv(p, s) && s.batch.None?
    requires DistinctSignatures(s.signed + SignedAll(p.mac, Some(p.config), s.chain, ds), p.genesis)
    ensures var es := SignedAll(p.mac, Some(p.config), s.chain, ds);
            var s' := s.(chain := AdvanceAll(p.mac, Some(p.config), s.chain, ds),
                         batch := Some(Batch(es, s.chain.lastHash, false)), signed := s.signed + es);
            Inv(p, s') && (es != [] ==> s'.chain.lastHash == es[|es| - 1].signature)
  {
    var cfg := Some(p.config);
    var es := SignedAll(p.mac, cfg, s.chain, ds);
    if ds == [] {
      var s' := s.(batch := Some(Batch([], s.chain.lastHash, false)));
      assert s.signed + es == s.signed;
      assert Alive(s') == Alive(s);
    } else {
      var front, d := ds[..|ds| - 1], ds[|ds| - 1];
      var fs := SignedAll(p.mac, cfg, s.chain, front);
      var e := Signed(p.mac, cfg, AdvanceAll(p.mac, cfg, s.chain, front), d);
      assert s.signed + es == (s.signed + fs) + [e];
      DistinctPrefix(s.signed + fs, [e], p.genesis);
      SignBatchInv(p, s, front);
      var mid := s.(chain := AdvanceAll(p.mac, cfg, s.chain, front),
                    batch := Some(Batch(fs, s.chain.lastHash, false)), signed := s.signed + fs);
      SignIntoWellSigned(p, mid, d, true);
      SignIntoUnforked(p, mid, d, true);
      SignIntoBatchLinked(p, mid, d);
    }
  }

  /** A batch in flight is never empty outside signSystem. */
  ghost predicate BatchNonEmpty(s: State) {
    s.batch.Some? ==> s.batch.value.entries != []
  }

  lemma SmallerAliveInv(p: Params, s: State, s': State)
    requires Inv(p, s) && s'.signed == s.signed && s'.chain == s.chain
    requires Alive(s') <= Alive(s)
    requires s'.batch.Some? ==> s'.table + s'.singles <= s.table + s.singles && s.batch.Some?
                                && s'.batch.value.entries == s.batch.value.entries
                                && s'.batch.value.prevHash == s.batch.value.prevHash
    ensures Inv(p, s')
  {
  }

  lemma RollBackInv(p: Params, s: State, s': State)
    requires Inv(p, s) && BatchNonEmpty(s) && Next(p, s, RollBackBatch, s')
    ensures Inv(p, s')
  {
    var b := s.batch.value;
    assert forall e :: e in Alive(s') ==> e in Alive(s) && e !in b.entries;
    if s'.chain.lastHash != s.chain.lastHash {
      assert LinkedAt(b.entries, b.prevHash, 0) && b.entries[0] in Alive(s);
    }
  }

  lemma {:induction false} StepInv(p: Params, s: State, e: Event, s': State)
    requires SigningOn(p) && Inv(p, s) && BatchNonEmpty(s) && Next(p, s, e, s')
    requires DistinctSignatures(s'.signed, p.genesis)
    ensures Inv(p, s') && BatchNonEmpty(s')
  {
    match e
    case SignLog(d) =>
      SignIntoWellSigned(p, s, d, false);
      SignIntoUnforked(p, s, d, false);
      SignBesideBatch(p, s, d);
    case SignBatch(ds) => SignBatchInv(p, s, ds);
    case RollBackBatch => RollBackInv(p, s, s');
    case _ => SmallerAliveInv(p, s, s');
  }

  /** Each row of an intact log is signed and follows the one before it. */
  lemma IntactRow(p: Params, rows: seq<Entry>, i: nat)
    requires SigningOn(p) && Verdict(p.mac, rows, p.config.signatureKey, p.genesis).None? && i < |rows|
    ensures rows[i].previousHash == Before(rows, i, p.genesis)
    ensures rows[i].signature == SignEntry(p.mac, rows[i], p.config.signatureKey)
    ensures Known(p, rows, rows[i].previousHash, i)
  {
    VerdictMeaning(p.mac, rows, p.config.signatureKey, p.genesis);
    assert IntactAt(p.mac, p.config.signatureKey, rows, p.genesis, i);
  }

  lemma StartUnforked(p: Params, rows: seq<Entry>)
    requires SigningOn(p) && Verdict(p.mac, rows, p.config.signatureKey, p.genesis).None?
            && DistinctSignatures(rows, p.genesis)
    ensures UnforkedSet((set x | x in rows), Before(rows, |rows|, p.genesis))
  {
    forall i, j | 0 <= i < |rows| && 0 <= j < |rows| && rows[i] != rows[j]
      ensures rows[i].previousHash != rows[j].previousHash {
      IntactRow(p, rows, i);
      IntactRow(p, rows, j);
      PlacesDiffer(rows, p.genesis, i, j);
    }
    forall i | 0 <= i < |rows| ensures rows[i].previousHash != Before(rows, |rows|, p.genesis) {
      IntactRow(p, rows, i);
    }
  }

  lemma StartInv(p: Params, s: State, rows: seq<Entry>)
    requires SigningOn(p) && ConsistentStart(p, s, rows) && DistinctSignatures(rows, p.genesis)
    ensures Inv(p, s) && BatchNonEmpty(s)
  {
    forall i | 0 <= i < |rows|
      ensures rows[i].signature == SignEntry(p.mac, rows[i], p.config.signatureKey)
              && Known(p, rows, rows[i].previousHash, i)
    {
      IntactRow(p, rows, i);
    }
    assert Alive(s) == set x | x in rows;
    assert WellSigned(p, s);
    assert Unforked(s) by {
      hide UnforkedSet;
      StartUnforked(p, rows);
    }
  }

  lemma {:induction false} SignedGrows(p: Params, run: Run, k: nat)
    requires IsRun(p, run) && k < |run.states|
    ensures run.states[k].signed <= run.states[|run.states| - 1].signed
    decreases |run.states| - k
  {
    if k < |run.events| {
      SignedGrows(p, run, k + 1);
      assert Next(p, run.states[k], run.events[k], run.states[k + 1]);
      assert run.states[k].signed <= run.states[k + 1].signed;
    }
  }

  /** A run from a consistent start in which no two signatures collide. */
  ghost predicate GoodRun(p: Params, run: Run, rows: seq<Entry>) {
    && SigningOn(p) && IsRun(p, run) && ConsistentStart(p, run.states[0], rows)
    && DistinctSignatures(run.states[|run.states| - 1].signed, p.genesis)
  }

  lemma DistinctAt(p: Params, run: Run, rows: seq<Entry>, k: nat)
    requires GoodRun(p, run, rows) && k < |run.states|
    ensures DistinctSignatures(run.states[k].signed, p.genesis)
  {
    SignedGrows(p, run, k);
    var all := run.states[|run.states| - 1].signed;
    assert all == run.states[k].signed + all[|run.states[k].signed|..];
    DistinctPrefix(run.states[k].signed, all[|run.states[k].signed|..], p.genesis);
  }

  lemma {:induction false} RunInv(p: Params, run: Run, rows: seq<Entry>, k: nat)
    requires GoodRun(p, run, rows) && k < |run.states|
    ensures Inv(p, run.states[k]) && BatchNonEmpty(run.states[k])
  {
    hide Inv, Next, DistinctSignatures;
    DistinctAt(p, run, rows, k);
    if k == 0 {
      StartInv(p, run.states[0], rows);
    } else {
      RunInv(p, run, rows, k - 1);
      StepInv(p, run.states[k - 1], run.events[k - 1], run.states[k]);
    }
  }

  /** A rollback takes back the batch and nothing else: the chain goes back to before the batch if the
      batch's last entry is its end, and stays where it is if any other entry is. */
  lemma RollBackTakesBackTheBatch(p: Params, s: State, s': State, e: Entry)
    requires Next(p, s, RollBackBatch, s') && DistinctSignatures(s.signed, p.genesis)
    requires e in s.signed && e.signature == s.chain.lastHash
    requires forall x :: x in s.batch.value.entries ==> x in s.signed
    ensures s'.chain.lastStamp == s.chain.lastStamp && s'.batch.None? && s'.table == s.table && s'.singles == s.singles
    ensures var last := s.batch.value.entries[|s.batch.value.entries| - 1];
            s'.chain.lastHash == if e == last then s.batch.value.prevHash else s.chain.lastHash
  {
    var last := s.batch.value.entries[|s.batch.value.entries| - 1];
    assert last in s.signed;
    var i, j :| 0 <= i < |s.signed| && 0 <= j < |s.signed| && s.signed[i] == e && s.signed[j] == last;
    if e != last { assert i != j && s.signed[i].signature != s.signed[j].signature; }
  }

  // ----- Writer meets verifier -----

  /** Every row was signed on top of a row that is in the table, or of the genesis. */
  ghost predicate ParentsStored(p: Params, table: set<Entry>) {
    forall e :: e in table ==> e.previousHash == p.genesis || exists f :: f in table && f.signature == e.previousHash
  }

  /** A stored parent comes before its child in the rows. */
  ghost predicate ParentsFirst(rows: seq<Entry>) {
    forall i, j :: 0 <= i < |rows| && 0 <= j < |rows| && rows[j].signature == rows[i].previousHash ==> j < i
  }

  /** Row `i` follows some earlier row, or the genesis. */
  lemma ParentPlace(p: Params, table: set<Entry>, rows: seq<Entry>, i: nat) returns (c: nat)
    requires InTimeOrder(rows, table) && ParentsStored(p, table) && ParentsFirst(rows) && i < |rows|
    ensures c <= i && rows[i].previousHash == Before(rows, c, p.genesis)
  {
    var e := rows[i];
    assert e in table;
    if e.previousHash == p.genesis {
      c := 0;
    } else {
      var f :| f in table && f.signature == e.previousHash;
      assert f in rows;
      var m :| 0 <= m < |rows| && rows[m] == f;
      c := m + 1;
    }
  }

  lemma DifferentParents(s: State, e: Entry, f: Entry)
    requires Unforked(s) && e in s.table && f in s.table
    ensures e.previousHash == f.previousHash <==> e == f
  {
    assert e in Alive(s) && f in Alive(s);
  }

  lemma {:induction false} RowsAreLinked(p: Params, s: State, rows: seq<Entry>, i: nat)
    requires Unforked(s) && InTimeOrder(rows, s.table) && ParentsStored(p, s.table) && ParentsFirst(rows) && i < |rows|
    ensures rows[i].previousHash == Before(rows, i, p.genesis)
    decreases i
  {
    var c := ParentPlace(p, s.table, rows, i);
    if c < i {
      RowsAreLinked(p, s, rows, c);
      DifferentParents(s, rows[c], rows[i]);
    }
  }

  lemma RowIsSigned(p: Params, s: State, e: Entry)
    requires Inv(p, s) && e in s.table
    ensures e.signature == SignEntry(p.mac, e, p.config.signatureKey)
  {
    assert e in Alive(s);
    var i :| 0 <= i < |s.signed| && s.signed[i] == e;
  }

  lemma StoredParentsVerify(p: Params, s: State, rows: seq<Entry>)
    requires SigningOn(p) && Inv(p, s)
    requires InTimeOrder(rows, s.table) && ParentsStored(p, s.table) && ParentsFirst(rows)
    ensures Verdict(p.mac, rows, p.config.signatureKey, p.genesis).None?
  {
    assert Unforked(s);
    forall i | 0 <= i < |rows| ensures IntactAt(p.mac, p.config.signatureKey, rows, p.genesis, i) {
      assert rows[i] in s.table;
      hide Inv, Unforked, InTimeOrder, ParentsFirst, ParentsStored;
      RowsAreLinked(p, s, rows, i);
      RowIsSigned(p, s, rows[i]);
    }
    VerdictMeaning(p.mac, rows, p.config.signatureKey, p.genesis);
  }

  lemma VerifiedParentsStored(p: Params, table: set<Entry>, rows: seq<Entry>)
    requires SigningOn(p) && InTimeOrder(rows, table)
    requires Verdict(p.mac, rows, p.config.signatureKey, p.genesis).None?
    ensures ParentsStored(p, table)
  {
    forall e | e in table
      ensures e.previousHash == p.genesis || exists f :: f in table && f.signature == e.previousHash
    {
      assert e in rows;
      var i :| 0 <= i < |rows| && rows[i] == e;
      IntactRow(p, rows, i);
      if i > 0 { assert rows[i - 1] in table; }
    }
  }

  /** Two rows of a run with one signature are one row. */
  lemma OneSignatureOneRow(p: Params, s: State, rows: seq<Entry>, i: nat, j: nat)
    requires WellSigned(p, s) && DistinctSignatures(s.signed, p.genesis) && InTimeOrder(rows, s.table)
    requires i < |rows| && j < |rows|
    ensures rows[i].signature != p.genesis
    ensures rows[i].signature == rows[j].signature ==> i == j
  {
    assert rows[i] in s.table && rows[j] in s.table;
    assert rows[i] in Alive(s) && rows[j] in Alive(s);
    var a :| 0 <= a < |s.signed| && s.signed[a] == rows[i];
    var b :| 0 <= b < |s.signed| && s.signed[b] == rows[j];
  }

  lemma VerifiedParentsFirst(p: Params, s: State, rows: seq<Entry>)
    requires SigningOn(p) && WellSigned(p, s) && DistinctSignatures(s.signed, p.genesis) && InTimeOrder(rows, s.table)
    requires Verdict(p.mac, rows, p.config.signatureKey, p.genesis).None?
    ensures ParentsFirst(rows)
  {
    hide WellSigned, DistinctSignatures, InTimeOrder, Verdict;
    forall i, j | 0 <= i < |rows| && 0 <= j < |rows| && rows[j].signature == rows[i].previousHash ensures j < i {
      IntactRow(p, rows, i);
      OneSignatureOneRow(p, s, rows, j, if i > 0 then i - 1 else 0);
    }
  }

  /** The exact condition.  At any moment of any run -- inserts in any order, log's and the
      writer's failing or not, rollbacks late or early, clocks reading anything -- the rows in
      timestamp order are accepted by VerifyChain if and only if every row was signed on top of
      an entry that is in the table, and that comes before it in the rows. */
  lemma RowsVerifyExactlyWhen(p: Params, run: Run, start: seq<Entry>, k: nat, rows: seq<Entry>)
    requires GoodRun(p, run, start) && k < |run.states|
    requires InTimeOrder(rows, run.states[k].table)
    ensures Verdict(p.mac, rows, p.config.signatureKey, p.genesis).None?
       <==> ParentsStored(p, run.states[k].table) && ParentsFirst(rows)
  {
    hide DistinctSignatures, ParentsStored, ParentsFirst, Verdict, InTimeOrder, IsRun, ConsistentStart;
    RunInv(p, run, start, k);
    assert WellSigned(p, run.states[k]);
    hide Inv, WellSigned;
    DistinctAt(p, run, start, k);
    if ParentsStored(p, run.states[k].table) && ParentsFirst(rows) {
      StoredParentsVerify(p, run.states[k], rows);
    } else if Verdict(p.mac, rows, p.config.signatureKey, p.genesis).None? {
      VerifiedParentsStored(p, run.states[k].table, rows);
      VerifiedParentsFirst(p, run.states[k], rows);
    }
  }

  // ----- Runs whose clock is past the start -----

  /** The entries signed in the run are stamped in order, up to the last stamp. */
  ghost predicate StampedInOrder(start: seq<Entry>, s: State) {
    && start <= s.signed
    && (forall i, j :: |start| <= i < j < |s.signed| ==> s.signed[i].timestamp < s.signed[j].timestamp)
    && (forall i :: |start| <= i < |s.signed| ==> s.signed[i].timestamp <= s.chain.lastStamp)
  }

  lemma SignedStamp(p: Params, start: seq<Entry>, s: State, d: Draft, s': State)
    requires StampedInOrder(start, s)
    requires s'.signed == s.signed + [Signed(p.mac, Some(p.config), s.chain, d)]
    requires s'.chain == Advance(p.mac, Some(p.config), s.chain, d)
    ensures StampedInOrder(start, s')
  {
  }

  lemma {:induction false} BatchStamps(p: Params, start: seq<Entry>, s: State, ds: seq<Draft>)
    requires StampedInOrder(start, s)
    ensures StampedInOrder(start, s.(chain := AdvanceAll(p.mac, Some(p.config), s.chain, ds),
                                     signed := s.signed + SignedAll(p.mac, Some(p.config), s.chain, ds)))
  {
    var cfg := Some(p.config);
    var es := SignedAll(p.mac, cfg, s.chain, ds);
    if ds == [] {
      assert s.signed + es == s.signed;
    } else {
      var front := ds[..|ds| - 1];
      var fs, c := SignedAll(p.mac, cfg, s.chain, front), AdvanceAll(p.mac, cfg, s.chain, front);
      BatchStamps(p, start, s, front);
      assert s.signed + es == (s.signed + fs) + [Signed(p.mac, cfg, c, ds[|ds| - 1])];
      SignedStamp(p, start, s.(chain := c, signed := s.signed + fs), ds[|ds| - 1],
                  s.(chain := AdvanceAll(p.mac, cfg, s.chain, ds), signed := s.signed + es));
    }
  }

  lemma StampStep(p: Params, start: seq<Entry>, s: State, e: Event, s': State)
    requires StampedInOrder(start, s) && Next(p, s, e, s')
    ensures StampedInOrder(start, s')
  {
    hide Signed, Advance, SignedAll, AdvanceAll;
    match e
    case SignLog(d) => SignedStamp(p, start, s, d, s');
    case SignBatch(ds) => BatchStamps(p, start, s, ds);
    case _ =>
  }

  lemma {:induction false} RunStamps(p: Params, run: Run, start: seq<Entry>, k: nat)
    requires IsRun(p, run) && ConsistentStart(p, run.states[0], start) && k < |run.states|
    ensures StampedInOrder(start, run.states[k])
  {
    if k > 0 {
      hide Next, ConsistentStart, StampedInOrder;
      RunStamps(p, run, start, k - 1);
      StampStep(p, start, run.states[k - 1], run.events[k - 1], run.states[k]);
    }
  }

  /** The starting rows have times of their own, and the first entry signed in the run, if any
      is, is stamped after all of them. */
  ghost predicate ClockPastStart(run: Run, start: seq<Entry>)
    requires run.states != []
  {
    var signed := run.states[|run.states| - 1].signed;
    && (forall i, j :: 0 <= i < j < |start| ==> start[i].timestamp < start[j].timestamp)
    && (|start| < |signed| ==> forall i :: 0 <= i < |start| ==> start[i].timestamp < signed[|start|].timestamp)
  }

  lemma AllStampedInOrder(run: Run, start: seq<Entry>, s: State)
    requires run.states != [] && ClockPastStart(run, start) && StampedInOrder(start, s)
    requires s.signed <= run.states[|run.states| - 1].signed
    ensures forall i, j :: 0 <= i < j < |s.signed| ==> s.signed[i].timestamp < s.signed[j].timestamp
  {
    var n := |start|;
    forall i, j | 0 <= i < j < |s.signed| ensures s.signed[i].timestamp < s.signed[j].timestamp {
      assert i < n ==> s.signed[i] == start[i];
      assert j < n ==> s.signed[j] == start[j];
      if i < n <= j { assert s.signed[n] == run.states[|run.states| - 1].signed[n]; }
    }
  }

  /** With stamps in signing order, a stored parent comes first in every timestamp order. */
  lemma StampsPutParentsFirst(p: Params, s: State, rows: seq<Entry>)
    requires WellSigned(p, s) && DistinctSignatures(s.signed, p.genesis) && InTimeOrder(rows, s.table)
    requires forall i, j :: 0 <= i < j < |s.signed| ==> s.signed[i].timestamp < s.signed[j].timestamp
    ensures ParentsFirst(rows)
  {
    forall i, j | 0 <= i < |rows| && 0 <= j < |rows| && rows[j].signature == rows[i].previousHash ensures j < i {
      assert rows[i] in s.table && rows[j] in s.table;
      assert rows[i] in Alive(s) && rows[j] in Alive(s);
      var a :| 0 <= a < |s.signed| && s.signed[a] == rows[i];
      var c :| 0 <= c < |s.signed| && s.signed[c] == rows[j];
      assert Known(p, s.signed, rows[i].previousHash, a);
      var m :| 0 <= m < a && m < |s.signed| && s.signed[m].signature == rows[i].previousHash;
      assert m == c;
    }
  }

  lemma ClockPutsParentsFirst(p: Params, run: Run, start: seq<Entry>, k: nat, rows: seq<Entry>)
    requires GoodRun(p, run, start) && ClockPastStart(run, start) && k < |run.states|
    requires InTimeOrder(rows, run.states[k].table)
    ensures ParentsFirst(rows)
  {
    hide DistinctSignatures, ParentsFirst, InTimeOrder, ClockPastStart, StampedInOrder, ConsistentStart, Next;
    RunInv(p, run, start, k);
    DistinctAt(p, run, start, k);
    RunStamps(p, run, start, k);
    SignedGrows(p, run, k);
    AllStampedInOrder(run, start, run.states[k]);
    assert WellSigned(p, run.states[k]);
    hide Inv, WellSigned, IsRun;
    StampsPutParentsFirst(p, run.states[k], rows);
  }

  /** So in a run whose clock is past the start, the rows verify if and only if no row was
      signed on top of an entry that is not in the table. */
  lemma RowsVerifyExactlyWhenParentsStored(p: Params, run: Run, start: seq<Entry>, k: nat, rows: seq<Entry>)
    requires GoodRun(p, run, start) && ClockPastStart(run, start) && k < |run.states|
    requires InTimeOrder(rows, run.states[k].table)
    ensures Verdict(p.mac, rows, p.config.signatureKey, p.genesis).None? <==> ParentsStored(p, run.states[k].table)
  {
    hide GoodRun, ClockPastStart, ParentsStored, ParentsFirst, Verdict, InTimeOrder;
    ClockPutsParentsFirst(p, run, start, k, rows);
    RowsVerifyExactlyWhen(p, run, start, k, rows);
  }

  // ----- Runs that lose nothing another entry stands on -----

  /** log's inserts succeed, and each rollback finds the chain where its batch left it. */
  ghost predicate Orderly(run: Run) {
    |run.states| == |run.events| + 1 &&
    forall k :: 0 <= k < |run.events| ==>
      && !run.events[k].LoseLog?
      && (run.events[k].RollBackBatch? ==> GuardHolds(run.states[k]))
  }

  ghost predicate Stands(p: Params, es: set<Entry>, h: string) {
    h == p.genesis || exists f :: f in es && f.signature == h
  }

  /** What the chain and every live entry stand on is live; what the batch in flight
      stands on is outside it. */
  ghost predicate LiveParents(p: Params, s: State) {
    && (forall e :: e in Alive(s) ==> Stands(p, Alive(s), e.previousHash))
    && Stands(p, Alive(s), s.chain.lastHash)
    && (s.batch.Some? ==> Stands(p, s.table + s.singles, s.batch.value.prevHash))
  }

  lemma StandsOnMore(p: Params, es: set<Entry>, more: set<Entry>, h: string)
    requires Stands(p, es, h) && es <= more
    ensures Stands(p, more, h)
  {
  }

  lemma SignIntoLiveParents(p: Params, s: State, d: Draft, intoBatch: bool)
    requires LiveParents(p, s) && (intoBatch ==> s.batch.Some?)
    ensures LiveParents(p, SignInto(p, s, d, intoBatch))
  {
    var s' := SignInto(p, s, d, intoBatch);
    var e := Signed(p.mac, Some(p.config), s.chain, d);
    SignIntoAlive(p, s, d, intoBatch);
    forall x | x in Alive(s') ensures Stands(p, Alive(s'), x.previousHash) {
      StandsOnMore(p, Alive(s), Alive(s'), if x == e then s.chain.lastHash else x.previousHash);
    }
    assert e in Alive(s') && e.signature == s'.chain.lastHash;
    if s.batch.Some? { StandsOnMore(p, s.table + s.singles, s'.table + s'.singles, s.batch.value.prevHash); }
  }

  lemma {:induction false} SignBatchLiveParents(p: Params, s: State, ds: seq<Draft>)
    requires LiveParents(p, s) && s.batch.None?
    ensures var es := SignedAll(p.mac, Some(p.config), s.chain, ds);
            LiveParents(p, s.(chain := AdvanceAll(p.mac, Some(p.config), s.chain, ds),
                              batch := Some(Batch(es, s.chain.lastHash, false)), signed := s.signed + es))
  {
    var cfg := Some(p.config);
    if ds == [] {
      var s' := s.(batch := Some(Batch([], s.chain.lastHash, false)), signed := s.signed + []);
      assert Alive(s') == Alive(s) == s.table + s.singles;
    } else {
      var front, d := ds[..|ds| - 1], ds[|ds| - 1];
      var fs := SignedAll(p.mac, cfg, s.chain, front);
      var mid := s.(chain := AdvanceAll(p.mac, cfg, s.chain, front),
                    batch := Some(Batch(fs, s.chain.lastHash, false)), signed := s.signed + fs);
      SignBatchLiveParents(p, s, front);
      SignIntoLiveParents(p, mid, d, true);
      SignedAllStep(p.mac, cfg, s.chain, ds);
      hide SignedAll, AdvanceAll, Signed, Advance, LiveParents;
      assert s.signed + SignedAll(p.mac, cfg, s.chain, ds) == SignInto(p, mid, d, true).signed;
    }
  }

  /** The one live entry that follows a batch's entry is the next one of the batch. */
  lemma NoneOutsideFollowsBatch(p: Params, s: State, e: Entry, i: nat)
    requires Unforked(s) && BatchLinked(p, s) && s.batch.Some? && i < |s.batch.value.entries|
    requires e in s.table + s.singles
    requires s.chain.lastHash == s.batch.value.entries[|s.batch.value.entries| - 1].signature
    ensures e.previousHash != s.batch.value.entries[i].signature
  {
    var es := s.batch.value.entries;
    assert e in Alive(s);
    if i < |es| - 1 {
      assert LinkedAt(es, s.batch.value.prevHash, i + 1);
      assert es[i + 1] in Alive(s) && es[i + 1] != e;
    }
  }

  /** Rolling back a batch nothing was signed on top of takes no one's parent away. */
  lemma RollBackLiveParents(p: Params, s: State, s': State)
    requires Unforked(s) && BatchLinked(p, s) && LiveParents(p, s) && s.batch.Some? && s.batch.value.entries != []
    requires s.chain.lastHash == s.batch.value.entries[|s.batch.value.entries| - 1].signature
    requires s'.batch.None? && s'.table == s.table && s'.singles == s.singles
            && s'.chain.lastHash == s.batch.value.prevHash
    ensures LiveParents(p, s')
  {
    var b := s.batch.value;
    assert Alive(s') == s.table + s.singles;
    forall e | e in Alive(s') ensures Stands(p, Alive(s'), e.previousHash) {
      assert e in Alive(s);
      if e.previousHash != p.genesis {
        var f :| f in Alive(s) && f.signature == e.previousHash;
        if f in b.entries {
          var i :| 0 <= i < |b.entries| && b.entries[i] == f;
          NoneOutsideFollowsBatch(p, s, e, i);
        }
        assert f in Alive(s');
      }
    }
  }

  /** Inserting, failing and noting leave every live entry live. */
  lemma AliveKept(p: Params, s: State, e: Event, s': State)
    requires Next(p, s, e, s') && (e.StoreLog? || e.StoreBatch? || e.FailBatch? || e.NoteStored?)
    ensures Alive(s') == Alive(s) && s'.chain == s.chain
    ensures s'.batch.Some? ==> s.batch.Some? && s'.batch.value.prevHash == s.batch.value.prevHash
                               && s'.table + s'.singles == s.table + s.singles
  {
    if e.StoreLog? {
      assert s'.table + s'.singles == s.table + s.singles;
    }
  }

  lemma SameAliveLiveParents(p: Params, s: State, s': State)
    requires LiveParents(p, s) && Alive(s') == Alive(s) && s'.chain == s.chain
    requires s'.batch.Some? ==> s.batch.Some? && s'.batch.value.prevHash == s.batch.value.prevHash
                                && s'.table + s'.singles == s.table + s.singles
    ensures LiveParents(p, s')
  {
  }

  ghost predicate GuardHolds(s: State) {
    s.batch.Some? && s.batch.value.entries != [] ==>
      s.chain.lastHash == s.batch.value.entries[|s.batch.value.entries| - 1].signature
  }

  lemma {:induction false} StepLiveParents(p: Params, s: State, e: Event, s': State)
    requires Inv(p, s) && LiveParents(p, s) && Next(p, s, e, s')
    requires !e.LoseLog? && (e.RollBackBatch? ==> GuardHolds(s))
    ensures LiveParents(p, s')
  {
    hide LiveParents, WellSigned, UnforkedSet, BatchLinked;
    match e
    case SignLog(d) => SignIntoLiveParents(p, s, d, false);
    case SignBatch(ds) => SignBatchLiveParents(p, s, ds);
    case RollBackBatch => RollBackLiveParents(p, s, s');
    case _ =>
      AliveKept(p, s, e, s');
      SameAliveLiveParents(p, s, s');
  }

  lemma {:induction false} RunLiveParents(p: Params, run: Run, start: seq<Entry>, k: nat)
    requires GoodRun(p, run, start) && Orderly(run) && k < |run.states|
    ensures LiveParents(p, run.states[k])
  {
    hide Inv, LiveParents, Next, GuardHolds, ConsistentStart, DistinctSignatures;
    if k == 0 {
      StartLiveParents(p, run.states[0], start);
    } else {
      RunInv(p, run, start, k - 1);
      RunLiveParents(p, run, start, k - 1);
      StepLiveParents(p, run.states[k - 1], run.events[k - 1], run.states[k]);
    }
  }

  lemma StartLiveParents(p: Params, s: State, start: seq<Entry>)
    requires SigningOn(p) && ConsistentStart(p, s, start)
    ensures LiveParents(p, s)
  {
    assert Alive(s) == set x | x in start;
    forall e | e in Alive(s) ensures Stands(p, Alive(s), e.previousHash) {
      var i :| 0 <= i < |start| && start[i] == e;
      IntactRow(p, start, i);
      if i > 0 { assert start[i - 1] in Alive(s); }
    }
    if start != [] { assert start[|start| - 1] in Alive(s); }
  }

  /** When log's inserts succeed and nothing is signed between a failed batch's signing and its
      rollback, then whenever nothing is in flight the rows in timestamp order are accepted by
      VerifyChain exactly when stored parents come first in them. */
  lemma OrderlyRowsVerifyExactlyWhen(p: Params, run: Run, start: seq<Entry>, k: nat, rows: seq<Entry>)
    requires GoodRun(p, run, start) && Orderly(run) && k < |run.states|
    requires Quiescent(run.states[k]) && InTimeOrder(rows, run.states[k].table)
    ensures Verdict(p.mac, rows, p.config.signatureKey, p.genesis).None? <==> ParentsFirst(rows)
  {
    var s := run.states[k];
    RunLiveParents(p, run, start, k);
    assert Alive(s) == s.table;
    forall e | e in s.table
      ensures e.previousHash == p.genesis || exists f :: f in s.table && f.signature == e.previousHash
    {
      assert Stands(p, s.table, e.previousHash);
    }
    hide GoodRun, ParentsFirst, Verdict, InTimeOrder, LiveParents;
    RowsVerifyExactlyWhen(p, run, start, k, rows);
  }

  /** Writer meets verifier: and so, with a clock past the start, whenever nothing is in flight
      the rows are a chain VerifyChain accepts. */
  lemma WriterMeetsVerifier(p: Params, run: Run, start: seq<Entry>, k: nat, rows: seq<Entry>)
    requires GoodRun(p, run, start) && ClockPastStart(run, start) && Orderly(run) && k < |run.states|
    requires Quiescent(run.states[k]) && InTimeOrder(rows, run.states[k].table)
    ensures Verdict(p.mac, rows, p.config.signatureKey, p.genesis).None?
  {
    hide GoodRun, ClockPastStart, Orderly, ParentsFirst, Verdict, InTimeOrder;
    ClockPutsParentsFirst(p, run, start, k, rows);
    OrderlyRowsVerifyExactlyWhen(p, run, start, k, rows);
  }

  // ----- Runs that do lose one -----

  /** One entry of log's fails to insert and the next one is stored: for any key and any
      signature function the table does not verify. */
  lemma LostEntryBreaksTheChain(p: Params, d1: Draft, d2: Draft)
    requires SigningOn(p) && p.genesis == ""
    ensures var s0 := State(Chain("", 0), {}, {}, None, {}, None, []);
            var c1 := Advance(p.mac, Some(p.config), s0.chain, d1);
            var e1 := Signed(p.mac, Some(p.config), s0.chain, d1);
            var e2 := Signed(p.mac, Some(p.config), c1, d2);
            && (exists run :: IsRun(p, run) && run.states[0] == s0 && ConsistentStart(p, s0, [])
                              && run.events == [SignLog(d1), LoseLog(e1), SignLog(d2), StoreLog(e2)]
                              && run.states[4].table == {e2})
            && Verdict(p.mac, [e2], p.config.signatureKey, p.genesis) == Some(ChainError(0, e2.id, WrongPredecessor))
  {
    var cfg := Some(p.config);
    var s0 := State(Chain("", 0), {}, {}, None, {}, None, []);
    var e1 := Signed(p.mac, cfg, s0.chain, d1);
    var s1 := s0.(chain := Advance(p.mac, cfg, s0.chain, d1), singles := {e1}, signed := [e1]);
    var s2 := s1.(singles := {});
    var e2 := Signed(p.mac, cfg, s1.chain, d2);
    var s3 := s2.(chain := Advance(p.mac, cfg, s1.chain, d2), singles := {e2}, signed := [e1, e2]);
    var s4 := s3.(singles := {}, table := {e2}, unnoted := {e2});
    var run := Run([s0, s1, s2, s3, s4], [SignLog(d1), LoseLog(e1), SignLog(d2), StoreLog(e2)]);
    assert s0.singles + {e1} == {e1} && s0.signed + [e1] == [e1];
    assert s1.singles - {e1} == {} && s2.singles + {e2} == {e2} && s2.signed + [e2] == [e1, e2];
    assert s3.singles - {e2} == {} && s3.table + {e2} == {e2} && s3.unnoted + {e2} == {e2};
    assert Next(p, s0, run.events[0], s1) && Next(p, s1, run.events[1], s2);
    assert Next(p, s2, run.events[2], s3) && Next(p, s3, run.events[3], s4);
    assert IsRun(p, run);
    assert e2.previousHash == e1.signature != "";
    FirstFaultIsReported(p.mac, [e2], p.config.signatureKey, "", 0, 0);
  }

  /** The other way to lose one: a batch fails to insert, an entry is signed on top of it, and
      the rollback comes too late for that entry.  Stored, it does not verify. */
  lemma LateRollBackBreaksTheChain(p: Params, d1: Draft, d2: Draft)
    requires SigningOn(p) && p.genesis == ""
    ensures var s0 := State(Chain("", 0), {}, {}, None, {}, None, []);
            var c1 := Advance(p.mac, Some(p.config), s0.chain, d1);
            var e2 := Signed(p.mac, Some(p.config), c1, d2);
            && (exists run :: IsRun(p, run) && run.states[0] == s0 && ConsistentStart(p, s0, [])
                              && run.events == [SignBatch([d1]), FailBatch, SignLog(d2), RollBackBatch, StoreLog(e2)]
                              && run.states[5].table == {e2})
            && Verdict(p.mac, [e2], p.config.signatureKey, p.genesis) == Some(ChainError(0, e2.id, WrongPredecessor))
  {
    var cfg := Some(p.config);
    var s0 := State(Chain("", 0), {}, {}, None, {}, None, []);
    var e1 := Signed(p.mac, cfg, s0.chain, d1);
    var e2 := Signed(p.mac, cfg, Advance(p.mac, cfg, s0.chain, d1), d2);
    OnTopOf(p, s0.chain, d1, d2);
    hide Signed, Advance, SignedAll, AdvanceAll, Verdict, RolledBack, ConsistentStart;
    FirstOnTop(p, e1, e2);
    EmptyStart(p);
    var run := LateRollBackRun(p, d1, d2);
  }

  lemma OnTopOf(p: Params, c: Chain, d1: Draft, d2: Draft)
    requires SigningOn(p)
    ensures var e1 := Signed(p.mac, Some(p.config), c, d1);
            var e2 := Signed(p.mac, Some(p.config), Advance(p.mac, Some(p.config), c, d1), d2);
            e2.previousHash == e1.signature != "" && e2.signature != ""
  {
    hide Payload;
  }

  lemma FirstOnTop(p: Params, e1: Entry, e2: Entry)
    requires SigningOn(p) && p.genesis == "" && e2.previousHash == e1.signature != "" && e2.signature != ""
    ensures Verdict(p.mac, [e2], p.config.signatureKey, p.genesis) == Some(ChainError(0, e2.id, WrongPredecessor))
  {
    FirstFaultIsReported(p.mac, [e2], p.config.signatureKey, "", 0, 0);
  }

  lemma LateRollBackRun(p: Params, d1: Draft, d2: Draft) returns (run: Run)
    requires SigningOn(p) && p.genesis == ""
    ensures var s0 := State(Chain("", 0), {}, {}, None, {}, None, []);
            var e2 := Signed(p.mac, Some(p.config), Advance(p.mac, Some(p.config), s0.chain, d1), d2);
            && IsRun(p, run) && run.states[0] == s0
            && run.events == [SignBatch([d1]), FailBatch, SignLog(d2), RollBackBatch, StoreLog(e2)]
            && run.states[5].table == {e2}
  {
    hide Signed, Advance, SignedAll, AdvanceAll, RolledBack;
    var cfg := Some(p.config);
    var s0 := State(Chain("", 0), {}, {}, None, {}, None, []);
    var e1, c1 := Signed(p.mac, cfg, s0.chain, d1), Advance(p.mac, cfg, s0.chain, d1);
    var e2, c2 := Signed(p.mac, cfg, c1, d2), Advance(p.mac, cfg, c1, d2);
    BatchOfOne(p.mac, cfg, s0.chain, d1);
    var s1 := s0.(chain := c1, batch := Some(Batch([e1], "", false)), signed := [e1]);
    var s2 := s1.(batch := Some(Batch([e1], "", true)));
    var s3 := s2.(chain := c2, singles := {e2}, signed := [e1, e2]);
    var s4 := s3.(batch := None, chain := c2.(lastHash := RolledBack(c2.lastHash, [e1], "")));
    var s5 := s4.(singles := {}, table := {e2}, unnoted := {e2});
    run := Run([s0, s1, s2, s3, s4, s5], [SignBatch([d1]), FailBatch, SignLog(d2), RollBackBatch, StoreLog(e2)]);
    assert s0.signed + [e1] == [e1];
    assert Next(p, s0, run.events[0], s1) && Next(p, s1, run.events[1], s2);
    assert s2.singles + {e2} == {e2} && s2.signed + [e2] == [e1, e2];
    assert Next(p, s2, run.events[2], s3) && Next(p, s3, run.events[3], s4);
    assert s4.singles - {e2} == {} && s4.table + {e2} == {e2} && s4.unnoted + {e2} == {e2};
    assert Next(p, s4, run.events[4], s5);
  }

  lemma BatchOfOne(mac: Mac, cfg: Option<AuditConfig>, c: Chain, d: Draft)
    ensures SignedAll(mac, cfg, c, [d]) == [Signed(mac, cfg, c, d)]
            && AdvanceAll(mac, cfg, c, [d]) == Advance(mac, cfg, c, d)
  {
    assert [d][..0] == [];
    hide Signed, Advance;
  }

  lemma EmptyStart(p: Params)
    requires SigningOn(p) && p.genesis == ""
    ensures ConsistentStart(p, State(Chain("", 0), {}, {}, None, {}, None, []), [])
  {
  }

  /** A restart whose clock reads before the newest row: the next entry is stamped before the
      one it is signed on top of.  Nothing is lost, and in every timestamp order the table
      does not verify. */
  lemma ClockBehindBreaksTheChain(p: Params, e0: Entry, d: Draft) returns (run: Run)
    requires SigningOn(p) && Verdict(p.mac, [e0], p.config.signatureKey, p.genesis).None?
    requires 0 < d.clock < e0.timestamp && e0.signature != p.genesis
    ensures IsRun(p, run) && ConsistentStart(p, run.states[0], [e0]) && Orderly(run)
    ensures |run.states| == 3 && ParentsStored(p, run.states[2].table)
    ensures exists rows :: InTimeOrder(rows, run.states[2].table)
    ensures forall rows :: InTimeOrder(rows, run.states[2].table) ==>
              Verdict(p.mac, rows, p.config.signatureKey, p.genesis).Some?
  {
    var c0 := Chain(e0.signature, 0);
    var e1, c1 := Signed(p.mac, Some(p.config), c0, d), Advance(p.mac, Some(p.config), c0, d);
    var s0 := State(c0, {e0}, {}, None, {}, Some((e0.id, e0.timestamp)), [e0]);
    var s1 := s0.(chain := c1, singles := {e1}, signed := [e0, e1]);
    var s2 := s1.(singles := {}, table := {e0, e1}, unnoted := {e1});
    run := Run([s0, s1, s2], [SignLog(d), StoreLog(e1)]);
    assert e1.timestamp == d.clock && e1.previousHash == e0.signature && e1.signature != "";
    SignedIsSigned(p, c0, d);
    IntactRow(p, [e0], 0);
    hide Signed, Advance, Verdict, SignEntry;
    assert s0.singles + {e1} == {e1} && s0.signed + [e1] == [e0, e1];
    assert s1.singles - {e1} == {} && s1.table + {e1} == {e0, e1} && s1.unnoted + {e1} == {e1};
    assert Next(p, s0, run.events[0], s1) && Next(p, s1, run.events[1], s2);
    assert (set x | x in [e0]) == {e0} && Before([e0], 1, p.genesis) == e0.signature;
    ChildFirstFails(p, e0, e1);
  }

  lemma ChildFirstFails(p: Params, e0: Entry, e1: Entry)
    requires SigningOn(p) && e1.timestamp < e0.timestamp && e1.previousHash != p.genesis
    ensures InTimeOrder([e1, e0], {e0, e1})
    ensures forall rows :: InTimeOrder(rows, {e0, e1}) ==> Verdict(p.mac, rows, p.config.signatureKey, p.genesis).Some?
  {
    forall rows: seq<Entry> | InTimeOrder(rows, {e0, e1})
      ensures Verdict(p.mac, rows, p.config.signatureKey, p.genesis).Some?
    {
      var table := set x | x in rows;
      assert table == {e0, e1} && e1 in table;
      var i :| 0 <= i < |rows| && rows[i] == e1;
      assert rows[0].timestamp <= rows[i].timestamp;
      assert rows[0] in table;
      if Verdict(p.mac, rows, p.config.signatureKey, p.genesis).None? {
        IntactRow(p, rows, 0);
      }
    }
  }

  // ----- Every row says what its writer was told -----

  /** What an event signs, in order. */
  function DraftsOf(e: Event): seq<Draft> {
    match e
    case SignLog(d) => [d]
    case SignBatch(ds) => ds
    case _ => []
  }

  /** A step signs its drafts and nothing else, on top of the chain it finds; what is stored or on
      its way after it was so before or was signed by it. */
  lemma StepSigns(p: Params, s: State, e: Event, s': State)
    requires Next(p, s, e, s')
    ensures s.signed <= s'.signed
    ensures BatchOf(p.mac, Some(p.config), s'.signed[|s.signed|..], DraftsOf(e), s.chain)
    ensures forall x :: x in Alive(s') ==> x in Alive(s) || x in s'.signed[|s.signed|..]
  {
    hide Signed, Advance, BatchOf, SignedAll, AdvanceAll;
    match e
    case SignLog(d) =>
      var entry := Signed(p.mac, Some(p.config), s.chain, d);
      assert s'.signed[|s.signed|..] == [entry];
      SingleIsBatch(p, s.chain, d);
    case SignBatch(ds) =>
      SignedAllIsBatch(p.mac, Some(p.config), s.chain, ds);
      assert s'.signed[|s.signed|..] == SignedAll(p.mac, Some(p.config), s.chain, ds);
    case _ =>
      assert s'.signed[|s.signed|..] == [];
      NothingIsBatch(p.mac, Some(p.config), s.chain);
  }

  lemma SingleIsBatch(p: Params, c: Chain, d: Draft)
    ensures BatchOf(p.mac, Some(p.config), [Signed(p.mac, Some(p.config), c, d)], [d], c)
  {
    SignedIsFrom(p.mac, Some(p.config), c, d);
    hide Signed, SignedFrom;
  }

  /** `row` was signed in step `m` from draft `j` of its event: it holds what that draft says, on top
      of the entry signed before it. */
  ghost predicate DraftedIn(p: Params, run: Run, row: Entry, m: nat, j: nat) {
    && m < |run.events| && m + 1 < |run.states| && run.states[m].signed <= run.states[m + 1].signed
    && var es, ds := run.states[m + 1].signed[|run.states[m].signed|..], DraftsOf(run.events[m]);
       j < |es| == |ds| && row == es[j]
       && SignedFrom(p.mac, Some(p.config), row, ds[j], ChainAt(es, j, run.states[m].chain))
  }

  /** Every row that was not there at the start, in any run, holds what the draft it was signed from
      says, in the step that signed it. */
  lemma {:induction false} RowsSayWhatWasDrafted(p: Params, run: Run, start: seq<Entry>, k: nat, row: Entry)
        returns (m: nat, j: nat)
    requires IsRun(p, run) && ConsistentStart(p, run.states[0], start) && k < |run.states|
    requires row in Alive(run.states[k]) && row !in start
    ensures m < k && DraftedIn(p, run, row, m, j)
    decreases k
  {
    hide Next, ConsistentStart, Alive, DraftedIn, SignedFrom;
    if k == 0 {
      StartIsAlive(p, run.states[0], start);
    } else {
      StepSigns(p, run.states[k - 1], run.events[k - 1], run.states[k]);
      if row in Alive(run.states[k - 1]) {
        m, j := RowsSayWhatWasDrafted(p, run, start, k - 1, row);
      } else {
        m := k - 1;
        j := NewlyDrafted(p, run, m, row);
      }
    }
  }

  lemma NewlyDrafted(p: Params, run: Run, m: nat, row: Entry) returns (j: nat)
    requires m < |run.events| && m + 1 < |run.states| && run.states[m].signed <= run.states[m + 1].signed
    requires var es := run.states[m + 1].signed[|run.states[m].signed|..];
             row in es && BatchOf(p.mac, Some(p.config), es, DraftsOf(run.events[m]), run.states[m].chain)
    ensures DraftedIn(p, run, row, m, j)
  {
    hide SignedFrom, DraftsOf;
    var es := run.states[m + 1].signed[|run.states[m].signed|..];
    j :| 0 <= j < |es| && es[j] == row;
  }

  lemma StartIsAlive(p: Params, s: State, start: seq<Entry>)
    requires ConsistentStart(p, s, start)
    ensures Alive(s) == set x | x in start
  {
  }

  // ----- Distinct signatures from distinct ids -----

  function IdsOf(es: seq<Entry>): seq<string> {
    if es == [] then [] else IdsOf(es[..|es| - 1]) + [es[|es| - 1].id]
  }

  function DraftIds(ds: seq<Draft>): seq<string> {
    if ds == [] then [] else DraftIds(ds[..|ds| - 1]) + [ds[|ds| - 1].id]
  }

  /** The ids of everything signed in a run, in order. */
  function EventIds(events: seq<Event>): seq<string> {
    if events == [] then []
    else
      var e := events[|events| - 1];
      EventIds(events[..|events| - 1])
      + match e
        case SignLog(d) => [d.id]
        case SignBatch(ds) => DraftIds(ds)
        case _ => []
  }

  /** No id is used twice, and none holds the separator. */
  predicate FreshIds(ids: seq<string>) {
    && (forall i, j :: 0 <= i < j < |ids| ==> ids[i] != ids[j])
    && (forall i :: 0 <= i < |ids| ==> '|' !in ids[i])
  }

  ghost predicate AllSigned(p: Params, es: seq<Entry>) {
    forall i :: 0 <= i < |es| ==> es[i].signature == SignEntry(p.mac, es[i], p.config.signatureKey)
  }

  lemma {:induction false} IdsAt(es: seq<Entry>)
    ensures |IdsOf(es)| == |es| && forall i :: 0 <= i < |es| ==> IdsOf(es)[i] == es[i].id
  {
    if es != [] { IdsAt(es[..|es| - 1]); }
  }

  lemma {:induction false} IdsAppend(es: seq<Entry>, more: seq<Entry>)
    ensures IdsOf(es + more) == IdsOf(es) + IdsOf(more)
  {
    if more == [] {
      assert es + more == es;
    } else {
      assert (es + more)[..|es + more| - 1] == es + more[..|more| - 1];
      IdsAppend(es, more[..|more| - 1]);
    }
  }

  lemma SignedIsSigned(p: Params, c: Chain, d: Draft)
    requires SigningOn(p)
    ensures var e := Signed(p.mac, Some(p.config), c, d);
            e.id == d.id && e.signature == SignEntry(p.mac, e, p.config.signatureKey)
  {
    var e := Signed(p.mac, Some(p.config), c, d);
    SignatureIgnoresItself(p.mac, e, "", p.config.signatureKey);
    hide SignEntry;
  }

  lemma {:induction false} BatchIsSigned(p: Params, c: Chain, ds: seq<Draft>)
    requires SigningOn(p)
    ensures var es := SignedAll(p.mac, Some(p.config), c, ds);
            IdsOf(es) == DraftIds(ds) && AllSigned(p, es)
  {
    hide Signed, SignEntry;
    if ds != [] {
      var front := ds[..|ds| - 1];
      BatchIsSigned(p, c, front);
      SignedIsSigned(p, AdvanceAll(p.mac, Some(p.config), c, front), ds[|ds| - 1]);
      var es := SignedAll(p.mac, Some(p.config), c, ds);
      assert es[..|es| - 1] == SignedAll(p.mac, Some(p.config), c, front);
    }
  }

  /** What is signed in a run, its ids and its signatures. */
  lemma {:induction false} RunIsSigned(p: Params, run: Run, rows: seq<Entry>, k: nat)
    requires SigningOn(p) && IsRun(p, run) && ConsistentStart(p, run.states[0], rows) && k < |run.states|
    ensures IdsOf(run.states[k].signed) == IdsOf(rows) + EventIds(run.events[..k])
    ensures AllSigned(p, run.states[k].signed)
  {
    hide Next, ConsistentStart, AllSigned, IdsOf, EventIds;
    if k == 0 {
      StartIsSigned(p, run.states[0], rows);
      assert run.events[..0] == [] && EventIds([]) == [] by { NoEventIds(); }
    } else {
      RunIsSigned(p, run, rows, k - 1);
      SignStep(p, run.states[k - 1], run.events[k - 1], run.states[k]);
      EventIdsStep(run.events[..k - 1], run.events[k - 1]);
      assert run.events[..k] == run.events[..k - 1] + [run.events[k - 1]];
    }
  }

  lemma NoEventIds()
    ensures EventIds([]) == []
  {
  }

  lemma EventIdsStep(events: seq<Event>, e: Event)
    ensures EventIds(events + [e])
            == EventIds(events) + match e case SignLog(d) => [d.id] case SignBatch(ds) => DraftIds(ds) case _ => []
  {
    assert (events + [e])[..|events|] == events;
    hide DraftIds;
  }

  lemma StartIsSigned(p: Params, s: State, rows: seq<Entry>)
    requires SigningOn(p) && ConsistentStart(p, s, rows)
    ensures s.signed == rows && AllSigned(p, rows)
  {
    forall i | 0 <= i < |rows| ensures rows[i].signature == SignEntry(p.mac, rows[i], p.config.signatureKey) {
      IntactRow(p, rows, i);
    }
  }

  lemma SignStep(p: Params, s: State, e: Event, s': State)
    requires SigningOn(p) && Next(p, s, e, s') && AllSigned(p, s.signed)
    ensures AllSigned(p, s'.signed)
    ensures IdsOf(s'.signed)
            == IdsOf(s.signed) + match e case SignLog(d) => [d.id] case SignBatch(ds) => DraftIds(ds) case _ => []
  {
    hide Signed, SignEntry, SignedAll;
    match e
    case SignLog(d) =>
      var entry := Signed(p.mac, Some(p.config), s.chain, d);
      SignedIsSigned(p, s.chain, d);
      assert (s.signed + [entry])[..|s.signed|] == s.signed;
    case SignBatch(ds) =>
      BatchIsSigned(p, s.chain, ds);
      IdsAppend(s.signed, SignedAll(p.mac, Some(p.config), s.chain, ds));
    case _ =>
  }

  lemma FreshIdsSignDistinctly(p: Params, es: seq<Entry>)
    requires CollisionFree(p.mac, p.config.signatureKey) && AllSigned(p, es) && FreshIds(IdsOf(es))
    requires forall text :: p.mac(p.config.signatureKey, text) != p.genesis
    ensures DistinctSignatures(es, p.genesis)
  {
    IdsAt(es);
    forall i, j | 0 <= i < j < |es| ensures es[i].signature != es[j].signature {
      assert IdsOf(es)[i] != IdsOf(es)[j] && '|' !in IdsOf(es)[i] && '|' !in IdsOf(es)[j];
      DistinctIdsSignDistinctly(p.mac, p.config.signatureKey, es[i], es[j]);
    }
  }

  /** The theorems rest on their inputs: with a collision-free signature that never gives the
      genesis hash, every run from a consistent start in which no id is used twice is one
      they speak of. */
  lemma FreshIdsMakeAGoodRun(p: Params, run: Run, rows: seq<Entry>)
    requires SigningOn(p) && IsRun(p, run) && ConsistentStart(p, run.states[0], rows)
    requires CollisionFree(p.mac, p.config.signatureKey)
            && forall text :: p.mac(p.config.signatureKey, text) != p.genesis
    requires FreshIds(IdsOf(rows) + EventIds(run.events))
    ensures GoodRun(p, run, rows)
  {
    var k := |run.events|;
    RunIsSigned(p, run, rows, k);
    assert run.events[..k] == run.events;
    hide IsRun, ConsistentStart, AllSigned, IdsOf, EventIds, FreshIds;
    FreshIdsSignDistinctly(p, run.states[k].signed);
  }

  // ----- The tail anchor -----

  ghost predicate Covered(s: State, e: Entry) {
    || (s.anchor.Some? && e.timestamp <= s.anchor.value.1)
    || exists f :: f in s.unnoted && e.timestamp <= f.timestamp
  }

  ghost predicate LastIsLatest(es: seq<Entry>) {
    forall x :: x in es ==> es != [] && x.timestamp <= es[|es| - 1].timestamp
  }

  /** The anchor is a row, and no row is newer than it and than all rows still to be noted. */
  ghost predicate Anchored(s: State) {
    && s.unnoted <= s.table
    && (s.anchor.Some? ==> exists e :: e in s.table && (e.id, e.timestamp) == s.anchor.value)
    && (forall e :: e in s.table ==> Covered(s, e))
    && (s.batch.Some? ==> LastIsLatest(s.batch.value.entries))
  }

  lemma {:induction false} BatchLastIsLatest(p: Params, c: Chain, ds: seq<Draft>)
    ensures LastIsLatest(SignedAll(p.mac, Some(p.config), c, ds))
    ensures ds != [] ==> AdvanceAll(p.mac, Some(p.config), c, ds).lastStamp
                         == SignedAll(p.mac, Some(p.config), c, ds)[|ds| - 1].timestamp
  {
    if ds != [] { BatchLastIsLatest(p, c, ds[..|ds| - 1]); }
  }

  lemma NoteAnchored(s: State, entry: Entry)
    requires Anchored(s) && entry in s.unnoted
    ensures Anchored(s.(unnoted := s.unnoted - {entry}, anchor := Noted(s.anchor, entry)))
  {
    var s' := s.(unnoted := s.unnoted - {entry}, anchor := Noted(s.anchor, entry));
    forall x | x in s.table ensures Covered(s', x) {
      assert Covered(s, x);
      if !(s.anchor.Some? && x.timestamp <= s.anchor.value.1) {
        var f :| f in s.unnoted && x.timestamp <= f.timestamp;
        if f != entry { assert f in s'.unnoted; }
      }
    }
  }

  /** Rows of which the newest is still to be noted. */
  lemma StoreAnchored(s: State, s': State, es: seq<Entry>)
    requires Anchored(s) && es != [] && LastIsLatest(es) && s'.anchor == s.anchor
    requires s'.table == s.table + (set x | x in es) && s'.unnoted == s.unnoted + {es[|es| - 1]}
    requires s'.batch.Some? ==> LastIsLatest(s'.batch.value.entries)
    ensures Anchored(s')
  {
    var last := es[|es| - 1];
    assert last in s'.unnoted && last in s'.table;
    if s.anchor.Some? {
      var row :| row in s.table && (row.id, row.timestamp) == s.anchor.value;
      assert row in s'.table;
    }
    forall x | x in s'.table ensures Covered(s', x) {
      if x in s.table {
        assert Covered(s, x);
        if !(s.anchor.Some? && x.timestamp <= s.anchor.value.1) {
          var f :| f in s.unnoted && x.timestamp <= f.timestamp;
          assert f in s'.unnoted;
        }
      } else {
        assert x in es && x.timestamp <= last.timestamp;
      }
    }
  }

  lemma UntouchedAnchored(s: State, s': State)
    requires Anchored(s) && s'.table == s.table && s'.unnoted == s.unnoted && s'.anchor == s.anchor
    requires s'.batch.Some? ==> LastIsLatest(s'.batch.value.entries)
    ensures Anchored(s')
  {
    forall x | x in s'.table ensures Covered(s', x) { assert Covered(s, x); }
  }

  lemma StepAnchored(p: Params, s: State, e: Event, s': State)
    requires Anchored(s) && Next(p, s, e, s')
    ensures Anchored(s')
  {
    assert s.batch.Some? ==> LastIsLatest(s.batch.value.entries);
    hide Anchored, LastIsLatest;
    match e
    case SignBatch(ds) =>
      BatchLastIsLatest(p, s.chain, ds);
      UntouchedAnchored(s, s');
    case StoreLog(entry) =>
      SingletonLatest(entry);
      assert (set x | x in [entry]) == {entry};
      StoreAnchored(s, s', [entry]);
    case StoreBatch => StoreAnchored(s, s', s.batch.value.entries);
    case NoteStored(entry) => NoteAnchored(s, entry);
    case _ => UntouchedAnchored(s, s');
  }

  lemma SingletonLatest(e: Entry)
    ensures LastIsLatest([e])
  {
  }

  /** Whenever nothing is in flight, the tail anchor VerifyRange looks for is the newest
      row of the table: so an anchor that is missing was deleted from the end, or retired. */
  lemma {:induction false} AnchorIsTheNewestRow(p: Params, run: Run, start: seq<Entry>, k: nat)
    requires IsRun(p, run) && ConsistentStart(p, run.states[0], start) && k < |run.states|
    ensures Anchored(run.states[k])
    ensures var s := run.states[k];
            Quiescent(s) ==>
              && (s.anchor.None? <==> s.table == {})
              && (s.anchor.Some? ==> exists e :: e in s.table && (e.id, e.timestamp) == s.anchor.value
                                                 && forall f :: f in s.table ==> f.timestamp <= e.timestamp)
  {
    hide Next, ConsistentStart, Anchored, Quiescent;
    if k == 0 {
      StartAnchored(p, run.states[0], start);
    } else {
      AnchorIsTheNewestRow(p, run, start, k - 1);
      StepAnchored(p, run.states[k - 1], run.events[k - 1], run.states[k]);
    }
    if Quiescent(run.states[k]) { QuietAnchor(run.states[k]); }
  }

  lemma StartAnchored(p: Params, s: State, start: seq<Entry>)
    requires ConsistentStart(p, s, start)
    ensures Anchored(s)
  {
    if start != [] { assert start[|start| - 1] in s.table; }
    assert forall x :: x in s.table ==> x in start && x.timestamp <= start[|start| - 1].timestamp;
  }

  lemma QuietAnchor(s: State)
    requires Anchored(s) && Quiescent(s)
    ensures s.anchor.None? <==> s.table == {}
    ensures s.anchor.Some? ==> exists e :: e in s.table && (e.id, e.timestamp) == s.anchor.value
                                           && forall f :: f in s.table ==> f.timestamp <= e.timestamp
  {
  }
}
