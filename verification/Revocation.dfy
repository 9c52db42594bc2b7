/** Session revocation across the nodes of a deployment (internal/auth/revocation.go).
    Every node has its own cache of bindings in front of one shared users table.  A
    lookup that misses the cache reads the table and stores the answer in two separate
    steps, so anything may happen in between. */
module Revocation {
  import opened Wrappers
  import opened SessionBinding

  const DEFAULT_BINDING_TTL: nat := 30_000_000_000

  // ----- The cache -----

  datatype Cached = Cached(binding: string, expires: int)

  type Entries = map<string, Cached>

  function CacheGet(entries: Entries, id: string, now: int): Option<string> {
    if id in entries && now < entries[id].expires then Some(entries[id].binding) else None
  }

  function CachePut(entries: Entries, id: string, binding: string, now: int, ttl: nat): Entries {
    entries[id := Cached(binding, now + ttl)]
  }

  function CacheInvalidate(entries: Entries, id: string): Entries {
    entries - {id}
  }

  // ----- The table -----

  type Table = map<string, AccountState>

  /** A row as a session is bound to it: no role means viewer. */
  function Effective(a: AccountState): AccountState {
    if a.role == "" then a.(role := ROLE_VIEWER) else a
  }

  datatype Lookup = NoRow | Disabled | Bound(binding: string)

  /** What the table answers about account `id`. */
  function ReadBinding(digest: Digest, db: Table, id: string): Lookup {
    if id !in db then NoRow
    else if db[id].disabled then Disabled
    else Bound(digest(Preimage(Effective(db[id]))))
  }

  /** Account `id` exists, is enabled, and its binding is `b`. */
  predicate Holds(digest: Digest, db: Table, id: string, b: string) {
    ReadBinding(digest, db, id) == Bound(b)
  }

  datatype Mutation =
    | SetPassword(hash: string)
    | SetRole(role: string)
    | SetPasswordAndRole(hash: string, role: string)
    | SetDisabled(flag: bool)
    | SignOut
    | ResetTwoFactor
    | DeleteRow
    | CreateRow(hash: string, role: string)

  /** One statement against the row `id`: an update of a row that is not there
      changes nothing, and a create under a taken id is refused. */
  function Mutate(db: Table, id: string, m: Mutation): Table {
    if m.CreateRow? then
      if id in db then db else db[id := AccountState(m.hash, m.role, false, 0)]
    else if id !in db then db
    else
      var a := db[id];
      match m
      case SetPassword(hash) => db[id := a.(passwordHash := hash)]
      case SetRole(role) => db[id := a.(role := role)]
      case SetPasswordAndRole(hash, role) => db[id := a.(passwordHash := hash, role := role)]
      case SetDisabled(flag) => db[id := a.(disabled := flag)]
      case SignOut => db[id := a.(sessionEpoch := a.sessionEpoch + 1)]
      case ResetTwoFactor => db[id := a.(sessionEpoch := a.sessionEpoch + 1)]
      case DeleteRow => db - {id}
  }

  predicate AdvancesEpoch(m: Mutation) {
    m.SignOut? || m.ResetTwoFactor?
  }

  // ----- One node, as the methods of bindingCache and Manager -----

  class BindingCache {
    const ttl: nat
    var entries: Entries

    /** newBindingCacheWithTTL: a period that is not positive means the default. */
    constructor (ttl: int)
      ensures this.ttl > 0 && (ttl > 0 ==> this.ttl == ttl)
      ensures entries == map[]
    {
      this.ttl := if ttl <= 0 then DEFAULT_BINDING_TTL else ttl;
      this.entries := map[];
    }

    method Get(id: string, now: int) returns (r: Option<string>)
      ensures r == CacheGet(entries, id, now)
    {
      var ok := id in entries;
      var expired := ok && !(now < entries[id].expires);
      if !ok || expired {
        return None;
      }
      return Some(entries[id].binding);
    }

    method Put(id: string, binding: string, now: int)
      modifies this
      ensures entries == CachePut(old(entries), id, binding, now, ttl)
    {
      entries := entries[id := Cached(binding, now + ttl)];
    }

    method Invalidate(id: string)
      modifies this
      ensures entries == CacheInvalidate(old(entries), id)
    {
      entries := entries - {id};
    }
  }

  datatype AuthError = SessionRevoked | AccountDisabled | DatabaseError

  /** currentBinding, run with nothing in between.  `readable` says whether the
      query succeeds; `got` and `put` are the two clock readings it takes. */
  method CurrentBinding(digest: Digest, cache: BindingCache, db: Table, readable: bool, id: string, got: int, put: int)
    returns (r: Result<string, AuthError>)
    modifies cache
    ensures CacheGet(old(cache.entries), id, got).Some? ==>
              r == Success(CacheGet(old(cache.entries), id, got).value) && cache.entries == old(cache.entries)
    ensures CacheGet(old(cache.entries), id, got).None? ==>
              (r.Success? ==> Holds(digest, db, id, r.value))
              && (r.Success? <==> readable && ReadBinding(digest, db, id).Bound?)
              && (r == Failure(DatabaseError) <==> !readable)
              && (r == Failure(AccountDisabled) <==> readable && ReadBinding(digest, db, id).Disabled?)
              && cache.entries ==
                 if r.Success? then CachePut(old(cache.entries), id, r.value, put, cache.ttl) else old(cache.entries)
  {
    var hit := cache.Get(id, got);
    if hit.Some? {
      return Success(hit.value);
    }
    if !readable {
      return Failure(DatabaseError);
    }
    if id !in db {
      return Failure(SessionRevoked);
    }
    var st := db[id];
    if st.role == "" {
      st := st.(role := ROLE_VIEWER);
    }
    if st.disabled {
      return Failure(AccountDisabled);
    }
    var b := ComputeBinding(digest, st);
    cache.Put(id, b, put);
    return Success(b);
  }

  /** checkSessionBinding: a token is accepted exactly when it names an account and
      carries the binding the cache still vouches for or, failing that, the table's.
      Either way the cache learns what the table holds, and nothing of the token. */
  method CheckSessionBinding(digest: Digest, cache: BindingCache, db: Table, readable: bool, id: string,
                             presented: string, got: int, put: int)
    returns (refusal: Option<AuthError>)
    modifies cache
    ensures refusal.None? <==>
              id != "" && presented != "" &&
              match CacheGet(old(cache.entries), id, got)
              case Some(b) => b == presented
              case None => readable && Holds(digest, db, id, presented)
    ensures refusal != Some(AccountDisabled)
    ensures cache.entries ==
            if id != "" && presented != "" && CacheGet(old(cache.entries), id, got).None? && readable
                && ReadBinding(digest, db, id).Bound?
            then CachePut(old(cache.entries), id, ReadBinding(digest, db, id).binding, put, cache.ttl)
            else old(cache.entries)
  {
    if id == "" || presented == "" {
      return Some(SessionRevoked);
    }
    var current := CurrentBinding(digest, cache, db, readable, id, got, put);
    if current == Failure(AccountDisabled) {
      return Some(SessionRevoked);
    }
    if current.Failure? {
      return Some(current.error);
    }
    if current.value != presented {
      return Some(SessionRevoked);
    }
    return None;
  }

  // ----- All nodes together -----

  /** A cache miss that has read the table and not yet stored what it read. */
  datatype Load = Load(id: string, binding: string)

  datatype Node = Node(entries: Entries, loads: map<nat, Load>)

  /** `published` are the accounts some node has announced a revocation of. */
  datatype State = State(now: int, db: Table, nodes: seq<Node>, published: set<string>)

  datatype Params = Params(digest: Digest, ttl: nat)

  datatype Event =
    | Tick(elapsed: nat)
    | Write(node: nat, id: string, mutation: Mutation)
    | Revoke(node: nat, id: string)
    | Deliver(node: nat, id: string)
    | Read(node: nat, load: nat, id: string)
    | Finish(node: nat, load: nat, presented: string)
    | Hit(node: nat, id: string, presented: string)
    | Restart(node: nat)

  /** One step.  A published revocation may be delivered to a node any number of
      times, in any order, or never. */
  ghost predicate Next(p: Params, s: State, e: Event, s': State) {
    match e
    case Tick(elapsed) => s' == s.(now := s.now + elapsed)
    case Write(n, id, m) => n < |s.nodes| && s' == s.(db := Mutate(s.db, id, m))
    case Revoke(n, id) =>
      && n < |s.nodes| && id != ""
      && s' == s.(nodes := s.nodes[n := s.nodes[n].(entries := CacheInvalidate(s.nodes[n].entries, id))],
                  published := s.published + {id})
    case Deliver(n, id) =>
      && n < |s.nodes| && id in s.published
      && s' == s.(nodes := s.nodes[n := s.nodes[n].(entries := CacheInvalidate(s.nodes[n].entries, id))])
    case Read(n, r, id) =>
      && n < |s.nodes| && r !in s.nodes[n].loads && ReadBinding(p.digest, s.db, id).Bound?
      && s' == s.(nodes := s.nodes[n := s.nodes[n].(
                    loads := s.nodes[n].loads[r := Load(id, ReadBinding(p.digest, s.db, id).binding)])])
    case Finish(n, r, presented) =>
      && n < |s.nodes| && r in s.nodes[n].loads
      && var l := s.nodes[n].loads[r];
         s' == s.(nodes := s.nodes[n := Node(CachePut(s.nodes[n].entries, l.id, l.binding, s.now, p.ttl),
                                             s.nodes[n].loads - {r})])
    case Hit(n, id, presented) =>
      n < |s.nodes| && CacheGet(s.nodes[n].entries, id, s.now).Some? && s' == s
    case Restart(n) =>
      n < |s.nodes| && s' == s.(nodes := s.nodes[n := Node(map[], map[])])
  }

  /** Node `n` accepts, in this step, a token naming `id` and carrying `b`. */
  predicate Accepts(s: State, e: Event, n: nat, id: string, b: string) {
    && id != "" && b != "" && n < |s.nodes|
    && match e
       case Hit(m, i, presented) =>
         m == n && i == id && presented == b && CacheGet(s.nodes[n].entries, id, s.now) == Some(b)
       case Finish(m, r, presented) =>
         m == n && presented == b && r in s.nodes[n].loads && s.nodes[n].loads[r] == Load(id, b)
       case _ => false
  }

  datatype Run = Run(states: seq<State>, events: seq<Event>)

  /** Fields are shorter than 2^64 bytes throughout. */
  ghost predicate AllSized(db: Table) {
    forall id :: id in db ==> Sized(Effective(db[id]))
  }

  ghost predicate IsRun(p: Params, run: Run) {
    && |run.states| == |run.events| + 1
    && (forall k :: 0 <= k < |run.events| ==> Next(p, run.states[k], run.events[k], run.states[k + 1]))
    && (forall k :: 0 <= k < |run.states| ==> AllSized(run.states[k].db))
  }

  /** The nodes start with nothing cached and nothing loading. */
  ghost predicate Fresh(s: State) {
    forall n :: 0 <= n < |s.nodes| ==> s.nodes[n] == Node(map[], map[])
  }

  predicate EndsLoad(e: Event, n: nat, r: nat) {
    e == Restart(n) || (e.Finish? && e.node == n && e.load == r)
  }

  /** Load `r` of node `n` read account `id` in step `i` and is not finished by step `m`. */
  ghost predicate Loading(run: Run, n: nat, r: nat, id: string, i: nat, m: nat) {
    && i < m <= |run.events|
    && run.events[i] == Read(n, r, id)
    && forall q :: i < q < m ==> !EndsLoad(run.events[q], n, r)
  }

  /** Load `r` of node `n` read account `id` in step `i` and stored its binding in step `m`. */
  ghost predicate LoadSpan(run: Run, n: nat, r: nat, id: string, i: nat, m: nat) {
    && Loading(run, n, r, id, i, m) && m < |run.events|
    && run.events[m].Finish? && run.events[m].node == n && run.events[m].load == r
  }

  lemma NodesStay(p: Params, run: Run, k: nat)
    requires IsRun(p, run) && k < |run.events|
    ensures |run.states[k].nodes| == |run.states[k + 1].nodes|
    ensures run.states[k].now <= run.states[k + 1].now
  {
    assert Next(p, run.states[k], run.events[k], run.states[k + 1]);
  }

  lemma {:induction false} TimeAdvances(p: Params, run: Run, i: nat, k: nat)
    requires IsRun(p, run) && i <= k < |run.states|
    ensures run.states[i].now <= run.states[k].now
    decreases k - i
  {
    if i < k {
      TimeAdvances(p, run, i, k - 1);
      NodesStay(p, run, k - 1);
    }
  }

  /** A load in progress after a step was there before it, or was read in it. */
  lemma LoadStep(p: Params, s: State, e: Event, s': State, n: nat, r: nat)
    requires Next(p, s, e, s') && n < |s'.nodes| && r in s'.nodes[n].loads
    ensures n < |s.nodes|
    ensures r in s.nodes[n].loads ==> s.nodes[n].loads[r] == s'.nodes[n].loads[r] && !EndsLoad(e, n, r)
    ensures r !in s.nodes[n].loads ==>
              e == Read(n, r, s'.nodes[n].loads[r].id)
                  && Holds(p.digest, s.db, s'.nodes[n].loads[r].id, s'.nodes[n].loads[r].binding)
  {
  }

  /** A cached entry after a step was there before it, or was stored by a load in it. */
  lemma EntryStep(p: Params, s: State, e: Event, s': State, n: nat, id: string)
    requires Next(p, s, e, s') && n < |s'.nodes| && id in s'.nodes[n].entries
    ensures n < |s.nodes|
    ensures (id in s.nodes[n].entries && s.nodes[n].entries[id] == s'.nodes[n].entries[id]) ||
            (e.Finish? && e.node == n && e.load in s.nodes[n].loads
             && s.nodes[n].loads[e.load] == Load(id, s'.nodes[n].entries[id].binding)
             && s'.nodes[n].entries[id].expires == s.now + p.ttl)
  {
  }

  /** Every load in progress read the table when some earlier step says it did. */
  lemma {:induction false} LoadOrigin(p: Params, run: Run, k: nat, n: nat, r: nat) returns (i: nat)
    requires IsRun(p, run) && Fresh(run.states[0]) && k < |run.states|
    requires n < |run.states[k].nodes| && r in run.states[k].nodes[n].loads
    ensures Loading(run, n, r, run.states[k].nodes[n].loads[r].id, i, k)
    ensures Holds(p.digest, run.states[i].db, run.states[k].nodes[n].loads[r].id,
            run.states[k].nodes[n].loads[r].binding)
    decreases k
  {
    hide Next, Holds, AllSized;
    LoadStep(p, run.states[k - 1], run.events[k - 1], run.states[k], n, r);
    if r in run.states[k - 1].nodes[n].loads {
      i := LoadOrigin(p, run, k - 1, n, r);
    } else {
      i := k - 1;
    }
  }

  /** Every cached binding was read by some load in step `i` and stored in step `m`. */
  lemma {:induction false} EntryOrigin(p: Params, run: Run, k: nat, n: nat, id: string) returns (r: nat, i: nat, m: nat)
    requires IsRun(p, run) && Fresh(run.states[0]) && k < |run.states|
    requires n < |run.states[k].nodes| && id in run.states[k].nodes[n].entries
    ensures m < k && LoadSpan(run, n, r, id, i, m)
    ensures Holds(p.digest, run.states[i].db, id, run.states[k].nodes[n].entries[id].binding)
    ensures run.states[k].nodes[n].entries[id].expires == run.states[m].now + p.ttl
    decreases k
  {
    hide Next, Holds, AllSized;
    var s, e := run.states[k - 1], run.events[k - 1];
    EntryStep(p, s, e, run.states[k], n, id);
    if id in s.nodes[n].entries && s.nodes[n].entries[id] == run.states[k].nodes[n].entries[id] {
      r, i, m := EntryOrigin(p, run, k - 1, n, id);
    } else {
      r, m := e.load, k - 1;
      i := LoadOrigin(p, run, k - 1, n, r);
    }
  }

  /** The staleness bound.  Whatever the nodes do, a token accepted in step `k`
      carries a binding that the table held for that live, enabled account in some
      step `i`, where load `r` of the same node read it; that load stored it in step
      `m` (step `k` itself when the token was checked by the load), and less than the
      TTL has passed since. */
  lemma StalenessBound(p: Params, run: Run, k: nat, n: nat, id: string, b: string) returns (r: nat, i: nat, m: nat)
    requires IsRun(p, run) && Fresh(run.states[0]) && k < |run.events|
    requires Accepts(run.states[k], run.events[k], n, id, b)
    ensures m <= k && LoadSpan(run, n, r, id, i, m)
    ensures Holds(p.digest, run.states[i].db, id, b)
    ensures m < k ==> run.states[k].now < run.states[m].now + p.ttl
    ensures run.states[k].now - p.ttl - (run.states[m].now - run.states[i].now) <= run.states[i].now
    ensures m < k ==> run.states[k].now - p.ttl - (run.states[m].now - run.states[i].now) < run.states[i].now
  {
    if run.events[k].Hit? {
      r, i, m := EntryOrigin(p, run, k, n, id);
    } else {
      r, m := run.events[k].load, k;
      i := LoadOrigin(p, run, k, n, r);
    }
  }

  // ----- The node that handles a revocation -----

  /** Node `n` neither has cached nor is loading binding `b` of account `id`. */
  ghost predicate Clear(s: State, n: nat, id: string, b: string) {
    && n < |s.nodes|
    && (id in s.nodes[n].entries ==> s.nodes[n].entries[id].binding != b)
    && !PendingLoad(s, n, id, b)
  }

  ghost predicate PendingLoad(s: State, n: nat, id: string, b: string) {
    n < |s.nodes| && exists r :: r in s.nodes[n].loads && s.nodes[n].loads[r] == Load(id, b)
  }

  lemma {:induction false} StaysClear(p: Params, run: Run, q: nat, k: nat, n: nat, id: string, b: string)
    requires IsRun(p, run) && q <= k < |run.states|
    requires Clear(run.states[q], n, id, b)
    requires forall j :: q <= j < k ==> !Holds(p.digest, run.states[j].db, id, b)
    ensures Clear(run.states[k], n, id, b)
    decreases k - q
  {
    if q < k {
      StaysClear(p, run, q, k - 1, n, id, b);
      assert Next(p, run.states[k - 1], run.events[k - 1], run.states[k]);
      assert !Holds(p.digest, run.states[k - 1].db, id, b);
    }
  }

  ghost predicate EverAccepts(run: Run, n: nat, id: string, b: string) {
    |run.states| == |run.events| + 1 &&
    exists k :: 0 <= k < |run.events| && Accepts(run.states[k], run.events[k], n, id, b)
  }

  /** Once the table no longer holds `b` and the node has dropped its entry, a load
      that read the table before is the one way `b` is still accepted there: some run
      on from here accepts it if and only if such a load is pending. */
  lemma RevokedUnlessLoadPending(p: Params, s: State, n: nat, id: string, b: string)
    requires AllSized(s.db) && n < |s.nodes| && id != "" && b != ""
    requires id !in s.nodes[n].entries
    requires !Holds(p.digest, s.db, id, b)
    ensures PendingLoad(s, n, id, b) <==>
            exists run :: IsRun(p, run) && run.states[0] == s && EverAccepts(run, n, id, b)
                          && (forall j :: 0 <= j < |run.states| ==> !Holds(p.digest, run.states[j].db, id, b))
  {
    if PendingLoad(s, n, id, b) {
      var r :| r in s.nodes[n].loads && s.nodes[n].loads[r] == Load(id, b);
      var s' := s.(nodes := s.nodes[n := Node(CachePut(s.nodes[n].entries, id, b, s.now, p.ttl),
          s.nodes[n].loads - {r})]);
      var run := Run([s, s'], [Finish(n, r, b)]);
      assert Accepts(run.states[0], run.events[0], n, id, b);
      assert IsRun(p, run);
    } else {
      forall run | IsRun(p, run) && run.states[0] == s
                   && (forall j :: 0 <= j < |run.states| ==> !Holds(p.digest, run.states[j].db, id, b))
        ensures !EverAccepts(run, n, id, b)
      {
        forall k | 0 <= k < |run.events| ensures !Accepts(run.states[k], run.events[k], n, id, b) {
          StaysClear(p, run, 0, k, n, id, b);
        }
      }
    }
  }

  /** And such a load is reachable from a fresh start: it reads the table, the account signs out
      on the same node, which drops its entry, and then the load stores the old binding and a
      token carrying it is accepted. */
  lemma SignOutOvertakenByALoad(p: Params, id: string, a: AccountState) returns (run: Run)
    requires id != "" && !a.disabled && Sized(Effective(a)) && Sized(Effective(a).(sessionEpoch := a.sessionEpoch + 1))
    requires a.sessionEpoch + 1 < TWO_TO_THE_64 && p.digest(Preimage(Effective(a))) != ""
    ensures var b := p.digest(Preimage(Effective(a)));
            && run.events == [Read(0, 0, id), Write(0, id, SignOut), Revoke(0, id), Finish(0, 0, b)]
            && IsRun(p, run) && Fresh(run.states[0]) && Holds(p.digest, run.states[0].db, id, b)
            && !Holds(p.digest, run.states[3].db, id, b) && Accepts(run.states[3], run.events[3], 0, id, b)
  {
    var db, db' := map[id := a], map[id := a.(sessionEpoch := a.sessionEpoch + 1)];
    assert Mutate(db, id, SignOut) == db';
    PreimageInjective(Effective(a), Effective(db'[id]));
    hide Preimage;
    run := OvertakenRun(p, id, p.digest(Preimage(Effective(a))), db, db');
  }

  lemma OvertakenRun(p: Params, id: string, b: string, db: Table, db': Table) returns (run: Run)
    requires id != "" && b != "" && ReadBinding(p.digest, db, id) == Bound(b) && Mutate(db, id, SignOut) == db'
    requires AllSized(db) && AllSized(db')
    ensures run.events == [Read(0, 0, id), Write(0, id, SignOut), Revoke(0, id), Finish(0, 0, b)]
    ensures IsRun(p, run) && Fresh(run.states[0]) && run.states[0].db == db && run.states[3].db == db'
    ensures Accepts(run.states[3], run.events[3], 0, id, b)
  {
    hide ReadBinding, Mutate, AllSized;
    var load := Load(id, b);
    var s0 := State(0, db, [Node(map[], map[])], {});
    var s1 := s0.(nodes := [Node(map[], map[0 := load])]);
    var s2 := s1.(db := db');
    var s3 := s2.(published := {id});
    var s4 := s3.(nodes := [Node(map[id := Cached(b, p.ttl)], map[])]);
    run := Run([s0, s1, s2, s3, s4], [Read(0, 0, id), Write(0, id, SignOut), Revoke(0, id), Finish(0, 0, b)]);
    OvertakenNodes(id, b, p.ttl);
    assert Next(p, s0, run.events[0], s1) && Next(p, s1, run.events[1], s2);
    assert s2.published + {id} == s3.published;
    assert Next(p, s2, run.events[2], s3) && Next(p, s3, run.events[3], s4);
    hide Next;
  }

  lemma OvertakenNodes(id: string, b: string, ttl: nat)
    ensures var n0: Node, n1 := Node(map[], map[]), Node(map[], map[0 := Load(id, b)]);
            && [n0][0 := n0.(loads := n0.loads[0 := Load(id, b)])] == [n1]
            && [n1][0 := n1.(entries := CacheInvalidate(n1.entries, id))] == [n1]
            && [n1][0 := Node(CachePut(n1.entries, id, b, 0, ttl), n1.loads - {0})]
               == [Node(map[id := Cached(b, ttl)], map[])]
  {
    var n1 := Node(map[], map[0 := Load(id, b)]);
    assert n1.loads - {0} == map[] && n1.entries - {id} == map[];
  }

  // ----- What ends a session -----

  /** The role a row gives: no role means viewer. */
  function RoleOf(role: string): string {
    if role == "" then "viewer" else role
  }

  /** What is to be answered of an account with these columns. */
  function Answer(digest: Digest, hash: string, role: string, disabled: bool, epoch: nat): Lookup {
    if disabled then Disabled else Bound(digest(Preimage(AccountState(hash, RoleOf(role), false, epoch))))
  }

  /** What each statement against a row that is there leaves to be answered. */
  lemma StatementsAnswer(digest: Digest, db: Table, id: string, m: Mutation)
    requires id in db
    ensures var a := db[id];
            ReadBinding(digest, db, id) == Answer(digest, a.passwordHash, a.role, a.disabled, a.sessionEpoch)
    ensures var a := db[id];
            ReadBinding(digest, Mutate(db, id, m), id) ==
              match m
              case SetPassword(hash) => Answer(digest, hash, a.role, a.disabled, a.sessionEpoch)
              case SetRole(role) => Answer(digest, a.passwordHash, role, a.disabled, a.sessionEpoch)
              case SetPasswordAndRole(hash, role) => Answer(digest, hash, role, a.disabled, a.sessionEpoch)
              case SetDisabled(flag) => Answer(digest, a.passwordHash, a.role, flag, a.sessionEpoch)
              case SignOut => Answer(digest, a.passwordHash, a.role, a.disabled, a.sessionEpoch + 1)
              case ResetTwoFactor => Answer(digest, a.passwordHash, a.role, a.disabled, a.sessionEpoch + 1)
              case DeleteRow => NoRow
              case CreateRow(_, _) => Answer(digest, a.passwordHash, a.role, a.disabled, a.sessionEpoch)
  {
    hide Preimage;
  }

  /** Where there is no row only a create does anything, and no statement touches another row. */
  lemma StatementsElsewhere(digest: Digest, db: Table, id: string, m: Mutation, other: string)
    ensures id !in db ==>
              ReadBinding(digest, Mutate(db, id, m), id)
              == if m.CreateRow? then Answer(digest, m.hash, m.role, false, 0) else NoRow
    ensures other != id ==> ReadBinding(digest, Mutate(db, id, m), other) == ReadBinding(digest, db, other)
  {
    hide Preimage;
  }

  /** A statement ends the sessions of an account exactly when it writes another password hash,
      another role, disables it, ends its sessions, resets its second factor or deletes it. */
  lemma MutationEndsSessions(p: Params, db: Table, id: string, b: string, m: Mutation)
    requires AllSized(db) && AllSized(Mutate(db, id, m))
    requires Holds(p.digest, db, id, b)
    ensures !Holds(p.digest, Mutate(db, id, m), id, b) <==>
              match m
              case SetPassword(hash) => hash != db[id].passwordHash
              case SetRole(role) => RoleOf(role) != RoleOf(db[id].role)
              case SetPasswordAndRole(hash, role) =>
                hash != db[id].passwordHash || RoleOf(role) != RoleOf(db[id].role)
              case SetDisabled(flag) => flag
              case CreateRow(_, _) => false
              case _ => true
    ensures !Holds(p.digest, Mutate(db, id, m), id, b) <==>
            m.DeleteRow? || Effective(Mutate(db, id, m)[id]) != Effective(db[id])
  {
    if !m.DeleteRow? {
      PreimageInjective(Effective(db[id]), Effective(Mutate(db, id, m)[id]));
      hide Preimage;
    }
  }

  ghost predicate NeverDeleted(run: Run, id: string, i: nat, k: nat) {
    forall j :: i <= j < k && j < |run.events| ==>
      !(run.events[j].Write? && run.events[j].id == id && run.events[j].mutation.DeleteRow?)
  }

  lemma EpochStep(p: Params, s: State, e: Event, s': State, id: string)
    requires Next(p, s, e, s') && id in s.db
    requires !(e.Write? && e.id == id && e.mutation.DeleteRow?)
    ensures id in s'.db && s.db[id].sessionEpoch <= s'.db[id].sessionEpoch
    ensures e.Write? && e.id == id && AdvancesEpoch(e.mutation) ==> s.db[id].sessionEpoch < s'.db[id].sessionEpoch
  {
  }

  lemma {:induction false} EpochGrows(p: Params, run: Run, id: string, i: nat, k: nat)
    requires IsRun(p, run) && i <= k < |run.states|
    requires id in run.states[i].db && NeverDeleted(run, id, i, k)
    ensures id in run.states[k].db
    ensures run.states[i].db[id].sessionEpoch <= run.states[k].db[id].sessionEpoch
    decreases k - i
  {
    hide Next, AllSized;
    if i < k {
      EpochGrows(p, run, id, i, k - 1);
      EpochStep(p, run.states[k - 1], run.events[k - 1], run.states[k], id);
    }
  }

  /** A sign-out in step `q` is for good: while the row is not deleted, nothing done to
      the account afterwards -- by any node -- brings back a binding it had before. */
  lemma SignOutIsPermanent(p: Params, run: Run, id: string, b: string, i: nat, q: nat, k: nat)
    requires IsRun(p, run) && i <= q < k < |run.states|
    requires Holds(p.digest, run.states[i].db, id, b)
    requires run.events[q].Write? && run.events[q].id == id && AdvancesEpoch(run.events[q].mutation)
    requires NeverDeleted(run, id, i, k)
    ensures !Holds(p.digest, run.states[k].db, id, b)
  {
    hide Next, Preimage;
    EpochGrows(p, run, id, i, q);
    EpochStep(p, run.states[q], run.events[q], run.states[q + 1], id);
    EpochGrows(p, run, id, q + 1, k);
    PreimageInjective(Effective(run.states[i].db[id]), Effective(run.states[k].db[id]));
  }

  /** A sign-out in step `q`, anywhere, that reaches node `n` in step `v`, as its own or as a peer's.
      If no load of the old binding is pending on `n` then, `n` never again accepts a
      token issued before the sign-out. */
  lemma SignOutReaches(p: Params, run: Run, n: nat, id: string, b: string, i: nat, q: nat, v: nat, k: nat)
    requires IsRun(p, run) && i <= q < v < k < |run.events|
    requires Holds(p.digest, run.states[i].db, id, b)
    requires run.events[q].Write? && run.events[q].id == id && AdvancesEpoch(run.events[q].mutation)
    requires run.events[v] == Revoke(n, id) || run.events[v] == Deliver(n, id)
    requires NeverDeleted(run, id, i, k)
    requires !PendingLoad(run.states[v + 1], n, id, b)
    ensures !Accepts(run.states[k], run.events[k], n, id, b)
  {
    assert Next(p, run.states[v], run.events[v], run.states[v + 1]);
    forall j | v + 1 <= j < k ensures !Holds(p.digest, run.states[j].db, id, b) {
      SignOutIsPermanent(p, run, id, b, i, q, j);
    }
    assert Clear(run.states[v + 1], n, id, b);
    StaysClear(p, run, v + 1, k, n, id, b);
  }

  /** Once a node has announced a revocation, it can be delivered to any node, then and ever after. */
  lemma {:induction false} RevocationsAreDeliverable(p: Params, run: Run, id: string, n: nat, v: nat, k: nat)
    requires IsRun(p, run) && v < k < |run.states| && run.events[v].Revoke? && run.events[v].id == id
    requires n < |run.states[k].nodes|
    ensures id in run.states[k].published && exists s' :: Next(p, run.states[k], Deliver(n, id), s')
    decreases k
  {
    assert Next(p, run.states[k - 1], run.events[k - 1], run.states[k]);
    if k > v + 1 { RevocationsAreDeliverable(p, run, id, n, v, k - 1); }
    var s := run.states[k];
    var s' := s.(nodes := s.nodes[n := s.nodes[n].(entries := CacheInvalidate(s.nodes[n].entries, id))]);
    assert Next(p, s, Deliver(n, id), s');
  }

  /** EndSessions on node `n`: its update is step `q` and its revokeSessions step `v`. */
  lemma SignOutOnItsOwnNode(p: Params, run: Run, n: nat, id: string, b: string, i: nat, q: nat, v: nat, k: nat)
    requires IsRun(p, run) && i <= q < v < k < |run.events|
    requires Holds(p.digest, run.states[i].db, id, b)
    requires run.events[q] == Write(n, id, SignOut) && run.events[v] == Revoke(n, id)
    requires NeverDeleted(run, id, i, k)
    requires !PendingLoad(run.states[v + 1], n, id, b)
    ensures !Accepts(run.states[k], run.events[k], n, id, b)
  {
    SignOutReaches(p, run, n, id, b, i, q, v, k);
  }

  /** Every load on node `n` of account `id` stores what it read within `delay`. */
  ghost predicate LoadsWithin(run: Run, n: nat, id: string, delay: nat) {
    forall r: nat, i: nat, m: nat :: LoadSpan(run, n, r, id, i, m) && m < |run.states| ==>
      run.states[m].now - run.states[i].now <= delay
  }

  /** On every node, a binding the table no longer holds after step `q` is refused once the TTL and
      the delay of the load that read it have passed, with every peer invalidation lost. */
  lemma RefusedEverywhere(p: Params, run: Run, n: nat, id: string, b: string, q: nat, k: nat, delay: nat)
    requires IsRun(p, run) && Fresh(run.states[0]) && q < k < |run.events| && LoadsWithin(run, n, id, delay)
    requires forall j :: q < j <= k ==> !Holds(p.digest, run.states[j].db, id, b)
    requires Accepts(run.states[k], run.events[k], n, id, b)
    ensures run.states[k].now <= run.states[q].now + p.ttl + delay
  {
    var r, i, m := StalenessBound(p, run, k, n, id, b);
    hide Next, AllSized, Fresh, Holds;
    assert i <= q;
    TimeAdvances(p, run, i, q);
  }

  /** So the token of a signed-out session is refused then. */
  lemma SignOutEverywhere(p: Params, run: Run, n: nat, id: string, b: string, q: nat, k: nat, delay: nat)
    requires IsRun(p, run) && Fresh(run.states[0]) && q < k < |run.events| && LoadsWithin(run, n, id, delay)
    requires run.events[q].Write? && run.events[q].id == id && AdvancesEpoch(run.events[q].mutation)
    requires NeverDeleted(run, id, 0, k)
    requires exists i :: 0 <= i <= q && Holds(p.digest, run.states[i].db, id, b)
    requires Accepts(run.states[k], run.events[k], n, id, b)
    ensures run.states[k].now <= run.states[q].now + p.ttl + delay
  {
    var i :| 0 <= i <= q && Holds(p.digest, run.states[i].db, id, b);
    hide Next, AllSized, Fresh, LoadsWithin, Accepts;
    forall j | q < j <= k ensures !Holds(p.digest, run.states[j].db, id, b) {
      SignOutIsPermanent(p, run, id, b, i, q, j);
    }
    RefusedEverywhere(p, run, n, id, b, q, k, delay);
  }

  // ----- Disabling an account -----

  predicate LiftsDisabled(e: Event, id: string) {
    e.Write? && e.id == id && (e.mutation.DeleteRow? || e.mutation == SetDisabled(false))
  }

  lemma DisabledStep(p: Params, s: State, e: Event, s': State, id: string)
    requires Next(p, s, e, s') && id in s.db
    requires (e.Write? && e.id == id && e.mutation == SetDisabled(true))
             || (ReadBinding(p.digest, s.db, id) == Disabled && !LiftsDisabled(e, id))
    ensures id in s'.db && ReadBinding(p.digest, s'.db, id) == Disabled
  {
    hide Preimage;
  }

  /** An account disabled in step `q` answers nothing but that while it is neither enabled nor deleted. */
  lemma {:induction false} DisabledStays(p: Params, run: Run, id: string, q: nat, k: nat)
    requires IsRun(p, run) && q < k < |run.states| && id in run.states[q].db
    requires run.events[q].Write? && run.events[q].id == id && run.events[q].mutation == SetDisabled(true)
    requires forall j :: q < j < k ==> !LiftsDisabled(run.events[j], id)
    ensures id in run.states[k].db && ReadBinding(p.digest, run.states[k].db, id) == Disabled
    decreases k
  {
    hide Next, AllSized, ReadBinding;
    if k > q + 1 { DisabledStays(p, run, id, q, k - 1); }
    DisabledStep(p, run.states[k - 1], run.events[k - 1], run.states[k], id);
  }

  /** So every token of a disabled account is refused, on every node, within the same time. */
  lemma DisabledEverywhere(p: Params, run: Run, n: nat, id: string, b: string, q: nat, k: nat, delay: nat)
    requires IsRun(p, run) && Fresh(run.states[0]) && q < k < |run.events| && LoadsWithin(run, n, id, delay)
    requires id in run.states[q].db
    requires run.events[q].Write? && run.events[q].id == id && run.events[q].mutation == SetDisabled(true)
    requires forall j :: q < j < k ==> !LiftsDisabled(run.events[j], id)
    requires Accepts(run.states[k], run.events[k], n, id, b)
    ensures run.states[k].now <= run.states[q].now + p.ttl + delay
  {
    hide Next, AllSized, Fresh, LoadsWithin, Accepts, ReadBinding;
    forall j | q < j <= k ensures !Holds(p.digest, run.states[j].db, id, b) {
      DisabledStays(p, run, id, q, j);
    }
    RefusedEverywhere(p, run, n, id, b, q, k, delay);
  }
}
