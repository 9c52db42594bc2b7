/** The route registry (internal/config/routes.go): after every change the sorted list and the
    host and path indexes are built again.  A rule means what `Rules` reads off it. */
module RouteRegistry {
  import opened Paths
  import opened RouteOrder
  import opened PathTrie
  import opened Rules

  // ----- Where a route is indexed -----

  datatype Slot = Unruled | HostTrie(host: string) | HostRegex(host: string) | WildTrie | WildRegex

  function HostOf(rt: Route): string {
    NormalizeHost(HostFromRule(rt.rule))
  }

  /** The one index a route goes into. */
  function SlotOf(rt: Route): Slot {
    if rt.rule == "" then Unruled
    else
      var regex := RulePathInfo(rt.rule).isRegex;
      if HostOf(rt) != "" && RouteHostIsExact(HostOf(rt)) then
        if regex then HostRegex(HostOf(rt)) else HostTrie(HostOf(rt))
      else
        if regex then WildRegex else WildTrie
  }

  function InsertionOf(rt: Route): Insertion {
    var info := RulePathInfo(rt.rule);
    Insertion(Segments(info.path), info.isPrefix, rt)
  }

  /** The routes of `rs` that go into one of `slots`, in order. */
  function InSlots(rs: seq<Route>, slots: set<Slot>): seq<Route> {
    if rs == [] then []
    else InSlots(rs[..|rs| - 1], slots) + if SlotOf(rs[|rs| - 1]) in slots then [rs[|rs| - 1]] else []
  }

  function InSlot(rs: seq<Route>, slot: Slot): seq<Route> {
    InSlots(rs, {slot})
  }

  /** Both of a host's slots, and both slots of the routes without an exact host. */
  function HostSlots(host: string): set<Slot> {
    {HostTrie(host), HostRegex(host)}
  }

  const WILD_SLOTS: set<Slot> := {WildTrie, WildRegex}

  function InsertionsOf(rs: seq<Route>): seq<Insertion> {
    if rs == [] then [] else InsertionsOf(rs[..|rs| - 1]) + [InsertionOf(rs[|rs| - 1])]
  }

  /** The filter of the sorted list: the routes of `slot` whose rule's path matches. */
  function Matching(rs: seq<Route>, slot: Slot, segments: seq<string>): seq<Route> {
    if rs == [] then []
    else
      var last := rs[|rs| - 1];
      Matching(rs[..|rs| - 1], slot, segments)
      + if SlotOf(last) == slot && Matches(InsertionOf(last), segments) then [last] else []
  }

  lemma InSlotStep(rs: seq<Route>, rt: Route, slot: Slot)
    ensures InSlot(rs + [rt], slot) == InSlot(rs, slot) + if SlotOf(rt) == slot then [rt] else []
  {
    InSlotsStep(rs, rt, {slot});
  }

  lemma InSlotsStep(rs: seq<Route>, rt: Route, slots: set<Slot>)
    ensures InSlots(rs + [rt], slots) == InSlots(rs, slots) + if SlotOf(rt) in slots then [rt] else []
  {
    assert (rs + [rt])[..|rs|] == rs;
  }

  lemma InsertionsStep(rs: seq<Route>, rt: Route)
    ensures InsertionsOf(rs + [rt]) == InsertionsOf(rs) + [InsertionOf(rt)]
  {
    assert (rs + [rt])[..|rs|] == rs;
  }

  lemma CandidatesStep(ins: seq<Insertion>, i: Insertion, segments: seq<string>)
    ensures Candidates(ins + [i], segments) == Candidates(ins, segments) + if Matches(i, segments) then [i.route]
            else []
  {
    assert (ins + [i])[..|ins|] == ins;
  }

  /** Scanning the insertions of a slot is filtering the list. */
  lemma {:induction false} CandidatesAreMatching(rs: seq<Route>, slot: Slot, segments: seq<string>)
    ensures Candidates(InsertionsOf(InSlot(rs, slot)), segments) == Matching(rs, slot, segments)
  {
    hide SlotOf, InsertionOf, InSlot, Candidates, Matches;
    if rs == [] {
      NothingInSlot(slot, segments);
    } else {
      var front, last := rs[..|rs| - 1], rs[|rs| - 1];
      assert rs == front + [last];
      CandidatesAreMatching(front, slot, segments);
      InSlotStep(front, last, slot);
      if SlotOf(last) == slot {
        InsertionsStep(InSlot(front, slot), last);
        CandidatesStep(InsertionsOf(InSlot(front, slot)), InsertionOf(last), segments);
        RouteOfInsertion(last);
      } else {
        assert InSlot(front, slot) + [] == InSlot(front, slot);
      }
    }
  }

  lemma NothingInSlot(slot: Slot, segments: seq<string>)
    ensures Candidates(InsertionsOf(InSlot([], slot)), segments) == []
  {
  }

  lemma RouteOfInsertion(rt: Route)
    ensures InsertionOf(rt).route == rt
  {
  }

  lemma {:induction false} MatchingIsFromList(rs: seq<Route>, slot: Slot, segments: seq<string>, rt: Route)
    requires rt in Matching(rs, slot, segments)
    ensures rt in rs
  {
    var front := rs[..|rs| - 1];
    if rt in Matching(front, slot, segments) { MatchingIsFromList(front, slot, segments, rt); }
  }

  /** A filter of a sorted list is sorted. */
  lemma {:induction false} MatchingSorted(rs: seq<Route>, slot: Slot, segments: seq<string>)
    requires Sorted(rs)
    ensures Sorted(Matching(rs, slot, segments))
  {
    hide Precedes, SlotOf, InsertionOf;
    if rs != [] {
      var front, last := rs[..|rs| - 1], rs[|rs| - 1];
      MatchingSorted(front, slot, segments);
      var m := Matching(front, slot, segments);
      forall i | 0 <= i < |m| ensures !Precedes(last, m[i]) {
        MatchingIsFromList(front, slot, segments, m[i]);
        var j :| 0 <= j < |front| && front[j] == m[i];
        assert rs[j] == m[i];
      }
    }
  }

  lemma {:induction false} InSlotsIsFromList(rs: seq<Route>, slots: set<Slot>, rt: Route)
    requires rt in InSlots(rs, slots)
    ensures rt in rs
  {
    var front := rs[..|rs| - 1];
    if rt in InSlots(front, slots) { InSlotsIsFromList(front, slots, rt); }
  }

  lemma {:induction false} InSlotsSorted(rs: seq<Route>, slots: set<Slot>)
    requires Sorted(rs)
    ensures Sorted(InSlots(rs, slots))
  {
    hide Precedes, SlotOf;
    if rs != [] {
      var front, last := rs[..|rs| - 1], rs[|rs| - 1];
      InSlotsSorted(front, slots);
      var m := InSlots(front, slots);
      forall i | 0 <= i < |m| ensures !Precedes(last, m[i]) {
        InSlotsIsFromList(front, slots, m[i]);
        var j :| 0 <= j < |front| && front[j] == m[i];
        assert rs[j] == m[i];
      }
    }
  }

  lemma IdsOfMatching(rs: seq<Route>, slot: Slot, segments: seq<string>)
    requires IdsIdentify(rs)
    ensures IdsIdentify(Matching(rs, slot, segments))
  {
    forall rt | rt in Matching(rs, slot, segments) ensures rt in rs { MatchingIsFromList(rs, slot, segments, rt); }
  }

  /** What a slot's trie answers is the filter of the sorted list. */
  lemma TrieIsFilter(rs: seq<Route>, slot: Slot, segments: seq<string>)
    requires Sorted(rs) && IdsIdentify(rs)
    ensures FlatExact(InsertionsOf(InSlot(rs, slot)), PlaceOf(segments)) == Matching(rs, slot, segments)
  {
    hide Sorted, IdsIdentify, FlatExact, Matching;
    CandidatesAreMatching(rs, slot, segments);
    IdsOfMatching(rs, slot, segments);
    LookupIsAScan(InsertionsOf(InSlot(rs, slot)), segments);
    MatchingSorted(rs, slot, segments);
    SortKeepsSorted(Matching(rs, slot, segments));
  }

  // ----- The sorted list of a table -----

  type Table = map<string, Route>

  ghost predicate KeyedById(routes: Table) {
    forall id :: id in routes ==> routes[id].id == id
  }

  /** `rs` lists the routes of the table, each once, in the order of the index. */
  ghost predicate Lists(rs: seq<Route>, routes: Table) {
    && Sorted(rs)
    && (forall rt :: rt in rs <==> rt.id in routes && routes[rt.id] == rt)
    && (forall i, j :: 0 <= i < j < |rs| ==> rs[i] != rs[j])
  }

  lemma ListIdentifies(rs: seq<Route>, routes: Table)
    requires Lists(rs, routes)
    ensures IdsIdentify(rs)
  {
  }

  /** slices.SortedFunc over maps.Values. */
  method SortedValues(routes: Table) returns (rs: seq<Route>)
    requires KeyedById(routes)
    ensures Lists(rs, routes)
  {
    var values: seq<Route> := [];
    var todo := routes.Keys;
    while todo != {}
      invariant todo <= routes.Keys
      invariant forall rt :: rt in values <==> rt.id in routes && rt.id !in todo && routes[rt.id] == rt
      invariant forall rt :: multiset(values)[rt] <= 1
    {
      var id :| id in todo;
      assert routes[id] !in values;
      assert routes[id] !in multiset(values);
      values := values + [routes[id]];
      todo := todo - {id};
    }
    SortRoutesSorts(values);
    rs := SortRoutes(values);
    forall rt ensures rt in rs <==> rt in values { assert rt in multiset(rs) <==> rt in multiset(values); }
    OccurOnce(rs);
  }

  lemma TwiceCounts(rs: seq<Route>, i: nat, j: nat)
    requires i < j < |rs| && rs[i] == rs[j]
    ensures multiset(rs)[rs[j]] >= 2
  {
    assert rs == rs[..j] + rs[j..];
    assert multiset(rs) == multiset(rs[..j]) + multiset(rs[j..]);
    assert rs[..j][i] == rs[j] && rs[j..][0] == rs[j];
  }

  lemma OccurOnce(rs: seq<Route>)
    requires forall rt :: multiset(rs)[rt] <= 1
    ensures forall i, j :: 0 <= i < j < |rs| ==> rs[i] != rs[j]
  {
    forall i, j | 0 <= i < j < |rs| ensures rs[i] != rs[j] {
      if rs[i] == rs[j] { TwiceCounts(rs, i, j); }
    }
  }

  // ----- The registry -----

  type Index = map<string, seq<Route>>

  /** A missing key reads as the nil slice. */
  function Get(index: Index, host: string): seq<Route> {
    if host in index then index[host] else []
  }

  function Add(index: Index, host: string, rt: Route): Index {
    index[host := Get(index, host) + [rt]]
  }

  /** The index lists, per host, the routes of `rs` in that host's regex slot. */
  ghost predicate RegexIndexOf(index: Index, rs: seq<Route>) {
    forall host :: Get(index, host) == InSlot(rs, HostRegex(host))
  }

  /** The index lists, per host, all of that host's routes. */
  ghost predicate HostIndexOf(index: Index, rs: seq<Route>) {
    forall host :: Get(index, host) == InSlots(rs, HostSlots(host))
  }

  /** Adding the next route to its index, or to none, keeps the indexes those of the list. */
  lemma HostIndexStep(hosts: Index, rs: seq<Route>, rt: Route)
    requires HostIndexOf(hosts, rs)
    ensures HostIndexOf(if SlotOf(rt).HostTrie?
            || SlotOf(rt).HostRegex? then Add(hosts, SlotOf(rt).host, rt) else hosts, rs + [rt])
  {
    hide SlotOf, InSlots;
    forall host
      ensures InSlots(rs + [rt], HostSlots(host)) == InSlots(rs, HostSlots(host)) + if SlotOf(rt) in HostSlots(host)
              then [rt] else []
    {
      InSlotsStep(rs, rt, HostSlots(host));
    }
  }

  lemma RegexIndexStep(regexes: Index, rs: seq<Route>, rt: Route)
    requires RegexIndexOf(regexes, rs)
    ensures RegexIndexOf(if SlotOf(rt).HostRegex? then Add(regexes, SlotOf(rt).host, rt) else regexes, rs + [rt])
  {
    hide SlotOf, InSlot;
    forall host
      ensures InSlot(rs + [rt], HostRegex(host)) == InSlot(rs, HostRegex(host)) + if SlotOf(rt) == HostRegex(host)
              then [rt] else []
    {
      InSlotStep(rs, rt, HostRegex(host));
    }
  }

  /** What one trie of the registry holds. */
  ghost predicate TrieHolds(t: PathTrie, rs: seq<Route>, slot: Slot)
    reads t
  {
    t.Valid() && t.inserted == InsertionsOf(InSlot(rs, slot))
  }

  /** The tries hold the routes of `rs` in their slots: one trie per host that has any. */
  ghost predicate TriesHold(tries: map<string, PathTrie>, wild: PathTrie, rs: seq<Route>)
    reads tries.Values, wild
  {
    && TrieHolds(wild, rs, WildTrie)
    && (forall host :: host in tries <==> InSlot(rs, HostTrie(host)) != [])
    && (forall host :: host in tries ==> TrieHolds(tries[host], rs, HostTrie(host)))
  }

  /** No trie is shared. */
  ghost predicate Apart(tries: map<string, PathTrie>, wild: PathTrie) {
    && (forall h, k :: h in tries && k in tries && h != k ==> tries[h] != tries[k])
    && (forall h :: h in tries ==> tries[h] != wild)
  }

  lemma OtherSlot(rs: seq<Route>, rt: Route, slot: Slot)
    requires SlotOf(rt) != slot
    ensures InSlot(rs + [rt], slot) == InSlot(rs, slot)
  {
    InSlotStep(rs, rt, slot);
  }

  lemma OwnSlot(rs: seq<Route>, rt: Route)
    ensures InSlot(rs + [rt], SlotOf(rt)) == InSlot(rs, SlotOf(rt)) + [rt]
    ensures InsertionsOf(InSlot(rs + [rt], SlotOf(rt))) == InsertionsOf(InSlot(rs, SlotOf(rt))) + [InsertionOf(rt)]
  {
    InSlotStep(rs, rt, SlotOf(rt));
    InsertionsStep(InSlot(rs, SlotOf(rt)), rt);
  }

  /** A host's trie, made if the host has none. */
  method TrieFor(tries: map<string, PathTrie>, ghost wild: PathTrie, ghost rs: seq<Route>, host: string)
    returns (tries': map<string, PathTrie>)
    requires TriesHold(tries, wild, rs) && Apart(tries, wild)
    ensures tries'.Keys == tries.Keys + {host} && Apart(tries', wild) && fresh(tries'.Values - tries.Values)
    ensures forall h :: h in tries ==> tries'[h] == tries[h]
    ensures TrieHolds(tries'[host], rs, HostTrie(host))
  {
    hide InSlot, InsertionsOf, PathTrie.Valid;
    NoInsertions();
    if host in tries {
      return tries;
    }
    var t := new PathTrie();
    tries' := tries[host := t];
  }

  lemma NoInsertions()
    ensures InsertionsOf([]) == []
  {
  }

  /** A route with an exact host and a plain path goes into that host's trie. */
  method InsertHost(tries: map<string, PathTrie>, ghost wild: PathTrie, ghost rs: seq<Route>, rt: Route, host: string)
    returns (tries': map<string, PathTrie>)
    requires TriesHold(tries, wild, rs) && Apart(tries, wild) && SlotOf(rt) == HostTrie(host)
    modifies tries.Values
    ensures TriesHold(tries', wild, rs + [rt]) && Apart(tries', wild)
    ensures fresh(tries'.Values - tries.Values)
  {
    hide SlotOf, InSlot, InsertionsOf, PathTrie.Valid;
    tries' := TrieFor(tries, wild, rs, host);
    InsertRoute(tries'[host], rs, rt);
    HostSlotSteps(rs, rt, host);
  }

  lemma HostSlotSteps(rs: seq<Route>, rt: Route, host: string)
    requires SlotOf(rt) == HostTrie(host)
    ensures InSlot(rs + [rt], HostTrie(host)) != []
    ensures forall h :: h != host ==> InSlot(rs + [rt], HostTrie(h)) == InSlot(rs, HostTrie(h))
    ensures InSlot(rs + [rt], WildTrie) == InSlot(rs, WildTrie)
  {
    hide SlotOf, InSlot;
    OwnSlot(rs, rt);
    OtherSlot(rs, rt, WildTrie);
    forall h | h != host ensures InSlot(rs + [rt], HostTrie(h))
        == InSlot(rs, HostTrie(h)) { OtherSlot(rs, rt, HostTrie(h)); }
  }

  /** The trie of a route's slot takes it. */
  method InsertRoute(t: PathTrie, ghost rs: seq<Route>, rt: Route)
    requires TrieHolds(t, rs, SlotOf(rt))
    modifies t
    ensures TrieHolds(t, rs + [rt], SlotOf(rt))
  {
    hide SlotOf, InSlots, InsertionsOf, PathTrie.Valid, RulePathInfo;
    var info := RulePathInfo(rt.rule);
    t.Insert(info.path, info.isPrefix, rt);
    OwnSlot(rs, rt);
  }

  /** A route without an exact host and with a plain path goes into the wildcard trie. */
  method InsertWild(ghost tries: map<string, PathTrie>, wild: PathTrie, ghost rs: seq<Route>, rt: Route)
    requires TriesHold(tries, wild, rs) && Apart(tries, wild) && SlotOf(rt) == WildTrie
    modifies wild
    ensures TriesHold(tries, wild, rs + [rt])
  {
    hide SlotOf, InSlot, InsertionsOf, PathTrie.Valid;
    InsertRoute(wild, rs, rt);
    forall h ensures InSlot(rs + [rt], HostTrie(h)) == InSlot(rs, HostTrie(h)) { OtherSlot(rs, rt, HostTrie(h)); }
  }

  /** A route of no trie leaves the tries those of the list. */
  lemma NoTrieStep(tries: map<string, PathTrie>, wild: PathTrie, rs: seq<Route>, rt: Route)
    requires TriesHold(tries, wild, rs) && !SlotOf(rt).HostTrie? && !SlotOf(rt).WildTrie?
    ensures TriesHold(tries, wild, rs + [rt])
  {
    hide SlotOf, InSlot, InsertionsOf, PathTrie.Valid;
    OtherSlot(rs, rt, WildTrie);
    forall h ensures InSlot(rs + [rt], HostTrie(h)) == InSlot(rs, HostTrie(h)) { OtherSlot(rs, rt, HostTrie(h)); }
  }

  /** All the indexes of the registry. */
  datatype Indexes = Indexes(hostIndex: Index, wildcardRoutes: seq<Route>, hostTries: map<string, PathTrie>,
                             hostRegexes: Index, wildcardTrie: PathTrie, wildcardRegexes: seq<Route>)

  ghost predicate ListsOf(ix: Indexes, rs: seq<Route>) {
    && HostIndexOf(ix.hostIndex, rs) && ix.wildcardRoutes == InSlots(rs, WILD_SLOTS)
    && RegexIndexOf(ix.hostRegexes, rs) && ix.wildcardRegexes == InSlot(rs, WildRegex)
  }

  ghost predicate IndexesOf(ix: Indexes, rs: seq<Route>)
    reads ix.hostTries.Values, ix.wildcardTrie
  {
    ListsOf(ix, rs) && TriesHold(ix.hostTries, ix.wildcardTrie, rs) && Apart(ix.hostTries, ix.wildcardTrie)
  }

  /** The lists once `rt` is indexed. */
  function WithListed(ix: Indexes, rt: Route): Indexes {
    match SlotOf(rt)
    case Unruled => ix
    case HostTrie(host) => ix.(hostIndex := Add(ix.hostIndex, host, rt))
    case HostRegex(host) => ix.(hostIndex := Add(ix.hostIndex, host, rt), hostRegexes := Add(ix.hostRegexes, host, rt))
    case WildTrie => ix.(wildcardRoutes := ix.wildcardRoutes + [rt])
    case WildRegex => ix.(wildcardRoutes := ix.wildcardRoutes + [rt], wildcardRegexes := ix.wildcardRegexes + [rt])
  }

  lemma ListsStep(ix: Indexes, rs: seq<Route>, rt: Route)
    requires ListsOf(ix, rs)
    ensures ListsOf(WithListed(ix, rt), rs + [rt])
  {
    hide SlotOf, InSlots, InSlot, HostIndexOf, RegexIndexOf;
    HostIndexStep(ix.hostIndex, rs, rt);
    RegexIndexStep(ix.hostRegexes, rs, rt);
    InSlotsStep(rs, rt, WILD_SLOTS);
    InSlotStep(rs, rt, WildRegex);
  }

  /** One pass of rebuildSortedLocked's loop. */
  method IndexRoute(ix: Indexes, ghost rs: seq<Route>, rt: Route) returns (ix': Indexes)
    requires IndexesOf(ix, rs)
    modifies ix.hostTries.Values, ix.wildcardTrie
    ensures IndexesOf(ix', rs + [rt]) && ix'.wildcardTrie == ix.wildcardTrie
    ensures fresh(ix'.hostTries.Values - ix.hostTries.Values)
  {
    hide TriesHold, ListsOf, RulePathInfo, HostOf, RouteHostIsExact;
    ListsStep(ix, rs, rt);
    ix' := ix;
    if rt.rule == "" {
      NoTrieStep(ix.hostTries, ix.wildcardTrie, rs, rt);
      return;
    }
    var host := HostOf(rt);
    var isRegex := RulePathInfo(rt.rule).isRegex;
    if host != "" && RouteHostIsExact(host) {
      ix' := ix'.(hostIndex := Add(ix.hostIndex, host, rt));
      if isRegex {
        ix' := ix'.(hostRegexes := Add(ix.hostRegexes, host, rt));
        NoTrieStep(ix.hostTries, ix.wildcardTrie, rs, rt);
      } else {
        var tries := InsertHost(ix.hostTries, ix.wildcardTrie, rs, rt, host);
        SameLists(ix', ix'.(hostTries := tries), rs + [rt]);
        ix' := ix'.(hostTries := tries);
      }
    } else {
      ix' := ix'.(wildcardRoutes := ix.wildcardRoutes + [rt]);
      if isRegex {
        ix' := ix'.(wildcardRegexes := ix.wildcardRegexes + [rt]);
        NoTrieStep(ix.hostTries, ix.wildcardTrie, rs, rt);
      } else {
        InsertWild(ix.hostTries, ix.wildcardTrie, rs, rt);
      }
    }
  }

  lemma SameLists(ix: Indexes, ix': Indexes, rs: seq<Route>)
    requires ListsOf(ix, rs) && ix' == ix.(hostTries := ix'.hostTries)
    ensures ListsOf(ix', rs)
  {
  }

  /** Flatten, for every trie. */
  method FlattenAll(tries: map<string, PathTrie>, wild: PathTrie, ghost rs: seq<Route>)
    requires TriesHold(tries, wild, rs) && Apart(tries, wild)
    modifies tries.Values, wild
    ensures TriesHold(tries, wild, rs) && wild.Flattened() && forall h :: h in tries ==> tries[h].Flattened()
  {
    hide PathTrie.Valid, PathTrie.Flattened, InSlot, InsertionsOf;
    var todo := tries.Keys;
    while todo != {}
      invariant todo <= tries.Keys
      invariant TriesHold(tries, wild, rs)
      invariant forall h :: h in tries && h !in todo ==> tries[h].Flattened()
    {
      var host :| host in todo;
      tries[host].Flatten();
      todo := todo - {host};
    }
    wild.Flatten();
  }

  method BuildIndexes(rs: seq<Route>) returns (ix: Indexes)
    requires Sorted(rs)
    ensures IndexesOf(ix, rs)
    ensures ix.wildcardTrie.Flattened() && forall h :: h in ix.hostTries ==> ix.hostTries[h].Flattened()
    ensures fresh(ix.hostTries.Values) && fresh(ix.wildcardTrie)
  {
    hide TriesHold, ListsOf, Sorted, SortRoutes;
    var wild := new PathTrie();
    ix := Indexes(map[], [], map[], map[], wild, []);
    NothingIndexed(ix);
    assert rs[..0] == [];
    for i := 0 to |rs|
      invariant fresh(ix.hostTries.Values) && fresh(ix.wildcardTrie)
      invariant IndexesOf(ix, rs[..i])
    {
      assert rs[..i + 1] == rs[..i] + [rs[i]];
      ix := IndexRoute(ix, rs[..i], rs[i]);
    }
    assert rs[..|rs|] == rs;
    FlattenAll(ix.hostTries, ix.wildcardTrie, rs);
    ResortKeeps(ix, rs);
    ix := ix.(hostIndex := Resorted(ix.hostIndex));
  }

  lemma NothingIndexed(ix: Indexes)
    requires ix == Indexes(map[], [], map[], map[], ix.wildcardTrie, []) && ix.wildcardTrie.Valid()
            && ix.wildcardTrie.inserted == []
    ensures IndexesOf(ix, [])
  {
    hide PathTrie.Valid;
    NoInsertions();
  }

  function Resorted(index: Index): Index {
    map h | h in index :: SortRoutes(index[h])
  }

  /** The per-host slices are sorted again: they already are. */
  lemma ResortKeeps(ix: Indexes, rs: seq<Route>)
    requires ListsOf(ix, rs) && Sorted(rs)
    ensures ListsOf(ix.(hostIndex := Resorted(ix.hostIndex)), rs)
  {
    hide InSlots, Sorted, SortRoutes;
    forall h | h in ix.hostIndex ensures SortRoutes(ix.hostIndex[h]) == ix.hostIndex[h] {
      assert Get(ix.hostIndex, h) == InSlots(rs, HostSlots(h));
      InSlotsSorted(rs, HostSlots(h));
      SortKeepsSorted(ix.hostIndex[h]);
    }
    assert Resorted(ix.hostIndex) == ix.hostIndex;
  }

  // ----- The registry -----

  class Registry {
    var routes: Table
    var sorted: seq<Route>
    var indexes: Indexes

    /** The sorted list is that of the routes, and the indexes are those of the list. */
    ghost predicate Valid()
      reads this, indexes.hostTries.Values, indexes.wildcardTrie
    {
      && KeyedById(routes) && Lists(sorted, routes) && IndexesOf(indexes, sorted)
      && indexes.wildcardTrie.Flattened() && forall h :: h in indexes.hostTries ==> indexes.hostTries[h].Flattened()
    }

    constructor ()
      ensures Valid() && routes == map[]
    {
      var ix := BuildIndexes([]);
      routes, sorted, indexes := map[], [], ix;
    }

    /** rebuildSortedLocked. */
    method Rebuild()
      requires KeyedById(routes)
      modifies this
      ensures Valid() && routes == old(routes)
    {
      hide IndexesOf, PathTrie.Flattened;
      sorted := SortedValues(routes);
      indexes := BuildIndexes(sorted);
    }

    /** Update.  The file is written last: the routes change whether or not it can be. */
    method Update(rt: Route, saves: bool) returns (saved: bool)
      requires Valid()
      modifies this
      ensures Valid() && routes == old(routes)[rt.id := rt] && saved == saves
    {
      routes := routes[rt.id := rt];
      Rebuild();
      saved := saves;
    }

    method Delete(id: string, saves: bool) returns (saved: bool)
      requires Valid()
      modifies this
      ensures Valid() && routes == old(routes) - {id} && saved == saves
    {
      routes := routes - {id};
      Rebuild();
      saved := saves;
    }

    /** GetByHost: the routes of a host, in the order of the index. */
    method GetByHost(host: string) returns (r: seq<Route>)
      requires Valid()
      ensures r == InSlots(sorted, HostSlots(NormalizeHost(host))) && Ranked(r)
    {
      InSlotsSorted(sorted, HostSlots(NormalizeHost(host)));
      SortedExactlyWhenRanked(InSlots(sorted, HostSlots(NormalizeHost(host))));
      hide InSlots, Ranked;
      r := Get(indexes.hostIndex, NormalizeHost(host));
    }

    /** GetTrieByHost and GetWildcardTrie, and a lookup of `path` in the tries they give: the
        candidates of a request.  Each list is the sorted list filtered by what the
        rules say of the host and the path. */
    method CandidatesFor(host: string, path: string)
      returns (hostTrie: seq<Route>, hostRegex: seq<Route>, wildTrie: seq<Route>, wildRegex: seq<Route>)
      requires Valid()
      ensures hostTrie == Matching(sorted, HostTrie(NormalizeHost(host)), Segments(path))
      ensures hostRegex == InSlot(sorted, HostRegex(NormalizeHost(host)))
      ensures wildTrie == Matching(sorted, WildTrie, Segments(path))
      ensures wildRegex == InSlot(sorted, WildRegex)
      ensures Ranked(hostTrie) && Ranked(hostRegex) && Ranked(wildTrie) && Ranked(wildRegex)
    {
      AnswersRanked(sorted, NormalizeHost(host), Segments(path));
      hide Ranked;
      hide InSlot, Matching, PathTrie.Valid, PathTrie.Flattened, FlatExact, Sorted;
      var key := NormalizeHost(host);
      ListIdentifies(sorted, routes);
      TrieIsFilter(sorted, HostTrie(key), Segments(path));
      TrieIsFilter(sorted, WildTrie, Segments(path));
      if key in indexes.hostTries {
        hostTrie := indexes.hostTries[key].Lookup(path);
      } else {
        NoTrieNoMatch(sorted, HostTrie(key), Segments(path));
        hostTrie := [];
      }
      hostRegex := Get(indexes.hostRegexes, key);
      wildTrie := indexes.wildcardTrie.Lookup(path);
      wildRegex := indexes.wildcardRegexes;
    }
  }

  lemma AnswersRanked(rs: seq<Route>, key: string, segments: seq<string>)
    requires Sorted(rs)
    ensures Ranked(Matching(rs, HostTrie(key), segments)) && Ranked(Matching(rs, WildTrie, segments))
    ensures Ranked(InSlot(rs, HostRegex(key))) && Ranked(InSlot(rs, WildRegex))
  {
    hide Ranked, Sorted, Matching, InSlots;
    MatchingSorted(rs, HostTrie(key), segments);
    MatchingSorted(rs, WildTrie, segments);
    InSlotsSorted(rs, {HostRegex(key)});
    InSlotsSorted(rs, {WildRegex});
    SortedExactlyWhenRanked(Matching(rs, HostTrie(key), segments));
    SortedExactlyWhenRanked(Matching(rs, WildTrie, segments));
    SortedExactlyWhenRanked(InSlot(rs, HostRegex(key)));
    SortedExactlyWhenRanked(InSlot(rs, WildRegex));
  }

  lemma {:induction false} NoTrieNoMatch(rs: seq<Route>, slot: Slot, segments: seq<string>)
    requires InSlot(rs, slot) == []
    ensures Matching(rs, slot, segments) == []
  {
    if rs != [] { NoTrieNoMatch(rs[..|rs| - 1], slot, segments); }
  }

  // ----- Completeness -----

  /** Every route with a rule is in one slot, and on exactly one of the lists a request of
      some host sees: its own host's, or everyone's. */
  lemma {:induction false} EveryRouteIsIndexedOnce(rs: seq<Route>, rt: Route, slot: Slot)
    requires rt in rs && rt.rule != ""
    ensures SlotOf(rt) != Unruled
    ensures rt in InSlot(rs, slot) <==> slot == SlotOf(rt)
  {
    hide RulePathInfo, HostOf, RouteHostIsExact;
    var front, last := rs[..|rs| - 1], rs[|rs| - 1];
    assert rs == front + [last];
    InSlotStep(front, last, slot);
    if rt in front {
      EveryRouteIsIndexedOnce(front, rt, slot);
    } else {
      assert rt == last;
      if rt in InSlot(front, slot) { InSlotsIsFromList(front, {slot}, rt); }
    }
  }

  /** Which routes a trie lookup gives: those of its slot whose rule's path the request's
      segments match, and no others. */
  lemma {:induction false} MatchingMembers(rs: seq<Route>, slot: Slot, segments: seq<string>, rt: Route)
    ensures rt in Matching(rs, slot, segments) <==>
            rt in rs && SlotOf(rt) == slot && Matches(InsertionOf(rt), segments)
  {
    hide SlotOf, InsertionOf, Matches;
    if rs != [] {
      var front, last := rs[..|rs| - 1], rs[|rs| - 1];
      assert rs == front + [last];
      MatchingMembers(front, slot, segments, rt);
    }
  }

  // ----- From a rule to the requests it is a candidate for -----

  /** "*." and something more. */
  predicate IsWildcard(h: string) {
    |h| > 2 && h[0] == '*' && h[1] == '.'
  }

  /** Where a route with a host and a path is indexed. */
  lemma SlotOfRule(rt: Route, q: char, h: string, m: Matcher, p: string)
    requires IsPlain(h) && IsPlain(p) && IsQuote(q) && h != "" && p != ""
    requires rt.rule == HostPart(q, h) + " && " + PathPart(m, q, p)
    ensures InsertionOf(rt) == Insertion(Segments(p), m == ByPrefix, rt)
    ensures SlotOf(rt) ==
            if IsWildcard(h) then if m == ByRegex then WildRegex else WildTrie
            else if m == ByRegex then HostRegex(NormalizeHost(h)) else HostTrie(NormalizeHost(h))
  {
    hide *;
    RuleIsSomething(q, h, " && ", PathPart(m, q, p));
    HostIsFront(q, h);
    PathOfRule(HostPart(q, h) + " && ", m, q, p);
    if q == '"' { NoBackquote(m, q, p); }
    assert rt.rule == HostPart(q, h) + (" && " + PathPart(m, q, p));
    QuoteIs(q);
    HostOfRule(q, h, " && " + PathPart(m, q, p));
    SpellingsShareAKey(h);
    HostKeyIsExact(h);
    SlotFrom(rt, ToLower(h), PathInfo(p, m == ByPrefix, m == ByRegex));
  }

  lemma RuleIsSomething(q: char, h: string, and: string, path: string)
    ensures HostPart(q, h) + and + path != ""
  {
    assert HostPart(q, h)[0] == 'H';
  }

  lemma QuoteIs(q: char)
    requires IsQuote(q)
    ensures q == '`' || q == '"'
  {
  }

  lemma SlotFrom(rt: Route, host: string, info: PathInfo)
    requires rt.rule != "" && HostFromRule(rt.rule) == host && RulePathInfo(rt.rule) == info
    ensures InsertionOf(rt) == Insertion(Segments(info.path), info.isPrefix, rt)
    ensures SlotOf(rt) ==
            if NormalizeHost(host) != "" && RouteHostIsExact(NormalizeHost(host))
            then if info.isRegex then HostRegex(NormalizeHost(host)) else HostTrie(NormalizeHost(host))
            else if info.isRegex then WildRegex else WildTrie
  {
    hide HostFromRule, RulePathInfo, NormalizeHost, RouteHostIsExact, Segments;
  }

  lemma NoBackquote(m: Matcher, q: char, p: string)
    requires IsPlain(p) && q == '"'
    ensures '`' !in " && " + PathPart(m, q, p)
  {
    assert '`' !in CallOf(m);
    hide CallOf;
  }

  lemma HostKeyIsExact(h: string)
    requires h != ""
    ensures NormalizeHost(h) != "" && (RouteHostIsExact(NormalizeHost(h)) <==> !IsWildcard(h))
  {
    var s := StripRootLabel(h);
    HostlessRule("", NormalizeHost(h));
    LowerAt(s, 0);
    if |s| > 1 { LowerAt(s, 1); }
    hide ToLower, RouteHostIsExact;
  }

  /** A route with a host and a path is a candidate for exactly the requests to that host, however it
      is spelt, whose path has the rule's segments, or begins with them. */
  lemma HostRouteIsFoundExactlyWhen(rs: seq<Route>, rt: Route, q: char, h: string, m: Matcher, p: string,
                                    host: string, path: string)
    requires IsPlain(h) && IsPlain(p) && IsQuote(q) && h != "" && p != "" && !IsWildcard(h)
    requires rt.rule == HostPart(q, h) + " && " + PathPart(m, q, p)
    ensures rt in Matching(rs, HostTrie(NormalizeHost(host)), Segments(path)) <==>
              rt in rs && NormalizeHost(h) == NormalizeHost(host) && m != ByRegex
              && if m == ByPrefix then Segments(p) <= Segments(path) else Segments(p) == Segments(path)
    ensures rt in InSlot(rs, HostRegex(NormalizeHost(host))) <==>
              rt in rs && NormalizeHost(h) == NormalizeHost(host) && m == ByRegex
    ensures rt !in Matching(rs, WildTrie, Segments(path)) && rt !in InSlot(rs, WildRegex)
  {
    RuleIsSomething(q, h, " && ", PathPart(m, q, p));
    SlotOfRule(rt, q, h, m, p);
    FoundInSlots(rs, rt, HostTrie(NormalizeHost(host)), HostRegex(NormalizeHost(host)), Segments(path));
    FoundInSlots(rs, rt, WildTrie, WildRegex, Segments(path));
    hide SlotOf, InsertionOf, InSlot, Matching, Segments, NormalizeHost, HostPart, PathPart, IsPlain;
  }

  /** One without a host, for exactly those of any host. */
  lemma AnyHostRouteIsFoundExactlyWhen(rs: seq<Route>, rt: Route, q: char, m: Matcher, p: string, path: string)
    requires IsPlain(p) && IsQuote(q) && p != "" && rt.rule == PathPart(m, q, p)
    ensures rt in Matching(rs, WildTrie, Segments(path)) <==>
              rt in rs && m != ByRegex
              && if m == ByPrefix then Segments(p) <= Segments(path) else Segments(p) == Segments(path)
    ensures rt in InSlot(rs, WildRegex) <==> rt in rs && m == ByRegex
  {
    SlotOfAnyHostRule(rt, q, m, p);
    FoundInSlots(rs, rt, WildTrie, WildRegex, Segments(path));
    hide SlotOf, InsertionOf, InSlot, Matching, Segments, PathPart, IsPlain;
  }

  lemma SlotOfAnyHostRule(rt: Route, q: char, m: Matcher, p: string)
    requires IsPlain(p) && IsQuote(q) && p != "" && rt.rule == PathPart(m, q, p)
    ensures rt.rule != "" && InsertionOf(rt) == Insertion(Segments(p), m == ByPrefix, rt)
    ensures SlotOf(rt) == if m == ByRegex then WildRegex else WildTrie
  {
    hide *;
    HostIsFront(q, p);
    PathOfRule("", m, q, p);
    assert "" + PathPart(m, q, p) == PathPart(m, q, p);
    PathPartHasNoHost(m, q, p);
    PathPartIsSomething(m, q, p);
    EmptyHostKey();
    SlotFrom(rt, "", PathInfo(p, m == ByPrefix, m == ByRegex));
  }

  lemma PathPartIsSomething(m: Matcher, q: char, p: string)
    ensures PathPart(m, q, p) != ""
  {
    hide CallOf;
    assert |PathPart(m, q, p)| >= |Quoted(q, p)| >= 3;
  }

  lemma EmptyHostKey()
    ensures NormalizeHost("") == ""
  {
  }

  lemma FoundInSlots(rs: seq<Route>, rt: Route, trie: Slot, regex: Slot, segments: seq<string>)
    requires rt.rule != ""
    ensures rt in Matching(rs, trie, segments) <==>
              rt in rs && SlotOf(rt) == trie && Matches(InsertionOf(rt), segments)
    ensures rt in InSlot(rs, regex) <==> rt in rs && SlotOf(rt) == regex
  {
    MatchingMembers(rs, trie, segments, rt);
    if rt in rs {
      EveryRouteIsIndexedOnce(rs, rt, regex);
    } else if rt in InSlot(rs, regex) {
      InSlotsIsFromList(rs, {regex}, rt);
    }
    hide SlotOf, InsertionOf, InSlot, Matching;
  }
}
