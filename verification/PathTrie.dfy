/** The path trie (internal/config/trie.go): routes are inserted under the segments of their
    path, every node's candidates are then worked out once, and a lookup walks down to one
    node.  A node is addressed by its place in the tree instead of by a pointer. */
module PathTrie {
  import opened Paths
  import opened RouteOrder

  /** A place in the tree: the root, or the child of a place for a segment. */
  datatype Place = Root | Under(parent: Place, part: string)

  function PlaceOf(segments: seq<string>): Place {
    if segments == [] then Root else Under(PlaceOf(segments[..|segments| - 1]), segments[|segments| - 1])
  }

  lemma PlaceOfStep(segments: seq<string>, part: string)
    ensures PlaceOf(segments + [part]) == Under(PlaceOf(segments), part)
  {
    assert (segments + [part])[..|segments|] == segments;
  }

  /** Where a walk along the first `i` parts of a path, skipping empty ones, stands. */
  function Reached(parts: seq<string>, i: nat): Place
    requires i <= |parts|
  {
    PlaceOf(NonEmpty(parts[..i]))
  }

  lemma ReachedStep(parts: seq<string>, i: nat)
    requires i < |parts|
    ensures Reached(parts, i + 1) == if parts[i] == "" then Reached(parts, i) else Under(Reached(parts, i), parts[i])
  {
    assert parts[..i + 1] == parts[..i] + [parts[i]];
    NonEmptyAppend(parts[..i], [parts[i]]);
    assert NonEmpty([parts[i]]) == if parts[i] == "" then [] else [parts[i]];
    if parts[i] == "" {
      assert NonEmpty(parts[..i]) + [] == NonEmpty(parts[..i]);
    } else {
      PlaceOfStep(NonEmpty(parts[..i]), parts[i]);
    }
  }

  lemma ReachedEnds(parts: seq<string>)
    ensures Reached(parts, 0) == Root && Reached(parts, |parts|) == PlaceOf(NonEmpty(parts))
  {
    assert parts[..|parts|] == parts;
  }

  /** One call of Insert: where, and the rest of its arguments. */
  datatype Insertion = Insertion(segments: seq<string>, isPrefix: bool, route: Route)

  // ----- What is inserted where -----

  function RoutesAt(ins: seq<Insertion>, place: Place, isPrefix: bool): seq<Route> {
    if ins == [] then []
    else
      var last := ins[|ins| - 1];
      RoutesAt(ins[..|ins| - 1], place, isPrefix)
      + if PlaceOf(last.segments) == place && last.isPrefix == isPrefix then [last.route] else []
  }

  /** allPrefix of the node at `place`: its parent's, and its own, sorted. */
  function FlatPrefix(ins: seq<Insertion>, place: Place): seq<Route>
    decreases place, 1
  {
    SortRoutes(Inherited(ins, place) + RoutesAt(ins, place, true))
  }

  function Inherited(ins: seq<Insertion>, place: Place): seq<Route>
    decreases place, 0
  {
    match place
    case Root => []
    case Under(parent, _) => FlatPrefix(ins, parent)
  }

  /** allExact of the node at `place`. */
  function FlatExact(ins: seq<Insertion>, place: Place): seq<Route> {
    SortRoutes(FlatPrefix(ins, place) + RoutesAt(ins, place, false))
  }

  lemma FlatExactRanked(ins: seq<Insertion>, place: Place)
    ensures Ranked(FlatExact(ins, place))
  {
    SortRoutesSorts(FlatPrefix(ins, place) + RoutesAt(ins, place, false));
  }

  // ----- The trie -----

  datatype TrieNode = TrieNode(children: set<string>, exact: seq<Route>, prefix: seq<Route>, allPrefix: seq<Route>,
      allExact: seq<Route>)

  const EMPTY_NODE := TrieNode({}, [], [], [], [])

  type Nodes = map<Place, TrieNode>

  /** There is a root, and a node has a child for a segment exactly when there is a node there. */
  ghost predicate IsTree(nodes: Nodes) {
    && Root in nodes
    && (forall p, part :: p in nodes && part in nodes[p].children ==> Under(p, part) in nodes)
    && (forall p, part :: Under(p, part) in nodes ==> p in nodes && part in nodes[p].children)
  }

  /** Every node holds the routes inserted at its place, and every insertion has a node. */
  ghost predicate Holds(nodes: Nodes, ins: seq<Insertion>) {
    && (forall p :: p in nodes ==>
          nodes[p].exact == RoutesAt(ins, p, false) && nodes[p].prefix == RoutesAt(ins, p, true))
    && (forall i :: i in ins ==> PlaceOf(i.segments) in nodes)
  }

  lemma ChildNode(nodes: Nodes, place: Place, part: string)
    requires IsTree(nodes) && place in nodes
    ensures part in nodes[place].children <==> Under(place, part) in nodes
  {
  }

  function WithChild(nodes: Nodes, place: Place, part: string): Nodes
    requires place in nodes
  {
    nodes[place := nodes[place].(children := nodes[place].children + {part})][Under(place, part) := EMPTY_NODE]
  }

  /** A new, empty child in its place keeps the tree a tree. */
  lemma TreeGrows(nodes: Nodes, place: Place, part: string)
    requires IsTree(nodes) && place in nodes && Under(place, part) !in nodes
    ensures IsTree(WithChild(nodes, place, part))
  {
    var spot, nodes' := Under(place, part), WithChild(nodes, place, part);
    assert place != spot;
    forall p, q | Under(p, q) in nodes' ensures p in nodes' && q in nodes'[p].children {
      if Under(p, q) != spot {
        assert p in nodes && q in nodes[p].children;
        assert p != spot;
      }
    }
    forall p, q | p in nodes' && q in nodes'[p].children ensures Under(p, q) in nodes' {
      if p != spot && Under(p, q) != spot { assert q in nodes[p].children; }
    }
  }

  lemma HoldsGrows(nodes: Nodes, ins: seq<Insertion>, place: Place, part: string)
    requires Holds(nodes, ins) && place in nodes && Under(place, part) !in nodes
    ensures Holds(WithChild(nodes, place, part), ins)
  {
    hide RoutesAt, PlaceOf;
    NothingOutside(ins, nodes.Keys, Under(place, part), true);
    NothingOutside(ins, nodes.Keys, Under(place, part), false);
  }

  function WithRoute(n: TrieNode, isPrefix: bool, rt: Route): TrieNode {
    if isPrefix then n.(prefix := n.prefix + [rt]) else n.(exact := n.exact + [rt])
  }

  /** The node an insertion names takes its route. */
  lemma HoldsInserts(nodes: Nodes, ins: seq<Insertion>, i: Insertion)
    requires Holds(nodes, ins) && PlaceOf(i.segments) in nodes
    ensures Holds(nodes[PlaceOf(i.segments) := WithRoute(nodes[PlaceOf(i.segments)], i.isPrefix, i.route)], ins + [i])
  {
    hide RoutesAt, PlaceOf;
    forall p, isPrefix ensures RoutesAt(ins + [i], p, isPrefix) ==
            RoutesAt(ins, p, isPrefix) + if PlaceOf(i.segments) == p && i.isPrefix == isPrefix then [i.route] else []
    {
      RoutesAtAppend(ins, i, p, isPrefix);
    }
  }

  /** The trees differ in the flattened lists at most. */
  ghost predicate SameButLists(nodes: Nodes, nodes': Nodes) {
    nodes.Keys == nodes'.Keys && forall p :: p in nodes ==>
      nodes'[p].children == nodes[p].children && nodes'[p].exact == nodes[p].exact
          && nodes'[p].prefix == nodes[p].prefix
  }

  lemma ListsDoNotMatter(nodes: Nodes, nodes': Nodes, ins: seq<Insertion>)
    requires SameButLists(nodes, nodes')
    ensures IsTree(nodes) ==> IsTree(nodes')
    ensures Holds(nodes, ins) ==> Holds(nodes', ins)
  {
    hide RoutesAt, PlaceOf;
  }

  /** Nothing is inserted where there is no node. */
  lemma {:induction false} NothingOutside(ins: seq<Insertion>, at: set<Place>, p: Place, isPrefix: bool)
    requires (forall i :: i in ins ==> PlaceOf(i.segments) in at) && p !in at
    ensures RoutesAt(ins, p, isPrefix) == []
  {
    if ins != [] {
      assert ins[|ins| - 1] in ins;
      NothingOutside(ins[..|ins| - 1], at, p, isPrefix);
    }
  }

  lemma RoutesAtAppend(ins: seq<Insertion>, i: Insertion, p: Place, isPrefix: bool)
    ensures RoutesAt(ins + [i], p, isPrefix) ==
            RoutesAt(ins, p, isPrefix) + if PlaceOf(i.segments) == p && i.isPrefix == isPrefix then [i.route] else []
  {
    assert (ins + [i])[..|ins|] == ins;
  }

  ghost predicate FlatAt(nodes: Nodes, ins: seq<Insertion>, p: Place)
    requires p in nodes
  {
    nodes[p].allPrefix == FlatPrefix(ins, p) && nodes[p].allExact == FlatExact(ins, p)
  }

  class PathTrie {
    var nodes: Nodes
    ghost var inserted: seq<Insertion>

    ghost predicate Valid()
      reads this
    {
      IsTree(nodes) && Holds(nodes, inserted)
    }

    ghost predicate Flattened()
      reads this
    {
      forall p :: p in nodes ==> FlatAt(nodes, inserted, p)
    }

    constructor ()
      ensures Valid() && inserted == []
    {
      nodes := map[Root := EMPTY_NODE];
      inserted := [];
    }

    method Insert(path: string, isPrefix: bool, rt: Route)
      requires Valid()
      modifies this
      ensures Valid() && inserted == old(inserted) + [Insertion(Segments(path), isPrefix, rt)]
    {
      hide IsTree, Holds, TrimSlashes, Reached;
      var trimmed := TrimSlashes(path);
      TrimKeepsSegments(path);
      assert Split("") == [""] && NonEmpty([""]) == [];
      var curr := Root;
      var parts := if trimmed == "" then [] else Split(trimmed);
      ReachedEnds(parts);
      assert Root in nodes by { RootIsThere(nodes); }
      for i := 0 to |parts|
        invariant Valid() && inserted == old(inserted)
        invariant curr in nodes && curr == Reached(parts, i)
      {
        ReachedStep(parts, i);
        if parts[i] != "" {
          ChildNode(nodes, curr, parts[i]);
          if parts[i] !in nodes[curr].children {
            TreeGrows(nodes, curr, parts[i]);
            HoldsGrows(nodes, inserted, curr, parts[i]);
            nodes := WithChild(nodes, curr, parts[i]);
          }
          curr := Under(curr, parts[i]);
        }
      }
      ghost var i := Insertion(Segments(path), isPrefix, rt);
      HoldsInserts(nodes, inserted, i);
      RouteKeepsTree(nodes, curr, isPrefix, rt);
      nodes := nodes[curr := WithRoute(nodes[curr], isPrefix, rt)];
      inserted := inserted + [i];
    }

    /** Flatten: every node's candidates, worked out once after the last Insert. */
    method Flatten()
      requires Valid()
      modifies this`nodes
      ensures Valid() && Flattened() && SameButLists(old(nodes), nodes)
    {
      hide IsTree, Holds, FlatPrefix, FlatExact;
      RootIsThere(nodes);
      assert Inherited(inserted, Root) == [];
      FlattenNode(Root, []);
      forall p | p in nodes ensures FlatAt(nodes, inserted, p) { BelowRoot(p); }
    }

    /** flattenNode: the candidates of `curr` and of every node below it; no other node. */
    method FlattenNode(curr: Place, inherited: seq<Route>)
      requires Valid() && curr in nodes && inherited == Inherited(inserted, curr)
      modifies this`nodes
      ensures Valid() && SameButLists(old(nodes), nodes)
      ensures forall p :: p in nodes && Below(curr, p) ==> FlatAt(nodes, inserted, p)
      ensures forall p :: p in nodes && !Below(curr, p) ==> nodes[p] == old(nodes)[p]
      decreases PlacesBelow(nodes.Keys, curr)
    {
      hide IsTree, Holds, FlatPrefix, FlatExact, FlatAt, Progress, Below, SortRoutes, Inherited;
      ghost var start := nodes;
      FlatHere(nodes, inserted, curr);
      nodes := nodes[curr := WithLists(nodes[curr], inherited)];
      var todo := nodes[curr].children;
      ProgressAtStart(start, nodes, inserted, curr);
      while todo != {}
        invariant Valid() && SameButLists(start, nodes) && todo <= nodes[curr].children
        invariant Progress(start, nodes, inserted, curr, todo)
      {
        var part :| part in todo;
        ghost var before := nodes;
        ChildNode(nodes, curr, part);
        SmallerBelow(nodes.Keys, curr, part);
        ProgressHere(start, nodes, inserted, curr, todo, part);
        FlattenNode(Under(curr, part), nodes[curr].allPrefix);
        ProgressStep(start, before, nodes, inserted, curr, todo, part);
        todo := todo - {part};
      }
      ProgressDone(start, nodes, inserted, curr);
    }

    /** Lookup.  What it answers is the flattened list of the place the path's segments name,
        whether or not the tree has a node there. */
    method Lookup(path: string) returns (r: seq<Route>)
      requires Valid() && Flattened()
      ensures r == FlatExact(inserted, PlaceOf(Segments(path))) && Ranked(r)
    {
      FlatExactRanked(inserted, PlaceOf(Segments(path)));
      hide Ranked;
      hide IsTree, Holds, FlatPrefix, FlatExact, TrimSlashes;
      var trimmed := TrimSlashes(path);
      TrimKeepsSegments(path);
      var curr := Root;
      RootIsThere(nodes);
      if trimmed == "" {
        assert Split("") == [""] && NonEmpty([""]) == [];
        assert FlatAt(nodes, inserted, Root);
        return nodes[curr].allExact;
      }
      ghost var walked: seq<string> := [];
      assert PlaceOf(walked) == Root;
      hide PlaceOf, Segments;
      var rest := trimmed;
      while true
        invariant curr in nodes && curr == PlaceOf(walked)
        invariant walked + Segments(rest) == Segments(path)
        decreases |rest|
      {
        var (part, after, more) := Cut(rest);
        CutSegments(rest, walked);
        if part != "" {
          ChildNode(nodes, curr, part);
          if part !in nodes[curr].children {
            assert FlatAt(nodes, inserted, curr);
            OffTree(nodes, inserted, walked, part, if more then Segments(after) else []);
            return nodes[curr].allPrefix;
          }
          curr := Under(curr, part);
          PlaceOfStep(walked, part);
          walked := walked + [part];
        }
        if !more {
          break;
        }
        rest := after;
      }
      assert walked == Segments(path);
      assert FlatAt(nodes, inserted, curr);
      return nodes[curr].allExact;
    }
  }

  function WithLists(n: TrieNode, inherited: seq<Route>): TrieNode {
    var allPrefix := SortRoutes(inherited + n.prefix);
    n.(allPrefix := allPrefix, allExact := SortRoutes(allPrefix + n.exact))
  }

  /** The node reached gets its own lists right and leaves the tree as it was. */
  lemma FlatHere(nodes: Nodes, ins: seq<Insertion>, curr: Place)
    requires IsTree(nodes) && Holds(nodes, ins) && curr in nodes
    ensures var nodes' := nodes[curr := WithLists(nodes[curr], Inherited(ins, curr))];
            IsTree(nodes') && Holds(nodes', ins) && SameButLists(nodes, nodes') && FlatAt(nodes', ins, curr)
  {
    ListsDoNotMatter(nodes, nodes[curr := WithLists(nodes[curr], Inherited(ins, curr))], ins);
  }

  /** While `curr` is flattened: its lists and those below its children not in `todo` are
      right, and no node that is not below it has changed. */
  ghost predicate Progress(start: Nodes, nodes: Nodes, ins: seq<Insertion>, curr: Place, todo: set<string>) {
    && start.Keys == nodes.Keys && curr in nodes
    && FlatAt(nodes, ins, curr)
    && (forall p :: p in nodes && BelowDone(curr, todo, p) ==> FlatAt(nodes, ins, p))
    && (forall p :: p in nodes && !Below(curr, p) ==> nodes[p] == start[p])
  }

  lemma ProgressAtStart(start: Nodes, nodes: Nodes, ins: seq<Insertion>, curr: Place)
    requires IsTree(nodes) && start.Keys == nodes.Keys && curr in nodes && FlatAt(nodes, ins, curr)
    requires forall p :: p in nodes && p != curr ==> nodes[p] == start[p]
    ensures Progress(start, nodes, ins, curr, nodes[curr].children)
  {
    forall p | p in nodes ensures !BelowDone(curr, nodes[curr].children, p) { NoneDoneYet(nodes, curr, p); }
  }

  lemma ProgressHere(start: Nodes, nodes: Nodes, ins: seq<Insertion>, curr: Place, todo: set<string>, part: string)
    requires Progress(start, nodes, ins, curr, todo)
    ensures curr in nodes && nodes[curr].allPrefix == Inherited(ins, Under(curr, part))
  {
  }

  lemma ProgressStep(start: Nodes, before: Nodes, after: Nodes, ins: seq<Insertion>, curr: Place, todo: set<string>,
        part: string)
    requires Progress(start, before, ins, curr, todo) && before.Keys == after.Keys && part in todo
    requires forall p :: p in after && Below(Under(curr, part), p) ==> FlatAt(after, ins, p)
    requires forall p :: p in after && !Below(Under(curr, part), p) ==> after[p] == before[p]
    ensures Progress(start, after, ins, curr, todo - {part})
  {
    hide FlatPrefix, FlatExact;
    forall p | p in after
      ensures Below(Under(curr, part), p) ==> Below(curr, p) && p != curr
      ensures BelowDone(curr, todo - {part}, p) ==> FlatAt(after, ins, p)
    {
      ChildToward(curr, part, todo, p);
    }
  }

  lemma ProgressDone(start: Nodes, nodes: Nodes, ins: seq<Insertion>, curr: Place)
    requires IsTree(nodes) && Progress(start, nodes, ins, curr, {})
    ensures forall p :: p in nodes && Below(curr, p) ==> FlatAt(nodes, ins, p)
    ensures start.Keys == nodes.Keys && forall p :: p in nodes && !Below(curr, p) ==> nodes[p] == start[p]
  {
    forall p | p in nodes && Below(curr, p) ensures FlatAt(nodes, ins, p) { AllChildrenDone(nodes, curr, p); }
  }

  lemma RootIsThere(nodes: Nodes)
    requires IsTree(nodes)
    ensures Root in nodes
  {
  }

  lemma RouteKeepsTree(nodes: Nodes, curr: Place, isPrefix: bool, rt: Route)
    requires IsTree(nodes) && curr in nodes
    ensures IsTree(nodes[curr := WithRoute(nodes[curr], isPrefix, rt)])
  {
  }

  /** `p` is `place` or somewhere below it. */
  predicate Below(place: Place, p: Place) {
    p == place || (p.Under? && Below(place, p.parent))
  }

  /** `p` is below a child of `place` other than those in `todo`. */
  predicate BelowDone(place: Place, todo: set<string>, p: Place) {
    p.Under? && ((p.parent == place && p.part !in todo) || BelowDone(place, todo, p.parent))
  }

  lemma {:induction false} BelowRoot(p: Place)
    ensures Below(Root, p)
  {
    if p.Under? { BelowRoot(p.parent); }
  }

  function Depth(p: Place): nat {
    if p.Root? then 0 else 1 + Depth(p.parent)
  }

  lemma {:induction false} BelowIsDeeper(place: Place, p: Place)
    requires Below(place, p)
    ensures Depth(place) <= Depth(p)
  {
    if p != place { BelowIsDeeper(place, p.parent); }
  }

  /** Where `p` stands with respect to the child of `place` for `part`. */
  lemma {:induction false} ChildToward(place: Place, part: string, todo: set<string>, p: Place)
    ensures Below(Under(place, part), p) ==> Below(place, p) && p != place && Depth(place) < Depth(p)
    ensures BelowDone(place, todo, p) ==> Below(place, p) && p != place && Depth(place) < Depth(p)
    ensures part in todo ==> (BelowDone(place, todo - {part}, p) <==>
              BelowDone(place, todo, p) || Below(Under(place, part), p))
  {
    if p.Under? {
      ChildToward(place, part, todo, p.parent);
    }
  }

  /** With all children still to do, nothing in the tree is below a child that is done. */
  lemma {:induction false} NoneDoneYet(nodes: Nodes, place: Place, p: Place)
    requires IsTree(nodes) && place in nodes && p in nodes
    ensures !BelowDone(place, nodes[place].children, p)
  {
    if p.Under? {
      assert Under(p.parent, p.part) in nodes;
      NoneDoneYet(nodes, place, p.parent);
    }
  }

  function PlacesBelow(places: set<Place>, place: Place): set<Place> {
    set p | p in places && Below(place, p)
  }

  lemma SmallerBelow(places: set<Place>, place: Place, part: string)
    requires place in places
    ensures PlacesBelow(places, Under(place, part)) < PlacesBelow(places, place)
  {
    var less, more := PlacesBelow(places, Under(place, part)), PlacesBelow(places, place);
    forall p | p in less ensures p in more && p != place { ChildToward(place, part, {}, p); }
    assert place in more && place !in less;
  }

  /** Everything in the tree below `place` is `place` or below one of its children. */
  lemma {:induction false} AllChildrenDone(nodes: Nodes, place: Place, p: Place)
    requires IsTree(nodes) && p in nodes && Below(place, p)
    ensures p == place || BelowDone(place, {}, p)
  {
    if p != place && p.parent != place {
      assert Under(p.parent, p.part) in nodes;
      AllChildrenDone(nodes, place, p.parent);
    }
  }

  // ----- The trie refines a scan -----

  /** Reading one part off a path reads its first segment, or none if the part is empty. */
  lemma CutSegments(rest: string, walked: seq<string>)
    ensures var (part, after, more) := Cut(rest);
            && Segments(rest) == (if part == "" then [] else [part]) + (if more then Segments(after) else [])
            && walked + Segments(rest)
                == (if part == "" then walked else walked + [part]) + (if more then Segments(after) else [])
  {
    hide Segments, Cut;
    SegmentsCut(rest);
    var (part, after, more) := Cut(rest);
    Regroup(walked, if part == "" then [] else [part], if more then Segments(after) else []);
  }

  lemma Regroup(a: seq<string>, b: seq<string>, c: seq<string>)
    ensures a + (b + c) == (a + b) + c
  {
  }

  lemma FlatPrefixSorted(ins: seq<Insertion>, place: Place)
    ensures Sorted(FlatPrefix(ins, place))
  {
    SortRoutesSorts(Inherited(ins, place) + RoutesAt(ins, place, true));
  }

  /** Past a place the tree does not have, nothing is inserted: the candidates of any path
      through it are the prefix routes of the last node on the way. */
  lemma {:induction false} OffTree(nodes: Nodes, ins: seq<Insertion>, walked: seq<string>, part: string,
        more: seq<string>)
    requires IsTree(nodes) && Holds(nodes, ins)
    requires Under(PlaceOf(walked), part) !in nodes
    ensures PlaceOf((walked + [part]) + more) !in nodes
    ensures FlatPrefix(ins, PlaceOf((walked + [part]) + more)) == FlatPrefix(ins, PlaceOf(walked))
    ensures FlatExact(ins, PlaceOf((walked + [part]) + more)) == FlatPrefix(ins, PlaceOf(walked))
    decreases |more|
  {
    var here := (walked + [part]) + more;
    if more == [] {
      assert here == walked + [part];
      PlaceOfStep(walked, part);
    } else {
      var front := more[..|more| - 1];
      OffTree(nodes, ins, walked, part, front);
      assert here == ((walked + [part]) + front) + [more[|more| - 1]];
      PlaceOfStep((walked + [part]) + front, more[|more| - 1]);
    }
    hide IsTree;
    var place := PlaceOf(here);
    NothingOutside(ins, nodes.Keys, place, true);
    NothingOutside(ins, nodes.Keys, place, false);
    var up := FlatPrefix(ins, PlaceOf(walked));
    FlatPrefixSorted(ins, PlaceOf(walked));
    SortKeepsSorted(up);
    assert up + [] == up;
    assert Inherited(ins, place) == up;
  }

  /** The routes of an insertion a path can match: a prefix route when its segments begin
      the path's, any other when they are the path's. */
  predicate Matches(i: Insertion, segments: seq<string>) {
    if i.isPrefix then i.segments <= segments else i.segments == segments
  }

  /** The scan: the routes that match, in the order they were inserted. */
  function Candidates(ins: seq<Insertion>, segments: seq<string>): seq<Route> {
    if ins == [] then []
    else
      Candidates(ins[..|ins| - 1], segments) + if Matches(ins[|ins| - 1], segments) then [ins[|ins| - 1].route] else []
  }

  function PrefixCandidates(ins: seq<Insertion>, segments: seq<string>): seq<Route> {
    if ins == [] then []
    else
      var last := ins[|ins| - 1];
      PrefixCandidates(ins[..|ins| - 1], segments) + if last.isPrefix
          && last.segments <= segments then [last.route] else []
  }

  lemma {:induction false} PlaceOfInjective(a: seq<string>, b: seq<string>)
    ensures PlaceOf(a) == PlaceOf(b) <==> a == b
    decreases |a|
  {
    if a != [] && b != [] {
      PlaceOfInjective(a[..|a| - 1], b[..|b| - 1]);
      assert a == a[..|a| - 1] + [a[|a| - 1]] && b == b[..|b| - 1] + [b[|b| - 1]];
    }
  }

  lemma PrefixOfLonger(a: seq<string>, b: seq<string>)
    requires b != []
    ensures a <= b <==> a <= b[..|b| - 1] || a == b
    ensures a <= b[..|b| - 1] ==> a != b
  {
  }

  lemma {:induction false} PrefixCandidatesStep(ins: seq<Insertion>, segments: seq<string>)
    requires segments != []
    ensures multiset(PrefixCandidates(ins, segments)) ==
            multiset(PrefixCandidates(ins, segments[..|segments| - 1])) + multiset(RoutesAt(ins, PlaceOf(segments),
                true))
  {
    if ins != [] {
      var last := ins[|ins| - 1];
      PrefixCandidatesStep(ins[..|ins| - 1], segments);
      PlaceOfInjective(last.segments, segments);
      PrefixOfLonger(last.segments, segments);
    }
  }

  lemma {:induction false} PrefixCandidatesAtRoot(ins: seq<Insertion>)
    ensures PrefixCandidates(ins, []) == RoutesAt(ins, Root, true)
  {
    if ins != [] {
      PrefixCandidatesAtRoot(ins[..|ins| - 1]);
      PlaceOfInjective(ins[|ins| - 1].segments, []);
      assert PlaceOf([]) == Root;
    }
  }

  lemma {:induction false} FlatPrefixContents(ins: seq<Insertion>, segments: seq<string>)
    ensures multiset(FlatPrefix(ins, PlaceOf(segments))) == multiset(PrefixCandidates(ins, segments))
    decreases |segments|
  {
    hide SortRoutes, RoutesAt, Sorted, PrefixCandidates;
    var place := PlaceOf(segments);
    SortRoutesSorts(Inherited(ins, place) + RoutesAt(ins, place, true));
    if segments == [] {
      PrefixCandidatesAtRoot(ins);
      assert [] + RoutesAt(ins, place, true) == RoutesAt(ins, place, true);
    } else {
      FlatPrefixContents(ins, segments[..|segments| - 1]);
      PrefixCandidatesStep(ins, segments);
    }
  }

  lemma {:induction false} CandidatesSplit(ins: seq<Insertion>, segments: seq<string>)
    ensures multiset(Candidates(ins, segments)) ==
            multiset(PrefixCandidates(ins, segments)) + multiset(RoutesAt(ins, PlaceOf(segments), false))
  {
    if ins != [] {
      CandidatesSplit(ins[..|ins| - 1], segments);
      PlaceOfInjective(ins[|ins| - 1].segments, segments);
    }
  }

  /** The trie refines a scan: what Lookup answers for a path is the list of the routes
      inserted that match it, in the order of the index -- whatever was inserted, in
      whatever order, as long as an id names one route. */
  lemma LookupIsAScan(ins: seq<Insertion>, segments: seq<string>)
    requires IdsIdentify(Candidates(ins, segments))
    ensures FlatExact(ins, PlaceOf(segments)) == SortRoutes(Candidates(ins, segments))
    ensures Ranked(FlatExact(ins, PlaceOf(segments)))
    ensures multiset(FlatExact(ins, PlaceOf(segments))) == multiset(Candidates(ins, segments))
  {
    FlatExactRanked(ins, PlaceOf(segments));
    hide Ranked;
    var place, scan := PlaceOf(segments), Candidates(ins, segments);
    hide FlatPrefix, Precedes, SortRoutes;
    FlatPrefixContents(ins, segments);
    CandidatesSplit(ins, segments);
    SortRoutesSorts(FlatPrefix(ins, place) + RoutesAt(ins, place, false));
    SortRoutesSorts(scan);
    assert multiset(FlatExact(ins, place)) == multiset(scan) == multiset(SortRoutes(scan));
    SameMembers(SortRoutes(scan), scan);
    SortedIsUnique(SortRoutes(scan), FlatExact(ins, place));
  }

  lemma SameMembers(a: seq<Route>, b: seq<Route>)
    requires multiset(a) == multiset(b) && IdsIdentify(b)
    ensures IdsIdentify(a)
  {
    forall r | r in a ensures r in b {
      assert r in multiset(a);
      assert r in multiset(b);
    }
  }
}
