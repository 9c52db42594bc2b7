/** Routes and the order the route index keeps them in (internal/config/trie.go). */
module RouteOrder {
  import opened Text

  datatype Route = Route(id: string, priority: int, rule: string)

  /** Higher priority first, then the longer rule, then the smaller id. */
  predicate Precedes(a: Route, b: Route) {
    if a.priority != b.priority then a.priority > b.priority
    else if |a.rule| != |b.rule| then |a.rule| > |b.rule|
    else LexLess(a.id, b.id)
  }

  lemma PrecedesIsStrictWeakOrder(a: Route, b: Route, c: Route)
    ensures !(Precedes(a, b) && Precedes(b, a))
    ensures Precedes(a, b) && Precedes(b, c) ==> Precedes(a, c)
    ensures Precedes(a, c) ==> Precedes(a, b) || Precedes(b, c)
    ensures !Precedes(a, b) && !Precedes(b, a) ==> a.id == b.id
  {
    LexTotal(a.id, b.id);
    LexTotal(b.id, c.id);
    if LexLess(a.id, b.id) && LexLess(b.id, c.id) { LexTransitive(a.id, b.id, c.id); }
    if LexLess(b.id, a.id) && LexLess(a.id, c.id) { LexTransitive(b.id, a.id, c.id); }
  }

  ghost predicate Sorted(rs: seq<Route>) {
    forall i, j :: 0 <= i < j < |rs| ==> !Precedes(rs[j], rs[i])
  }

  /** The routes come by falling priority, those of one priority by falling length of rule, and
      those alike in both by id. */
  ghost predicate Ranked(rs: seq<Route>) {
    forall i, j :: 0 <= i < j < |rs| ==>
      || rs[i].priority > rs[j].priority
      || (rs[i].priority == rs[j].priority && |rs[i].rule| > |rs[j].rule|)
      || (rs[i].priority == rs[j].priority && |rs[i].rule| == |rs[j].rule|
          && (rs[i].id == rs[j].id || Earlier(rs[i].id, rs[j].id)))
  }

  lemma SortedExactlyWhenRanked(rs: seq<Route>)
    ensures Sorted(rs) <==> Ranked(rs)
  {
    forall i, j | 0 <= i < j < |rs|
      ensures !LexLess(rs[j].id, rs[i].id) <==> rs[i].id == rs[j].id || Earlier(rs[i].id, rs[j].id)
    {
      LexTotal(rs[i].id, rs[j].id);
      LexMeans(rs[i].id, rs[j].id);
    }
    hide LexLess, Earlier;
  }

  function Place(r: Route, rs: seq<Route>): seq<Route> {
    if rs == [] then [r]
    else if Precedes(rs[0], r) then [rs[0]] + Place(r, rs[1..])
    else [r] + rs
  }

  /** sortRoutes. */
  function SortRoutes(rs: seq<Route>): seq<Route> {
    if rs == [] then [] else Place(rs[0], SortRoutes(rs[1..]))
  }

  lemma {:induction false} PlaceKeeps(r: Route, rs: seq<Route>)
    ensures multiset(Place(r, rs)) == multiset{r} + multiset(rs)
  {
    if rs != [] {
      assert rs == [rs[0]] + rs[1..];
      if Precedes(rs[0], r) { PlaceKeeps(r, rs[1..]); }
    }
  }

  lemma {:induction false} PlaceSorts(r: Route, rs: seq<Route>)
    requires Sorted(rs)
    ensures Sorted(Place(r, rs))
  {
    if rs != [] {
      var out := Place(r, rs);
      if Precedes(rs[0], r) {
        PlaceSorts(r, rs[1..]);
        PlaceKeeps(r, rs[1..]);
        forall x | x in Place(r, rs[1..]) ensures !Precedes(x, rs[0]) {
          assert x in multiset(Place(r, rs[1..]));
          PrecedesIsStrictWeakOrder(rs[0], r, rs[0]);
          if x in rs[1..] {
            var k :| 0 <= k < |rs[1..]| && rs[1..][k] == x;
            assert x == rs[k + 1];
          }
        }
        assert forall j :: 1 <= j < |out| ==> out[j] == Place(r, rs[1..])[j - 1] && out[j] in Place(r, rs[1..]);
      } else {
        forall k | 0 <= k < |rs| ensures !Precedes(rs[k], r) {
          if k > 0 { PrecedesIsStrictWeakOrder(rs[k], rs[0], r); }
        }
      }
    }
  }

  /** Sorting keeps every route and puts them in order. */
  lemma {:induction false} SortRoutesSorts(rs: seq<Route>)
    ensures multiset(SortRoutes(rs)) == multiset(rs) && Sorted(SortRoutes(rs)) && Ranked(SortRoutes(rs))
  {
    SortedExactlyWhenRanked(SortRoutes(rs));
    hide Ranked;
    if rs != [] {
      SortRoutesSorts(rs[1..]);
      PlaceKeeps(rs[0], SortRoutes(rs[1..]));
      PlaceSorts(rs[0], SortRoutes(rs[1..]));
      assert rs == [rs[0]] + rs[1..];
    }
  }

  /** No two different routes share an id. */
  ghost predicate IdsIdentify(rs: seq<Route>) {
    forall r, s :: r in rs && s in rs && r.id == s.id ==> r == s
  }

  lemma FirstAgrees(a: seq<Route>, b: seq<Route>)
    requires Sorted(a) && Sorted(b) && multiset(a) == multiset(b) && IdsIdentify(a) && a != [] && b != []
    ensures a[0] == b[0]
  {
    assert b[0] in multiset(a) && a[0] in multiset(b);
    assert b[0] in a && a[0] in b;
    var i :| 0 <= i < |a| && a[i] == b[0];
    var j :| 0 <= j < |b| && b[j] == a[0];
    PrecedesIsStrictWeakOrder(a[0], b[0], a[0]);
    assert !Precedes(b[0], a[0]);
    assert !Precedes(a[0], b[0]);
  }

  /** When ids identify routes there is only one sorted arrangement of them. */
  lemma {:induction false} SortedIsUnique(a: seq<Route>, b: seq<Route>)
    requires Sorted(a) && Sorted(b) && multiset(a) == multiset(b) && IdsIdentify(a)
    ensures a == b
  {
    if a == [] {
      assert |multiset(b)| == 0;
    } else {
      assert a[0] in multiset(b);
      FirstAgrees(a, b);
      hide Sorted, Precedes, IdsIdentify;
      SortedTail(a);
      SortedTail(b);
      MultisetTail(a, b);
      SortedIsUnique(a[1..], b[1..]);
      assert a == [a[0]] + a[1..] && b == [b[0]] + b[1..];
    }
  }

  lemma SortedTail(a: seq<Route>)
    requires Sorted(a) && a != []
    ensures Sorted(a[1..])
    ensures IdsIdentify(a) ==> IdsIdentify(a[1..])
  {
    forall i, j | 0 <= i < j < |a[1..]| ensures !Precedes(a[1..][j], a[1..][i]) {
      assert a[1..][j] == a[j + 1] && a[1..][i] == a[i + 1];
    }
    assert forall r :: r in a[1..] ==> r in a;
  }

  lemma MultisetTail<T>(a: seq<T>, b: seq<T>)
    requires a != [] && b != [] && a[0] == b[0] && multiset(a) == multiset(b)
    ensures multiset(a[1..]) == multiset(b[1..])
  {
    assert a == [a[0]] + a[1..] && b == [b[0]] + b[1..];
    assert multiset(a[1..]) == multiset(a) - multiset{a[0]};
    assert multiset(b[1..]) == multiset(b) - multiset{b[0]};
  }

  /** What is sorted stays as it is. */
  lemma {:induction false} SortKeepsSorted(a: seq<Route>)
    requires Sorted(a)
    ensures SortRoutes(a) == a
  {
    if a != [] {
      SortedTail(a);
      SortKeepsSorted(a[1..]);
      if |a| > 1 { assert a[1..][0] == a[1]; }
      assert a == [a[0]] + a[1..];
    }
  }
}
