/** orderTies (internal/audit/verify.go): entries stamped in the same instant are
    read back in the order of their random ids and put into chain order in place. */
module AuditOrder {
  import opened Wrappers
  import opened AuditChain

  /** The first entry from `j` on, stamped like entry `i`, that follows `prev`. */
  function FindTie(es: seq<Entry>, prev: string, i: nat, j: nat): (k: Option<nat>)
    requires i < j <= |es|
    ensures k.Some? ==> j <= k.value < |es| && es[k.value].previousHash == prev
    ensures k.Some? ==> es[k.value].timestamp == es[i].timestamp
    decreases |es| - j
  {
    if j < |es| && es[j].timestamp == es[i].timestamp then
      if es[j].previousHash == prev then Some(j) else FindTie(es, prev, i, j + 1)
    else None
  }

  function Swap(es: seq<Entry>, i: nat, j: nat): seq<Entry>
    requires i < |es| && j < |es|
  {
    es[i := es[j]][j := es[i]]
  }

  /** One pass of the outer loop: bring forward the entry that follows `prev`. */
  function PullForward(es: seq<Entry>, prev: string, i: nat): (r: seq<Entry>)
    requires i < |es|
    ensures |r| == |es|
  {
    if es[i].previousHash == prev then es
    else
      match FindTie(es, prev, i, i + 1)
      case Some(j) => Swap(es, i, j)
      case None => es
  }

  function OrderFrom(es: seq<Entry>, prev: string, i: nat): (r: seq<Entry>)
    requires i <= |es|
    ensures |r| == |es|
    decreases |es| - i
  {
    if i == |es| then es
    else
      var es' := PullForward(es, prev, i);
      OrderFrom(es', es'[i].signature, i + 1)
  }

  /** The window orderTies leaves. */
  function Ordered(es: seq<Entry>, genesis: string): seq<Entry> {
    OrderFrom(es, genesis, 0)
  }

  /** The inner loop of orderTies. */
  method SearchTie(entries: array<Entry>, prev: string, i: nat) returns (k: Option<nat>)
    requires i < entries.Length
    ensures k == FindTie(entries[..], prev, i, i + 1)
  {
    var j := i + 1;
    while j < entries.Length && entries[j].timestamp == entries[i].timestamp
      invariant i < j <= entries.Length
      invariant FindTie(entries[..], prev, i, i + 1) == FindTie(entries[..], prev, i, j)
    {
      if entries[j].previousHash == prev {
        return Some(j);
      }
      j := j + 1;
    }
    return None;
  }

  method OrderTies(entries: array<Entry>, genesis: string)
    modifies entries
    ensures entries[..] == Ordered(old(entries[..]), genesis)
  {
    var prev := genesis;
    for i := 0 to entries.Length
      invariant OrderFrom(entries[..], prev, i) == Ordered(old(entries[..]), genesis)
    {
      ghost var es := entries[..];
      if entries[i].previousHash != prev {
        var j := SearchTie(entries, prev, i);
        if j.Some? {
          entries[i], entries[j.value] := entries[j.value], entries[i];
          assert entries[..] == Swap(es, i, j.value);
        }
      }
      assert entries[..] == PullForward(es, prev, i);
      prev := entries[i].signature;
    }
  }

  // ----- It only moves entries among equal timestamps -----

  /** `t` holds the entries of `es`, each at a position with its own timestamp. */
  ghost predicate TiePermutation(t: seq<Entry>, es: seq<Entry>) {
    && |t| == |es|
    && multiset(t) == multiset(es)
    && forall i :: 0 <= i < |es| ==> t[i].timestamp == es[i].timestamp
  }

  lemma SwapPermutes(es: seq<Entry>, i: nat, j: nat)
    requires i < |es| && j < |es|
    ensures multiset(Swap(es, i, j)) == multiset(es)
  {
  }

  lemma PullForwardPermutes(es: seq<Entry>, prev: string, i: nat)
    requires i < |es|
    ensures TiePermutation(PullForward(es, prev, i), es)
    ensures PullForward(es, prev, i)[..i] == es[..i]
  {
    var k := FindTie(es, prev, i, i + 1);
    if k.Some? { SwapPermutes(es, i, k.value); }
  }

  lemma {:induction false} OrderFromPermutes(es: seq<Entry>, prev: string, i: nat)
    requires i <= |es|
    ensures TiePermutation(OrderFrom(es, prev, i), es)
    ensures OrderFrom(es, prev, i)[..i] == es[..i]
    decreases |es| - i
  {
    if i < |es| {
      var es' := PullForward(es, prev, i);
      PullForwardPermutes(es, prev, i);
      OrderFromPermutes(es', es'[i].signature, i + 1);
      var r := OrderFrom(es', es'[i].signature, i + 1);
      assert r[..i] == r[..i + 1][..i] == es'[..i + 1][..i] == es'[..i];
    }
  }

  /** Nothing is lost, and nothing moves to another instant. */
  lemma OrderTiesPermutes(es: seq<Entry>, genesis: string)
    ensures TiePermutation(Ordered(es, genesis), es)
  {
    OrderFromPermutes(es, genesis, 0);
  }

  ghost predicate DistinctTimes(es: seq<Entry>) {
    forall i, j :: 0 <= i < j < |es| ==> es[i].timestamp != es[j].timestamp
  }

  lemma {:induction false} DistinctTimesUnmoved(es: seq<Entry>, prev: string, i: nat)
    requires i <= |es| && DistinctTimes(es)
    ensures OrderFrom(es, prev, i) == es
    decreases |es| - i
  {
    if i < |es| {
      assert i + 1 < |es| ==> es[i].timestamp != es[i + 1].timestamp;
      assert FindTie(es, prev, i, i + 1) == None;
      DistinctTimesUnmoved(es, es[i].signature, i + 1);
    }
  }

  // ----- It finds the chain -----

  /** Each entry names the signature before it. */
  ghost predicate Linked(es: seq<Entry>, genesis: string) {
    forall i :: 0 <= i < |es| ==> LinkedAt(es, genesis, i)
  }

  ghost predicate TimeSorted(es: seq<Entry>) {
    forall i, j :: 0 <= i < j < |es| ==> es[i].timestamp <= es[j].timestamp
  }

  /** From position `j` to `at`, every entry is stamped like entry `i`, and the one
      at `at` is the only one that follows `prev`: the search finds it. */
  lemma {:induction false} FindTieFinds(es: seq<Entry>, prev: string, i: nat, j: nat, at: nat)
    requires i < j <= at < |es|
    requires forall m :: j <= m <= at ==> es[m].timestamp == es[i].timestamp
    requires forall m :: j <= m < at ==> es[m].previousHash != prev
    requires es[at].previousHash == prev
    ensures FindTie(es, prev, i, j) == Some(at)
    decreases at - j
  {
    if j < at { FindTieFinds(es, prev, i, j + 1, at); }
  }

  lemma TailsAgree<T>(a: seq<T>, b: seq<T>, i: nat)
    requires i <= |a| == |b| && multiset(a) == multiset(b) && a[..i] == b[..i]
    ensures multiset(a[i..]) == multiset(b[i..])
  {
    assert a == a[..i] + a[i..] && b == b[..i] + b[i..];
    assert multiset(a[i..]) == multiset(a) - multiset(a[..i]);
    assert multiset(b[i..]) == multiset(b) - multiset(b[..i]);
  }

  lemma ExtendPrefix<T>(a: seq<T>, b: seq<T>, i: nat)
    requires i < |a| && i < |b| && a[..i] == b[..i] && a[i] == b[i]
    ensures a[..i + 1] == b[..i + 1]
  {
    assert a[..i + 1] == a[..i] + [a[i]] && b[..i + 1] == b[..i] + [b[i]];
  }

  lemma SameTimesSorted(t: seq<Entry>, es: seq<Entry>)
    requires TimeSorted(es) && TiePermutation(t, es)
    ensures TimeSorted(t)
  {
    forall a, b | 0 <= a < b < |t| ensures t[a].timestamp <= t[b].timestamp {
      assert t[a].timestamp == es[a].timestamp && t[b].timestamp == es[b].timestamp;
    }
  }

  /** Where the arrangement `es` holds the chain's next entry. */
  lemma NextIsAhead(es: seq<Entry>, chain: seq<Entry>, i: nat) returns (at: nat)
    requires TiePermutation(es, chain) && i < |es| && es[..i] == chain[..i]
    ensures i <= at < |es| && es[at] == chain[i]
  {
    TailsAgree(es, chain, i);
    assert chain[i] == chain[i..][0];
    assert chain[i] in multiset(es[i..]);
    var k :| 0 <= k < |es[i..]| && es[i..][k] == chain[i];
    at := i + k;
  }

  /** Only the chain's next entry follows what is already in place. */
  lemma OnlyNextFollows(es: seq<Entry>, chain: seq<Entry>, genesis: string, i: nat, m: nat)
    requires TiePermutation(es, chain) && Linked(chain, genesis) && DistinctSignatures(chain, genesis)
    requires i <= m < |es| && es[m].previousHash == Before(chain, i, genesis)
    ensures es[m] == chain[i]
  {
    assert es[m] in multiset(es);
    assert es[m] in multiset(chain);
    var c :| 0 <= c < |chain| && chain[c] == es[m];
    assert LinkedAt(chain, genesis, c);
    PlacesDiffer(chain, genesis, c, i);
  }

  /** No two positions of a chain follow the same signature. */
  lemma PlacesDiffer(chain: seq<Entry>, genesis: string, c: nat, i: nat)
    requires DistinctSignatures(chain, genesis) && c < |chain| && i < |chain|
    ensures Before(chain, c, genesis) == Before(chain, i, genesis) <==> c == i
  {
  }

  lemma SortedTies(es: seq<Entry>, i: nat, at: nat)
    requires TimeSorted(es) && i <= at < |es| && es[at].timestamp == es[i].timestamp
    ensures forall m :: i <= m <= at ==> es[m].timestamp == es[i].timestamp
  {
    forall m | i <= m <= at ensures es[m].timestamp == es[i].timestamp {
      assert i < m ==> es[i].timestamp <= es[m].timestamp;
      assert m < at ==> es[m].timestamp <= es[at].timestamp;
    }
  }

  lemma PullForwardFollowsChain(es: seq<Entry>, chain: seq<Entry>, genesis: string, i: nat)
    requires TimeSorted(es) && TiePermutation(es, chain) && Linked(chain, genesis) && DistinctSignatures(chain, genesis)
    requires i < |es| && es[..i] == chain[..i]
    ensures PullForward(es, Before(chain, i, genesis), i)[i] == chain[i]
  {
    var prev := Before(chain, i, genesis);
    assert LinkedAt(chain, genesis, i);
    if es[i].previousHash == prev {
      OnlyNextFollows(es, chain, genesis, i, i);
    } else {
      var at := NextIsAhead(es, chain, i);
      SortedTies(es, i, at);
      forall m | i + 1 <= m < at ensures es[m].previousHash != prev {
        if es[m].previousHash == prev {
          OnlyNextFollows(es, chain, genesis, i, m);
          SamePlace(es, chain, genesis, m, at);
        }
      }
      FindTieFinds(es, prev, i, i + 1, at);
    }
  }

  /** Entries with distinct signatures occur once. */
  lemma SamePlace(es: seq<Entry>, chain: seq<Entry>, genesis: string, m: nat, at: nat)
    requires multiset(es) == multiset(chain) && DistinctSignatures(chain, genesis)
    requires m < |es| && at < |es| && es[m] == es[at]
    ensures m == at
  {
    if m != at {
      var lo, hi := if m < at then m else at, if m < at then at else m;
      assert es == es[..hi] + es[hi..];
      assert multiset(es) == multiset(es[..hi]) + multiset(es[hi..]);
      assert es[..hi][lo] == es[m] && es[hi..][0] == es[m];
      assert multiset(es)[es[m]] >= 2;
      AtMostOnce(chain, genesis, es[m]);
    }
  }

  lemma {:induction false} AtMostOnce(chain: seq<Entry>, genesis: string, e: Entry)
    requires DistinctSignatures(chain, genesis)
    ensures multiset(chain)[e] <= 1
  {
    if |chain| > 0 {
      var rest := chain[1..];
      assert chain == [chain[0]] + rest;
      AtMostOnce(rest, genesis, e);
      if chain[0] == e {
        assert forall k :: 0 <= k < |rest| ==> rest[k] == chain[k + 1] && rest[k].signature != e.signature;
        assert e !in rest;
      }
    }
  }

  /** `es` is a reading of `chain` whose first `i` entries are already in place. */
  ghost predicate InPlace(es: seq<Entry>, chain: seq<Entry>, i: nat) {
    TimeSorted(es) && TiePermutation(es, chain) && i <= |es| && es[..i] == chain[..i]
  }

  lemma PullForwardAdvances(es: seq<Entry>, chain: seq<Entry>, genesis: string, i: nat)
    requires InPlace(es, chain, i) && i < |es| && Linked(chain, genesis) && DistinctSignatures(chain, genesis)
    ensures InPlace(PullForward(es, Before(chain, i, genesis), i), chain, i + 1)
  {
    var es' := PullForward(es, Before(chain, i, genesis), i);
    PullForwardPermutes(es, Before(chain, i, genesis), i);
    PullForwardFollowsChain(es, chain, genesis, i);
    ExtendPrefix(es', chain, i);
    SameTimesSorted(es', es);
  }

  lemma {:induction false} OrderFromFindsChain(es: seq<Entry>, chain: seq<Entry>, genesis: string, i: nat)
    requires InPlace(es, chain, i) && Linked(chain, genesis) && DistinctSignatures(chain, genesis)
    ensures OrderFrom(es, Before(chain, i, genesis), i) == chain
    decreases |es| - i
  {
    if i == |es| {
      assert es[..i] == es && chain[..i] == chain;
    } else {
      var es' := PullForward(es, Before(chain, i, genesis), i);
      PullForwardAdvances(es, chain, genesis, i);
      assert es'[i] == es'[..i + 1][i] == chain[..i + 1][i] == chain[i];
      OrderFromFindsChain(es', chain, genesis, i + 1);
    }
  }

  /** If the window can be arranged, moving entries only among equal timestamps, into
      a chain from `genesis`, then orderTies arranges it into that chain. */
  lemma OrderTiesFindsTheChain(es: seq<Entry>, chain: seq<Entry>, genesis: string)
    requires TimeSorted(es) && TiePermutation(es, chain)
    requires Linked(chain, genesis) && DistinctSignatures(chain, genesis)
    ensures Ordered(es, genesis) == chain
  {
    OrderFromFindsChain(es, chain, genesis, 0);
  }

  /** A window with no two entries in one instant is left as it was read. */
  lemma OrderTiesKeepsDistinctTimes(es: seq<Entry>, genesis: string)
    requires DistinctTimes(es)
    ensures Ordered(es, genesis) == es
  {
    DistinctTimesUnmoved(es, genesis, 0);
  }
}
