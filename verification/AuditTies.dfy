/** Following the cursor through a log in which entries share timestamps
    (internal/audit/verify.go).  A window is put into chain order, and the next one is
    read from after the row its last entry has in (timestamp, id) order. */
module AuditTies {
  import opened Wrappers
  import opened Text
  import opened AuditChain
  import opened AuditOrder
  import opened AuditWindow

  /** The rows of the log can be arranged, moving them only within an instant, into a chain
      that VerifyChain accepts. */
  ghost predicate Arranges(mac: Mac, key: string, log: seq<Entry>, chain: seq<Entry>) {
    TiePermutation(chain, log) && Intact(mac, key, chain, "")
  }

  /** How many rows `w` full windows hold. */
  function Boundary(limits: seq<int>, w: nat): nat
    requires w <= |limits|
  {
    if w == 0 then 0 else Boundary(limits, w - 1) + EffectiveLimit(limits[w - 1])
  }

  /** The first `k` rows are the first `k` entries of the chain, and the last of them is the
      same in both. */
  ghost predicate CleanCut(log: seq<Entry>, chain: seq<Entry>, k: nat) {
    && k <= |log| == |chain| && multiset(log[..k]) == multiset(chain[..k])
    && (k > 0 ==> chain[k - 1] == log[k - 1])
  }

  /** No window ends inside an instant in any other way. */
  ghost predicate CleanCuts(log: seq<Entry>, chain: seq<Entry>, limits: seq<int>) {
    forall w :: 0 <= w <= |limits| && Boundary(limits, w) < |log| ==> CleanCut(log, chain, Boundary(limits, w))
  }

  // ----- Entries of the log -----

  ghost predicate FromLog(log: seq<Entry>, es: seq<Entry>) {
    forall e :: e in es ==> e in log
  }

  lemma SameSignatureSameEntry(log: seq<Entry>, d: Entry, e: Entry)
    requires DistinctSignatures(log, "") && d in log && e in log && d.signature == e.signature
    ensures d == e
  {
  }

  /** An intact chain of rows repeats none of them. */
  lemma {:induction false} NoRowTwice(mac: Mac, key: string, log: seq<Entry>, c: seq<Entry>, a: nat, b: nat)
    requires DistinctSignatures(log, "") && FromLog(log, c) && Intact(mac, key, c, "") && a < b < |c|
    ensures c[a] != c[b]
  {
    assert IntactAt(mac, key, c, "", a) && IntactAt(mac, key, c, "", b) && IntactAt(mac, key, c, "", b - 1);
    if a > 0 {
      NoRowTwice(mac, key, log, c, a - 1, b - 1);
      if c[a] == c[b] {
        SameSignatureSameEntry(log, c[a - 1], c[b - 1]);
      }
    }
  }

  lemma PermutationIsFromLog(log: seq<Entry>, t: seq<Entry>, es: seq<Entry>)
    requires multiset(t) == multiset(es) && FromLog(log, es)
    ensures FromLog(log, t)
  {
    forall e | e in t ensures e in log { assert e in multiset(es); }
  }

  lemma ChainIsDistinct(log: seq<Entry>, chain: seq<Entry>)
    requires DistinctSignatures(log, "") && multiset(chain) == multiset(log)
    ensures DistinctSignatures(chain, "")
  {
    forall i | 0 <= i < |chain| ensures chain[i] in log { assert chain[i] in multiset(log); }
    forall i, j | 0 <= i < j < |chain| ensures chain[i].signature != chain[j].signature {
      if chain[i].signature == chain[j].signature {
        SameSignatureSameEntry(log, chain[i], chain[j]);
        OccursTwice(chain, i, j);
        AtMostOnce(log, "", chain[i]);
      }
    }
  }

  lemma OccursTwice(es: seq<Entry>, i: nat, j: nat)
    requires i < j < |es| && es[i] == es[j]
    ensures multiset(es)[es[i]] >= 2
  {
    assert es == es[..i] + [es[i]] + es[i + 1..j] + [es[j]] + es[j + 1..];
  }

  // ----- One window -----

  /** A client that has checked `read` stands after row `k - 1`. */
  ghost predicate At(mac: Mac, key: string, log: seq<Entry>, read: seq<Entry>, k: nat) {
    && k <= |log| && TiePermutation(read, log[..k]) && Intact(mac, key, read, "")
    && (k > 0 ==> read[k - 1] == log[k - 1])
  }

  function WindowEnd(log: seq<Entry>, k: nat, limit: int): nat {
    if k + EffectiveLimit(limit) < |log| then k + EffectiveLimit(limit) else |log|
  }

  /** The rows of the window from `k`, in the order they are checked. */
  function Piece(log: seq<Entry>, k: nat, limit: int): seq<Entry>
    requires k <= |log|
  {
    Ordered(log[k..WindowEnd(log, k, limit)], Before(log, k, ""))
  }

  lemma PieceAnswer(mac: Mac, key: string, log: seq<Entry>, k: nat, limit: int)
    requires key != "" && IsLog(log) && k <= |log|
    ensures RangeAnswer(mac, log, key, ContinueFrom(CursorAt(log, k), limit)) ==
            Success(Report(mac, Piece(log, k, limit), key, Before(log, k, ""), WindowEnd(log, k, limit) < |log|))
    ensures TiePermutation(Piece(log, k, limit), log[k..WindowEnd(log, k, limit)])
  {
    WindowAnswer(mac, log, key, k, limit);
    assert Take(log[k..], EffectiveLimit(limit)) == log[k..WindowEnd(log, k, limit)];
    OrderTiesPermutes(log[k..WindowEnd(log, k, limit)], Before(log, k, ""));
  }

  /** A chain and a piece checked from its last signature are one chain. */
  lemma Append(mac: Mac, key: string, c: seq<Entry>, piece: seq<Entry>)
    requires key != "" && Intact(mac, key, c, "")
    ensures Verdict(mac, piece, key, Before(c, |c|, "")).None? <==> Intact(mac, key, c + piece, "")
  {
    var g, all := Before(c, |c|, ""), c + piece;
    VerdictMeaning(mac, piece, key, g);
    forall j | 0 <= j < |piece| ensures IntactAt(mac, key, piece, g, j) <==> IntactAt(mac, key, all, "", |c| + j) {
      assert all[|c| + j] == piece[j];
    }
    forall j | 0 <= j < |c| ensures IntactAt(mac, key, all, "", j) {
      assert IntactAt(mac, key, c, "", j);
    }
    hide IntactAt;
    if Intact(mac, key, all, "") {
      forall j | 0 <= j < |piece| ensures IntactAt(mac, key, piece, g, j) {
        assert IntactAt(mac, key, all, "", |c| + j);
      }
    }
    if Intact(mac, key, piece, g) {
      forall j | |c| <= j < |all| ensures IntactAt(mac, key, all, "", j) {
        assert IntactAt(mac, key, piece, g, j - |c|);
      }
    }
  }

  lemma TiesAppend(a: seq<Entry>, b: seq<Entry>, log: seq<Entry>, k: nat, m: nat)
    requires k <= m <= |log| && TiePermutation(a, log[..k]) && TiePermutation(b, log[k..m])
    ensures TiePermutation(a + b, log[..m])
  {
    assert log[..m] == log[..k] + log[k..m];
  }

  /** What the window from `k` answers, in terms of the chain read so far. */
  lemma WindowFrom(mac: Mac, key: string, log: seq<Entry>, read: seq<Entry>, k: nat, limit: int, a: VerifyResult)
    requires key != "" && IsLog(log) && At(mac, key, log, read, k)
    requires IsAnswer(mac, log, key, CursorAt(log, k), limit, a)
    ensures var piece, m := Piece(log, k, limit), WindowEnd(log, k, limit);
            && |read| == k && |piece| == m - k && TiePermutation(read + piece, log[..m])
            && (a.broken.None? <==> Intact(mac, key, read + piece, ""))
            && (a.broken.Some? ==> !a.complete && a.nextAfterId == "")
            && (a.broken.None? ==> a.checked == m - k && (a.complete <==> m == |log|)
                                   && a.nextAfterId == if m < |log| then piece[m - k - 1].id else "")
  {
    PieceAnswer(mac, key, log, k, limit);
    var piece, m := Piece(log, k, limit), WindowEnd(log, k, limit);
    TiesAppend(read, piece, log, k, m);
    assert |read| == k && |piece| == m - k;
    assert Before(read, |read|, "") == Before(log, k, "");
    hide Intact, TiePermutation, IsLog, Piece, RangeAnswer, Verdict;
    Append(mac, key, read, piece);
  }

  /** A window that gives a cursor, and where the client then stands. */
  lemma WindowMoves(mac: Mac, key: string, log: seq<Entry>, read: seq<Entry>, k: nat, limit: int, a: VerifyResult)
    requires key != "" && IsLog(log) && At(mac, key, log, read, k)
    requires IsAnswer(mac, log, key, CursorAt(log, k), limit, a) && a.nextAfterId != ""
    ensures var m, read' := k + EffectiveLimit(limit), read + Piece(log, k, limit);
            && m < |log| && |read'| == m && TiePermutation(read', log[..m]) && Intact(mac, key, read', "")
            && a.checked == m - k && a.nextAfterId == read'[m - 1].id
            && (read'[m - 1] == log[m - 1] ==> At(mac, key, log, read', m) && a.nextAfterId == CursorAt(log, m))
  {
    WindowFrom(mac, key, log, read, k, limit, a);
    hide Intact, TiePermutation, IsLog, IsAnswer, Piece;
  }

  /** A window that starts before rows already checked finds them again, and breaks. */
  lemma RereadBreaks(mac: Mac, key: string, log: seq<Entry>, read: seq<Entry>, m: nat, j: nat, limit: int,
        a: VerifyResult)
    requires key != "" && IsLog(log) && DistinctSignatures(log, "")
    requires 0 < m <= |log| && |read| == m && TiePermutation(read, log[..m]) && Intact(mac, key, read, "")
    requires j + 1 < m && log[j] == read[m - 1] && IsAnswer(mac, log, key, log[j].id, limit, a)
    ensures a.broken.Some? && !a.complete && a.nextAfterId == ""
  {
    assert CursorAt(log, j + 1) == log[j].id && Before(read, |read|, "") == Before(log, j + 1, "");
    hide Intact, TiePermutation, IsLog, DistinctSignatures, Piece, RangeAnswer, Verdict;
    PieceAnswer(mac, key, log, j + 1, limit);
    var piece, end := Piece(log, j + 1, limit), WindowEnd(log, j + 1, limit);
    Append(mac, key, read, piece);
    RereadRepeats(mac, key, log, read, m, j, piece, end);
  }

  lemma RereadRepeats(mac: Mac, key: string, log: seq<Entry>, read: seq<Entry>, m: nat, j: nat, piece: seq<Entry>,
        end: nat)
    requires DistinctSignatures(log, "") && j + 1 < m <= |log| && j + 1 < end <= |log|
    requires TiePermutation(read, log[..m]) && TiePermutation(piece, log[j + 1..end])
    ensures !Intact(mac, key, read + piece, "")
  {
    var e := log[j + 1];
    assert e == log[..m][j + 1] && e == log[j + 1..end][0];
    assert e in multiset(read) && e in multiset(piece);
    var a :| 0 <= a < |read| && read[a] == e;
    var b :| 0 <= b < |piece| && piece[b] == e;
    PermutationIsFromLog(log, read, log[..m]);
    PermutationIsFromLog(log, piece, log[j + 1..end]);
    assert (read + piece)[a] == e && (read + piece)[|read| + b] == e;
    if Intact(mac, key, read + piece, "") {
      NoRowTwice(mac, key, log, read + piece, a, |read| + b);
    }
  }

  // ----- Following -----

  /** What `w` windows check when each starts where the one before ended. */
  function ReadSoFar(log: seq<Entry>, limits: seq<int>, w: nat): seq<Entry>
    requires w <= |limits|
  {
    if w == 0 then []
    else if Boundary(limits, w - 1) > |log| then ReadSoFar(log, limits, w - 1)
    else ReadSoFar(log, limits, w - 1) + Piece(log, Boundary(limits, w - 1), limits[w - 1])
  }

  lemma FollowingAt(mac: Mac, log: seq<Entry>, key: string, limits: seq<int>, answers: seq<VerifyResult>, w: nat)
    requires IsFollowing(mac, log, key, limits, answers) && w < |answers|
    ensures |limits| == |answers|
    ensures IsAnswer(mac, log, key, CursorBefore(answers, w), limits[w], answers[w])
    ensures w + 1 < |answers| ==> answers[w].nextAfterId != "" && CursorBefore(answers, w + 1) == answers[w].nextAfterId
  {
    hide IsAnswer;
  }

  lemma CountsStep(limits: seq<int>, answers: seq<VerifyResult>, w: nat)
    requires w < |limits| == |answers|
    ensures Boundary(limits, w + 1) == Boundary(limits, w) + EffectiveLimit(limits[w])
    ensures SumChecked(answers, w + 1) == SumChecked(answers, w) + answers[w].checked
    ensures Boundary(limits, 0) == 0 && SumChecked(answers, 0) == 0
  {
  }

  lemma ReadStep(log: seq<Entry>, limits: seq<int>, w: nat)
    requires w < |limits| && Boundary(limits, w) <= |log|
    ensures ReadSoFar(log, limits, w + 1) == ReadSoFar(log, limits, w) + Piece(log, Boundary(limits, w), limits[w])
  {
    hide Piece;
  }

  /** Before window `w` the client stands after the rows the windows so far hold. */
  ghost predicate Stands(mac: Mac, key: string, log: seq<Entry>, limits: seq<int>, answers: seq<VerifyResult>, w: nat)
    requires w <= |limits| == |answers|
  {
    && Boundary(limits, w) <= |log| && (w > 0 ==> Boundary(limits, w) < |log|)
    && At(mac, key, log, ReadSoFar(log, limits, w), Boundary(limits, w))
    && CursorBefore(answers, w) == CursorAt(log, Boundary(limits, w))
    && SumChecked(answers, w) == Boundary(limits, w)
  }

  lemma StandsAtStart(mac: Mac, key: string, log: seq<Entry>, limits: seq<int>, answers: seq<VerifyResult>)
    requires |limits| == |answers|
    ensures Stands(mac, key, log, limits, answers, 0)
  {
    assert log[..0] == [];
  }

  /** A window that gave a cursor and was not the last moves the client to the next boundary,
      unless the window after it breaks. */
  lemma StandsNext(mac: Mac, log: seq<Entry>, key: string, limits: seq<int>, answers: seq<VerifyResult>, w: nat)
    requires key != "" && IsLog(log) && DistinctSignatures(log, "") && IsFollowing(mac, log, key, limits, answers)
    requires w + 1 < |answers| && Stands(mac, key, log, limits, answers, w)
    ensures Stands(mac, key, log, limits, answers, w + 1)
         || (w + 2 == |answers| && answers[w + 1].broken.Some? && !answers[w + 1].complete)
  {
    hide At, IsLog, DistinctSignatures, TiePermutation, Intact, IsAnswer, IsFollowing, Boundary, ReadSoFar, Piece,
        SumChecked;
    FollowingAt(mac, log, key, limits, answers, w);
    FollowingAt(mac, log, key, limits, answers, w + 1);
    CountsStep(limits, answers, w);
    ReadStep(log, limits, w);
    var k, limit, a, read := Boundary(limits, w), limits[w], answers[w], ReadSoFar(log, limits, w);
    var m, read' := Boundary(limits, w + 1), ReadSoFar(log, limits, w + 1);
    WindowMoves(mac, key, log, read, k, limit, a);
    if read'[m - 1] != log[m - 1] {
      var j := RowOf(log, read', m);
      RereadBreaks(mac, key, log, read', m, j, limits[w + 1], answers[w + 1]);
    }
  }

  lemma RowOf(log: seq<Entry>, read: seq<Entry>, m: nat) returns (j: nat)
    requires 0 < m <= |log| && |read| == m && TiePermutation(read, log[..m]) && read[m - 1] != log[m - 1]
    ensures j + 1 < m && log[j] == read[m - 1]
  {
    assert read[m - 1] in multiset(log[..m]);
    j :| 0 <= j < m && log[..m][j] == read[m - 1];
  }

  lemma {:induction false} StandsAt(mac: Mac, log: seq<Entry>, key: string, limits: seq<int>,
        answers: seq<VerifyResult>, w: nat)
    requires key != "" && IsLog(log) && DistinctSignatures(log, "") && IsFollowing(mac, log, key, limits, answers)
    requires w < |answers| && answers[|answers| - 1].complete
    ensures Stands(mac, key, log, limits, answers, w)
  {
    hide Stands, IsLog, DistinctSignatures, IsFollowing;
    if w == 0 {
      assert |limits| == |answers| by { FollowingLengths(mac, log, key, limits, answers); }
      StandsAtStart(mac, key, log, limits, answers);
    } else {
      StandsAt(mac, log, key, limits, answers, w - 1);
      StandsNext(mac, log, key, limits, answers, w - 1);
    }
  }

  lemma FollowingLengths(mac: Mac, log: seq<Entry>, key: string, limits: seq<int>, answers: seq<VerifyResult>)
    requires IsFollowing(mac, log, key, limits, answers)
    ensures |limits| == |answers|
  {
  }

  lemma {:induction false} ReadsNest(log: seq<Entry>, limits: seq<int>, w: nat, v: nat)
    requires w <= v <= |limits|
    ensures ReadSoFar(log, limits, w) <= ReadSoFar(log, limits, v) && Boundary(limits, w) <= Boundary(limits, v)
    decreases v
  {
    if w < v { ReadsNest(log, limits, w, v - 1); }
  }

  /** A following that ends complete has read an arrangement of the log, cut cleanly. */
  lemma CompleteIsArranged(mac: Mac, log: seq<Entry>, key: string, limits: seq<int>, answers: seq<VerifyResult>)
    requires key != "" && IsLog(log) && DistinctSignatures(log, "") && IsFollowing(mac, log, key, limits, answers)
    requires answers != [] && answers[|answers| - 1].complete && answers[|answers| - 1].broken.None?
    ensures var chain := ReadSoFar(log, limits, |limits|);
            Arranges(mac, key, log, chain) && CleanCuts(log, chain, limits) && SumChecked(answers, |answers|) == |log|
  {
    hide At, Arranges, CleanCut, IsLog, DistinctSignatures, TiePermutation, Intact, IsAnswer, IsFollowing, Boundary,
        ReadSoFar, Piece, SumChecked;
    FollowingLengths(mac, log, key, limits, answers);
    var v, chain := |answers| - 1, ReadSoFar(log, limits, |limits|);
    StandsAt(mac, log, key, limits, answers, v);
    LastWindowArranges(mac, log, key, limits, answers);
    forall w: nat | w <= |limits| && Boundary(limits, w) < |log| ensures CleanCut(log, chain, Boundary(limits, w)) {
      StandsAt(mac, log, key, limits, answers, w);
      ReadsNest(log, limits, w, |limits|);
      CutOfPrefix(mac, key, log, ReadSoFar(log, limits, w), chain, Boundary(limits, w));
    }
  }

  lemma LastWindowArranges(mac: Mac, log: seq<Entry>, key: string, limits: seq<int>, answers: seq<VerifyResult>)
    requires key != "" && IsLog(log) && IsFollowing(mac, log, key, limits, answers)
    requires answers != [] && answers[|answers| - 1].complete && answers[|answers| - 1].broken.None?
    requires Stands(mac, key, log, limits, answers, |answers| - 1)
    ensures Arranges(mac, key, log, ReadSoFar(log, limits, |limits|)) && |ReadSoFar(log, limits, |limits|)| == |log|
    ensures Boundary(limits, |limits|) >= |log| && SumChecked(answers, |answers|) == |log|
  {
    hide IsLog, DistinctSignatures, TiePermutation, Intact, IsAnswer, IsFollowing, Boundary, ReadSoFar, Piece,
        SumChecked;
    var v := |answers| - 1;
    FollowingAt(mac, log, key, limits, answers, v);
    CountsStep(limits, answers, v);
    ReadStep(log, limits, v);
    WindowFrom(mac, key, log, ReadSoFar(log, limits, v), Boundary(limits, v), limits[v], answers[v]);
    assert log[..|log|] == log;
  }

  lemma CutOfPrefix(mac: Mac, key: string, log: seq<Entry>, read: seq<Entry>, chain: seq<Entry>, k: nat)
    requires At(mac, key, log, read, k) && read <= chain && |chain| == |log|
    ensures CleanCut(log, chain, k)
  {
    hide Intact;
    assert chain[..k] == read;
  }

  lemma StretchTies(log: seq<Entry>, chain: seq<Entry>, k: nat, m: nat)
    requires TiePermutation(chain, log) && k <= m <= |log|
    requires multiset(log[..k]) == multiset(chain[..k]) && multiset(log[..m]) == multiset(chain[..m])
    ensures TiePermutation(log[k..m], chain[k..m])
  {
    StretchTimes(log, chain, k, m);
    hide TiePermutation;
    StretchMultiset(log, k, m);
    StretchMultiset(chain, k, m);
    TiesFrom(log[k..m], chain[k..m]);
  }

  lemma StretchTimes(log: seq<Entry>, chain: seq<Entry>, k: nat, m: nat)
    requires TiePermutation(chain, log) && k <= m <= |log|
    ensures forall i :: 0 <= i < m - k ==> log[k..m][i].timestamp == chain[k..m][i].timestamp
  {
    forall i | 0 <= i < m - k ensures log[k..m][i].timestamp == chain[k..m][i].timestamp {
      assert log[k..m][i] == log[k + i] && chain[k..m][i] == chain[k + i];
    }
  }

  lemma TiesFrom(es: seq<Entry>, cs: seq<Entry>)
    requires |es| == |cs| && multiset(es) == multiset(cs)
    requires forall i :: 0 <= i < |es| ==> es[i].timestamp == cs[i].timestamp
    ensures TiePermutation(es, cs)
  {
  }

  lemma StretchMultiset(es: seq<Entry>, k: nat, m: nat)
    requires k <= m <= |es|
    ensures multiset(es[k..m]) == multiset(es[..m]) - multiset(es[..k])
  {
    assert es[..m] == es[..k] + es[k..m];
  }

  lemma StretchSorted(log: seq<Entry>, k: nat, m: nat)
    requires IsLog(log) && k <= m <= |log|
    ensures TimeSorted(log[k..m])
  {
    forall i, j | 0 <= i < j < m - k ensures log[k..m][i].timestamp <= log[k..m][j].timestamp {
      assert RowBefore(log[k + i], log[k + j]);
    }
  }

  lemma StretchLinked(mac: Mac, key: string, chain: seq<Entry>, k: nat, m: nat)
    requires DistinctSignatures(chain, "") && Intact(mac, key, chain, "") && k <= m <= |chain|
    ensures Linked(chain[k..m], Before(chain, k, "")) && DistinctSignatures(chain[k..m], Before(chain, k, ""))
  {
    forall i | 0 <= i < m - k
      ensures LinkedAt(chain[k..m], Before(chain, k, ""), i) && chain[k..m][i].signature != Before(chain, k, "")
    {
      assert IntactAt(mac, key, chain, "", k + i);
    }
  }

  /** Over an arrangement cut cleanly, every window reads the next entries of the chain. */
  lemma PieceOfChain(mac: Mac, log: seq<Entry>, key: string, chain: seq<Entry>, k: nat, m: nat)
    requires IsLog(log) && DistinctSignatures(log, "") && Arranges(mac, key, log, chain) && k <= m <= |log|
    requires CleanCut(log, chain, k) && multiset(log[..m]) == multiset(chain[..m])
    ensures Ordered(log[k..m], Before(log, k, "")) == chain[k..m]
  {
    assert Before(chain, k, "") == Before(log, k, "") && multiset(chain) == multiset(log);
    hide IsLog, DistinctSignatures, TiePermutation, Intact, Linked, TimeSorted, Ordered;
    ChainIsDistinct(log, chain);
    StretchTies(log, chain, k, m);
    StretchSorted(log, k, m);
    StretchLinked(mac, key, chain, k, m);
    OrderTiesFindsTheChain(log[k..m], chain[k..m], Before(chain, k, ""));
  }

  /** One window over the chain, from a clean cut to the end or to another. */
  lemma ChainWindow(mac: Mac, log: seq<Entry>, key: string, chain: seq<Entry>, k: nat, limit: int, a: VerifyResult)
    requires key != "" && IsLog(log) && DistinctSignatures(log, "") && Arranges(mac, key, log, chain)
    requires k <= |log| && IsAnswer(mac, log, key, CursorAt(log, k), limit, a)
    requires CleanCut(log, chain, k)
            && (k + EffectiveLimit(limit) < |log| ==> CleanCut(log, chain, k + EffectiveLimit(limit)))
    ensures a.broken.None? && a.checked == WindowEnd(log, k, limit) - k
    ensures if k + EffectiveLimit(limit) < |log| then a.nextAfterId == CursorAt(log, k + EffectiveLimit(limit)) != ""
            else a.complete && a.nextAfterId == ""
  {
    hide IsLog, DistinctSignatures, TiePermutation, Intact, RangeAnswer, Verdict, Ordered;
    var m := WindowEnd(log, k, limit);
    CutFacts(log, chain, k, m);
    RowsHaveIds(log);
    PieceOfChain(mac, log, key, chain, k, m);
    PieceAnswer(mac, key, log, k, limit);
    StretchVerifies(mac, key, chain, k, m);
  }

  lemma CutFacts(log: seq<Entry>, chain: seq<Entry>, k: nat, m: nat)
    requires TiePermutation(chain, log) && CleanCut(log, chain, k) && k <= m <= |log|
            && (m < |log| ==> CleanCut(log, chain, m))
    ensures |chain| == |log| && Before(chain, k, "") == Before(log, k, "") && multiset(log[..m]) == multiset(chain[..m])
    ensures k < m < |log| ==> chain[k..m][m - k - 1] == log[m - 1]
  {
    assert log[..|log|] == log && chain[..|log|] == chain;
  }

  lemma RowsHaveIds(log: seq<Entry>)
    requires IsLog(log)
    ensures forall i :: 0 <= i < |log| ==> log[i].id != ""
  {
  }

  lemma StretchVerifies(mac: Mac, key: string, chain: seq<Entry>, k: nat, m: nat)
    requires key != "" && Intact(mac, key, chain, "") && k <= m <= |chain|
    ensures Verdict(mac, chain[k..m], key, Before(chain, k, "")).None?
  {
    forall j | 0 <= j < m - k ensures IntactAt(mac, key, chain[k..m], Before(chain, k, ""), j) {
      assert IntactAt(mac, key, chain, "", k + j);
      StretchIntact(mac, chain, key, k, m, j);
    }
    VerdictMeaning(mac, chain[k..m], key, Before(chain, k, ""));
  }

  /** Before window `w` of a following over the chain, the client stands at a clean cut. */
  ghost predicate OnChain(log: seq<Entry>, limits: seq<int>, answers: seq<VerifyResult>, w: nat)
    requires w <= |limits| == |answers|
  {
    && Boundary(limits, w) <= |log| && (w > 0 ==> Boundary(limits, w) < |log|)
    && CursorBefore(answers, w) == CursorAt(log, Boundary(limits, w)) && SumChecked(answers, w) == Boundary(limits, w)
  }

  lemma CutAt(log: seq<Entry>, chain: seq<Entry>, limits: seq<int>, w: nat)
    requires CleanCuts(log, chain, limits) && w <= |limits| && (w == 0 || Boundary(limits, w) < |log|)
            && |chain| == |log|
    ensures CleanCut(log, chain, Boundary(limits, w))
  {
    if w == 0 { NoCut(log, chain); }
  }

  /** The answer of a window over the chain, and where it leaves the client. */
  lemma OnChainNext(mac: Mac, log: seq<Entry>, key: string, limits: seq<int>, answers: seq<VerifyResult>,
        chain: seq<Entry>, w: nat)
    requires key != "" && IsLog(log) && DistinctSignatures(log, "") && IsFollowing(mac, log, key, limits, answers)
    requires Arranges(mac, key, log, chain) && CleanCuts(log, chain, limits)
    requires w < |limits| == |answers| && OnChain(log, limits, answers, w)
    ensures answers[w].broken.None? && (answers[w].nextAfterId == "" ==> answers[w].complete)
    ensures w + 1 < |answers| ==> OnChain(log, limits, answers, w + 1)
  {
    hide Arranges, CleanCut, CleanCuts, IsLog, DistinctSignatures, TiePermutation, Intact, IsAnswer, IsFollowing,
        Boundary, ReadSoFar, Piece, SumChecked;
    SameLength(mac, key, log, chain);
    FollowingAt(mac, log, key, limits, answers, w);
    CountsStep(limits, answers, w);
    CutAt(log, chain, limits, w);
    if Boundary(limits, w + 1) < |log| {
      CutAt(log, chain, limits, w + 1);
    }
    ChainWindow(mac, log, key, chain, Boundary(limits, w), limits[w], answers[w]);
  }

  lemma {:induction false} FollowsChain(mac: Mac, log: seq<Entry>, key: string, limits: seq<int>,
        answers: seq<VerifyResult>,
                                        chain: seq<Entry>, w: nat)
    requires key != "" && IsLog(log) && DistinctSignatures(log, "") && IsFollowing(mac, log, key, limits, answers)
    requires Arranges(mac, key, log, chain) && CleanCuts(log, chain, limits) && w < |answers|
    ensures |limits| == |answers| && OnChain(log, limits, answers, w)
    ensures answers[w].broken.None? && (answers[w].nextAfterId == "" ==> answers[w].complete)
  {
    hide Arranges, CleanCut, CleanCuts, IsLog, DistinctSignatures, TiePermutation, Intact, IsAnswer, IsFollowing,
        Boundary, ReadSoFar, Piece, SumChecked;
    FollowingAt(mac, log, key, limits, answers, w);
    if w == 0 {
      CountsStep(limits, answers, 0);
    } else {
      FollowsChain(mac, log, key, limits, answers, chain, w - 1);
      OnChainNext(mac, log, key, limits, answers, chain, w - 1);
    }
    OnChainNext(mac, log, key, limits, answers, chain, w);
  }

  lemma SameLength(mac: Mac, key: string, log: seq<Entry>, chain: seq<Entry>)
    requires Arranges(mac, key, log, chain)
    ensures |chain| == |log|
  {
  }

  lemma NoCut(log: seq<Entry>, chain: seq<Entry>)
    requires |log| == |chain|
    ensures CleanCut(log, chain, 0)
  {
    assert log[..0] == chain[..0];
  }

  /** Following the cursor over any log.  It ends complete, with no break, exactly when the rows
      can be arranged into a chain, moving them only within an instant, such that every window
      that does not reach the end of the log holds the chain's next entries and ends with the
      row its own last entry is. */
  lemma WindowsComposeWithTies(mac: Mac, log: seq<Entry>, key: string, limits: seq<int>, answers: seq<VerifyResult>)
    requires key != "" && IsLog(log) && DistinctSignatures(log, "") && IsFollowing(mac, log, key, limits, answers)
    requires answers != [] && answers[|answers| - 1].nextAfterId == ""
    ensures answers[|answers| - 1].complete && answers[|answers| - 1].broken.None?
       <==> exists chain :: Arranges(mac, key, log, chain) && CleanCuts(log, chain, limits)
    ensures answers[|answers| - 1].complete ==> SumChecked(answers, |answers|) == |log|
  {
    hide Arranges, CleanCuts, IsLog, DistinctSignatures, TiePermutation, Intact, IsAnswer, IsFollowing, Boundary,
        ReadSoFar, Piece, SumChecked;
    var last := answers[|answers| - 1];
    if last.complete && last.broken.None? {
      CompleteIsArranged(mac, log, key, limits, answers);
    }
    if chain :| Arranges(mac, key, log, chain) && CleanCuts(log, chain, limits) {
      FollowsChain(mac, log, key, limits, answers, chain, |answers| - 1);
    }
    CompleteIsUnbroken(mac, log, key, limits, answers);
  }

  lemma CompleteIsUnbroken(mac: Mac, log: seq<Entry>, key: string, limits: seq<int>, answers: seq<VerifyResult>)
    requires IsFollowing(mac, log, key, limits, answers) && answers != []
    ensures answers[|answers| - 1].complete ==> answers[|answers| - 1].broken.None?
  {
    var w := |answers| - 1;
    assert IsAnswer(mac, log, key, CursorBefore(answers, w), limits[w], answers[w]);
    hide Window, Ordered, Verdict;
  }

  // ----- Starting at a time -----

  /** The first `k` rows are the ones stamped before `from`. */
  ghost predicate SplitsAt(log: seq<Entry>, from: int, k: nat) {
    && k <= |log| && (forall i :: 0 <= i < k ==> log[i].timestamp < from)
    && (forall i :: k <= i < |log| ==> from <= log[i].timestamp)
  }

  function FromTime(from: int, limit: int): Request {
    Request(Some(from), None, "", limit)
  }

  lemma {:induction false} SignatureBeforeIs(log: seq<Entry>, from: int, k: nat)
    requires SplitsAt(log, from, k)
    ensures SignatureBefore(log, Some(from)) == Before(log, k, "")
    decreases |log|
  {
    if k < |log| {
      SignatureBeforeIs(log[..|log| - 1], from, k);
    }
  }

  /** Starting at a time is continuing after the last row before it. */
  lemma FromTimeIsFromRow(mac: Mac, log: seq<Entry>, key: string, from: int, k: nat, limit: int)
    requires IsLog(log) && SplitsAt(log, from, k)
    ensures RangeAnswer(mac, log, key, FromTime(from, limit))
            == RangeAnswer(mac, log, key, ContinueFrom(CursorAt(log, k), limit))
  {
    var n := EffectiveLimit(limit) + 1;
    SignatureBeforeIs(log, from, k);
    FromTimeSelects(log, from, k, limit);
    WindowAfter(log, k, limit, n);
    hide SignatureBefore, Select, IsLog, Report, Ordered;
    assert Window(log, FromTime(from, limit), n) == Window(log, ContinueFrom(CursorAt(log, k), limit), n);
    hide Window;
  }

  lemma FromTimeSelects(log: seq<Entry>, from: int, k: nat, limit: int)
    requires SplitsAt(log, from, k)
    ensures Select(log, FromTime(from, limit), None) == log[k..]
  {
    var req := FromTime(from, limit);
    forall i | 0 <= i < |log[k..]| ensures Wanted(req, None, log[k..][i]) { assert log[k..][i] == log[k + i]; }
    SelectSuffix(log, req, None, k);
  }

  /** Between two instants the chain and the rows hold the same entries. */
  lemma InstantBoundary(log: seq<Entry>, chain: seq<Entry>, from: int, k: nat)
    requires TiePermutation(chain, log) && SplitsAt(log, from, k)
    ensures multiset(log[..k]) == multiset(chain[..k])
  {
    assert SplitsAt(chain, from, k);
    assert multiset(log) == multiset(chain);
    hide TiePermutation, SplitsAt;
    forall e: Entry ensures multiset(log[..k])[e] == multiset(chain[..k])[e] {
      EarlyCount(log, from, k, e);
      EarlyCount(chain, from, k, e);
    }
  }

  lemma EarlyCount(es: seq<Entry>, from: int, k: nat, e: Entry)
    requires SplitsAt(es, from, k)
    ensures multiset(es[..k])[e] == if e.timestamp < from then multiset(es)[e] else 0
  {
    assert es == es[..k] + es[k..];
    if e.timestamp < from {
      assert e !in es[k..];
    } else {
      assert e !in es[..k];
    }
  }

  /** Where no entry follows `g`, orderTies leaves the first one where it is, and it is reported. */
  lemma NothingFollows(mac: Mac, key: string, es: seq<Entry>, g: string)
    requires key != "" && es != [] && es[0].signature != "" && forall i :: 0 <= i < |es| ==> es[i].previousHash != g
    ensures Verdict(mac, Ordered(es, g), key, g) == Some(ChainError(0, es[0].id, WrongPredecessor))
  {
    OrderFromPermutes(es, es[0].signature, 1);
    assert OrderFrom(es, es[0].signature, 1)[..1][0] == es[..1][0];
    var r := Ordered(es, g);
    assert r[0] == es[0] && |r| == |es|;
    hide Ordered;
    FirstFaultIsReported(mac, r, key, g, 0, 0);
  }

  /** With another row last before `from` than the chain's entry, nothing from there on follows it. */
  lemma NothingFollowsOther(mac: Mac, key: string, log: seq<Entry>, chain: seq<Entry>, from: int, k: nat, j: nat)
    requires DistinctSignatures(log, "") && Arranges(mac, key, log, chain) && SplitsAt(log, from, k)
    requires 0 < k <= j < |log| && chain[k - 1] != log[k - 1]
    ensures log[j].previousHash != log[k - 1].signature && log[j].signature != ""
  {
    assert log[j] in multiset(chain);
    var t :| 0 <= t < |chain| && chain[t] == log[j];
    assert chain[t].timestamp == log[t].timestamp && t >= k;
    assert IntactAt(mac, key, chain, "", t);
    assert chain[t - 1].timestamp == log[t - 1].timestamp && chain[t - 1] in multiset(log);
    assert chain[t - 1] != log[k - 1];
    DifferentEntriesDiffer(log, chain[t - 1], log[k - 1]);
  }

  lemma DifferentEntriesDiffer(log: seq<Entry>, d: Entry, e: Entry)
    requires DistinctSignatures(log, "") && d in log && e in log && d != e
    ensures d.signature != e.signature
  {
  }

  /** An intact log read from a time on.  A window that ends between instants, or with the log,
      is unbroken if and only if the row before it in (timestamp, id) order is also the chain's
      entry before it; otherwise the window's first row is reported. */
  lemma FromTimeVerifiesExactlyWhen(mac: Mac, log: seq<Entry>, key: string, chain: seq<Entry>, from: int, k: nat,
        limit: int,
                                    a: VerifyResult)
    requires key != "" && IsLog(log) && DistinctSignatures(log, "") && Arranges(mac, key, log, chain)
    requires SplitsAt(log, from, k) && k < |log| && RangeAnswer(mac, log, key, FromTime(from, limit)) == Success(a)
    requires |chain| == |log|
    requires multiset(log[..WindowEnd(log, k, limit)]) == multiset(chain[..WindowEnd(log, k, limit)])
    ensures a.broken.None? <==> k == 0 || chain[k - 1] == log[k - 1]
    ensures a.broken.Some? ==> a.checked == 0 && a.broken == Some(ChainError(0, log[k].id, WrongPredecessor))
  {
    hide RangeAnswer, IsLog, Verdict, Ordered, TiePermutation, Intact, DistinctSignatures, SplitsAt;
    assert k <= |log| by { SplitIsWithin(log, from, k); }
    FromTimeIsFromRow(mac, log, key, from, k, limit);
    PieceAnswer(mac, key, log, k, limit);
    if k == 0 || chain[k - 1] == log[k - 1] {
      CleanFromTime(mac, log, key, chain, from, k, WindowEnd(log, k, limit));
    } else {
      OtherFromTime(mac, log, key, chain, from, k, WindowEnd(log, k, limit));
    }
  }

  lemma SplitIsWithin(log: seq<Entry>, from: int, k: nat)
    requires SplitsAt(log, from, k)
    ensures k <= |log|
  {
  }

  lemma CleanFromTime(mac: Mac, log: seq<Entry>, key: string, chain: seq<Entry>, from: int, k: nat, m: nat)
    requires key != "" && IsLog(log) && DistinctSignatures(log, "") && Arranges(mac, key, log, chain)
    requires SplitsAt(log, from, k) && k <= m <= |log| == |chain| && (k == 0 || chain[k - 1] == log[k - 1])
    requires multiset(log[..m]) == multiset(chain[..m])
    ensures Verdict(mac, Ordered(log[k..m], Before(log, k, "")), key, Before(log, k, "")).None?
  {
    hide IsLog, Verdict, Ordered, TiePermutation, Intact, DistinctSignatures, SplitsAt;
    InstantBoundary(log, chain, from, k);
    PieceOfChain(mac, log, key, chain, k, m);
    StretchVerifies(mac, key, chain, k, m);
  }

  lemma OtherFromTime(mac: Mac, log: seq<Entry>, key: string, chain: seq<Entry>, from: int, k: nat, m: nat)
    requires key != "" && DistinctSignatures(log, "") && Arranges(mac, key, log, chain)
    requires SplitsAt(log, from, k) && 0 < k < m <= |log| == |chain| && chain[k - 1] != log[k - 1]
    ensures Verdict(mac, Ordered(log[k..m], Before(log, k, "")), key, Before(log, k, ""))
         == Some(ChainError(0, log[k].id, WrongPredecessor))
  {
    hide Verdict, Ordered, Arranges, DistinctSignatures, SplitsAt;
    var es := log[k..m];
    forall i | 0 <= i < |es| ensures es[i].previousHash != Before(log, k, "") && es[i].signature != "" {
      NothingFollowsOther(mac, key, log, chain, from, k, k + i);
    }
    NothingFollows(mac, key, es, Before(log, k, ""));
  }

  // ----- An intact log that does not verify in windows of two -----

  /** An entry signed with `key` on top of `prev`. */
  function Stamped(mac: Mac, key: string, id: string, timestamp: int, prev: string): Entry {
    var e := Entry(id, "", "", "", "", timestamp, "", "", prev);
    e.(signature := SignEntry(mac, e, key))
  }

  lemma StampedIsSigned(mac: Mac, key: string, id: string, timestamp: int, prev: string)
    ensures var e := Stamped(mac, key, id, timestamp, prev);
            Fault(mac, key, e, prev) == None && e.id == id && e.timestamp == timestamp && e.previousHash == prev
  {
    var e := Entry(id, "", "", "", "", timestamp, "", "", prev);
    assert SignedFields(e) == SignedFields(Stamped(mac, key, id, timestamp, prev));
    hide Joined;
  }

  /** Entry b, then a in the same instant, then c: the chain is b, a, c and the rows read a, b, c. */
  ghost predicate Tied(mac: Mac, key: string, b: Entry, a: Entry, c: Entry) {
    && b.id == "b" && a.id == "a" && c.id == "c" && b.timestamp == a.timestamp < c.timestamp
    && Fault(mac, key, b, "") == None && Fault(mac, key, a, b.signature) == None
        && Fault(mac, key, c, a.signature) == None
    && a.signature != b.signature && b.signature != c.signature && a.signature != c.signature
  }

  lemma TiedEntries(mac: Mac, key: string) returns (b: Entry, a: Entry, c: Entry)
    requires CollisionFree(mac, key)
    ensures Tied(mac, key, b, a, c)
  {
    b := Stamped(mac, key, "b", 0, "");
    a := Stamped(mac, key, "a", 0, b.signature);
    c := Stamped(mac, key, "c", 1, a.signature);
    StampedIsSigned(mac, key, "b", 0, "");
    StampedIsSigned(mac, key, "a", 0, b.signature);
    StampedIsSigned(mac, key, "c", 1, a.signature);
    hide Stamped;
    DistinctIdsSignDistinctly(mac, key, a, b);
    DistinctIdsSignDistinctly(mac, key, b, c);
    DistinctIdsSignDistinctly(mac, key, a, c);
    hide SignEntry, CollisionFree;
  }

  lemma TiedRowsAreALog(mac: Mac, key: string, b: Entry, a: Entry, c: Entry)
    requires Tied(mac, key, b, a, c)
    ensures IsLog([a, b, c]) && DistinctSignatures([a, b, c], "")
  {
    assert LexLess("a", "b");
    hide SignEntry, LexLess;
  }

  lemma TiedRowsAreArranged(mac: Mac, key: string, b: Entry, a: Entry, c: Entry)
    requires Tied(mac, key, b, a, c)
    ensures Arranges(mac, key, [a, b, c], [b, a, c])
    ensures multiset([a, b]) == multiset([b, a])
  {
    assert IntactAt(mac, key, [b, a, c], "", 0) && IntactAt(mac, key, [b, a, c], "", 1)
        && IntactAt(mac, key, [b, a, c], "", 2);
    hide IntactAt, Fault;
    TiedMultisets(b, a, c);
  }

  lemma TiedMultisets(b: Entry, a: Entry, c: Entry)
    ensures multiset([a, b]) == multiset([b, a]) && multiset([a, b, c]) == multiset([b, a, c])
  {
    assert multiset([a, b]) == multiset{a, b} && multiset([b, a]) == multiset{b, a};
    assert [a, b, c] == [a, b] + [c] && [b, a, c] == [b, a] + [c];
  }

  /** The first window of two reads b and a, and gives a as the cursor. */
  lemma TiedFirstWindow(mac: Mac, key: string, b: Entry, a: Entry, c: Entry)
    requires key != "" && Tied(mac, key, b, a, c)
    ensures RangeAnswer(mac, [a, b, c], key, ContinueFrom("", 2)) == Success(VerifyResult(2, None, "a", false))
  {
    var log, chain := [a, b, c], [b, a, c];
    TiedRowsAreALog(mac, key, b, a, c);
    TiedRowsAreArranged(mac, key, b, a, c);
    assert log[..2] == [a, b] && chain[..2] == [b, a] && chain[0..2] == [b, a] && log[..0] == [] && chain[..0] == [];
    assert a.id == "a" && EffectiveLimit(2) == 2;
    hide Tied, IsLog, DistinctSignatures, RangeAnswer, Verdict, Ordered, Arranges;
    PieceOfChain(mac, log, key, chain, 0, 2);
    PieceAnswer(mac, key, log, 0, 2);
    ArrangedIsIntact(mac, key, log, chain);
    StretchVerifies(mac, key, chain, 0, 2);
  }

  lemma ArrangedIsIntact(mac: Mac, key: string, log: seq<Entry>, chain: seq<Entry>)
    requires Arranges(mac, key, log, chain)
    ensures Intact(mac, key, chain, "")
  {
  }

  /** The second one starts after the row of a, reads b again, and reports a break. */
  lemma TiedSecondWindow(mac: Mac, key: string, b: Entry, a: Entry, c: Entry) returns (r: VerifyResult)
    requires key != "" && Tied(mac, key, b, a, c)
    ensures IsAnswer(mac, [a, b, c], key, "a", 2, r) && r.broken.Some? && !r.complete && r.nextAfterId == ""
  {
    var log, read := [a, b, c], [b, a];
    TiedRowsAreALog(mac, key, b, a, c);
    TiedRead(mac, key, b, a, c);
    hide Tied, IsLog, DistinctSignatures, TiePermutation, Intact, RangeAnswer, Report, Ordered;
    PieceAnswer(mac, key, log, 1, 2);
    r := RangeAnswer(mac, log, key, ContinueFrom("a", 2)).value;
    RereadBreaks(mac, key, log, read, 2, 0, 2, r);
  }

  lemma TiedRead(mac: Mac, key: string, b: Entry, a: Entry, c: Entry)
    requires Tied(mac, key, b, a, c)
    ensures Intact(mac, key, [b, a], "") && TiePermutation([b, a], [a, b, c][..2]) && CursorAt([a, b, c], 1) == "a"
  {
    assert IntactAt(mac, key, [b, a], "", 0) && IntactAt(mac, key, [b, a], "", 1);
    hide IntactAt, Fault;
    TiedMultisets(b, a, c);
    assert [a, b, c][..2] == [a, b];
  }

  /** Nor in one window from c's time: the row before c is b, and c follows a. */
  lemma TiedFromTime(mac: Mac, key: string, b: Entry, a: Entry, c: Entry)
    requires key != "" && Tied(mac, key, b, a, c)
    ensures RangeAnswer(mac, [a, b, c], key, FromTime(c.timestamp, 0))
         == Success(VerifyResult(0, Some(ChainError(0, "c", WrongPredecessor)), "", false))
  {
    var log, chain := [a, b, c], [b, a, c];
    TiedRowsAreALog(mac, key, b, a, c);
    TiedRowsAreArranged(mac, key, b, a, c);
    assert SplitsAt(log, c.timestamp, 2) && a != b && c.id == "c";
    hide Tied, IsLog, DistinctSignatures, Arranges, RangeAnswer, Ordered, Verdict, SplitsAt;
    FromTimeIsFromRow(mac, log, key, c.timestamp, 2, 0);
    PieceAnswer(mac, key, log, 2, 0);
    OtherFromTime(mac, log, key, chain, c.timestamp, 2, 3);
  }

  /** So a log whose every entry is intact is reported broken, in windows of two. */
  lemma TieCutBreaksAnIntactLog(mac: Mac, key: string)
        returns (log: seq<Entry>, chain: seq<Entry>, answers: seq<VerifyResult>)
    requires key != "" && CollisionFree(mac, key)
    ensures IsLog(log) && DistinctSignatures(log, "") && Arranges(mac, key, log, chain)
    ensures IsFollowing(mac, log, key, [2, 2], answers) && |answers| == 2
    ensures answers[1].broken.Some? && !answers[1].complete && answers[1].nextAfterId == ""
  {
    var b, a, c := TiedEntries(mac, key);
    log, chain := [a, b, c], [b, a, c];
    hide Tied, CollisionFree, IsLog, DistinctSignatures, RangeAnswer, Arranges;
    TiedRowsAreALog(mac, key, b, a, c);
    TiedRowsAreArranged(mac, key, b, a, c);
    TiedFirstWindow(mac, key, b, a, c);
    var r0 := VerifyResult(2, None, "a", false);
    var r1 := TiedSecondWindow(mac, key, b, a, c);
    answers := [r0, r1];
    FollowingOfTwo(mac, log, key, r0, r1);
  }

  lemma FollowingOfTwo(mac: Mac, log: seq<Entry>, key: string, r0: VerifyResult, r1: VerifyResult)
    requires IsAnswer(mac, log, key, "", 2, r0) && r0.nextAfterId != ""
            && IsAnswer(mac, log, key, r0.nextAfterId, 2, r1)
    ensures IsFollowing(mac, log, key, [2, 2], [r0, r1])
  {
    hide IsAnswer;
  }
}
