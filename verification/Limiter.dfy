/** The adaptive limiter (internal/ai/reinforcement.go), over reals. */
module Limiter {

  const HALF_LIFE: int := 600_000_000_000
  const IDLE_STATE_TTL: int := 3_600_000_000_000
  const CUTOFF: real := 0.0001
  const ALPHA: real := 0.2

  const INTERVAL_MODERATE: nat := 10_000_000
  const INTERVAL_HIGH: nat := 50_000_000
  const INTERVAL_CRITICAL: nat := 200_000_000

  // ----- Decay -----

  function Halved(q: real, n: nat): real {
    if n == 0 then q else Halved(q, n - 1) / 2.0
  }

  function HalfLives(elapsed: int): real {
    elapsed as real / HALF_LIFE as real
  }

  /** What is left of `h` a part `frac` of the way through a half-life. */
  function Chord(h: real, frac: real): real {
    h * (1.0 - frac / 2.0)
  }

  lemma ChordBetween(h: real, frac: real)
    requires 0.0 <= h && 0.0 <= frac <= 1.0
    ensures h / 2.0 <= Chord(h, frac) <= h
    ensures frac == 0.0 ==> Chord(h, frac) == h
  {
    var x := 1.0 - frac / 2.0;
    assert 0.5 <= x <= 1.0 && (frac == 0.0 ==> x == 1.0);
    Scale(h, 0.5, x);
    Scale(h, x, 1.0);
    assert Chord(h, frac) == h * x;
  }

  lemma ChordFalls(h: real, f1: real, f2: real)
    requires 0.0 <= h && f1 <= f2
    ensures Chord(h, f2) <= Chord(h, f1)
  {
    Scale(h, 1.0 - f2 / 2.0, 1.0 - f1 / 2.0);
  }

  lemma Scale(h: real, x: real, y: real)
    requires 0.0 <= h && x <= y
    ensures h * x <= h * y
  {
  }

  /** The score left of `q` after `elapsed`: a halving for every whole half-life, the chord of
      one more for the rest, and nothing once a halving falls below the cutoff. */
  function Decayed(q: real, elapsed: int): real {
    if q <= 0.0 || elapsed <= 0 then q
    else
      var whole := HalfLives(elapsed).Floor;
      if whole > 0 && Halved(q, whole) < CUTOFF then 0.0
      else Chord(Halved(q, whole), HalfLives(elapsed) - whole as real)
  }

  lemma {:induction false} HalvedShrinks(q: real, i: nat, n: nat)
    requires 0.0 <= q && i <= n
    ensures 0.0 <= Halved(q, n) <= Halved(q, i)
    ensures i < n ==> Halved(q, n) <= Halved(q, i) / 2.0
    ensures 0.0 < q ==> 0.0 < Halved(q, n)
  {
    if i < n {
      HalvedShrinks(q, i, n - 1);
    } else if n > 0 {
      HalvedShrinks(q, i - 1, n - 1);
    }
  }

  /** decayQValue. */
  method DecayQValue(score: real, elapsed: int) returns (q: real)
    ensures q == Decayed(score, elapsed)
  {
    q := score;
    if q <= 0.0 || elapsed <= 0 {
      return;
    }
    var halfLives := elapsed as real / HALF_LIFE as real;
    var whole: nat := halfLives.Floor;
    var i := 0;
    while i < whole
      invariant i <= whole && q == Halved(score, i)
      invariant i > 0 ==> q >= CUTOFF
    {
      q := q / 2.0;
      i := i + 1;
      if q < CUTOFF {
        HalvedShrinks(score, i, whole);
        return 0.0;
      }
    }
    var frac := halfLives - whole as real;
    if frac > 0.0 {
      q := q * (1.0 - frac / 2.0);
    }
  }

  /** Decay neither raises a score nor makes it negative. */
  lemma DecayStaysBelow(q: real, elapsed: int)
    requires 0.0 <= q
    ensures 0.0 <= Decayed(q, elapsed) <= q
  {
    if q > 0.0 && elapsed > 0 {
      var whole := HalfLives(elapsed).Floor;
      HalvedShrinks(q, 0, whole);
      hide Halved, Chord;
      ChordBetween(Halved(q, whole), HalfLives(elapsed) - whole as real);
    }
  }

  lemma WholeGrows(e1: int, e2: int)
    requires 0 <= e1 <= e2
    ensures HalfLives(e1) <= HalfLives(e2)
    ensures 0 <= HalfLives(e1).Floor <= HalfLives(e2).Floor
  {
  }

  /** The longer the quiet, the lower the score. */
  lemma DecayIsMonotone(q: real, e1: int, e2: int)
    requires 0.0 <= q && e1 <= e2
    ensures Decayed(q, e2) <= Decayed(q, e1)
  {
    DecayStaysBelow(q, e1);
    DecayStaysBelow(q, e2);
    if q > 0.0 && e1 > 0 {
      WholeGrows(e1, e2);
      var w1, w2 := HalfLives(e1).Floor, HalfLives(e2).Floor;
      var f1, f2 := HalfLives(e1) - w1 as real, HalfLives(e2) - w2 as real;
      HalvedShrinks(q, w1, w2);
      HalvedShrinks(q, 0, w1);
      hide Halved, Chord;
      ChordBetween(Halved(q, w1), f1);
      ChordBetween(Halved(q, w2), f2);
      if w1 == w2 {
        ChordFalls(Halved(q, w1), f1, f2);
      }
    }
  }

  ghost predicate ProductAt(e: real -> real, x: real, y: real) {
    0.0 <= x && 0.0 <= y ==> e(x + y) == e(x) * e(y)
  }

  ghost predicate ChordAt(e: real -> real, x: real, y: real, t: real) {
    0.0 <= t <= 1.0 ==> e(t * x + (1.0 - t) * y) <= t * e(x) + (1.0 - t) * e(y)
  }

  /** What it is for a function to be x |-> 2^-x: it turns sums to products, takes one to a
      half, and is convex. */
  ghost predicate IsHalving(e: real -> real) {
    && e(0.0) == 1.0 && e(1.0) == 0.5
    && (forall x, y :: ProductAt(e, x, y))
    && (forall x, y, t :: ChordAt(e, x, y, t))
  }

  lemma {:induction false} HalvingAtWhole(e: real -> real, q: real, n: nat)
    requires IsHalving(e)
    ensures Halved(q, n) == q * e(n as real)
  {
    if n > 0 {
      HalvingAtWhole(e, q, n - 1);
      assert ProductAt(e, (n - 1) as real, 1.0);
      assert (n - 1) as real + 1.0 == n as real;
    }
  }

  lemma HalvingBelowChord(e: real -> real, t: real)
    requires IsHalving(e) && 0.0 <= t <= 1.0
    ensures e(t) <= 1.0 - t / 2.0
  {
    assert ChordAt(e, 1.0, 0.0, t);
    assert t * 1.0 + (1.0 - t) * 0.0 == t;
  }

  lemma Reassociate(h: real, q: real, a: real, b: real, c: real)
    requires h == q * a && c == a * b
    ensures h * b == q * c
  {
  }

  lemma HalvingSplits(e: real -> real, q: real, whole: nat, frac: real)
    requires IsHalving(e) && 0.0 <= frac
    ensures Halved(q, whole) * e(frac) == q * e(whole as real + frac)
  {
    HalvingAtWhole(e, q, whole);
    assert ProductAt(e, whole as real, frac);
    hide Halved, IsHalving, ProductAt;
    Reassociate(Halved(q, whole), q, e(whole as real), e(frac), e(whole as real + frac));
  }

  lemma HalvingUnderChord(e: real -> real, q: real, whole: nat, frac: real)
    requires IsHalving(e) && 0.0 <= q && 0.0 <= frac <= 1.0
    ensures q * e(whole as real + frac) <= Chord(Halved(q, whole), frac)
  {
    HalvingSplits(e, q, whole, frac);
    HalvingBelowChord(e, frac);
    HalvedShrinks(q, 0, whole);
    hide Halved, IsHalving;
    Scale(Halved(q, whole), e(frac), 1.0 - frac / 2.0);
  }

  /** The cheap form never undercuts the exponential it stands for: it is at least
      q * 2^-halfLives, or it is 0 because a halving fell below the cutoff, and it is exact at
      whole half-lives. */
  lemma DecayIsAtLeastExponential(e: real -> real, q: real, elapsed: int)
    requires IsHalving(e) && 0.0 < q && 0 <= elapsed
    ensures var whole := HalfLives(elapsed).Floor;
            if elapsed > 0 && whole > 0 && q * e(whole as real) < CUTOFF then Decayed(q, elapsed) == 0.0
            else Decayed(q, elapsed) >= q * e(HalfLives(elapsed))
                 && (HalfLives(elapsed) == whole as real ==> Decayed(q, elapsed) == q * e(HalfLives(elapsed)))
  {
    var whole: nat := HalfLives(elapsed).Floor;
    var frac := HalfLives(elapsed) - whole as real;
    assert elapsed == 0 ==> whole == 0 && frac == 0.0;
    HalvingAtWhole(e, q, whole);
    HalvedShrinks(q, 0, whole);
    HalvingUnderChord(e, q, whole, frac);
    hide Halved, IsHalving, Chord;
    ChordBetween(Halved(q, whole), frac);
    assert whole as real + frac == HalfLives(elapsed);
  }

  /** A score is forgotten exactly when its whole half-lives have brought it below a ten-thousandth. */
  lemma ForgottenExactlyWhen(q: real, elapsed: int)
    requires 0.0 < q && 0 < elapsed
    ensures 0 <= HalfLives(elapsed).Floor
    ensures Decayed(q, elapsed) == 0.0 <==>
            HalfLives(elapsed).Floor > 0 && Halved(q, HalfLives(elapsed).Floor) < 0.0001
  {
    var whole: nat := HalfLives(elapsed).Floor;
    var frac := HalfLives(elapsed) - whole as real;
    HalvedShrinks(q, 0, whole);
    hide Halved, Chord;
    ChordBetween(Halved(q, whole), frac);
  }

  /** Within a half-life it is the straight line between the exponential's two ends. */
  lemma DecayInterpolates(e: real -> real, q: real, elapsed: int)
    requires IsHalving(e) && 0.0 < q && 0 < elapsed
    ensures var whole, frac := HalfLives(elapsed).Floor, HalfLives(elapsed) - HalfLives(elapsed).Floor as real;
            Decayed(q, elapsed) == 0.0
            || Decayed(q, elapsed) == (1.0 - frac) * (q * e(whole as real)) + frac * (q * e((whole + 1) as real))
  {
    var whole: nat := HalfLives(elapsed).Floor;
    var frac := HalfLives(elapsed) - whole as real;
    HalvingAtWhole(e, q, whole);
    HalvingAtWhole(e, q, whole + 1);
    ChordIsALine(Halved(q, whole), frac);
    hide IsHalving, HalfLives, Chord;
  }

  lemma ChordIsALine(h: real, frac: real)
    ensures Chord(h, frac) == (1.0 - frac) * h + frac * (h / 2.0)
  {
  }

  // ----- Scores -----

  function Interval(q: real): nat {
    if q > 0.9 then INTERVAL_CRITICAL
    else if q > 0.7 then INTERVAL_HIGH
    else if q > 0.4 then INTERVAL_MODERATE
    else 0
  }

  /** Tighter limits take higher scores. */
  lemma IntervalIsMonotone(q: real, q': real)
    requires q <= q'
    ensures Interval(q) <= Interval(q')
    ensures Interval(q) > 0 <==> q > 0.4
    ensures Interval(q) > 10_000_000 <==> q > 0.7
    ensures Interval(q) > 50_000_000 <==> q > 0.9
    ensures Interval(q) in {0, 10_000_000, 50_000_000, 200_000_000}
  {
  }

  datatype Finding = Finding(at: int, score: real)

  ghost predicate Confident(fs: seq<Finding>) {
    forall i :: 0 <= i < |fs| ==> 0.0 <= fs[i].score <= 1.0
  }

  function Updated(q: real, elapsed: int, score: real): real {
    var d := Decayed(q, elapsed);
    d + ALPHA * (score - d)
  }

  /** The score after the findings `fs` on a state created at `created`. */
  function Score(created: int, fs: seq<Finding>): real {
    if fs == [] then 0.0
    else
      var before := fs[..|fs| - 1];
      var last := if before == [] then created else before[|before| - 1].at;
      Updated(Score(created, before), fs[|fs| - 1].at - last, fs[|fs| - 1].score)
  }

  function Power(x: real, n: nat): real {
    if n == 0 then 1.0 else x * Power(x, n - 1)
  }

  /** The score is at most what `n` findings can have brought it to. */
  predicate WithinReach(q: real, n: nat) {
    0.0 <= q <= 1.0 - Power(0.8, n)
  }

  lemma UpdateStaysWithinReach(q: real, n: nat, elapsed: int, score: real)
    requires WithinReach(q, n) && 0.0 <= score <= 1.0
    ensures WithinReach(Updated(q, elapsed, score), n + 1)
  {
    DecayStaysBelow(q, elapsed);
    assert Updated(q, elapsed, score) == 0.8 * Decayed(q, elapsed) + 0.2 * score;
  }

  /** However the findings fall in time, `n` of them bring the score to 1 - 0.8^n at most. */
  lemma {:induction false} ScoreWithinReach(created: int, fs: seq<Finding>)
    requires Confident(fs)
    ensures WithinReach(Score(created, fs), |fs|)
  {
    if fs != [] {
      var before := fs[..|fs| - 1];
      var last := if before == [] then created else before[|before| - 1].at;
      ScoreWithinReach(created, before);
      UpdateStaysWithinReach(Score(created, before), |before|, fs[|fs| - 1].at - last, fs[|fs| - 1].score);
    }
  }

  /** The fewest findings behind a limit. */
  function FindingsNeeded(interval: nat): nat {
    if interval >= INTERVAL_CRITICAL then 11
    else if interval >= INTERVAL_HIGH then 6
    else if interval > 0 then 3
    else 0
  }

  lemma {:induction false} PowerShrinks(n: nat, m: nat)
    requires n <= m
    ensures 0.0 <= Power(0.8, m) <= Power(0.8, n)
  {
    if n < m {
      PowerShrinks(n, m - 1);
    } else if n > 0 {
      PowerShrinks(n - 1, n - 1);
    }
  }

  lemma PowersOfFourFifths()
    ensures Power(0.8, 2) == 0.64 && Power(0.8, 3) == 0.512
    ensures Power(0.8, 5) == 0.32768 && Power(0.8, 6) == 0.262144
    ensures Power(0.8, 10) == 0.1073741824 && Power(0.8, 11) == 0.08589934592
  {
    assert Power(0.8, 1) == 0.8;
    assert Power(0.8, 4) == 0.4096;
    assert Power(0.8, 7) == 0.2097152;
    assert Power(0.8, 8) == 0.16777216;
    assert Power(0.8, 9) == 0.134217728;
  }

  lemma ReachNeedsFindings(q: real, n: nat)
    requires WithinReach(q, n)
    ensures FindingsNeeded(Interval(q)) <= n
  {
    PowersOfFourFifths();
    if n <= 2 {
      PowerShrinks(n, 2);
    } else if n <= 5 {
      PowerShrinks(n, 5);
    } else if n <= 10 {
      PowerShrinks(n, 10);
    }
  }

  /** No limit before the third finding, none of 50 ms before the sixth, none of 200 ms
      before the eleventh. */
  lemma LimitsNeedRepetition(created: int, fs: seq<Finding>)
    requires Confident(fs)
    ensures |fs| < 3 ==> Interval(Score(created, fs)) == 0
    ensures |fs| < 6 ==> Interval(Score(created, fs)) <= INTERVAL_MODERATE
    ensures |fs| < 11 ==> Interval(Score(created, fs)) <= INTERVAL_HIGH
  {
    ScoreWithinReach(created, fs);
    ReachNeedsFindings(Score(created, fs), |fs|);
  }

  function Burst(at: int, n: nat): seq<Finding> {
    seq(n, i => Finding(at, 1.0))
  }

  lemma {:induction false} BurstReaches(at: int, n: nat)
    ensures Score(at, Burst(at, n)) == 1.0 - Power(0.8, n)
  {
    if n > 0 {
      BurstReaches(at, n - 1);
      assert Burst(at, n)[..n - 1] == Burst(at, n - 1);
      var q := 1.0 - Power(0.8, n - 1);
      assert Updated(q, 0, 1.0) == q + 0.2 * (1.0 - q);
    }
  }

  /** And none of these numbers can be lowered: certain findings at one instant reach each
      limit at exactly that count. */
  lemma RepetitionIsExact(at: int)
    ensures Interval(Score(at, Burst(at, 3))) == INTERVAL_MODERATE
    ensures Interval(Score(at, Burst(at, 6))) == INTERVAL_HIGH
    ensures Interval(Score(at, Burst(at, 11))) == INTERVAL_CRITICAL
  {
    PowersOfFourFifths();
    BurstReaches(at, 3);
    BurstReaches(at, 6);
    BurstReaches(at, 11);
  }

  // ----- The limiter -----

  datatype IpState = IpState(q: real, lastFeedback: int, limited: bool)

  /** The state of an address key is always the score of the findings since it was created,
      and `limited` is whether that score asks for a limit. */
  ghost predicate Explains(st: IpState, created: int, fs: seq<Finding>) {
    && st.q == Score(created, fs)
    && st.lastFeedback == (if fs == [] then created else fs[|fs| - 1].at)
    && (st.limited <==> Interval(st.q) > 0)
  }

  datatype History = History(created: int, findings: seq<Finding>)

  /** Every state is explained by the findings since it was created. */
  ghost predicate AllExplained(states: map<string, IpState>, history: map<string, History>) {
    && history.Keys == states.Keys
    && forall key :: key in states ==> Explains(states[key], history[key].created, history[key].findings)
  }

  /** A limit was earned by findings on one state. */
  ghost predicate Justified(interval: nat, h: History) {
    interval > 0 && interval == Interval(Score(h.created, h.findings))
  }

  ghost predicate AllJustified(kernel: map<string, nat>, behind: map<string, History>) {
    && kernel.Keys <= behind.Keys
    && forall key :: key in kernel ==> Justified(kernel[key], behind[key])
  }

  /** So a limit in the kernel has at least so many findings behind it, when their confidence
      is from 0 to 1. */
  lemma LimitHasFindingsBehind(kernel: map<string, nat>, behind: map<string, History>, key: string)
    requires AllJustified(kernel, behind) && key in kernel && Confident(behind[key].findings)
    ensures |behind[key].findings| >= FindingsNeeded(kernel[key]) >= 3
  {
    var h := behind[key];
    ScoreWithinReach(h.created, h.findings);
    ReachNeedsFindings(Score(h.created, h.findings), |h.findings|);
  }

  lemma ExplainedWithout(states: map<string, IpState>, history: map<string, History>, key: string)
    requires AllExplained(states, history)
    ensures AllExplained(states - {key}, history - {key})
  {
    hide Explains;
  }

  lemma ExplainedWith(states: map<string, IpState>, history: map<string, History>, key: string, st: IpState, h: History)
    requires AllExplained(states, history) && Explains(st, h.created, h.findings)
    ensures AllExplained(states[key := st], history[key := h])
  {
    hide Explains;
  }

  lemma JustifiedWith(kernel: map<string, nat>, behind: map<string, History>, key: string, interval: nat, h: History)
    requires AllJustified(kernel, behind) && Justified(interval, h)
    ensures AllJustified(kernel[key := interval], behind[key := h])
  {
    hide Justified;
  }

  lemma JustifiedWithout(kernel: map<string, nat>, behind: map<string, History>, key: string)
    requires AllJustified(kernel, behind)
    ensures AllJustified(kernel - {key}, behind)
  {
    hide Justified;
  }

  /** One finding more. */
  lemma FindingExplains(st: IpState, h: History, now: int, score: real)
    requires Explains(st, h.created, h.findings)
    ensures var q := Updated(st.q, now - st.lastFeedback, score);
            var fs := h.findings + [Finding(now, score)];
            && Explains(IpState(q, now, Interval(q) > 0), h.created, fs)
            && (Interval(q) > 0 ==> Justified(Interval(q), History(h.created, fs)))
  {
    assert (h.findings + [Finding(now, score)])[..|h.findings|] == h.findings;
    hide Updated, Interval;
  }

  lemma NewStateExplained(now: int)
    ensures Explains(IpState(0.0, now, false), now, [])
  {
  }

  /** What applyAdaptiveLimit leaves in the kernel; `works` is whether its call succeeds. */
  function Applied(kernel: map<string, nat>, key: string, interval: nat, wasLimited: bool, works: bool): map<string,
        nat> {
    if !works then kernel
    else if interval > 0 then kernel[key := interval]
    else if wasLimited then kernel - {key}
    else kernel
  }

  /** A call that works leaves the limit asked for, none if none is asked for and one was set, and
      every other address's as it was; one that fails leaves all of them. */
  ghost predicate Follows(kernel: map<string, nat>, kernel': map<string, nat>, key: string, interval: nat,
                          wasLimited: bool, works: bool) {
    && (forall other :: other != key || !works ==>
          (other in kernel' <==> other in kernel) && (other in kernel ==> kernel'[other] == kernel[other]))
    && (works && interval > 0 ==> key in kernel' && kernel'[key] == interval)
    && (works && interval == 0 && wasLimited ==> key !in kernel')
    && (interval == 0 && !wasLimited ==> kernel' == kernel)
  }

  lemma AppliedFollows(kernel: map<string, nat>, key: string, interval: nat, wasLimited: bool, works: bool)
    ensures Follows(kernel, Applied(kernel, key, interval, wasLimited, works), key, interval, wasLimited, works)
  {
  }

  /** The kernel limits exactly the addresses whose state asks for it, and as it asks. */
  ghost predicate InStep(states: map<string, IpState>, kernel: map<string, nat>) {
    && (forall key :: key in kernel <==> key in states && states[key].limited)
    && (forall key :: key in kernel ==> kernel[key] == Interval(states[key].q))
  }

  lemma ReleaseInStep(states: map<string, IpState>, kernel: map<string, nat>, key: string)
    requires InStep(states, kernel) && key in states
    ensures InStep(states - {key}, Applied(kernel, key, 0, states[key].limited, true))
  {
    hide Interval;
  }

  lemma UpdateInStep(states: map<string, IpState>, kernel: map<string, nat>, key: string, q: real, now: int)
    requires key in states && (key in kernel ==> states[key].limited)
    requires forall k :: k != key ==> (k in kernel <==> k in states && states[k].limited)
    requires forall k :: k in kernel && k != key ==> kernel[k] == Interval(states[k].q)
    ensures InStep(states[key := IpState(q, now, Interval(q) > 0)],
                   Applied(kernel, key, Interval(q), states[key].limited, true))
  {
    hide Interval;
  }

  /** A finding keeps them in step exactly when it drops no limited state to make room. */
  lemma FindingInStep(states: map<string, IpState>, kernel: map<string, nat>, key: string, q: real, now: int,
                      evicts: bool, victim: string)
    requires InStep(states, kernel) && (evicts ==> key !in states && victim in states)
    ensures var kept := if evicts then states - {victim} else states;
            InStep(kept[key := IpState(q, now, Interval(q) > 0)],
                   Applied(kernel, key, Interval(q), key in states && states[key].limited, true))
            <==> !(evicts && states[victim].limited)
  {
    hide Interval;
    if evicts && states[victim].limited {
      assert victim in Applied(kernel, key, Interval(q), false, true);
    } else {
      var kept := if evicts then states - {victim} else states;
      var before := if key in states then states[key] else IpState(0.0, now, false);
      UpdateInStep(kept[key := before], kernel, key, q, now);
      Overwrite(kept, key, before, IpState(q, now, Interval(q) > 0));
    }
  }

  lemma SweepInStep(states: map<string, IpState>, kernel: map<string, nat>, cutoff: int, works: string -> bool)
    requires InStep(states, kernel) && forall key :: works(key)
    ensures InStep(Fresh(states, cutoff, states.Keys), Kept(kernel, states, cutoff, works, states.Keys))
  {
    hide Interval;
  }

  lemma KeysWithout(states: map<string, IpState>, key: string)
    requires key in states
    ensures |(states - {key}).Keys| == |states.Keys| - 1
  {
    assert (states - {key}).Keys == states.Keys - {key};
  }

  lemma KeysWith(states: map<string, IpState>, key: string, st: IpState)
    ensures |states[key := st].Keys| == |states.Keys| + if key in states then 0 else 1
  {
    assert states[key := st].Keys == states.Keys + {key};
  }

  lemma ExplainedAt(states: map<string, IpState>, history: map<string, History>, key: string)
    requires AllExplained(states, history) && key in states
    ensures key in history && Explains(states[key], history[key].created, history[key].findings)
  {
    hide Explains;
  }

  lemma Overwrite(states: map<string, IpState>, key: string, st: IpState, st': IpState)
    ensures states[key := st][key := st'] == states[key := st']
  {
  }

  class ReinforcementLearningLimiter {
    var states: map<string, IpState>
    /** The limits the kernel holds, by address key. */
    var kernel: map<string, nat>
    /** The findings behind each state, and behind each limit when it was last set. */
    ghost var history: map<string, History>
    ghost var behind: map<string, History>
    const capacity: nat

    ghost predicate Valid()
      reads this
    {
      && |states.Keys| <= capacity && capacity > 0
      && AllExplained(states, history)
      && AllJustified(kernel, behind)
    }

    constructor (capacity: nat)
      requires capacity > 0
      ensures Valid() && states == map[] && kernel == map[] && this.capacity == capacity
    {
      states, kernel, history, behind := map[], map[], map[], map[];
      this.capacity := capacity;
    }

    /** applyAdaptiveLimit. */
    method Apply(key: string, interval: nat, wasLimited: bool, works: bool, ghost why: History)
      requires AllJustified(kernel, behind) && (interval > 0 ==> Justified(interval, why))
      modifies this`kernel, this`behind
      ensures AllJustified(kernel, behind)
      ensures kernel == Applied(old(kernel), key, interval, wasLimited, works)
      ensures Follows(old(kernel), kernel, key, interval, wasLimited, works)
    {
      AppliedFollows(kernel, key, interval, wasLimited, works);
      hide Follows;
      hide AllJustified, Justified;
      if works {
        if interval > 0 {
          JustifiedWith(kernel, behind, key, interval, why);
          kernel := kernel[key := interval];
          behind := behind[key := why];
        } else if wasLimited {
          JustifiedWithout(kernel, behind, key);
          kernel := kernel - {key};
        }
      }
    }

    /** Drops the state of `key`. */
    method Remove(key: string)
      requires Valid() && key in states
      modifies this`states, this`history
      ensures Valid() && states == old(states) - {key} && history == old(history) - {key}
      ensures |states.Keys| == |old(states).Keys| - 1
    {
      hide AllExplained, AllJustified;
      ExplainedWithout(states, history, key);
      KeysWithout(states, key);
      states := states - {key};
      history := history - {key};
    }

    /** Forget: an operator's release. */
    method Forget(key: string, works: bool)
      requires Valid()
      modifies this
      ensures Valid()
      ensures states == old(states) - {key}
      ensures kernel == if key in old(states) then Applied(old(kernel), key, 0, old(states)[key].limited, works)
              else old(kernel)
      ensures works && key in old(states) && old(states)[key].limited ==> key !in kernel
      ensures works && old(InStep(states, kernel)) ==> InStep(states, kernel) && key !in kernel
    {
      hide AllExplained, AllJustified, Justified;
      if key !in states {
        assert states == old(states) - {key};
        return;
      }
      if InStep(states, kernel) { ReleaseInStep(states, kernel, key); }
      var st := states[key];
      Remove(key);
      if st.limited {
        Apply(key, 0, true, works, History(0, []));
      }
    }

    /** The state of an address seen for the first time.  `victim` is the state the cache drops
        when it has to make room. */
    method Create(key: string, now: int, victim: string)
      requires Valid() && key !in states
      requires |states.Keys| == capacity ==> victim in states
      modifies this`states, this`history
      ensures Valid()
      ensures states == (if |old(states).Keys| == capacity then old(states) - {victim}
              else old(states))[key := IpState(0.0, now, false)]
      ensures history == (if |old(states).Keys| == capacity then old(history) - {victim}
              else old(history))[key := History(now, [])]
    {
      hide AllExplained, AllJustified, Explains;
      if |states.Keys| == capacity {
        Remove(victim);
      }
      NewStateExplained(now);
      ExplainedWith(states, history, key, IpState(0.0, now, false), History(now, []));
      KeysWith(states, key, IpState(0.0, now, false));
      states := states[key := IpState(0.0, now, false)];
      history := history[key := History(now, [])];
    }

    /** The part of ProcessFinding that updates a state and its limit. */
    method Observe(key: string, score: real, now: int, works: bool)
      requires Valid() && key in states
      modifies this
      ensures Valid()
      ensures var st := old(states)[key];
              var q := Updated(st.q, now - st.lastFeedback, score);
              && states == old(states)[key := IpState(q, now, Interval(q) > 0)]
              && kernel == Applied(old(kernel), key, Interval(q), st.limited, works)
              && Follows(old(kernel), kernel, key, Interval(q), st.limited, works)
      ensures key in old(history)
      ensures history == old(history)[key := History(old(history)[key].created,
              old(history)[key].findings + [Finding(now, score)])]
    {
      hide Explains, AllExplained, AllJustified, Justified, Interval, Applied, Follows, Decayed;
      ExplainedAt(states, history, key);
      var state := states[key];
      ghost var longer := History(history[key].created, history[key].findings + [Finding(now, score)]);
      FindingExplains(state, history[key], now, score);
      var q := DecayQValue(state.q, now - state.lastFeedback);
      q := q + ALPHA * (score - q);
      assert q == Updated(state.q, now - state.lastFeedback, score);
      hide Updated;
      var wasLimited := state.limited;
      var interval := Interval(q);
      ExplainedWith(states, history, key, IpState(q, now, interval > 0), longer);
      KeysWith(states, key, IpState(q, now, interval > 0));
      states := states[key := IpState(q, now, interval > 0)];
      history := history[key := longer];
      Apply(key, interval, wasLimited, works, longer);
    }

    /** ProcessFinding for an address whose key is `key`. */
    method ProcessFinding(key: string, score: real, now: int, allowlisted: bool, works: bool, victim: string)
      requires Valid()
      requires key !in states && |states.Keys| == capacity ==> victim in states
      modifies this
      ensures Valid()
      ensures allowlisted ==>
                && states == old(states) - {key}
                && kernel == if key in old(states) then Applied(old(kernel), key, 0, old(states)[key].limited, works)
                    else old(kernel)
      ensures !allowlisted ==>
                var st := if key in old(states) then old(states)[key] else IpState(0.0, now, false);
                var q := Updated(st.q, now - st.lastFeedback, score);
                var kept := if key !in old(states)
                    && |old(states).Keys| == capacity then old(states) - {victim} else old(states);
                && states == kept[key := IpState(q, now, Interval(q) > 0)]
                && kernel == Applied(old(kernel), key, Interval(q), st.limited, works)
                && Follows(old(kernel), kernel, key, Interval(q), st.limited, works)
      ensures works && old(InStep(states, kernel)) ==>
                (InStep(states, kernel) <==>
                 allowlisted || key in old(states) || |old(states).Keys| < capacity || !old(states)[victim].limited)
    {
      hide Applied, Updated, Interval, Follows, InStep, AllExplained, AllJustified;
      if works && InStep(states, kernel) {
        ghost var st := if key in states then states[key] else IpState(0.0, now, false);
        FindingInStep(states, kernel, key, Updated(st.q, now - st.lastFeedback, score), now,
            key !in states && |states.Keys| == capacity, victim);
      }
      if allowlisted {
        Forget(key, works);
        return;
      }
      if key !in states {
        Create(key, now, victim);
        ghost var st := IpState(0.0, now, false);
        ghost var q := Updated(st.q, now - st.lastFeedback, score);
        Overwrite(if |old(states).Keys| == capacity then old(states) - {victim}
            else old(states), key, st, IpState(q, now, Interval(q) > 0));
      }
      Observe(key, score, now, works);
    }

    /** One state of a sweep. */
    method SweepOne(key: string, cutoff: int, works: bool)
      requires Valid() && key in states
      modifies this
      ensures Valid()
      ensures states == if old(states)[key].lastFeedback < cutoff then old(states) - {key} else old(states)
      ensures kernel == if old(states)[key].lastFeedback < cutoff && old(states)[key].limited && works
                        then old(kernel) - {key} else old(kernel)
    {
      hide AllExplained, AllJustified;
      var st := states[key];
      if st.lastFeedback < cutoff {
        if st.limited && works {
          JustifiedWithout(kernel, behind, key);
          kernel := kernel - {key};
        }
        Remove(key);
      }
    }

    /** Sweep: drops exactly the states without a finding in the last hour, and the limits
        they hold. */
    method Sweep(now: int, works: string -> bool)
      requires Valid()
      modifies this
      ensures Valid()
      ensures states == Fresh(old(states), now - IDLE_STATE_TTL, old(states).Keys)
      ensures kernel == Kept(old(kernel), old(states), now - IDLE_STATE_TTL, works, old(states).Keys)
      ensures (forall key :: works(key)) && old(InStep(states, kernel)) ==> InStep(states, kernel)
    {
      hide Valid, Fresh, Kept, InStep;
      if (forall key :: works(key)) && InStep(states, kernel) {
        SweepInStep(states, kernel, now - IDLE_STATE_TTL, works);
      }
      var cutoff := now - IDLE_STATE_TTL;
      ghost var before, limits := states, kernel;
      var keys := states.Keys;
      ghost var done: set<string> := {};
      SweepStarts(before, limits, cutoff, works);
      while keys != {}
        invariant Valid() && keys + done == before.Keys && keys !! done
        invariant states == Fresh(before, cutoff, done)
        invariant kernel == Kept(limits, before, cutoff, works, done)
      {
        var key :| key in keys;
        SweepStep(before, limits, cutoff, works, done, key);
        SweepOne(key, cutoff, works(key));
        keys := keys - {key};
        done := done + {key};
      }
      assert done == before.Keys;
    }
  }

  /** The states left once a sweep has been over `done`. */
  ghost function Fresh(states: map<string, IpState>, cutoff: int, done: set<string>): map<string, IpState> {
    map key | key in states && (key !in done || states[key].lastFeedback >= cutoff) :: states[key]
  }

  /** The limits left once a sweep has been over `done`. */
  ghost function Kept(kernel: map<string, nat>, states: map<string, IpState>, cutoff: int, works: string -> bool,
                      done: set<string>): map<string, nat> {
    kernel - set key | key in done && key in states && states[key].lastFeedback < cutoff && states[key].limited
        && works(key)
  }

  lemma SweepStarts(states: map<string, IpState>, kernel: map<string, nat>, cutoff: int, works: string -> bool)
    ensures Fresh(states, cutoff, {}) == states && Kept(kernel, states, cutoff, works, {}) == kernel
  {
  }

  lemma SweepStep(states: map<string, IpState>, kernel: map<string, nat>, cutoff: int, works: string -> bool,
                  done: set<string>, key: string)
    requires key in states && key !in done
    ensures key in Fresh(states, cutoff, done) && Fresh(states, cutoff, done)[key] == states[key]
    ensures Fresh(states, cutoff, done + {key})
         == if states[key].lastFeedback < cutoff then Fresh(states, cutoff, done) - {key}
             else Fresh(states, cutoff, done)
    ensures Kept(kernel, states, cutoff, works, done + {key})
         == if states[key].lastFeedback < cutoff && states[key].limited && works(key)
            then Kept(kernel, states, cutoff, works, done) - {key}
            else Kept(kernel, states, cutoff, works, done)
  {
  }
}
