/** Request bodies bounded by their progress (internal/deadline/request.go).  Times and
    durations are nanoseconds; int64 arithmetic is written out. */
module BodyDeadline {
  const SECOND: int := 1_000_000_000
  const TWO_63: int := 0x8000_0000_0000_0000
  const TWO_64: int := 0x1_0000_0000_0000_0000

  function Wrap(x: int): int {
    (x + TWO_63) % TWO_64 - TWO_63
  }

  /** Division toward zero by a positive divisor. */
  function Quotient(a: int, b: int): (q: int)
    requires b > 0
    ensures a >= 0 ==> 0 <= a - q * b < b
    ensures a <= 0 ==> -b < a - q * b <= 0
  {
    if a >= 0 then a / b else -((-a) / b)
  }

  datatype Timeouts = Timeouts(read: int, write: int, minBodyRate: int)

  /** Durations and a rate that int64 holds. */
  predicate Representable(t: Timeouts) {
    0 <= t.read < TWO_63 && 0 <= t.write < TWO_63 && -TWO_63 <= t.minBodyRate < TWO_63
  }

  /** The time `n` bytes buy. */
  function Allowance(t: Timeouts, n: nat): nat {
    if t.minBodyRate > 0 then n * SECOND / t.minBodyRate else 0
  }

  /** The same in int64. */
  function Allowance64(t: Timeouts, n: int): int {
    if t.minBodyRate > 0 then Quotient(Wrap(n * SECOND), t.minBodyRate) else 0
  }

  lemma WrapIsExactExactlyWhen(x: int)
    ensures Wrap(x) == x <==> -TWO_63 <= x < TWO_63
    ensures x >= TWO_63 ==> Wrap(x) <= x - TWO_64
  {
  }

  lemma Cancel(a: int, b: int, r: int)
    requires r > 0 && a * r < b * r
    ensures a < b
  {
  }

  lemma DivAtLeast(x: int, r: int, k: int)
    requires r > 0 && k * r <= x
    ensures k <= x / r
  {
    Cancel(k, x / r + 1, r);
  }

  lemma DivBelowOne(x: int, r: int)
    requires 0 <= x < r
    ensures x / r == 0
  {
  }

  lemma QuotientFalls(a: int, b: int, r: int)
    requires 0 < r < TWO_63 && 0 <= b && a <= b - TWO_64
    ensures Quotient(a, r) < b / r
  {
    if a >= 0 {
      DivAtLeast(b, r, a / r + 1);
    } else if -a < r {
      DivAtLeast(b, r, 1);
      DivBelowOne(-a, r);
    } else {
      DivAtLeast(-a, r, 1);
      DivAtLeast(b, r, 0);
    }
  }

  /** The int64 product is exact, and with it the time bought, exactly below 2^63. */
  lemma AllowanceIsExactExactlyWhen(t: Timeouts, n: nat)
    requires Representable(t) && t.minBodyRate > 0
    ensures Allowance64(t, n) == Allowance(t, n) <==> n * SECOND < TWO_63
    ensures n * SECOND >= TWO_63 ==> Allowance64(t, n) < Allowance(t, n)
  {
    WrapIsExactExactlyWhen(n * SECOND);
    hide Wrap;
    if n * SECOND >= TWO_63 {
      QuotientFalls(Wrap(n * SECOND), n * SECOND, t.minBodyRate);
    }
  }

  /** Some 9.2 GB into a body the product wraps, and the bytes have bought less than none. */
  lemma LongBodyLosesItsTime(t: Timeouts)
    requires Representable(t) && 0 < t.minBodyRate <= SECOND
    ensures Allowance64(t, 9_223_372_037) < 0 < Allowance(t, 9_223_372_037)
  {
    var short := TWO_64 - 9_223_372_037 * SECOND;
    assert Wrap(9_223_372_037 * SECOND) == -short;
    DivAtLeast(short, t.minBodyRate, 1);
    DivAtLeast(9_223_372_037 * SECOND, t.minBodyRate, 1);
  }

  // ----- The code -----

  /** What a body has done to its connection. */
  datatype Progress = Progress(read: int, done: bool, readDeadline: int, writeDeadline: int)

  /** The end the bytes so far have earned. */
  function End(t: Timeouts, start: int, read: int): int {
    start + Wrap(t.read + Allowance64(t, read))
  }

  function Extended(t: Timeouts, start: int, p: Progress, now: int): Progress {
    var end := if End(t, start, p.read) < now then now else End(t, start, p.read);
    p.(readDeadline := end, writeDeadline := end + t.write)
  }

  function AfterRead(t: Timeouts, start: int, p: Progress, n: nat, eof: bool, now: int): Progress {
    var q := p.(read := Wrap(p.read + n));
    if eof && !p.done then q.(done := true, readDeadline := now + t.write, writeDeadline := now + t.write)
    else if n > 0 then Extended(t, start, q, now)
    else q
  }

  class RateBody {
    const t: Timeouts
    const start: int
    var read: int
    var done: bool
    var readDeadline: int
    var writeDeadline: int

    ghost function Now(): Progress
      reads this
    {
      Progress(read, done, readDeadline, writeDeadline)
    }

    /** RequestTimeouts.Handler on a request that has a body. */
    constructor (t: Timeouts, now: int)
      ensures this.t == t && start == now
      ensures Now() == Extended(t, now, Progress(0, false, 0, 0), now)
    {
      this.t, start, read, done := t, now, 0, false;
      readDeadline, writeDeadline := 0, 0;
      new;
      Extend(now);
    }

    method Extend(now: int)
      modifies this`readDeadline, this`writeDeadline
      ensures Now() == Extended(t, start, old(Now()), now)
      ensures readDeadline >= now && writeDeadline == readDeadline + t.write
    {
      var earned := t.read;
      if t.minBodyRate > 0 {
        earned := earned + Quotient(Wrap(read * SECOND), t.minBodyRate);
      }
      var end := start + Wrap(earned);
      if end < now {
        end := now;
      }
      readDeadline := end;
      writeDeadline := end + t.write;
    }

    /** Read, given what the wrapped body returned and the clock after it. */
    method Read(n: nat, eof: bool, now: int)
      modifies this
      ensures Now() == AfterRead(t, start, old(Now()), n, eof, now)
    {
      read := Wrap(read + n);
      if eof && !done {
        done := true;
        readDeadline := now + t.write;
        writeDeadline := now + t.write;
      } else if n > 0 {
        Extend(now);
      }
    }
  }

  // ----- Whole bodies -----

  /** A read: how many bytes it returned, whether the body ended with it, and when. */
  datatype ReadEvent = ReadEvent(n: nat, eof: bool, at: int)

  function Total(rs: seq<ReadEvent>): nat {
    if rs == [] then 0 else Total(rs[..|rs| - 1]) + rs[|rs| - 1].n
  }

  function After(t: Timeouts, start: int, rs: seq<ReadEvent>): Progress {
    if rs == [] then Extended(t, start, Progress(0, false, 0, 0), start)
    else AfterRead(t, start, After(t, start, rs[..|rs| - 1]), rs[|rs| - 1].n, rs[|rs| - 1].eof, rs[|rs| - 1].at)
  }

  ghost predicate LateAt(t: Timeouts, start: int, rs: seq<ReadEvent>, i: int, lag: nat)
    requires 0 <= i < |rs|
  {
    rs[i].n > 0 ==> rs[i].at <= After(t, start, rs[..i]).readDeadline + lag
  }

  /** Every read that returns bytes is noted, by the clock, at most `lag` after the deadline in
      force.  With no lag, every one is on time. */
  ghost predicate AtMostLate(t: Timeouts, start: int, rs: seq<ReadEvent>, lag: nat) {
    forall i :: 0 <= i < |rs| ==> LateAt(t, start, rs, i, lag)
  }

  ghost predicate OnTime(t: Timeouts, start: int, rs: seq<ReadEvent>) {
    AtMostLate(t, start, rs, 0)
  }

  ghost predicate Unfinished(rs: seq<ReadEvent>) {
    forall i :: 0 <= i < |rs| ==> !rs[i].eof
  }

  /** `n` bytes keep every int64 sum in range. */
  predicate InRange(t: Timeouts, n: nat) {
    n * SECOND < TWO_63 && t.read + Allowance(t, n) < TWO_63
  }

  lemma AllowanceGrows(t: Timeouts, n: nat, m: nat)
    requires n <= m
    ensures Allowance(t, n) <= Allowance(t, m)
    ensures InRange(t, m) ==> InRange(t, n)
  {
    if t.minBodyRate > 0 {
      DivAtLeast(m * SECOND, t.minBodyRate, n * SECOND / t.minBodyRate);
    }
  }

  lemma EndInRange(t: Timeouts, start: int, n: nat)
    requires Representable(t) && InRange(t, n)
    ensures Wrap(n) == n && End(t, start, n) == start + t.read + Allowance(t, n)
  {
    WrapIsExactExactlyWhen(n * SECOND);
    WrapIsExactExactlyWhen(n);
    WrapIsExactExactlyWhen(t.read + Allowance(t, n));
    hide Wrap;
  }

  /** The deadline is what `read` bytes have earned and at most `slack` more, and the write
      deadline a whole Write past it. */
  predicate WithinSlack(t: Timeouts, start: int, p: Progress, slack: int) {
    && p.read >= 0
    && start + t.read + Allowance(t, p.read) <= p.readDeadline <= start + t.read + Allowance(t, p.read) + slack
    && p.writeDeadline == p.readDeadline + t.write
  }

  /** Extending gives what the bytes so far have earned, or now if that is past. */
  lemma DeadlineIsTheLater(t: Timeouts, start: int, p: Progress, now: int)
    requires Representable(t) && p.read >= 0 && InRange(t, p.read)
    ensures var q, earned := Extended(t, start, p, now), start + t.read + Allowance(t, p.read);
            && q.readDeadline == (if earned < now then now else earned) && q.writeDeadline == q.readDeadline + t.write
            && q.read == p.read && q.done == p.done
  {
    EndInRange(t, start, p.read);
    hide Wrap, Allowance, End;
  }

  /** `n` reads, each late by `lag`. */
  function Lags(n: nat, lag: nat): nat {
    n * lag
  }

  lemma LagsStep(n: nat, lag: nat)
    ensures Lags(n + 1, lag) == Lags(n, lag) + lag && Lags(0, lag) == 0 && Lags(n, 0) == 0
  {
  }

  /** One read, unfinished and in range. */
  lemma ReadMovesDeadline(t: Timeouts, start: int, p: Progress, n: nat, at: int, slack: int, lag: nat)
    requires Representable(t) && WithinSlack(t, start, p, slack) && InRange(t, p.read + n)
    requires n > 0 ==> at <= p.readDeadline + lag
    ensures var q := AfterRead(t, start, p, n, false, at);
            q.read == p.read + n && WithinSlack(t, start, q, slack + lag)
  {
    AllowanceGrows(t, p.read, p.read + n);
    EndInRange(t, start, p.read + n);
    hide Wrap, Allowance, End;
  }

  lemma LateTake(t: Timeouts, start: int, rs: seq<ReadEvent>, i: nat, lag: nat)
    requires i <= |rs| && AtMostLate(t, start, rs, lag)
    ensures AtMostLate(t, start, rs[..i], lag)
  {
    hide After;
    forall j | 0 <= j < i
      ensures LateAt(t, start, rs[..i], j, lag)
    {
      assert LateAt(t, start, rs, j, lag);
      assert rs[..i][..j] == rs[..j];
    }
  }

  /** What the clamp to now can cost: for any split of a body into reads, each noted at most
      `lag` late, the deadline is never less than the bytes so far have earned, and more only
      by the lags of the reads so far; the handler keeps its whole write time past it. */
  lemma {:induction false} LateReadsCostTheirLag(t: Timeouts, start: int, rs: seq<ReadEvent>, lag: nat)
    requires Representable(t) && Unfinished(rs) && AtMostLate(t, start, rs, lag) && InRange(t, Total(rs))
    ensures After(t, start, rs).read == Total(rs) && WithinSlack(t, start, After(t, start, rs), Lags(|rs|, lag))
  {
    hide Lags, Allowance, End;
    if rs == [] {
      EndInRange(t, start, 0);
      LagsStep(0, lag);
    } else {
      var before, last := rs[..|rs| - 1], rs[|rs| - 1];
      LagsStep(|before|, lag);
      AllowanceGrows(t, Total(before), Total(rs));
      assert LateAt(t, start, rs, |rs| - 1, lag);
      LateTake(t, start, rs, |rs| - 1, lag);
      LateReadsCostTheirLag(t, start, before, lag);
      hide AfterRead, AtMostLate, LateAt, InRange, WithinSlack;
      ReadMovesDeadline(t, start, After(t, start, before), last.n, last.at, Lags(|before|, lag), lag);
    }
  }

  /** For any split of a body into reads that are on time: the deadline is always exactly what
      the bytes so far have earned, never the clamp. */
  lemma DeadlineFollowsProgress(t: Timeouts, start: int, rs: seq<ReadEvent>)
    requires Representable(t) && Unfinished(rs) && OnTime(t, start, rs) && InRange(t, Total(rs))
    ensures var p := After(t, start, rs);
            && p.read == Total(rs)
            && p.readDeadline == start + t.read + Allowance(t, Total(rs))
            && p.writeDeadline == p.readDeadline + t.write
  {
    LateReadsCostTheirLag(t, start, rs, 0);
    LagsStep(|rs|, 0);
  }

  /** The bytes a read brings the body to, those that come with its end included, have
      arrived by start + Read + N / MinBodyRate seconds and the lags so far -- in fact by what
      the bytes before them had earned. */
  lemma BytesArriveInTime(t: Timeouts, start: int, rs: seq<ReadEvent>, i: nat, lag: nat)
    requires i < |rs| && rs[i].n > 0
    requires Representable(t) && Unfinished(rs[..i]) && AtMostLate(t, start, rs, lag) && InRange(t, Total(rs[..i]))
    ensures Total(rs[..i + 1]) == Total(rs[..i]) + rs[i].n
    ensures rs[i].at <= start + t.read + Allowance(t, Total(rs[..i])) + Lags(i + 1, lag)
                     <= start + t.read + Allowance(t, Total(rs[..i + 1])) + Lags(i + 1, lag)
  {
    assert rs[..i + 1][..i] == rs[..i];
    AllowanceGrows(t, Total(rs[..i]), Total(rs[..i + 1]));
    LateTake(t, start, rs, i, lag);
    assert LateAt(t, start, rs, i, lag);
    hide After, AtMostLate, InRange, Allowance;
    LateReadsCostTheirLag(t, start, rs[..i], lag);
    LagsStep(i, lag);
  }

  /** Once the body has ended, the handler has its write time from then, and reads that
      return nothing more leave it alone. */
  lemma {:induction false} EndStartsTheHandlersTime(t: Timeouts, start: int, p: Progress, n: nat, at: int,
        later: seq<ReadEvent>)
    requires !p.done && forall i :: 0 <= i < |later| ==> later[i].n == 0
    ensures var q := Settled(t, start, AfterRead(t, start, p, n, true, at), later);
            q.done && q.readDeadline == q.writeDeadline == at + t.write
  {
    if later != [] {
      EndStartsTheHandlersTime(t, start, p, n, at, later[..|later| - 1]);
    }
  }

  function Settled(t: Timeouts, start: int, p: Progress, rs: seq<ReadEvent>): Progress {
    if rs == [] then p
    else AfterRead(t, start, Settled(t, start, p, rs[..|rs| - 1]), rs[|rs| - 1].n, rs[|rs| - 1].eof, rs[|rs| - 1].at)
  }
}
