/** Verifying the stored log a window at a time (internal/audit/verify.go).  The
    table is a sequence of rows in (timestamp, id) order. */
module AuditWindow {
  import opened Wrappers
  import opened Text
  import opened AuditChain
  import opened AuditOrder

  const DEFAULT_VERIFY_LIMIT := 1000
  const MAX_VERIFY_LIMIT := 5000

  /** `afterId` is "" for a window that starts at a time. */
  datatype Request = Request(from: Option<int>, to: Option<int>, afterId: string, limit: int)

  datatype VerifyError = SigningOff | UnknownCursor | TailUnreadable

  datatype VerifyResult = VerifyResult(checked: int, broken: Option<ChainError>, nextAfterId: string, complete: bool)

  /** ORDER BY timestamp, id. */
  predicate RowBefore(a: Entry, b: Entry) {
    a.timestamp < b.timestamp || (a.timestamp == b.timestamp && LexLess(a.id, b.id))
  }

  ghost predicate IsLog(log: seq<Entry>) {
    && (forall i, j :: 0 <= i < j < |log| ==> RowBefore(log[i], log[j]) && log[i].id != log[j].id)
    && (forall i :: 0 <= i < |log| ==> log[i].id != "")
  }

  // ----- The queries -----

  function FindRow(log: seq<Entry>, id: string): Option<Entry> {
    if log == [] then None else if log[0].id == id then Some(log[0]) else FindRow(log[1..], id)
  }

  /** The window's WHERE clause; `cursor` is the row of AfterID. */
  predicate Wanted(req: Request, cursor: Option<Entry>, e: Entry) {
    && (match cursor
        case Some(c) => RowBefore(c, e)
        case None => req.from.None? || e.timestamp >= req.from.value)
    && (req.to.None? || e.timestamp <= req.to.value)
  }

  function Select(log: seq<Entry>, req: Request, cursor: Option<Entry>): seq<Entry> {
    if log == [] then []
    else (if Wanted(req, cursor, log[0]) then [log[0]] else []) + Select(log[1..], req, cursor)
  }

  /** signatureBefore: the signature of the newest row before `from`. */
  function SignatureBefore(log: seq<Entry>, from: Option<int>): string {
    if from.None? || log == [] then ""
    else if log[|log| - 1].timestamp < from.value then log[|log| - 1].signature
    else SignatureBefore(log[..|log| - 1], from)
  }

  function Take(es: seq<Entry>, n: nat): seq<Entry> {
    if |es| <= n then es else es[..n]
  }

  /** window: up to `n` rows, and the signature the first must follow. */
  function Window(log: seq<Entry>, req: Request, n: nat): Result<(string, seq<Entry>), VerifyError> {
    if req.afterId != "" then
      match FindRow(log, req.afterId)
      case None => Failure(UnknownCursor)
      case Some(c) => Success((c.signature, Take(Select(log, req, Some(c)), n)))
    else
      Success((SignatureBefore(log, req.from), Take(Select(log, req, None), n)))
  }

  // ----- The answer -----

  /** verdict. */
  function Report(mac: Mac, es: seq<Entry>, key: string, genesis: string, more: bool): VerifyResult
    requires more ==> |es| > 0
  {
    match Verdict(mac, es, key, genesis)
    case Some(err) => VerifyResult(err.index, Some(err), "", false)
    case None => VerifyResult(|es|, None, if more then es[|es| - 1].id else "", !more)
  }

  function EffectiveLimit(limit: int): (n: nat)
    ensures 0 < n <= MAX_VERIFY_LIMIT
    ensures 0 < limit <= MAX_VERIFY_LIMIT ==> n == limit
    ensures limit <= 0 ==> n == 1000
    ensures limit > 5000 ==> n == 5000
  {
    if limit <= 0 then DEFAULT_VERIFY_LIMIT else if limit < MAX_VERIFY_LIMIT then limit else MAX_VERIFY_LIMIT
  }

  function RangeAnswer(mac: Mac, log: seq<Entry>, key: string, req: Request): Result<VerifyResult, VerifyError> {
    if key == "" then Failure(SigningOff)
    else
      var limit := EffectiveLimit(req.limit);
      match Window(log, req, limit + 1)
      case Failure(err) => Failure(err)
      case Success((genesis, es)) =>
        Success(Report(mac, Ordered(Take(es, limit), genesis), key, genesis, |es| > limit))
  }

  // ----- The tail -----

  /** What checkTail goes by: the tail anchor, the retention period's cutoff when there is one,
      and whether its query succeeds. */
  datatype Tail = Tail(anchor: Option<(string, int)>, cutoff: Option<int>, readable: bool)

  /** The time of the anchor that was looked for, if any, and whether it is gone. */
  datatype TailReport = TailReport(anchor: Option<int>, missing: bool)

  predicate LooksForTail(req: Request, r: VerifyResult, tail: Tail) {
    && r.complete && r.broken.None? && req.to.None? && tail.anchor.Some?
    && !(tail.cutoff.Some? && tail.anchor.value.1 < tail.cutoff.value)
  }

  function TailAnswer(log: seq<Entry>, req: Request, r: VerifyResult, tail: Tail): Result<TailReport, VerifyError> {
    if !LooksForTail(req, r, tail) then Success(TailReport(None, false))
    else if !tail.readable then Failure(TailUnreadable)
    else Success(TailReport(Some(tail.anchor.value.1), FindRow(log, tail.anchor.value.0).None?))
  }

  /** The whole answer: the range's, and the tail's. */
  function FullAnswer(mac: Mac, log: seq<Entry>, key: string, req: Request, tail: Tail)
    : Result<(VerifyResult, TailReport), VerifyError>
  {
    match RangeAnswer(mac, log, key, req)
    case Failure(err) => Failure(err)
    case Success(r) =>
      match TailAnswer(log, req, r, tail)
      case Failure(err) => Failure(err)
      case Success(t) => Success((r, t))
  }

  method CheckTail(log: seq<Entry>, req: Request, r: VerifyResult, tail: Tail)
        returns (t: Result<TailReport, VerifyError>)
    requires r.complete && r.broken.None? && req.to.None?
    ensures t == TailAnswer(log, req, r, tail)
    ensures var looks := tail.anchor.Some? && (tail.cutoff.Some? ==> tail.cutoff.value <= tail.anchor.value.1);
            && (!looks ==> t == Success(TailReport(None, false)))
            && (looks && !tail.readable ==> t == Failure(TailUnreadable))
            && (looks && tail.readable ==>
                  t.Success? && t.value.anchor == Some(tail.anchor.value.1)
                  && (t.value.missing <==> forall i :: 0 <= i < |log| ==> log[i].id != tail.anchor.value.0))
  {
    if tail.anchor.Some? { var k := FindRowExactlyWhen(log, tail.anchor.value.0); }
    hide FindRow;
    if tail.anchor.None? || (tail.cutoff.Some? && tail.anchor.value.1 < tail.cutoff.value) {
      return Success(TailReport(None, false));
    }
    if !tail.readable {
      return Failure(TailUnreadable);
    }
    var found := FindRow(log, tail.anchor.value.0);
    return Success(TailReport(Some(tail.anchor.value.1), found.None?));
  }

  method VerifyRange(mac: Mac, log: seq<Entry>, key: string, req: Request, tail: Tail)
    returns (r: Result<(VerifyResult, TailReport), VerifyError>)
    ensures r == FullAnswer(mac, log, key, req, tail)
  {
    hide Window, Verdict;
    if key == "" {
      return Failure(SigningOff);
    }
    var limit := req.limit;
    if limit <= 0 {
      limit := DEFAULT_VERIFY_LIMIT;
    }
    limit := if limit < MAX_VERIFY_LIMIT then limit else MAX_VERIFY_LIMIT;
    var w := Window(log, req, limit + 1);
    if w.Failure? {
      return Failure(w.error);
    }
    var (genesis, es) := w.value;
    var more := |es| > limit;
    if more {
      es := es[..limit];
    }
    var entries := new Entry[|es|](i requires 0 <= i < |es| => es[i]);
    assert entries[..] == es;
    OrderTies(entries, genesis);
    var res := ComputeReport(mac, entries[..], key, genesis, more);
    assert RangeAnswer(mac, log, key, req) == Success(res);
    hide RangeAnswer;
    if res.complete && res.broken.None? && req.to.None? {
      var t := CheckTail(log, req, res, tail);
      if t.Failure? {
        return Failure(t.error);
      }
      return Success((res, t.value));
    }
    return Success((res, TailReport(None, false)));
  }

  /** verdict. */
  method ComputeReport(mac: Mac, es: seq<Entry>, key: string, genesis: string, more: bool) returns (res: VerifyResult)
    requires more ==> |es| > 0
    ensures res == Report(mac, es, key, genesis, more)
  {
    var err := VerifyChain(mac, es, key, genesis);
    if err.Some? {
      return VerifyResult(err.value.index, err, "", false);
    }
    return VerifyResult(|es|, None, if more then es[|es| - 1].id else "", !more);
  }

  /** Entries deleted from the end leave a chain that still verifies; the tail tells.  With the
      newest entry written as anchor, still within the retention period, a complete range
      over what is left of the log says it is missing exactly when something is. */
  lemma TruncationShowsInTheTail(mac: Mac, log: seq<Entry>, key: string, k: nat, req: Request, tail: Tail,
        r: VerifyResult, t: TailReport)
    requires IsLog(log) && log != [] && k <= |log|
    requires tail.anchor == Some((log[|log| - 1].id, log[|log| - 1].timestamp))
    requires tail.cutoff.Some? ==> tail.cutoff.value <= log[|log| - 1].timestamp
    requires FullAnswer(mac, log[..k], key, req, tail) == Success((r, t))
    requires r.complete && r.broken.None? && req.to.None?
    ensures t.missing <==> k < |log|
  {
    if k == |log| {
      assert log[..k] == log;
      FindRowAt(log, |log| - 1);
    } else {
      FindNoRow(log[..k], log[|log| - 1].id);
    }
  }

  lemma {:induction false} FindNoRow(log: seq<Entry>, id: string)
    requires forall i :: 0 <= i < |log| ==> log[i].id != id
    ensures FindRow(log, id) == None
  {
    if log != [] { FindNoRow(log[1..], id); }
  }

  // ----- One window -----

  lemma {:induction false} FindRowAt(log: seq<Entry>, i: nat)
    requires IsLog(log) && i < |log|
    ensures FindRow(log, log[i].id) == Some(log[i])
  {
    if i > 0 {
      assert log[0].id != log[i].id;
      TailIsLog(log);
      FindRowAt(log[1..], i - 1);
    }
  }

  lemma TailIsLog(log: seq<Entry>)
    requires IsLog(log) && log != []
    ensures IsLog(log[1..])
  {
    var t := log[1..];
    forall i, j | 0 <= i < j < |t| ensures RowBefore(t[i], t[j]) && t[i].id != t[j].id {
      assert t[i] == log[i + 1] && t[j] == log[j + 1];
    }
  }

  ghost predicate AllWanted(log: seq<Entry>, req: Request, cursor: Option<Entry>) {
    forall i :: 0 <= i < |log| ==> Wanted(req, cursor, log[i])
  }

  lemma SelectSuffix(log: seq<Entry>, req: Request, cursor: Option<Entry>, k: nat)
    requires k <= |log| && AllWanted(log[k..], req, cursor)
    requires forall i :: 0 <= i < k ==> !Wanted(req, cursor, log[i])
    ensures Select(log, req, cursor) == log[k..]
  {
    hide Wanted, Select;
    forall i | k <= i < |log| ensures Wanted(req, cursor, log[i]) { assert log[k..][i - k] == log[i]; }
    SelectFrom(log, req, cursor, k);
  }

  lemma {:induction false} SelectFrom(log: seq<Entry>, req: Request, cursor: Option<Entry>, k: nat)
    requires k <= |log| && forall i :: 0 <= i < |log| ==> (Wanted(req, cursor, log[i]) <==> k <= i)
    ensures Select(log, req, cursor) == log[k..]
  {
    hide Wanted;
    if log != [] {
      var t := log[1..];
      assert forall i :: 0 <= i < |t| ==> t[i] == log[i + 1];
      SelectFrom(t, req, cursor, if k > 0 then k - 1 else 0);
      assert log[k..] == if k > 0 then t[k - 1..] else [log[0]] + t[0..];
    }
  }

  /** The cursor a verification holds once it has checked the first `k` rows. */
  function CursorAt(log: seq<Entry>, k: nat): string
    requires k <= |log|
  {
    if k == 0 then "" else log[k - 1].id
  }

  function ContinueFrom(cursor: string, limit: int): Request {
    Request(None, None, cursor, limit)
  }

  lemma RowBeforeIrreflexive(a: Entry, b: Entry)
    requires RowBefore(a, b)
    ensures !RowBefore(b, a) && !RowBefore(a, a)
  {
    LexTotal(a.id, b.id);
    LexTotal(a.id, a.id);
  }

  /** Continuing after row `k` reads exactly the rows from `k` on. */
  lemma WindowAfter(log: seq<Entry>, k: nat, limit: int, n: nat)
    requires IsLog(log) && k <= |log|
    ensures Window(log, ContinueFrom(CursorAt(log, k), limit), n) == Success((Before(log, k, ""), Take(log[k..], n)))
  {
    var req := ContinueFrom(CursorAt(log, k), limit);
    if k == 0 {
      assert forall i :: 0 <= i < |log| ==> Wanted(req, None, log[i]);
      assert AllWanted(log[0..], req, None);
      SelectSuffix(log, req, None, 0);
    } else {
      var c := log[k - 1];
      FindRowAt(log, k - 1);
      forall i | 0 <= i < |log[k..]| ensures Wanted(req, Some(c), log[k..][i]) {
        assert log[k..][i] == log[k + i] && RowBefore(c, log[k + i]);
      }
      forall i | 0 <= i < k ensures !Wanted(req, Some(c), log[i]) {
        if i < k - 1 { RowBeforeIrreflexive(log[i], c); } else { LexTotal(c.id, c.id); }
      }
      SelectSuffix(log, req, Some(c), k);
    }
  }

  /** What is made of the rows `es` of a window, read one past the limit. */
  lemma AnswerOfWindow(mac: Mac, log: seq<Entry>, key: string, req: Request, g: string, es: seq<Entry>)
    requires key != "" && Window(log, req, EffectiveLimit(req.limit) + 1)
             == Success((g, Take(es, EffectiveLimit(req.limit) + 1)))
    ensures var n := EffectiveLimit(req.limit);
            RangeAnswer(mac, log, key, req) == Success(Report(mac, Ordered(Take(es, n), g), key, g, |es| > n))
  {
    TakeLess(es, EffectiveLimit(req.limit));
    hide Window, Report, Take;
  }

  lemma LimitOf(cursor: string, limit: int)
    ensures ContinueFrom(cursor, limit).limit == limit
  {
  }

  /** One window: the chain check of the next rows, at most `limit` of them, with those of one
      instant in chain order. */
  lemma WindowAnswer(mac: Mac, log: seq<Entry>, key: string, k: nat, limit: int)
    requires key != "" && IsLog(log) && k <= |log|
    ensures var n := EffectiveLimit(limit);
            RangeAnswer(mac, log, key, ContinueFrom(CursorAt(log, k), limit)) ==
            Success(Report(mac, Ordered(Take(log[k..], n), Before(log, k, "")), key, Before(log, k, ""), |log| - k > n))
  {
    hide *;
    WindowAfter(log, k, limit, EffectiveLimit(limit) + 1);
    LimitOf(CursorAt(log, k), limit);
    AnswerOfWindow(mac, log, key, ContinueFrom(CursorAt(log, k), limit), Before(log, k, ""), log[k..]);
  }

  /** With distinct timestamps there is nothing to put in order. */
  lemma DistinctWindowAnswer(mac: Mac, log: seq<Entry>, key: string, k: nat, limit: int)
    requires key != "" && IsLog(log) && DistinctTimes(log) && k <= |log|
    ensures var n := EffectiveLimit(limit);
            RangeAnswer(mac, log, key, ContinueFrom(CursorAt(log, k), limit)) ==
            Success(Report(mac, Take(log[k..], n), key, Before(log, k, ""), |log| - k > n))
  {
    var n := EffectiveLimit(limit);
    WindowAnswer(mac, log, key, k, limit);
    assert log[k..] == log[k..|log|];
    var m := TakeOfStretch(log, k, |log|, n);
    DistinctStretchStays(log, k, m, Before(log, k, ""));
    hide RangeAnswer, Report, Ordered, DistinctTimes, IsLog;
  }

  /** Checking a stretch of the log from its own predecessor is checking those rows. */
  lemma StretchIntact(mac: Mac, log: seq<Entry>, key: string, k: nat, m: nat, j: nat)
    requires k <= m <= |log| && j < m - k
    ensures IntactAt(mac, key, log[k..m], Before(log, k, ""), j) <==> IntactAt(mac, key, log, "", k + j)
    ensures Fault(mac, key, log[k..m][j], Before(log[k..m], j, Before(log, k, ""))) ==
            Fault(mac, key, log[k + j], Before(log, k + j, ""))
  {
  }

  // ----- Any window -----

  /** Row `x` lies past the start of the window: after the cursor's row, or not before `from`. */
  ghost predicate PastStart(log: seq<Entry>, req: Request, x: nat)
    requires x < |log|
  {
    if req.afterId != "" then exists c :: 0 <= c < x && log[c].id == req.afterId
    else req.from.Some? ==> log[x].timestamp >= req.from.value
  }

  predicate WithinEnd(req: Request, e: Entry) {
    req.to.Some? ==> e.timestamp <= req.to.value
  }

  /** A window's rows are `log[i..j]`: those past its start and within its end. */
  ghost predicate IsStretch(log: seq<Entry>, req: Request, i: nat, j: nat) {
    && i <= j <= |log|
    && (forall x :: 0 <= x < |log| ==> (x >= i <==> PastStart(log, req, x)))
    && (forall x :: i <= x < |log| ==> (x < j <==> WithinEnd(req, log[x])))
  }

  /** The cursor is unknown exactly when no row has its id. */
  lemma {:induction false} FindRowExactlyWhen(log: seq<Entry>, id: string) returns (k: nat)
    ensures FindRow(log, id).None? <==> forall x :: 0 <= x < |log| ==> log[x].id != id
    ensures FindRow(log, id).Some? ==> k < |log| && log[k].id == id && FindRow(log, id) == Some(log[k])
  {
    k := 0;
    if log != [] && log[0].id != id {
      var t := FindRowExactlyWhen(log[1..], id);
      k := t + 1;
      assert forall x :: 0 < x < |log| ==> log[x] == log[1..][x - 1];
    }
  }

  lemma {:induction false} FirstNotBefore(log: seq<Entry>, t: int) returns (i: nat)
    requires IsLog(log)
    ensures i <= |log| && forall x :: 0 <= x < |log| ==> (x >= i <==> log[x].timestamp >= t)
    decreases |log|
  {
    i := |log|;
    if log != [] && log[|log| - 1].timestamp >= t {
      var front := log[..|log| - 1];
      assert IsLog(front);
      i := FirstNotBefore(front, t);
    } else if log != [] {
      forall x | 0 <= x < |log| - 1 ensures log[x].timestamp < t {
        assert RowBefore(log[x], log[|log| - 1]);
      }
    }
  }

  lemma {:induction false} SignatureBeforeIsBefore(log: seq<Entry>, t: int, i: nat)
    requires i <= |log| && forall x :: 0 <= x < |log| ==> (x >= i <==> log[x].timestamp >= t)
    ensures SignatureBefore(log, Some(t)) == Before(log, i, "")
    decreases |log|
  {
    if i < |log| { SignatureBeforeIsBefore(log[..|log| - 1], t, i); }
  }

  lemma {:induction false} SelectBetween(log: seq<Entry>, req: Request, cursor: Option<Entry>, i: nat, j: nat)
    requires i <= j <= |log| && forall x :: 0 <= x < |log| ==> (Wanted(req, cursor, log[x]) <==> i <= x < j)
    ensures Select(log, req, cursor) == log[i..j]
    decreases |log|
  {
    hide Wanted;
    if log != [] {
      var t := log[1..];
      assert forall x :: 0 <= x < |t| ==> t[x] == log[x + 1];
      var a, b := if i > 0 then i - 1 else 0, if j > 0 then j - 1 else 0;
      SelectBetween(t, req, cursor, a, b);
      assert log[i..j] == (if i == 0 < j then [log[0]] else []) + t[a..b];
    }
  }

  lemma AfterCursor(log: seq<Entry>, c: nat, x: nat)
    requires IsLog(log) && c < |log| && x < |log|
    ensures RowBefore(log[c], log[x]) <==> c < x
    ensures forall d :: 0 <= d < |log| && log[d].id == log[c].id ==> d == c
  {
    if x < c { RowBeforeIrreflexive(log[x], log[c]); }
    LexTotal(log[c].id, log[c].id);
    hide RowBefore;
  }

  /** Where a window starts, and the signature its first row must follow. */
  lemma StartOfWindow(log: seq<Entry>, req: Request, n: nat) returns (i: nat, cursor: Option<Entry>)
    requires IsLog(log) && Window(log, req, n).Success?
    ensures i <= |log| && forall x :: 0 <= x < |log| ==> (x >= i <==> PastStart(log, req, x))
    ensures Window(log, req, n) == Success((Before(log, i, ""), Take(Select(log, req, cursor), n)))
    ensures forall x :: 0 <= x < |log| ==> (Wanted(req, cursor, log[x]) <==> x >= i && WithinEnd(req, log[x]))
  {
    if req.afterId != "" {
      var c := FindRowExactlyWhen(log, req.afterId);
      i, cursor := c + 1, Some(log[c]);
      forall x | 0 <= x < |log| ensures RowBefore(log[c], log[x]) <==> c < x { AfterCursor(log, c, x); }
      AfterCursor(log, c, c);
    } else if req.from.Some? {
      i := FirstNotBefore(log, req.from.value);
      cursor := None;
      SignatureBeforeIsBefore(log, req.from.value, i);
    } else {
      i, cursor := 0, None;
    }
  }

  /** Every window is a stretch of the log, up to its limit: the rows past its start stamped no later
      than its end, all of them and no others, after the signature of the row before. */
  lemma WindowIsAStretch(log: seq<Entry>, req: Request, n: nat) returns (i: nat, j: nat)
    requires IsLog(log) && Window(log, req, n).Success?
    ensures IsStretch(log, req, i, j)
    ensures Window(log, req, n) == Success((Before(log, i, ""), Take(log[i..j], n)))
  {
    var cursor: Option<Entry>;
    i, cursor := StartOfWindow(log, req, n);
    j := |log|;
    if req.to.Some? {
      j := FirstNotBefore(log, req.to.value + 1);
      if j < i { j := i; }
    }
    hide IsLog, Window, PastStart;
    SelectBetween(log, req, cursor, i, j);
  }

  /** A range is refused without a key, or for a cursor no row has, and otherwise answered. */
  lemma RangeRefusedExactlyWhen(mac: Mac, log: seq<Entry>, key: string, req: Request)
    ensures RangeAnswer(mac, log, key, req) == Failure(SigningOff) <==> key == ""
    ensures RangeAnswer(mac, log, key, req) == Failure(UnknownCursor) <==>
              key != "" && req.afterId != "" && forall x :: 0 <= x < |log| ==> log[x].id != req.afterId
    ensures RangeAnswer(mac, log, key, req) != Failure(TailUnreadable)
  {
    var k := FindRowExactlyWhen(log, req.afterId);
    hide Report, Select, SignatureBefore;
  }

  /** An answer is the chain check of the range's stretch, up to the limit, with those of one instant
      in chain order. */
  lemma RangeIsAStretch(mac: Mac, log: seq<Entry>, key: string, req: Request) returns (i: nat, j: nat)
    requires IsLog(log) && RangeAnswer(mac, log, key, req).Success?
    ensures IsStretch(log, req, i, j)
    ensures var n, g := EffectiveLimit(req.limit), Before(log, i, "");
            RangeAnswer(mac, log, key, req) == Success(Report(mac, Ordered(Take(log[i..j], n), g), key, g, j - i > n))
  {
    var n := EffectiveLimit(req.limit);
    i, j := WindowIsAStretch(log, req, n + 1);
    AnswerOfWindow(mac, log, key, req, Before(log, i, ""), log[i..j]);
    hide RangeAnswer, Window, Report, Take, IsLog, Before;
  }

  lemma TakeLess(es: seq<Entry>, n: nat)
    ensures Take(Take(es, n + 1), n) == Take(es, n) && (|Take(es, n + 1)| > n <==> |es| > n)
  {
  }

  /** Over distinct timestamps: a range is unbroken exactly when each of its first rows, up to the
      limit, is intact in the log, and then as many are counted; it is complete when they are all. */
  lemma RangeVerifiesExactlyWhen(mac: Mac, log: seq<Entry>, key: string, req: Request, r: VerifyResult)
      returns (i: nat, m: nat, j: nat)
    requires IsLog(log) && DistinctTimes(log) && RangeAnswer(mac, log, key, req) == Success(r)
    ensures IsStretch(log, req, i, j) && i <= m <= j
    ensures m == j || m - i == EffectiveLimit(req.limit)
    ensures r.broken.None? <==> forall x :: i <= x < m ==> IntactAt(mac, key, log, "", x)
    ensures r.broken.None? ==> r.checked == m - i
    ensures r.complete <==> r.broken.None? && m == j
  {
    i, j := RangeIsAStretch(mac, log, key, req);
    var n, g := EffectiveLimit(req.limit), Before(log, i, "");
    hide *;
    assert i <= j <= |log| by { StretchBounds(log, req, i, j); }
    m := TakeOfStretch(log, i, j, n);
    DistinctStretchStays(log, i, m, g);
    StretchVerdict(mac, log, key, i, m);
    ReportMeans(mac, log[i..m], key, g, j - i > n);
  }

  lemma StretchBounds(log: seq<Entry>, req: Request, i: nat, j: nat)
    requires IsStretch(log, req, i, j)
    ensures i <= j <= |log|
  {
  }

  lemma TakeOfStretch(log: seq<Entry>, i: nat, j: nat, n: nat) returns (m: nat)
    requires i <= j <= |log|
    ensures i <= m <= j && m == (if j - i > n then i + n else j) && Take(log[i..j], n) == log[i..m]
  {
    m := if j - i > n then i + n else j;
  }

  lemma ReportMeans(mac: Mac, es: seq<Entry>, key: string, g: string, more: bool)
    requires more ==> |es| > 0
    ensures var r := Report(mac, es, key, g, more);
            && (r.broken.None? <==> Verdict(mac, es, key, g).None?) && (r.broken.None? ==> r.checked == |es|)
            && (r.complete <==> r.broken.None? && !more)
  {
    hide Verdict;
  }

  lemma DistinctStretchStays(log: seq<Entry>, i: nat, m: nat, g: string)
    requires DistinctTimes(log) && i <= m <= |log|
    ensures Ordered(log[i..m], g) == log[i..m]
  {
    var es := log[i..m];
    forall x, y | 0 <= x < y < |es| ensures es[x].timestamp != es[y].timestamp {
      assert es[x] == log[i + x] && es[y] == log[i + y];
    }
    OrderTiesKeepsDistinctTimes(es, g);
  }

  lemma StretchVerdict(mac: Mac, log: seq<Entry>, key: string, i: nat, m: nat)
    requires key != "" && i <= m <= |log|
    ensures Verdict(mac, log[i..m], key, Before(log, i, "")).None? <==>
              forall x :: i <= x < m ==> IntactAt(mac, key, log, "", x)
  {
    VerdictMeaning(mac, log[i..m], key, Before(log, i, ""));
    StretchIsIntact(mac, log, key, i, m);
    hide Verdict, Intact, IntactAt;
  }

  lemma StretchIsIntact(mac: Mac, log: seq<Entry>, key: string, i: nat, m: nat)
    requires i <= m <= |log|
    ensures Intact(mac, key, log[i..m], Before(log, i, "")) <==>
              forall x :: i <= x < m ==> IntactAt(mac, key, log, "", x)
  {
    hide IntactAt;
    forall x | 0 <= x < m - i
      ensures IntactAt(mac, key, log[i..m], Before(log, i, ""), x) <==> IntactAt(mac, key, log, "", i + x)
    {
      StretchIntact(mac, log, key, i, m, x);
    }
    forall x | i <= x < m
      ensures IntactAt(mac, key, log, "", x) <==> IntactAt(mac, key, log[i..m], Before(log, i, ""), x - i)
    {
      StretchIntact(mac, log, key, i, m, x - i);
    }
  }

  // ----- Following the cursor through the whole log -----

  ghost predicate IsAnswer(mac: Mac, log: seq<Entry>, key: string, cursor: string, limit: int, a: VerifyResult) {
    RangeAnswer(mac, log, key, ContinueFrom(cursor, limit)) == Success(a)
  }

  /** The answers a client gets that starts at the beginning and continues after the
      cursor of each answer, with any limits, until there is no cursor. */
  ghost predicate IsFollowing(mac: Mac, log: seq<Entry>, key: string, limits: seq<int>, answers: seq<VerifyResult>) {
    && |limits| == |answers|
    && forall w :: 0 <= w < |answers| ==>
         && IsAnswer(mac, log, key, CursorBefore(answers, w), limits[w], answers[w])
         && (w < |answers| - 1 ==> answers[w].nextAfterId != "")
  }

  /** The Checked counts of the first `w` answers, added up. */
  function SumChecked(answers: seq<VerifyResult>, w: nat): int
    requires w <= |answers|
  {
    if w == 0 then 0 else SumChecked(answers, w - 1) + answers[w - 1].checked
  }

  ghost predicate IntactTo(mac: Mac, key: string, log: seq<Entry>, k: nat) {
    k <= |log| && forall j :: 0 <= j < k ==> IntactAt(mac, key, log, "", j)
  }

  lemma WindowExtends(mac: Mac, log: seq<Entry>, key: string, k: nat, m: nat)
    requires key != "" && IntactTo(mac, key, log, k) && k <= m <= |log|
    requires Verdict(mac, log[k..m], key, Before(log, k, "")).None?
    ensures IntactTo(mac, key, log, m)
  {
    VerdictMeaning(mac, log[k..m], key, Before(log, k, ""));
    forall j | k <= j < m ensures IntactAt(mac, key, log, "", j) {
      assert IntactAt(mac, key, log[k..m], Before(log, k, ""), j - k);
      StretchIntact(mac, log, key, k, m, j - k);
    }
  }

  /** A break a window finds is the first break of the whole log. */
  lemma WindowBreak(mac: Mac, log: seq<Entry>, key: string, k: nat, m: nat)
    requires key != "" && IntactTo(mac, key, log, k) && k <= m <= |log|
    requires Verdict(mac, log[k..m], key, Before(log, k, "")).Some?
    ensures var err := Verdict(mac, log[k..m], key, Before(log, k, "")).value;
            Verdict(mac, log, key, "") == Some(ChainError(k + err.index, err.id, err.reason))
  {
    var g := Before(log, k, "");
    VerdictMeaning(mac, log[k..m], key, g);
    var err := Verdict(mac, log[k..m], key, g).value;
    var at := k + err.index;
    forall j | 0 <= j < at ensures IntactAt(mac, key, log, "", j) {
      if j >= k {
        assert IntactAt(mac, key, log[k..m], g, j - k);
        StretchIntact(mac, log, key, k, m, j - k);
      }
    }
    StretchIntact(mac, log, key, k, m, err.index);
    FirstFaultIsReported(mac, log, key, "", 0, at);
  }

  /** A client that has checked the first `k` rows holds `cursor`, and they are intact. */
  ghost predicate Reached(mac: Mac, key: string, log: seq<Entry>, cursor: string, k: int) {
    0 <= k <= |log| && IntactTo(mac, key, log, k) && cursor == CursorAt(log, k)
  }

  /** A window that gives a cursor moves the client forward. */
  lemma WindowContinues(mac: Mac, log: seq<Entry>, key: string, cursor: string, k: nat, limit: int, a: VerifyResult)
    requires key != "" && IsLog(log) && DistinctTimes(log) && Reached(mac, key, log, cursor, k)
    requires IsAnswer(mac, log, key, cursor, limit, a) && a.nextAfterId != ""
    ensures a.checked > 0 && Reached(mac, key, log, a.nextAfterId, k + a.checked)
  {
    var n := EffectiveLimit(limit);
    DistinctWindowAnswer(mac, log, key, k, limit);
    assert |log| - k > n;
    assert Take(log[k..], n) == log[k..k + n];
    WindowExtends(mac, log, key, k, k + n);
  }

  /** A window that gives none has found the break, or the end of the log. */
  lemma WindowEnds(mac: Mac, log: seq<Entry>, key: string, cursor: string, k: nat, limit: int, a: VerifyResult)
    requires key != "" && IsLog(log) && DistinctTimes(log) && Reached(mac, key, log, cursor, k)
    requires IsAnswer(mac, log, key, cursor, limit, a) && a.nextAfterId == ""
    ensures match Verdict(mac, log, key, "")
            case None => a.complete && a.broken.None? && k + a.checked == |log|
            case Some(err) =>
              !a.complete && k + a.checked == err.index && a.broken == Some(ChainError(a.checked, err.id, err.reason))
  {
    var n := EffectiveLimit(limit);
    DistinctWindowAnswer(mac, log, key, k, limit);
    var m := if |log| - k > n then k + n else |log|;
    assert Take(log[k..], n) == log[k..m];
    if Verdict(mac, log[k..m], key, Before(log, k, "")).Some? {
      WindowBreak(mac, log, key, k, m);
    } else {
      assert m == |log|;
      WindowExtends(mac, log, key, k, m);
      VerdictMeaning(mac, log, key, "");
    }
  }

  function CursorBefore(answers: seq<VerifyResult>, w: nat): string
    requires w <= |answers|
  {
    if w == 0 then "" else answers[w - 1].nextAfterId
  }

  lemma ReachedAtStart(mac: Mac, key: string, log: seq<Entry>)
    ensures Reached(mac, key, log, "", 0)
  {
  }

  /** After `w` windows that each gave a cursor, the rows checked are the first ones,
      they are intact, and the cursor stands after the last of them. */
  lemma {:induction false} FollowingPosition(mac: Mac, log: seq<Entry>, key: string, limits: seq<int>,
        answers: seq<VerifyResult>, w: nat)
    requires key != "" && IsLog(log) && DistinctTimes(log) && IsFollowing(mac, log, key, limits, answers)
    requires w < |answers|
    ensures w <= SumChecked(answers, w)
    ensures Reached(mac, key, log, CursorBefore(answers, w), SumChecked(answers, w))
  {
    hide IsAnswer, IsLog, DistinctTimes, Reached;
    if w == 0 {
      ReachedAtStart(mac, key, log);
    } else {
      FollowingPosition(mac, log, key, limits, answers, w - 1);
      var k := SumChecked(answers, w - 1);
      assert SumChecked(answers, w) == k + answers[w - 1].checked
          && CursorBefore(answers, w) == answers[w - 1].nextAfterId;
      assert answers[w - 1].nextAfterId != "";
      WindowContinues(mac, log, key, CursorBefore(answers, w - 1), k, limits[w - 1], answers[w - 1]);
    }
  }

  /** Over a log with distinct timestamps, windowed verification is the whole verification.
      However the limits are chosen,
      a client that follows the cursor to its end is told the log is complete and
      unbroken exactly when VerifyChain accepts the whole log; otherwise it stops at
      the entry VerifyChain reports, and the Checked counts add up to its position.
      It needs at most one window more than there are entries. */
  lemma WindowsCompose(mac: Mac, log: seq<Entry>, key: string, limits: seq<int>, answers: seq<VerifyResult>)
    requires key != "" && IsLog(log) && DistinctTimes(log) && IsFollowing(mac, log, key, limits, answers)
    requires answers != [] && answers[|answers| - 1].nextAfterId == ""
    ensures var last := answers[|answers| - 1];
            match Verdict(mac, log, key, "")
            case None => last.complete && last.broken.None? && SumChecked(answers, |answers|) == |log|
            case Some(err) =>
              && !last.complete && SumChecked(answers, |answers|) == err.index
              && last.broken == Some(ChainError(last.checked, err.id, err.reason))
    ensures |answers| <= |log| + 1
  {
    var w := |answers| - 1;
    FollowingPosition(mac, log, key, limits, answers, w);
    hide IsAnswer, IsLog, DistinctTimes, Reached, Verdict;
    WindowEnds(mac, log, key, CursorBefore(answers, w), SumChecked(answers, w), limits[w], answers[w]);
  }
}
