/** Audit entries, their signatures, and the chain check (internal/audit/manager.go).
    Times are whole microseconds.  HMAC-SHA256 is any function from a key and a
    payload to text that is not empty. */
module AuditChain {
  import opened Wrappers
  import opened Text

  type Mac = f: (string, string) -> string | forall k, p :: f(k, p) != "" witness (k: string, p: string) => "0"

  datatype Entry = Entry(
    id: string, userId: string, action: string, resource: string, details: string,
    timestamp: int, ipAddress: string, signature: string, previousHash: string)

  const MICROS_PER_SECOND := 1_000_000

  /** Timestamp.Unix(). */
  function UnixSeconds(timestamp: int): (s: int)
    ensures s * 1_000_000 <= timestamp < (s + 1) * 1_000_000
  {
    timestamp / MICROS_PER_SECOND
  }

  /** What signEntry signs of an entry, in order. */
  function SignedFields(e: Entry): seq<string> {
    [e.id, e.userId, e.action, e.resource, e.details, ShowInt(UnixSeconds(e.timestamp)), e.ipAddress, e.previousHash]
  }

  /** The text signEntry signs. */
  function Payload(e: Entry): string {
    Joined('|', SignedFields(e))
  }

  function SignEntry(mac: Mac, e: Entry, key: string): string {
    mac(key, Payload(e))
  }

  // ----- VerifyChain -----

  datatype Reason = NoKey | Unsigned | WrongPredecessor | WrongSignature

  datatype ChainError = ChainError(index: int, id: string, reason: Reason)

  /** What is wrong with `e` when the entry before it has signature `prev`. */
  function Fault(mac: Mac, key: string, e: Entry, prev: string): Option<Reason> {
    if e.signature == "" then Some(Unsigned)
    else if e.previousHash != prev then Some(WrongPredecessor)
    else if e.signature != SignEntry(mac, e, key) then Some(WrongSignature)
    else None
  }

  /** Which fault is reported: no signature before a wrong predecessor, and that before a signature
      that is not the entry's. */
  lemma FaultsInOrder(mac: Mac, key: string, e: Entry, prev: string)
    ensures Fault(mac, key, e, prev) == Some(Unsigned) <==> e.signature == ""
    ensures Fault(mac, key, e, prev) == Some(WrongPredecessor) <==> e.signature != "" && e.previousHash != prev
    ensures Fault(mac, key, e, prev) == Some(WrongSignature) <==>
              e.signature != "" && e.previousHash == prev && e.signature != mac(key, Payload(e))
    ensures Fault(mac, key, e, prev) != Some(NoKey)
  {
  }

  /** The signature entry `i` must name as its predecessor's. */
  function Before(es: seq<Entry>, i: nat, genesis: string): string
    requires i <= |es|
  {
    if i == 0 then genesis else es[i - 1].signature
  }

  /** Entry `i` names the signature of the entry before it. */
  predicate LinkedAt(es: seq<Entry>, genesis: string, i: nat)
    requires i < |es|
  {
    es[i].previousHash == Before(es, i, genesis)
  }

  predicate IntactAt(mac: Mac, key: string, es: seq<Entry>, genesis: string, i: nat)
    requires i < |es|
  {
    Fault(mac, key, es[i], Before(es, i, genesis)) == None
  }

  /** Every entry is signed, with `key`, over its contents and its predecessor. */
  ghost predicate Intact(mac: Mac, key: string, es: seq<Entry>, genesis: string) {
    forall i :: 0 <= i < |es| ==> IntactAt(mac, key, es, genesis, i)
  }

  function VerdictFrom(mac: Mac, es: seq<Entry>, key: string, genesis: string, i: nat): Option<ChainError>
    requires i <= |es|
    decreases |es| - i
  {
    if i == |es| then None
    else
      match Fault(mac, key, es[i], Before(es, i, genesis))
      case Some(reason) => Some(ChainError(i, es[i].id, reason))
      case None => VerdictFrom(mac, es, key, genesis, i + 1)
  }

  /** The answer of VerifyChain. */
  function Verdict(mac: Mac, es: seq<Entry>, key: string, genesis: string): Option<ChainError> {
    if key == "" then Some(ChainError(-1, "", NoKey)) else VerdictFrom(mac, es, key, genesis, 0)
  }

  method VerifyChain(mac: Mac, entries: seq<Entry>, key: string, genesis: string) returns (err: Option<ChainError>)
    ensures err == Verdict(mac, entries, key, genesis)
    ensures key == "" ==> err == Some(ChainError(-1, "", NoKey))
    ensures key != "" ==> (err.None? <==> Intact(mac, key, entries, genesis))
  {
    if key != "" { VerdictMeaning(mac, entries, key, genesis); }
    hide Intact;
    if key == "" {
      return Some(ChainError(-1, "", NoKey));
    }
    var prev := genesis;
    for i := 0 to |entries|
      invariant prev == Before(entries, i, genesis)
      invariant Verdict(mac, entries, key, genesis) == VerdictFrom(mac, entries, key, genesis, i)
    {
      var entry := entries[i];
      if entry.signature == "" {
        return Some(ChainError(i, entry.id, Unsigned));
      }
      if entry.previousHash != prev {
        return Some(ChainError(i, entry.id, WrongPredecessor));
      }
      var want := SignEntry(mac, entry, key);
      if entry.signature != want {
        return Some(ChainError(i, entry.id, WrongSignature));
      }
      prev := entry.signature;
    }
    return None;
  }

  /** The reported break is the first one: everything before it is intact. */
  lemma {:induction false} VerdictFromMeaning(mac: Mac, es: seq<Entry>, key: string, genesis: string, i: nat)
    requires i <= |es|
    ensures var v := VerdictFrom(mac, es, key, genesis, i);
            match v
            case None => forall j :: i <= j < |es| ==> IntactAt(mac, key, es, genesis, j)
            case Some(err) =>
              && i <= err.index < |es| && err.id == es[err.index].id
              && (forall j :: i <= j < err.index ==> IntactAt(mac, key, es, genesis, j))
              && Fault(mac, key, es[err.index], Before(es, err.index, genesis)) == Some(err.reason)
    decreases |es| - i
  {
    hide Fault, Before;
    if i < |es| {
      VerdictFromMeaning(mac, es, key, genesis, i + 1);
      assert VerdictFrom(mac, es, key, genesis, i) ==
             match Fault(mac, key, es[i], Before(es, i, genesis))
             case Some(reason) => Some(ChainError(i, es[i].id, reason))
             case None => VerdictFrom(mac, es, key, genesis, i + 1);
    }
  }

  /** VerifyChain accepts exactly the intact chains. */
  lemma VerdictMeaning(mac: Mac, es: seq<Entry>, key: string, genesis: string)
    requires key != ""
    ensures Verdict(mac, es, key, genesis).None? <==> Intact(mac, key, es, genesis)
    ensures Verdict(mac, es, key, genesis).Some? ==>
              var err := Verdict(mac, es, key, genesis).value;
              && 0 <= err.index < |es| && err.id == es[err.index].id
              && (forall j :: 0 <= j < err.index ==> IntactAt(mac, key, es, genesis, j))
              && Fault(mac, key, es[err.index], Before(es, err.index, genesis)) == Some(err.reason)
  {
    VerdictFromMeaning(mac, es, key, genesis, 0);
    var v := VerdictFrom(mac, es, key, genesis, 0);
    assert v.Some? ==> !IntactAt(mac, key, es, genesis, v.value.index);
  }

  /** The first fault determines the answer. */
  lemma {:induction false} FirstFaultIsReported(mac: Mac, es: seq<Entry>, key: string, genesis: string, i: nat, at: nat)
    requires key != "" && i <= at < |es|
    requires forall j :: i <= j < at ==> IntactAt(mac, key, es, genesis, j)
    requires !IntactAt(mac, key, es, genesis, at)
    ensures VerdictFrom(mac, es, key, genesis, i) ==
            Some(ChainError(at, es[at].id, Fault(mac, key, es[at], Before(es, at, genesis)).value))
    decreases at - i
  {
    if i < at {
      assert IntactAt(mac, key, es, genesis, i);
      FirstFaultIsReported(mac, es, key, genesis, i + 1, at);
    }
  }

  // ----- Only prefixes survive -----

  /** No two entries share a signature, and none has the genesis hash. */
  ghost predicate DistinctSignatures(es: seq<Entry>, genesis: string) {
    && (forall i, j :: 0 <= i < j < |es| ==> es[i].signature != es[j].signature)
    && (forall i :: 0 <= i < |es| ==> es[i].signature != genesis)
  }

  /** `at` is where `t` stops following `es`. */
  ghost predicate DepartsAt(t: seq<Entry>, es: seq<Entry>, at: nat) {
    at < |t| && at <= |es| && t[..at] == es[..at] && (at < |es| ==> t[at] != es[at])
  }

  lemma {:induction false} Departure(t: seq<Entry>, es: seq<Entry>) returns (at: nat)
    requires !(t <= es)
    ensures DepartsAt(t, es, at)
  {
    if |t| > 0 && |es| > 0 && t[0] == es[0] {
      assert t == [t[0]] + t[1..] && es == [es[0]] + es[1..];
      var rest := Departure(t[1..], es[1..]);
      at := rest + 1;
      assert t[..at] == [t[0]] + t[1..][..rest] && es[..at] == [es[0]] + es[1..][..rest];
    } else {
      at := 0;
    }
  }

  /** The entry after the first `at` entries of a chain can only be the next one. */
  lemma OnlyTheSuccessorFits(mac: Mac, key: string, es: seq<Entry>, genesis: string, at: nat, e: Entry)
    requires Intact(mac, key, es, genesis) && DistinctSignatures(es, genesis)
    requires at <= |es| && e in es && e.previousHash == Before(es, at, genesis)
    ensures at < |es| && e == es[at]
  {
    var j :| 0 <= j < |es| && es[j] == e;
    assert IntactAt(mac, key, es, genesis, j);
    assert e.previousHash == Before(es, j, genesis);
  }

  /** Out of the entries of an accepted chain, in any order, any number of times, VerifyChain
      accepts the prefixes of that chain and nothing else; otherwise it reports
      the first position that departs from the chain. */
  lemma OnlyPrefixesSurvive(mac: Mac, key: string, es: seq<Entry>, t: seq<Entry>, genesis: string)
    requires key != "" && Verdict(mac, es, key, genesis).None?
    requires DistinctSignatures(es, genesis)
    requires forall e :: e in t ==> e in es
    ensures Verdict(mac, t, key, genesis).None? <==> t <= es
    ensures forall at: nat :: DepartsAt(t, es, at) ==>
              Verdict(mac, t, key, genesis) == Some(ChainError(at, t[at].id, WrongPredecessor))
  {
    VerdictMeaning(mac, es, key, genesis);
    forall at: nat | DepartsAt(t, es, at)
      ensures Verdict(mac, t, key, genesis) == Some(ChainError(at, t[at].id, WrongPredecessor))
    {
      forall j | 0 <= j < at ensures IntactAt(mac, key, t, genesis, j) {
        assert t[j] == t[..at][j] == es[..at][j] == es[j];
        assert j > 0 ==> t[j - 1] == t[..at][j - 1] == es[..at][j - 1] == es[j - 1];
        assert IntactAt(mac, key, es, genesis, j);
      }
      assert t[at] in es;
      var j :| 0 <= j < |es| && es[j] == t[at];
      assert IntactAt(mac, key, es, genesis, j);
      assert at > 0 ==> t[at - 1] == t[..at][at - 1] == es[..at][at - 1] == es[at - 1];
      if t[at].previousHash == Before(t, at, genesis) {
        OnlyTheSuccessorFits(mac, key, es, genesis, at, t[at]);
      }
      FirstFaultIsReported(mac, t, key, genesis, 0, at);
    }
    if t <= es {
      forall j | 0 <= j < |t| ensures IntactAt(mac, key, t, genesis, j) {
        assert IntactAt(mac, key, es, genesis, j);
      }
      VerdictMeaning(mac, t, key, genesis);
    } else {
      var at := Departure(t, es);
    }
  }

  // ----- What a signature covers -----

  ghost predicate CollisionFree(mac: Mac, key: string) {
    forall p, q :: mac(key, p) == mac(key, q) ==> p == q
  }

  /** Editing an entry in place, keeping its signature, is detected at that entry
      exactly when the edit changes the signed text. */
  lemma EditDetected(mac: Mac, key: string, es: seq<Entry>, genesis: string, i: nat, e: Entry)
    requires key != "" && CollisionFree(mac, key)
    requires Verdict(mac, es, key, genesis).None?
    requires i < |es| && e.signature == es[i].signature && e.previousHash == es[i].previousHash
    ensures Verdict(mac, es[i := e], key, genesis).None? <==> Payload(e) == Payload(es[i])
    ensures Payload(e) != Payload(es[i]) ==>
              Verdict(mac, es[i := e], key, genesis) == Some(ChainError(i, e.id, WrongSignature))
  {
    var t := es[i := e];
    VerdictMeaning(mac, es, key, genesis);
    forall j | 0 <= j < |t| && (j != i || Payload(e) == Payload(es[i])) ensures IntactAt(mac, key, t, genesis, j) {
      assert IntactAt(mac, key, es, genesis, j);
    }
    assert IntactAt(mac, key, es, genesis, i);
    if Payload(e) != Payload(es[i]) {
      FirstFaultIsReported(mac, t, key, genesis, 0, i);
    } else {
      VerdictMeaning(mac, t, key, genesis);
    }
  }

  /** No field holds the separator. */
  predicate BarFree(e: Entry) {
    && '|' !in e.id && '|' !in e.userId && '|' !in e.action && '|' !in e.resource && '|' !in e.details
    && '|' !in e.ipAddress && '|' !in e.previousHash
  }

  /** The same entry, but for its signature and the part of a second it was stamped in. */
  predicate SameSigned(d: Entry, e: Entry) {
    d.(timestamp := 0, signature := "") == e.(timestamp := 0, signature := "")
    && UnixSeconds(d.timestamp) == UnixSeconds(e.timestamp)
  }

  lemma ShowIntHasNoBar(n: int)
    ensures '|' !in ShowInt(n)
  {
    DecimalIsDigits(if n < 0 then -n else n);
  }

  lemma BarFreeFields(e: Entry)
    ensures SeparatorFree('|', SignedFields(e)) <==> BarFree(e)
  {
    var fs := SignedFields(e);
    ShowIntHasNoBar(UnixSeconds(e.timestamp));
    hide ShowInt, UnixSeconds;
    if SeparatorFree('|', fs) {
      assert fs[0] == e.id && fs[1] == e.userId && fs[2] == e.action && fs[3] == e.resource && fs[4] == e.details;
      assert fs[6] == e.ipAddress && fs[7] == e.previousHash;
    }
  }

  lemma SameFields(d: Entry, e: Entry)
    ensures SignedFields(d) == SignedFields(e) <==> SameSigned(d, e)
  {
    var xs, ys := SignedFields(d), SignedFields(e);
    if xs == ys {
      assert xs[0] == ys[0] && xs[1] == ys[1] && xs[2] == ys[2] && xs[3] == ys[3] && xs[4] == ys[4];
      assert xs[5] == ys[5] && xs[6] == ys[6] && xs[7] == ys[7];
      ShowIntInjective(UnixSeconds(d.timestamp), UnixSeconds(e.timestamp));
    }
  }

  /** The signed text of an entry without separators is its own: an entry that has it, with
      or without separators in its fields, is the same but for the part of a second. */
  lemma PayloadCoversFields(d: Entry, e: Entry)
    requires BarFree(d)
    ensures Payload(d) == Payload(e) <==> SameSigned(d, e)
  {
    BarFreeFields(d);
    SameFields(d, e);
    if Payload(d) == Payload(e) {
      JoinedReadsBack('|', SignedFields(d), SignedFields(e));
    }
  }

  /** With a separator inside a field it is not: text moves between that field and the next
      or the one before, under the same signature. */
  lemma SeparatorMovesBetweenFields(d: Entry) returns (e: Entry)
    requires !BarFree(d)
    ensures Payload(e) == Payload(d) && !SameSigned(d, e) && e.timestamp == d.timestamp && e.signature == d.signature
  {
    hide Joined, ShowInt, UnixSeconds;
    if '|' in d.id {
      var a, b := FirstSeparator('|', d.id);
      e := d.(id := a, userId := b + "|" + d.userId);
      SeparatorMoves(SignedFields(d), SignedFields(e), 0, a, b, d.userId);
    } else if '|' in d.userId {
      var a, b := FirstSeparator('|', d.userId);
      e := d.(userId := a, action := b + "|" + d.action);
      SeparatorMoves(SignedFields(d), SignedFields(e), 1, a, b, d.action);
    } else if '|' in d.action {
      var a, b := FirstSeparator('|', d.action);
      e := d.(action := a, resource := b + "|" + d.resource);
      SeparatorMoves(SignedFields(d), SignedFields(e), 2, a, b, d.resource);
    } else if '|' in d.resource {
      var a, b := FirstSeparator('|', d.resource);
      e := d.(resource := a, details := b + "|" + d.details);
      SeparatorMoves(SignedFields(d), SignedFields(e), 3, a, b, d.details);
    } else if '|' in d.details {
      var a, b := FirstSeparator('|', d.details);
      e := d.(resource := d.resource + "|" + a, details := b);
      SeparatorMoves(SignedFields(e), SignedFields(d), 3, d.resource, a, b);
    } else if '|' in d.ipAddress {
      var a, b := FirstSeparator('|', d.ipAddress);
      e := d.(ipAddress := a, previousHash := b + "|" + d.previousHash);
      SeparatorMoves(SignedFields(d), SignedFields(e), 6, a, b, d.previousHash);
    } else {
      var a, b := FirstSeparator('|', d.previousHash);
      e := d.(ipAddress := d.ipAddress + "|" + a, previousHash := b);
      SeparatorMoves(SignedFields(e), SignedFields(d), 6, d.ipAddress, a, b);
    }
  }

  /** Two lists of fields that differ only in which side of a field's end a text is on. */
  lemma SeparatorMoves(xs: seq<string>, ys: seq<string>, i: nat, a: string, b: string, c: string)
    requires i + 1 < |xs| == |ys| && xs[i] == a + "|" + b && xs[i + 1] == c && ys[i] == a && ys[i + 1] == b + "|" + c
    requires forall j :: 0 <= j < |xs| && j != i && j != i + 1 ==> xs[j] == ys[j]
    ensures Joined('|', xs) == Joined('|', ys)
  {
    hide Joined;
    var pre, post := xs[..i], xs[i + 2..];
    FieldsAround(xs, ys, i, b);
    SeparatorEndsField('|', pre, a, b, [c] + post);
    SeparatorEndsField('|', pre + [a], b, c, post);
  }

  lemma FieldsAround<T>(xs: seq<T>, ys: seq<T>, i: nat, b: T)
    requires i + 1 < |xs| == |ys| && forall j :: 0 <= j < |xs| && j != i && j != i + 1 ==> xs[j] == ys[j]
    ensures var pre, post, a, c := xs[..i], xs[i + 2..], ys[i], xs[i + 1];
            && xs == pre + [xs[i]] + ([c] + post) && ys == (pre + [a]) + [ys[i + 1]] + post
            && pre + [a, b] + ([c] + post) == (pre + [a]) + [b, c] + post
  {
  }

  /** The signed text determines every field of an entry, and the second it was stamped in,
      exactly when no field of it holds the separator, whatever other entries hold. */
  lemma PayloadCoversFieldsExactlyWhen(d: Entry)
    ensures BarFree(d) <==> forall e :: Payload(e) == Payload(d) ==> SameSigned(d, e)
  {
    if BarFree(d) {
      forall e | Payload(e) == Payload(d) ensures SameSigned(d, e) { PayloadCoversFields(d, e); }
    } else {
      var e := SeparatorMovesBetweenFields(d);
    }
  }

  /** Editing an entry without separators, in any way that keeps its signature, is
      accepted exactly when no field and no second changes; any other edit is
      reported, at that entry. */
  lemma EditOfPlainEntryDetected(mac: Mac, key: string, es: seq<Entry>, genesis: string, i: nat, e: Entry)
    requires key != "" && CollisionFree(mac, key)
    requires Verdict(mac, es, key, genesis).None?
    requires i < |es| && BarFree(es[i]) && e.signature == es[i].signature
    ensures Verdict(mac, es[i := e], key, genesis) ==
            if SameSigned(es[i], e) then None
            else Some(ChainError(i, e.id, if e.previousHash != es[i].previousHash then WrongPredecessor
                else WrongSignature))
  {
    PayloadCoversFields(es[i], e);
    if e.previousHash == es[i].previousHash {
      EditDetected(mac, key, es, genesis, i, e);
    } else {
      hide Payload, SignEntry;
      var t := es[i := e];
      VerdictMeaning(mac, es, key, genesis);
      forall j | 0 <= j < i ensures IntactAt(mac, key, t, genesis, j) {
        assert IntactAt(mac, key, es, genesis, j);
      }
      assert IntactAt(mac, key, es, genesis, i);
      FirstFaultIsReported(mac, t, key, genesis, 0, i);
    }
  }

  /** Entries with distinct ids have distinct signatures. */
  lemma DistinctIdsSignDistinctly(mac: Mac, key: string, d: Entry, e: Entry)
    requires CollisionFree(mac, key)
    requires d.id != e.id && '|' !in d.id && '|' !in e.id
    ensures SignEntry(mac, d, key) != SignEntry(mac, e, key)
  {
    if Payload(d) == Payload(e) {
      SplitAtSeparator('|', d.id, Payload(d)[|d.id| + 1..], e.id, Payload(e)[|e.id| + 1..]);
    }
  }
}
