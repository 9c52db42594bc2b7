/** Stored second factors and the session key they are encrypted under
    (internal/auth/manager.go, crypto.go).  The cipher is symbolic: what is sealed under a
    key opens under that key and no other. */
module SecondFactor {
  import opened Wrappers

  const KEY_BYTES: nat := 32

  /** A stored secret: none, one stored before encryption at rest, one sealed under a key,
      or text with the encryption mark that is no ciphertext. */
  datatype Stored = Nothing | Plain(text: string) | Sealed(key: string, text: string) | Garbled(raw: string)

  datatype CryptoError = Undecryptable

  function Encrypt(key: string, text: string): Stored {
    if text == "" then Nothing else Sealed(key, text)
  }

  /** decryptSecret; a missing key opens nothing that is sealed. */
  function Decrypt(key: Option<string>, s: Stored): Result<string, CryptoError> {
    match s
    case Nothing => Success("")
    case Plain(text) => Success(text)
    case Sealed(k, text) => if key == Some(k) then Success(text) else Failure(Undecryptable)
    case Garbled(_) => Failure(Undecryptable)
  }

  /** What opens, and to what: nothing to nothing, what was never sealed to itself, what is sealed
      under its own key to what was sealed; text that is no ciphertext to nothing at all. */
  lemma OpensExactlyWhen(key: Option<string>, s: Stored, text: string)
    ensures Decrypt(key, s) == Success(text) <==>
            (s == Nothing && text == "") || s == Plain(text) || (key.Some? && s == Sealed(key.value, text))
    ensures Decrypt(Some("k"), Encrypt("k", text)) == Success(text) && !Encrypt("k", text).Plain?
  {
  }

  predicate EncryptedUnder(key: string, s: Stored) {
    (s.Sealed? || s.Garbled?) && Decrypt(Some(key), s).Success?
  }

  /** What moveSecondFactors leaves of one secret. */
  function Moved(from: Option<string>, to: string, s: Stored): Stored {
    if s.Nothing? || EncryptedUnder(to, s) then s
    else
      match Decrypt(from, s)
      case Success(text) => Encrypt(to, text)
      case Failure(_) => s
  }

  type Factors = map<string, Stored>

  function MovedAll(from: Option<string>, to: string, factors: Factors): Factors {
    map id | id in factors :: Moved(from, to, factors[id])
  }

  /** A stored secret is never sealed or plain and empty. */
  ghost predicate WellStored(factors: Factors) {
    forall id :: id in factors ==>
          !(factors[id].Plain? && factors[id].text == "") && !(factors[id].Sealed? && factors[id].text == "")
  }

  /** A secret that opens under the new key or the old one opens to the same text under the
      new key after a move; one that opens under neither is left as it is. */
  lemma MoveConserves(from: Option<string>, to: string, s: Stored)
    requires !(s.Plain? && s.text == "") && !(s.Sealed? && s.text == "")
    ensures Decrypt(Some(to), s).Success? ==> Decrypt(Some(to), Moved(from, to, s)) == Decrypt(Some(to), s)
    ensures Decrypt(Some(to), s).Failure? && Decrypt(from, s).Success? ==>
              Decrypt(Some(to), Moved(from, to, s)) == Decrypt(from, s)
    ensures Decrypt(Some(to), s).Failure? && Decrypt(from, s).Failure? ==> Moved(from, to, s) == s
    ensures Decrypt(Some(to), Moved(from, to, s)).Success? <==>
              Decrypt(Some(to), s).Success? || Decrypt(from, s).Success?
    ensures Decrypt(Some(to), Moved(from, to, s)).Success? && s != Nothing ==>
              Moved(from, to, s).Sealed? && Moved(from, to, s).key == to
  {
  }


  // ----- The code -----

  datatype Report = Report(moved: nat, unreadable: nat)

  datatype RotateError = KeyTooShort | WriteFailed

  /** Which secrets a pass re-encrypts, and which open under neither key. */
  ghost predicate Moves(from: Option<string>, to: string, s: Stored) {
    Moved(from, to, s) != s
  }

  ghost predicate Unreadable(from: Option<string>, to: string, s: Stored) {
    Decrypt(Some(to), s).Failure? && Decrypt(from, s).Failure?
  }

  ghost function MovesIn(from: Option<string>, to: string, stored: Factors, done: set<string>): set<string> {
    set id | id in done && id in stored && Moves(from, to, stored[id])
  }

  ghost function UnreadableIn(from: Option<string>, to: string, stored: Factors, done: set<string>): set<string> {
    set id | id in done && id in stored && Unreadable(from, to, stored[id])
  }

  /** What a pass reports once it has been over the accounts `done`. */
  ghost function ReportOf(from: Option<string>, to: string, stored: Factors, done: set<string>): Report {
    Report(|MovesIn(from, to, stored, done)|, |UnreadableIn(from, to, stored, done)|)
  }

  /** The secrets once a pass has been over the accounts `done`. */
  ghost function Rewritten(from: Option<string>, to: string, stored: Factors, done: set<string>): Factors {
    map id | id in stored :: if id in done then Moved(from, to, stored[id]) else stored[id]
  }

  /** One row of the pass: exactly one of left alone, unreadable and moved. */
  lemma RowCases(from: Option<string>, to: string, s: Stored)
    ensures s == Nothing || EncryptedUnder(to, s) ==>
              Moved(from, to, s) == s && !Moves(from, to, s) && !Unreadable(from, to, s)
    ensures s != Nothing && !EncryptedUnder(to, s) && Decrypt(from, s).Failure? ==>
              Moved(from, to, s) == s && !Moves(from, to, s) && Unreadable(from, to, s)
    ensures s != Nothing && !EncryptedUnder(to, s) && Decrypt(from, s).Success? ==>
              Moved(from, to, s) == Encrypt(to, Decrypt(from, s).value)
              && Moves(from, to, s) && !Unreadable(from, to, s)
  {
  }

  /** Where a pass starts and where it ends. */
  lemma PassEnds(from: Option<string>, to: string, stored: Factors)
    ensures ReportOf(from, to, stored, {}) == Report(0, 0)
    ensures Rewritten(from, to, stored, {}) == stored
    ensures Rewritten(from, to, stored, stored.Keys) == MovedAll(from, to, stored)
  {
    assert MovesIn(from, to, stored, {}) == {} && UnreadableIn(from, to, stored, {}) == {};
  }

  lemma MovesInStep(from: Option<string>, to: string, stored: Factors, done: set<string>, id: string)
    requires id in stored
    ensures MovesIn(from, to, stored, done + {id})
         == MovesIn(from, to, stored, done) + if Moves(from, to, stored[id]) then {id} else {}
  {
    hide Moves;
  }

  lemma UnreadableInStep(from: Option<string>, to: string, stored: Factors, done: set<string>, id: string)
    requires id in stored
    ensures UnreadableIn(from, to, stored, done + {id})
         == UnreadableIn(from, to, stored, done) + if Unreadable(from, to, stored[id]) then {id} else {}
  {
    hide Unreadable;
  }

  lemma RewrittenStep(from: Option<string>, to: string, stored: Factors, done: set<string>, id: string)
    requires id in stored && id !in done
    ensures Rewritten(from, to, stored, done + {id})
            == Rewritten(from, to, stored, done)[id := Moved(from, to, stored[id])]
    ensures Moved(from, to, stored[id]) == stored[id] ==>
              Rewritten(from, to, stored, done + {id}) == Rewritten(from, to, stored, done)
  {
    hide Moved;
  }

  lemma RowStep(from: Option<string>, to: string, stored: Factors, done: set<string>, id: string)
    requires id in stored && id !in done
    ensures var s, r := stored[id], ReportOf(from, to, stored, done);
            && ReportOf(from, to, stored, done + {id})
               == (if s == Nothing || EncryptedUnder(to, s) then r
                   else if Decrypt(from, s).Failure? then r.(unreadable := r.unreadable + 1)
                   else r.(moved := r.moved + 1))
            && Rewritten(from, to, stored, done + {id})
               == (if s == Nothing || EncryptedUnder(to, s)
                   || Decrypt(from, s).Failure? then Rewritten(from, to, stored, done)
                   else Rewritten(from, to, stored, done)[id := Encrypt(to, Decrypt(from, s).value)])
  {
    assert id !in MovesIn(from, to, stored, done) && id !in UnreadableIn(from, to, stored, done);
    hide Decrypt, EncryptedUnder, Encrypt, Moved, Moves, Unreadable, MovesIn, UnreadableIn, Rewritten;
    RowCases(from, to, stored[id]);
    MovesInStep(from, to, stored, done, id);
    UnreadableInStep(from, to, stored, done, id);
    RewrittenStep(from, to, stored, done, id);
  }

  class Manager {
    var key: string
    var factors: Factors

    constructor (key: string, factors: Factors)
      ensures this.key == key && this.factors == factors
    {
      this.key, this.factors := key, factors;
    }

    /** moveSecondFactors: one transaction over every stored secret.  `fails(id)` says whether
        the update of that row fails, `commits` whether the commit succeeds. */
    method MoveSecondFactors(from: Option<string>, to: string, fails: string -> bool, commits: bool)
      returns (r: Result<Report, RotateError>)
      modifies this`factors
      ensures r.Failure? ==> factors == old(factors)
      ensures r.Success? ==> factors == MovedAll(from, to, old(factors))
                             && r.value == ReportOf(from, to, old(factors), old(factors).Keys)
      ensures commits && (forall id :: !fails(id)) ==> r.Success?
    {
      hide Decrypt, EncryptedUnder, Encrypt, Moved, MovedAll, Moves, Unreadable, ReportOf, Rewritten;
      var stored := factors;
      var working := stored;
      var report := Report(0, 0);
      var todo := stored.Keys;
      ghost var done: set<string> := {};
      PassEnds(from, to, stored);
      while todo != {}
        invariant todo + done == stored.Keys && todo !! done
        invariant factors == stored
        invariant working == Rewritten(from, to, stored, done)
        invariant report == ReportOf(from, to, stored, done)
      {
        var id :| id in todo;
        todo := todo - {id};
        RowStep(from, to, stored, done, id);
        done := done + {id};
        var secret := stored[id];
        if secret != Nothing && !EncryptedUnder(to, secret) {
          var plain := Decrypt(from, secret);
          if plain.Failure? {
            report := report.(unreadable := report.unreadable + 1);
          } else {
            if fails(id) {
              return Failure(WriteFailed);
            }
            working := working[id := Encrypt(to, plain.value)];
            report := report.(moved := report.moved + 1);
          }
        }
      }
      if !commits {
        return Failure(WriteFailed);
      }
      assert done == stored.Keys;
      factors := working;
      return Success(report);
    }

    /** UpdateSymmetricKey: a rotation that fails anywhere leaves key and secrets alone. */
    method UpdateSymmetricKey(secret: string, fails: string -> bool, commits: bool) returns (err: Option<RotateError>)
      modifies this
      ensures err.Some? ==> key == old(key) && factors == old(factors)
      ensures err.None? ==> |secret| >= KEY_BYTES && key == secret[..KEY_BYTES]
                            && factors == if key == old(key) then old(factors)
                                else MovedAll(Some(old(key)), key, old(factors))
      ensures |secret| < KEY_BYTES ==> err == Some(KeyTooShort)
      ensures |secret| >= KEY_BYTES && secret[..KEY_BYTES] == old(key) ==> err.None?
      ensures |secret| >= KEY_BYTES && commits && (forall id :: !fails(id)) ==> err.None?
    {
      if |secret| < KEY_BYTES {
        return Some(KeyTooShort);
      }
      var next := secret[..KEY_BYTES];
      if key == next {
        return None;
      }
      var r := MoveSecondFactors(Some(key), next, fails, commits);
      if r.Failure? {
        return Some(r.error);
      }
      key := next;
      return None;
    }

    /** ReconcileSecondFactors; `previous` is "" when the operator names none. */
    method Reconcile(previous: string, fails: string -> bool, commits: bool) returns (r: Result<Report, RotateError>)
      modifies this`factors
      ensures r.Failure? ==> factors == old(factors)
      ensures r.Success? ==> factors == MovedAll(PreviousKey(previous), key, old(factors))
                             && r.value == ReportOf(PreviousKey(previous), key, old(factors), old(factors).Keys)
      ensures 0 < |previous| < KEY_BYTES ==> r == Failure(KeyTooShort)
      ensures !(0 < |previous| < KEY_BYTES) && commits && (forall id :: !fails(id)) ==> r.Success?
      ensures r.Success? && previous == "" ==> factors == MovedAll(None, key, old(factors))
      ensures r.Success? && previous != "" ==> factors == MovedAll(Some(previous[..32]), key, old(factors))
    {
      if previous != "" && |previous| < KEY_BYTES {
        return Failure(KeyTooShort);
      }
      r := MoveSecondFactors(PreviousKey(previous), key, fails, commits);
    }
  }

  function PreviousKey(previous: string): Option<string> {
    if |previous| < KEY_BYTES then None else Some(previous[..KEY_BYTES])
  }

  /** A second pass with the same previous key changes no row and reports none moved, and
      calls unreadable exactly the accounts the first one did. */
  lemma SecondPassMovesNone(from: Option<string>, to: string, stored: Factors)
    ensures MovedAll(from, to, MovedAll(from, to, stored)) == MovedAll(from, to, stored)
    ensures ReportOf(from, to, MovedAll(from, to, stored), stored.Keys)
         == Report(0, ReportOf(from, to, stored, stored.Keys).unreadable)
  {
    var once := MovedAll(from, to, stored);
    forall id | id in stored
      ensures Moved(from, to, once[id]) == once[id]
      ensures Unreadable(from, to, once[id]) == Unreadable(from, to, stored[id])
    {
    }
    assert MovesIn(from, to, once, stored.Keys) == {};
    assert UnreadableIn(from, to, once, stored.Keys) == UnreadableIn(from, to, stored, stored.Keys);
  }

  // ----- Interleaved runs, ordered by secondFactorMu -----

  /** A code check under the read lock: whose secret it read, and what it opened to. */
  datatype Held = Held(id: string, stored: Stored, text: string)

  datatype State = State(key: string, factors: Factors, readers: map<nat, Held>)

  datatype Event =
    | BeginCheck(flow: nat, id: string)
    | WriteBack(flow: nat)
    | EndCheck(flow: nat)
    | Enrol(id: string, text: string)
    | Reset(id: string)
    | Create(id: string)
    | Delete(id: string)
    | Rotate(next: string)
    | Reconcile(previous: Option<string>)

  /** Rotations and reconciles take the lock exclusively; checks hold it for reading from the
      moment they read the secret until they are done writing it back. */
  ghost predicate Next(s: State, e: Event, s': State) {
    match e
    case BeginCheck(f, id) =>
      && f !in s.readers && id in s.factors && Decrypt(Some(s.key), s.factors[id]).Success?
      && s' == s.(readers := s.readers[f := Held(id, s.factors[id], Decrypt(Some(s.key), s.factors[id]).value)])
    case WriteBack(f) =>
      && f in s.readers
      && s' == if s.readers[f].id in s.factors then s.(factors := s.factors[s.readers[f].id := s.readers[f].stored])
          else s
    case EndCheck(f) => f in s.readers && s' == s.(readers := s.readers - {f})
    case Enrol(id, text) => id in s.factors && text != "" && s' == s.(factors := s.factors[id := Encrypt(s.key, text)])
    case Reset(id) => id in s.factors && s' == s.(factors := s.factors[id := Nothing])
    case Create(id) => id !in s.factors && s' == s.(factors := s.factors[id := Nothing])
    case Delete(id) => s' == s.(factors := s.factors - {id})
    case Rotate(next) =>
      && s.readers == map[]
      && s' == if next == s.key then s else s.(key := next, factors := MovedAll(Some(s.key), next, s.factors))
    case Reconcile(previous) => s.readers == map[] && s' == s.(factors := MovedAll(previous, s.key, s.factors))
  }

  /** The account whose factor an event replaces on purpose. */
  predicate Replaces(e: Event, id: string) {
    (e.Enrol? || e.Reset? || e.Create? || e.Delete?) && e.id == id
  }

  /** What a check holds still opens, under the key in force, to what it opened to. */
  ghost predicate LockHolds(s: State) {
    && WellStored(s.factors)
    && forall f :: f in s.readers ==>
         && Decrypt(Some(s.key), s.readers[f].stored) == Success(s.readers[f].text)
         && !(s.readers[f].stored.Plain? && s.readers[f].stored.text == "")
         && !(s.readers[f].stored.Sealed? && s.readers[f].stored.text == "")
  }

  lemma StepKeepsLock(s: State, e: Event, s': State)
    requires LockHolds(s) && Next(s, e, s')
    ensures LockHolds(s')
  {
  }

  /** The factor of `id` opens to `text`, for the process and for every check that holds it. */
  ghost predicate OpensTo(s: State, id: string, text: string) {
    && id in s.factors && Decrypt(Some(s.key), s.factors[id]) == Success(text)
    && forall f :: f in s.readers && s.readers[f].id == id ==> s.readers[f].text == text
  }

  lemma StepConserves(s: State, e: Event, s': State, id: string, text: string)
    requires LockHolds(s) && Next(s, e, s') && !Replaces(e, id)
    requires OpensTo(s, id, text)
    ensures OpensTo(s', id, text)
  {
    if e.Rotate? && e.next != s.key {
      MoveConserves(Some(s.key), e.next, s.factors[id]);
    } else if e.Reconcile? {
      MoveConserves(e.previous, s.key, s.factors[id]);
    }
  }

  datatype Run = Run(states: seq<State>, events: seq<Event>)

  ghost predicate IsRun(run: Run) {
    && |run.states| == |run.events| + 1
    && LockHolds(run.states[0])
    && forall k :: 0 <= k < |run.events| ==> Next(run.states[k], run.events[k], run.states[k + 1])
  }

  lemma {:induction false} RunKeepsLock(run: Run, k: nat)
    requires IsRun(run) && k < |run.states|
    ensures LockHolds(run.states[k])
  {
    if k > 0 {
      RunKeepsLock(run, k - 1);
      StepKeepsLock(run.states[k - 1], run.events[k - 1], run.states[k]);
    }
  }

  /** What replaces a factor leaves: an enrolment the secret enrolled, under the key in force, a reset
      and a new account none, a deletion no row. */
  lemma ReplacementsTake(s: State, e: Event, s': State)
    requires Next(s, e, s') && (e.Enrol? || e.Reset? || e.Create? || e.Delete?)
    ensures e.Enrol? ==> e.id in s'.factors && s'.factors[e.id].Sealed?
                         && Decrypt(Some(s'.key), s'.factors[e.id]) == Success(e.text)
    ensures e.Reset? || e.Create? ==> e.id in s'.factors && s'.factors[e.id] == Nothing
    ensures e.Delete? ==> e.id !in s'.factors
    ensures s'.key == s.key && s'.readers == s.readers
    ensures forall id :: id != e.id ==> SameRow(s, s', id)
  {
  }

  /** So an enrolment with no check under way opens to what was enrolled for as long as nobody
      replaces it, through every rotation, reconcile and check that follows. */
  lemma EnrolmentLasts(run: Run, i: nat, k: nat, id: string, text: string)
    requires IsRun(run) && i < k < |run.states| && run.events[i] == Enrol(id, text)
    requires forall f :: f in run.states[i].readers ==> run.states[i].readers[f].id != id
    requires forall j :: i < j < k ==> !Replaces(run.events[j], id)
    ensures OpensTo(run.states[k], id, text)
  {
    assert Next(run.states[i], run.events[i], run.states[i + 1]);
    ReplacementsTake(run.states[i], run.events[i], run.states[i + 1]);
    hide Next, LockHolds;
    FactorsSurvive(run, i + 1, k, id, text);
  }

  /** No enrolment is lost: over any interleaving of checks that write the secret back,
      rotations and reconciles, a factor nobody replaces opens to the same text under
      whatever key is in force. */
  lemma {:induction false} FactorsSurvive(run: Run, i: nat, k: nat, id: string, text: string)
    requires IsRun(run) && i <= k < |run.states| && OpensTo(run.states[i], id, text)
    requires forall j :: i <= j < k ==> !Replaces(run.events[j], id)
    ensures OpensTo(run.states[k], id, text)
    decreases k - i
  {
    if i < k {
      hide Next, LockHolds, OpensTo;
      FactorsSurvive(run, i, k - 1, id, text);
      RunKeepsLock(run, k - 1);
      StepConserves(run.states[k - 1], run.events[k - 1], run.states[k], id, text);
    }
  }

  /** The factor of `id` is `x`, which the key in force does not open and no check holds. */
  ghost predicate Shut(s: State, id: string, x: Stored) {
    && id in s.factors && s.factors[id] == x && Decrypt(Some(s.key), x).Failure?
    && forall f :: f in s.readers ==> s.readers[f].id != id
  }

  /** A rotation to, or a reconcile from, a key that opens `x`. */
  predicate BringsTheKey(e: Event, x: Stored) {
    || (e.Rotate? && Decrypt(Some(e.next), x).Success?)
    || (e.Reconcile? && Decrypt(e.previous, x).Success?)
  }

  lemma StepLeavesShut(s: State, e: Event, s': State, id: string, x: Stored)
    requires LockHolds(s) && Next(s, e, s') && !Replaces(e, id) && !BringsTheKey(e, x)
    requires Shut(s, id, x)
    ensures Shut(s', id, x)
  {
    if e.Rotate? && e.next != s.key {
      MoveConserves(Some(s.key), e.next, x);
    } else if e.Reconcile? {
      MoveConserves(e.previous, s.key, x);
    }
  }

  /** An unreadable factor stays as it is until its owner replaces it or its key returns. */
  lemma {:induction false} UnreadableStays(run: Run, i: nat, k: nat, id: string, x: Stored)
    requires IsRun(run) && i <= k < |run.states| && Shut(run.states[i], id, x)
    requires forall j :: i <= j < k ==> !Replaces(run.events[j], id) && !BringsTheKey(run.events[j], x)
    ensures Shut(run.states[k], id, x)
    decreases k - i
  {
    if i < k {
      hide Next, LockHolds, Shut, Replaces, BringsTheKey;
      UnreadableStays(run, i, k - 1, id, x);
      RunKeepsLock(run, k - 1);
      StepLeavesShut(run.states[k - 1], run.events[k - 1], run.states[k], id, x);
    }
  }

  // ----- Checks hold the lock together -----

  /** An event that writes the stored secret of `id`. */
  predicate Writes(s: State, e: Event, id: string) {
    Replaces(e, id) || (e.WriteBack? && e.flow in s.readers && s.readers[e.flow].id == id)
  }

  /** Check `f` reads the secret of `id` in step `i` and holds the lock up to state `k`. */
  ghost predicate HoldsFrom(run: Run, i: nat, k: nat, f: nat, id: string) {
    && i < k < |run.states| == |run.events| + 1 && run.events[i] == BeginCheck(f, id)
    && forall j :: i < j <= k ==> f in run.states[j].readers
  }

  ghost predicate NoWriteIn(run: Run, from: nat, to: nat, id: string) {
    to < |run.states| == |run.events| + 1 && forall j :: from <= j < to ==> !Writes(run.states[j], run.events[j], id)
  }

  /** What a state says of the row of `id`, and of the key. */
  ghost predicate SameRow(s: State, s': State, id: string) {
    s.key == s'.key && (id in s.factors <==> id in s'.factors) && (id in s.factors ==> s.factors[id] == s'.factors[id])
  }

  lemma HeldStep(s: State, e: Event, s': State, f: nat, id: string)
    requires Next(s, e, s') && f in s.readers && f in s'.readers
    ensures s'.readers[f] == s.readers[f]
    ensures !Writes(s, e, id) ==> SameRow(s, s', id)
  {
  }

  /** While a check holds the lock no rotation or reconcile gets in: the row and the key stay
      as they are but for events that write the row. */
  lemma {:induction false} RowStaysWhileHeld(run: Run, i: nat, from: nat, k: nat, f: nat, id: string)
    requires IsRun(run) && HoldsFrom(run, i, k, f, id) && i < from <= k && NoWriteIn(run, from, k, id)
    ensures run.states[k].readers[f] == run.states[from].readers[f] && SameRow(run.states[from], run.states[k], id)
    decreases k
  {
    if from < k {
      hide Next, Writes;
      RowStaysWhileHeld(run, i, from, k - 1, f, id);
      HeldStep(run.states[k - 1], run.events[k - 1], run.states[k], f, id);
    }
  }

  lemma {:induction false} StillHeld(run: Run, i: nat, k: nat, f: nat, id: string)
    requires IsRun(run) && HoldsFrom(run, i, k, f, id)
    ensures run.states[k].readers[f] == run.states[i + 1].readers[f]
    ensures run.states[k].readers[f].id == id && id in run.states[i + 1].factors
    ensures run.states[k].readers[f].stored == run.states[i + 1].factors[id]
    decreases k
  {
    if i + 1 < k {
      StillHeld(run, i, k - 1, f, id);
      HeldStep(run.states[k - 1], run.events[k - 1], run.states[k], f, id);
    } else {
      assert Next(run.states[i], run.events[i], run.states[k]);
    }
  }

  /** What the factor of `id` opens to, if there is such a row and it opens. */
  function OpensAs(s: State, id: string): Option<string> {
    if id in s.factors && Decrypt(Some(s.key), s.factors[id]).Success?
    then Some(Decrypt(Some(s.key), s.factors[id]).value)
    else None
  }

  /** Step `j` is the last of those from `i` to `k` to write the row of `id`. */
  ghost predicate LastWrite(run: Run, i: nat, j: nat, k: nat, id: string) {
    i < j < k < |run.states| == |run.events| + 1 && Writes(run.states[j], run.events[j], id)
        && NoWriteIn(run, j + 1, k, id)
  }

  lemma {:induction false} FindLastWrite(run: Run, i: nat, k: nat, id: string) returns (j: nat)
    requires i < k < |run.states| == |run.events| + 1 && !NoWriteIn(run, i + 1, k, id)
    ensures LastWrite(run, i, j, k, id)
    decreases k
  {
    if Writes(run.states[k - 1], run.events[k - 1], id) {
      j := k - 1;
    } else {
      j := FindLastWrite(run, i, k - 1, id);
    }
  }

  /** Step `j` leaves the row of `id` there, opening to something other than `was`. */
  ghost predicate LeavesOther(run: Run, j: nat, id: string, was: Option<string>)
    requires j + 1 < |run.states|
  {
    id in run.states[j + 1].factors && OpensAs(run.states[j + 1], id) != was
  }

  /** A check's write-back, in any run, restores what the check read.  It changes what the
      factor opens to exactly when the last request to write that row since the check read
      it left it opening to something else. */
  lemma WriteBackChangesExactlyWhenOverwriting(run: Run, i: nat, k: nat, f: nat, id: string)
    requires IsRun(run) && HoldsFrom(run, i, k, f, id) && k < |run.events| && run.events[k] == WriteBack(f)
    ensures id in run.states[k].factors ==> OpensAs(run.states[k + 1], id) == OpensAs(run.states[i], id) != None
    ensures OpensAs(run.states[k + 1], id) != OpensAs(run.states[k], id)
       <==> exists j: nat :: LastWrite(run, i, j, k, id) && LeavesOther(run, j, id, OpensAs(run.states[i], id))
  {
    RestoresWhatItRead(run, i, k, f, id);
    hide Next, LockHolds, OpensAs, IsRun, Writes;
    if NoWriteIn(run, i + 1, k, id) {
      RowAsRead(run, i, k, f, id);
      NoneIsLast(run, i, k, id);
    } else {
      var j := FindLastWrite(run, i, k, id);
      OpensSince(run, i, j, k, f, id);
      forall j': nat | LastWrite(run, i, j', k, id) ensures j' == j {
        OnlyOneLast(run, i, j, j', k, id);
      }
    }
  }

  lemma NoneIsLast(run: Run, i: nat, k: nat, id: string)
    requires NoWriteIn(run, i + 1, k, id)
    ensures forall j: nat :: !LastWrite(run, i, j, k, id)
  {
  }

  lemma OnlyOneLast(run: Run, i: nat, j: nat, j': nat, k: nat, id: string)
    requires LastWrite(run, i, j, k, id) && LastWrite(run, i, j', k, id)
    ensures j == j'
  {
  }

  lemma RestoresWhatItRead(run: Run, i: nat, k: nat, f: nat, id: string)
    requires IsRun(run) && HoldsFrom(run, i, k, f, id) && k < |run.events| && run.events[k] == WriteBack(f)
    ensures OpensAs(run.states[i], id).Some?
    ensures if id in run.states[k].factors then id in run.states[k + 1].factors
            && OpensAs(run.states[k + 1], id) == OpensAs(run.states[i], id)
            else OpensAs(run.states[k + 1], id) == OpensAs(run.states[k], id) == None
  {
    StillHeld(run, i, k, f, id);
    RunKeepsLock(run, k);
    assert Next(run.states[i], run.events[i], run.states[i + 1]);
    assert Next(run.states[k], run.events[k], run.states[k + 1]);
  }

  /** With no write in between, the row is as the check read it. */
  lemma RowAsRead(run: Run, i: nat, k: nat, f: nat, id: string)
    requires IsRun(run) && HoldsFrom(run, i, k, f, id) && NoWriteIn(run, i + 1, k, id)
    ensures id in run.states[k].factors && OpensAs(run.states[k], id) == OpensAs(run.states[i], id)
  {
    RowStaysWhileHeld(run, i, i + 1, k, f, id);
    StillHeld(run, i, i + 1, f, id);
    assert Next(run.states[i], run.events[i], run.states[i + 1]);
  }

  /** After the last write, it is as that left it. */
  lemma OpensSince(run: Run, i: nat, j: nat, k: nat, f: nat, id: string)
    requires IsRun(run) && HoldsFrom(run, i, k, f, id) && LastWrite(run, i, j, k, id)
    ensures id in run.states[k].factors <==> id in run.states[j + 1].factors
    ensures OpensAs(run.states[k], id) == OpensAs(run.states[j + 1], id)
  {
    RowStaysWhileHeld(run, i, j + 1, k, f, id);
  }

  /** So an enrolment made during a check is lost. */
  lemma EnrolmentDuringCheckIsLost(key: string, id: string, first: string, second: string)
    requires first != "" && second != "" && first != second
    ensures exists run :: IsRun(run) && run.events == [BeginCheck(0, id), Enrol(id, second), WriteBack(0)]
                          && id in run.states[2].factors && id in run.states[3].factors
                          && Decrypt(Some(key), run.states[2].factors[id]) == Success(second)
                          && Decrypt(Some(key), run.states[3].factors[id]) == Success(first)
  {
    var s0 := State(key, map[id := Sealed(key, first)], map[]);
    var s1 := s0.(readers := map[0 := Held(id, Sealed(key, first), first)]);
    var s2 := s1.(factors := map[id := Sealed(key, second)]);
    var s3 := s2.(factors := map[id := Sealed(key, first)]);
    var run := Run([s0, s1, s2, s3], [BeginCheck(0, id), Enrol(id, second), WriteBack(0)]);
    assert s1.factors[id := Encrypt(key, second)] == s2.factors;
    assert s2.factors[id := Sealed(key, first)] == s3.factors;
    assert Next(s0, run.events[0], s1) && Next(s1, run.events[1], s2) && Next(s2, run.events[2], s3);
    assert IsRun(run);
  }
}
