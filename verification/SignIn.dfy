/** The two-step sign-in (internal/auth/claims.go, manager.go).  Tokens are symbolic: one
    opens under the key and the implicit assertion it was made with, and only the nodes of
    the deployment make tokens under a session key. */
module SignIn {
  import opened Wrappers

  const CHALLENGE_LIFETIME: nat := 300_000_000_000
  const TOKEN_LIFETIME: nat := 28_800_000_000_000
  const TWO_FACTOR_CHALLENGE := "2fa-challenge"
  const CHALLENGE_IMPLICIT := "gateon/v1/2fa-challenge"

  datatype Claims = Claims(subject: string, id: Option<string>, purpose: Option<string>,
                           issuedAt: int, notBefore: int, expires: int, binding: string)

  datatype Token = Token(key: string, implicit: string, claims: Claims)

  /** Authenticated decryption. */
  function Open(key: string, token: Token, implicit: string): Option<Claims> {
    if token.key == key && token.implicit == implicit then Some(token.claims) else None
  }

  function Challenge(key: string, id: string, now: int, binding: string): Token {
    Token(key, CHALLENGE_IMPLICIT,
        Claims(id, None, Some(TWO_FACTOR_CHALLENGE), now, now, now + CHALLENGE_LIFETIME, binding))
  }

  function Session(key: string, id: string, now: int, binding: string): Token {
    Token(key, "", Claims(id, Some(id), None, now, now, now + TOKEN_LIFETIME, binding))
  }

  /** checkSessionBinding; `inForce` is what currentBinding answers, nothing for an account
      that is gone, disabled or unreadable. */
  predicate BindingMatches(id: string, presented: string, inForce: Option<string>) {
    id != "" && presented != "" && inForce == Some(presented)
  }

  /** checkChallenge up to the binding: the token opens as a challenge, says so, names the
      account and has not expired. */
  predicate OpensAsChallenge(key: string, token: Token, id: string, now: int) {
    match Open(key, token, CHALLENGE_IMPLICIT)
    case None => false
    case Some(c) => id != "" && c.purpose == Some(TWO_FACTOR_CHALLENGE) && c.subject == id && now < c.expires
  }

  predicate CheckChallenge(key: string, token: Token, id: string, now: int, inForce: Option<string>) {
    OpensAsChallenge(key, token, id, now) && BindingMatches(id, token.claims.binding, inForce)
  }

  /** VerifyToken: the account a token is a session of. */
  function VerifyToken(key: string, token: Token, now: int, inForce: string -> Option<string>): Option<string> {
    match Open(key, token, "")
    case None => None
    case Some(c) =>
      var id := if c.id.Some? then c.id.value else "";
      if c.purpose.Some? || now > c.expires || now < c.notBefore
          || !BindingMatches(id, c.binding, inForce(id)) then None
      else Some(id)
  }

  /** When a challenge is good: exactly for its own account, under the key it was made with,
      within its lifetime, while the account's binding is the one it was made under. */
  lemma ChallengeIsGoodExactlyWhen(key: string, id: string, at: int, binding: string,
                                   key': string, id': string, now: int, inForce: Option<string>)
    ensures CheckChallenge(key', Challenge(key, id, at, binding), id', now, inForce)
      <==> key' == key && id' == id != "" && now < at + CHALLENGE_LIFETIME && inForce == Some(binding) && binding != ""
  {
  }

  /** When a session is good: exactly under the key it was made with, from its making to the end of
      its lifetime, while the account's binding is the one it was made under. */
  lemma SessionIsGoodExactlyWhen(key: string, id: string, at: int, binding: string,
                                 key': string, now: int, inForce: string -> Option<string>)
    ensures VerifyToken(key', Session(key, id, at, binding), now, inForce) ==
            if key' == key && id != "" && binding != "" && at <= now <= at + TOKEN_LIFETIME
               && inForce(id) == Some(binding)
            then Some(id) else None
  {
  }

  /** No token is both, whatever the keys, accounts and times it is tried under; and each of
      the two marks that part them, the implicit assertion and the purpose, is enough. */
  lemma NeverBothSessionAndChallenge(token: Token, key: string, key': string, id: string, now: int, now': int,
                                     inForce: Option<string>, inForce': string -> Option<string>)
    ensures CheckChallenge(key, token, id, now, inForce) ==> VerifyToken(key', token, now', inForce').None?
    ensures CheckChallenge(key, token, id, now, inForce)
            ==> VerifyToken(key', token.(implicit := ""), now', inForce').None?
    ensures VerifyToken(key', token, now', inForce').Some? ==>
              !CheckChallenge(key, token.(implicit := CHALLENGE_IMPLICIT), id, now, inForce)
    ensures VerifyToken(key', token.(implicit := CHALLENGE_IMPLICIT), now', inForce').None?
    ensures !CheckChallenge(key, token.(implicit := ""), id, now, inForce)
  {
  }

  // ----- Runs -----

  /** How far a request has come.  A password step goes through the first three; a second
      step through the rest. */
  datatype Phase =
    | Passed
    | Timed(at: int)
    | Read(at: int, binding: string)
    | Opened(token: Token)
    | Checked(token: Token)
    | Coded(token: Token)
    | Issuing(token: Token, binding: string)

  datatype Flow = Flow(node: nat, id: string, phase: Phase)

  /** `keys` are the session keys of the nodes, `inForce` what each node's currentBinding
      answers for an account, `minted` every token made. */
  datatype State = State(now: int, keys: map<nat, string>, inForce: map<(nat, string), string>,
                         minted: set<Token>, flows: map<nat, Flow>)

  function InForce(s: State, node: nat, id: string): Option<string> {
    if (node, id) in s.inForce then Some(s.inForce[(node, id)]) else None
  }

  datatype Event =
    | Tick(to: int)
    | SetKey(node: nat, key: string)
    | SetBinding(node: nat, id: string, binding: Option<string>)
    | PasswordOk(flow: nat, node: nat, id: string)
    | TakeTime(flow: nat)
    | ReadBinding(flow: nat)
    | MintChallenge(flow: nat)
    | MintPlainSession(flow: nat)
    | OpenChallenge(flow: nat, node: nat, token: Token, id: string)
    | CheckBinding(flow: nat)
    | AcceptCode(flow: nat)
    | BindSession(flow: nat)
    | MintSession(flow: nat)
    | Abandon(flow: nat)

  function Advance(s: State, f: nat, phase: Phase): State
    requires f in s.flows
  {
    s.(flows := s.flows[f := s.flows[f].(phase := phase)])
  }

  /** The token a flow in its last phase makes. */
  function Made(s: State, e: Event): Option<Token> {
    match e
    case MintChallenge(f) =>
      if f in s.flows && s.flows[f].phase.Read? && s.flows[f].node in s.keys then
        Some(Challenge(s.keys[s.flows[f].node], s.flows[f].id, s.flows[f].phase.at, s.flows[f].phase.binding))
      else None
    case MintPlainSession(f) =>
      if f in s.flows && s.flows[f].phase.Read? && s.flows[f].node in s.keys then
        Some(Session(s.keys[s.flows[f].node], s.flows[f].id, s.now, s.flows[f].phase.binding))
      else None
    case MintSession(f) =>
      if f in s.flows && s.flows[f].phase.Issuing? && s.flows[f].node in s.keys then
        Some(Session(s.keys[s.flows[f].node], s.flows[f].id, s.now, s.flows[f].phase.binding))
      else None
    case _ => None
  }

  ghost predicate Next(s: State, e: Event, s': State) {
    match e
    case Tick(to) => s.now <= to && s' == s.(now := to)
    case SetKey(n, key) => s' == s.(keys := s.keys[n := key])
    case SetBinding(n, id, b) =>
      s' == s.(inForce := if b.Some? then s.inForce[(n, id) := b.value] else s.inForce - {(n, id)})
    case PasswordOk(f, n, id) => f !in s.flows && s' == s.(flows := s.flows[f := Flow(n, id, Passed)])
    case TakeTime(f) => f in s.flows && s.flows[f].phase.Passed? && s' == Advance(s, f, Timed(s.now))
    case ReadBinding(f) =>
      && f in s.flows && s.flows[f].phase.Timed? && InForce(s, s.flows[f].node, s.flows[f].id).Some?
      && s' == Advance(s, f, Read(s.flows[f].phase.at, InForce(s, s.flows[f].node, s.flows[f].id).value))
    case MintChallenge(f) =>
      Made(s, e).Some? && s' == s.(minted := s.minted + {Made(s, e).value}, flows := s.flows - {f})
    case MintPlainSession(f) =>
      Made(s, e).Some? && s' == s.(minted := s.minted + {Made(s, e).value}, flows := s.flows - {f})
    case OpenChallenge(f, n, token, id) =>
      && f !in s.flows && token in s.minted && n in s.keys && OpensAsChallenge(s.keys[n], token, id, s.now)
      && s' == s.(flows := s.flows[f := Flow(n, id, Opened(token))])
    case CheckBinding(f) =>
      && f in s.flows && s.flows[f].phase.Opened?
      && BindingMatches(s.flows[f].id, s.flows[f].phase.token.claims.binding,
          InForce(s, s.flows[f].node, s.flows[f].id))
      && s' == Advance(s, f, Checked(s.flows[f].phase.token))
    case AcceptCode(f) => f in s.flows && s.flows[f].phase.Checked?
        && s' == Advance(s, f, Coded(s.flows[f].phase.token))
    case BindSession(f) =>
      && f in s.flows && s.flows[f].phase.Coded? && InForce(s, s.flows[f].node, s.flows[f].id).Some?
      && s' == Advance(s, f, Issuing(s.flows[f].phase.token, InForce(s, s.flows[f].node, s.flows[f].id).value))
    case MintSession(f) =>
      Made(s, e).Some? && s' == s.(minted := s.minted + {Made(s, e).value}, flows := s.flows - {f})
    case Abandon(f) => s' == s.(flows := s.flows - {f})
  }

  datatype Run = Run(states: seq<State>, events: seq<Event>)

  ghost predicate StepAt(run: Run, k: int) {
    0 <= k < |run.events| && k + 1 < |run.states| && Next(run.states[k], run.events[k], run.states[k + 1])
  }

  ghost predicate IsRun(run: Run) {
    && |run.states| == |run.events| + 1
    && run.states[0].minted == {} && run.states[0].flows == map[]
    && forall k :: 0 <= k < |run.events| ==> StepAt(run, k)
  }

  lemma {:induction false} TimeOnlyGrows(run: Run, i: nat, k: nat)
    requires IsRun(run) && i <= k < |run.states|
    ensures run.states[i].now <= run.states[k].now
    decreases k
  {
    if i < k {
      TimeOnlyGrows(run, i, k - 1);
      assert StepAt(run, k - 1);
    }
  }

  /** Flow `f` is a password step at state `s`. */
  predicate FirstStep(s: State, f: nat) {
    f in s.flows && (s.flows[f].phase.Passed? || s.flows[f].phase.Timed? || s.flows[f].phase.Read?)
  }

  predicate SecondStep(s: State, f: nat) {
    f in s.flows && !FirstStep(s, f)
  }

  /** What a step does to flow `f` when it leaves it in its first step. */
  lemma FirstStepBefore(s: State, e: Event, s': State, f: nat)
    requires Next(s, e, s') && FirstStep(s', f)
    ensures s'.flows[f].phase.Passed? ==>
              e == PasswordOk(f, s'.flows[f].node, s'.flows[f].id) || (f in s.flows && s.flows[f] == s'.flows[f])
    ensures !s'.flows[f].phase.Passed? ==>
              FirstStep(s, f) && s.flows[f].node == s'.flows[f].node && s.flows[f].id == s'.flows[f].id
    ensures s'.flows[f].phase.Timed? ==>
              s.flows[f] == s'.flows[f] || (s.flows[f].phase.Passed? && s'.flows[f].phase.at == s.now)
    ensures s'.flows[f].phase.Read? ==>
              s.flows[f] == s'.flows[f]
              || (e == ReadBinding(f) && s.flows[f].phase == Timed(s'.flows[f].phase.at)
                  && InForce(s, s.flows[f].node, s.flows[f].id) == Some(s'.flows[f].phase.binding))
  {
  }

  /** Every request that holds a password step's state showed the right password earlier,
      took its time no earlier than that, and then read the binding in force. */
  lemma {:induction false} PasswordBehind(run: Run, k: nat, f: nat) returns (p: nat, r: nat)
    requires IsRun(run) && k < |run.states| && FirstStep(run.states[k], f)
    ensures p < k && run.events[p] == PasswordOk(f, run.states[k].flows[f].node, run.states[k].flows[f].id)
    ensures var phase := run.states[k].flows[f].phase;
            phase.Passed? || (run.states[p].now <= phase.at <= run.states[k].now)
    ensures var flow := run.states[k].flows[f];
            flow.phase.Read? ==> p < r < k && run.events[r] == ReadBinding(f)
                                 && flow.phase.at <= run.states[r].now
                                 && InForce(run.states[r], flow.node, flow.id) == Some(flow.phase.binding)
  {
    if k > 0 {
      assert StepAt(run, k - 1);
      var s, e, s' := run.states[k - 1], run.events[k - 1], run.states[k];
      FirstStepBefore(s, e, s', f);
      TimeOnlyGrows(run, k - 1, k);
      r := 0;
      if s'.flows[f].phase.Passed? && e == PasswordOk(f, s'.flows[f].node, s'.flows[f].id) {
        p := k - 1;
      } else {
        hide Next;
        p, r := PasswordBehind(run, k - 1, f);
        TimeOnlyGrows(run, p, k - 1);
        if s'.flows[f].phase.Read? && s.flows[f].phase.Timed? {
          r := k - 1;
        }
      }
    }
  }

  lemma MintedBefore(s: State, e: Event, s': State, token: Token)
    requires Next(s, e, s') && token in s'.minted
    ensures token in s.minted || Made(s, e) == Some(token)
  {
  }

  /** Every token there is was made by an event of the run. */
  lemma {:induction false} MintBehind(run: Run, k: nat, token: Token) returns (m: nat)
    requires IsRun(run) && k < |run.states| && token in run.states[k].minted
    ensures m < k && Made(run.states[m], run.events[m]) == Some(token)
  {
    if k > 0 {
      assert StepAt(run, k - 1);
      MintedBefore(run.states[k - 1], run.events[k - 1], run.states[k], token);
      hide Made, Next;
      if token in run.states[k - 1].minted {
        m := MintBehind(run, k - 1, token);
      } else {
        m := k - 1;
      }
    }
  }

  /** What node `n` answers to `token` in state `s`. */
  function VerifyAt(s: State, n: nat, token: Token): Option<string>
    requires n in s.keys
  {
    VerifyToken(s.keys[n], token, s.now, id => InForce(s, n, id))
  }

  /** A node accepts a token, in any run, exactly when it was minted as a session, in some step `m`
      under the key the node has now, no longer ago than a session lives, and the binding it was
      minted with is the one in force there; and then as the account it was minted for. */
  lemma MintedSessionsAreGoodExactlyWhen(run: Run, k: nat, n: nat, token: Token) returns (m: nat)
    requires IsRun(run) && k < |run.states| && token in run.states[k].minted && n in run.states[k].keys
    ensures m < k && Made(run.states[m], run.events[m]) == Some(token)
    ensures var s, c := run.states[k], token.claims;
            VerifyAt(s, n, token) ==
            if !run.events[m].MintChallenge? && s.keys[n] == token.key && c.subject != "" && c.binding != ""
               && s.now <= run.states[m].now + TOKEN_LIFETIME && InForce(s, n, c.subject) == Some(c.binding)
            then Some(c.subject) else None
    ensures var e, before := run.events[m], run.states[m];
            !e.MintChallenge? ==>
              && (e.MintPlainSession? || e.MintSession?) && e.flow in before.flows
              && token.claims.subject == before.flows[e.flow].id
              && token.claims.binding == before.flows[e.flow].phase.binding
              && before.flows[e.flow].node in before.keys && token.key == before.keys[before.flows[e.flow].node]
  {
    m := MintBehind(run, k, token);
    TimeOnlyGrows(run, m, k);
    hide IsRun;
    var s, c := run.states[k], token.claims;
    if !run.events[m].MintChallenge? {
      assert token == Session(token.key, c.subject, run.states[m].now, c.binding);
      SessionIsGoodExactlyWhen(token.key, c.subject, run.states[m].now, c.binding, s.keys[n], s.now,
          id => InForce(s, n, id));
    }
  }

  /** The challenge a second-step flow presented. */
  function Presented(s: State, f: nat): Token
    requires SecondStep(s, f)
  {
    s.flows[f].phase.token
  }

  lemma SecondStepBefore(s: State, e: Event, s': State, f: nat)
    requires Next(s, e, s') && SecondStep(s', f)
    ensures s'.flows[f].phase.Opened? ==>
              e == OpenChallenge(f, s'.flows[f].node, Presented(s', f), s'.flows[f].id)
              || (f in s.flows && s.flows[f] == s'.flows[f])
    ensures !s'.flows[f].phase.Opened? ==>
              && SecondStep(s, f) && s.flows[f].node == s'.flows[f].node && s.flows[f].id == s'.flows[f].id
              && Presented(s, f) == Presented(s', f)
    ensures !s'.flows[f].phase.Opened? && s.flows[f].phase.Opened? ==>
              e == CheckBinding(f)
              && BindingMatches(s'.flows[f].id, Presented(s', f).claims.binding,
                  InForce(s, s'.flows[f].node, s'.flows[f].id))
  {
  }

  /** Every request past its challenge opened it, and past its check found its binding in force. */
  lemma {:induction false} CheckBehind(run: Run, k: nat, f: nat) returns (o: nat, c: nat)
    requires IsRun(run) && k < |run.states| && SecondStep(run.states[k], f)
    ensures o < k && run.events[o]
            == OpenChallenge(f, run.states[k].flows[f].node, Presented(run.states[k], f), run.states[k].flows[f].id)
    ensures !run.states[k].flows[f].phase.Opened? ==>
              && o < c < k && run.events[c] == CheckBinding(f)
              && InForce(run.states[c], run.states[k].flows[f].node, run.states[k].flows[f].id)
                 == Some(Presented(run.states[k], f).claims.binding)
  {
    if k > 0 {
      assert StepAt(run, k - 1);
      var s, e, s' := run.states[k - 1], run.events[k - 1], run.states[k];
      SecondStepBefore(s, e, s', f);
      hide Next;
      c := 0;
      if s'.flows[f].phase.Opened? && e == OpenChallenge(f, s'.flows[f].node, Presented(s', f), s'.flows[f].id) {
        o := k - 1;
      } else {
        o, c := CheckBehind(run, k - 1, f);
        if !s'.flows[f].phase.Opened? && s.flows[f].phase.Opened? {
          c := k - 1;
        }
      }
    }
  }

  /** A challenge that opens was made by a password step: by whom and when. */
  lemma ChallengeBehind(run: Run, o: nat, f: nat, n: nat, token: Token, id: string)
        returns (p: nat, r: nat, m: nat, g: nat)
    requires IsRun(run) && o < |run.events| && run.events[o] == OpenChallenge(f, n, token, id)
    ensures p < r < m < o && run.events[m] == MintChallenge(g) && Made(run.states[m], run.events[m]) == Some(token)
    ensures FirstStep(run.states[m], g) && run.states[m].flows[g].id == id
    ensures run.events[p] == PasswordOk(g, run.states[m].flows[g].node, id) && run.events[r] == ReadBinding(g)
    ensures InForce(run.states[r], run.states[m].flows[g].node, id) == Some(token.claims.binding)
    ensures run.states[p].now <= token.claims.issuedAt <= run.states[r].now
  {
    assert StepAt(run, o);
    m := MintBehind(run, o, token);
    assert run.events[m].MintChallenge?;
    g := run.events[m].flow;
    p, r := PasswordBehind(run, m, g);
  }

  /** The events behind a session: where the password was shown, the binding read and the
      challenge minted, by flow `issuer`, and where the challenge was opened and checked. */
  datatype Trail = Trail(password: nat, read: nat, minted: nat, shown: nat, checked: nat, issuer: nat)

  /** The session minted in step `k` by second-step flow `f` came about as `t` says: account
      `id`'s right password was shown, the binding then in force was read and a challenge
      made from it; that challenge was opened under the same session key within its lifetime,
      and its binding was the one in force when it was checked. */
  ghost predicate CameAbout(run: Run, k: nat, f: nat, t: Trail) {
    && k < |run.events| && |run.states| == |run.events| + 1 && run.events[k] == MintSession(f)
    && SecondStep(run.states[k], f) && Made(run.states[k], run.events[k]).Some?
    && t.password < t.read < t.minted < t.shown < t.checked < k
    && var id, node := Made(run.states[k], run.events[k]).value.claims.subject, run.states[k].flows[f].node;
       var token, before := Presented(run.states[k], f), run.states[t.minted];
       && FirstStep(before, t.issuer)
       && run.events[t.password] == PasswordOk(t.issuer, before.flows[t.issuer].node, id)
       && run.events[t.read] == ReadBinding(t.issuer)
       && run.events[t.minted] == MintChallenge(t.issuer) && Made(before, run.events[t.minted]) == Some(token)
       && run.events[t.shown] == OpenChallenge(f, node, token, id)
       && run.events[t.checked] == CheckBinding(f)
       && node in run.states[t.shown].keys && before.flows[t.issuer].node in before.keys
       && run.states[t.shown].keys[node] == before.keys[before.flows[t.issuer].node] == token.key
       && InForce(run.states[t.read], before.flows[t.issuer].node, id) == InForce(run.states[t.checked], node, id)
          == Some(token.claims.binding)
  }

  /** How long after the password the challenge took its time, and how long after it was
      opened the session was minted. */
  function IssueDelay(run: Run, k: nat, f: nat, t: Trail): int
    requires k < |run.states| && SecondStep(run.states[k], f) && t.password < |run.states|
  {
    Presented(run.states[k], f).claims.issuedAt - run.states[t.password].now
  }

  function CodeDelay(run: Run, k: nat, t: Trail): int
    requires k < |run.states| && t.shown < |run.states|
  {
    run.states[k].now - run.states[t.shown].now
  }

  /** Every session Verify2FA issues, in any run, came about so, and was issued within the
      challenge's lifetime of the password and the two delays on the way. */
  lemma SessionsNeedThePassword(run: Run, k: nat, f: nat) returns (t: Trail)
    requires IsRun(run) && k < |run.events| && run.events[k] == MintSession(f)
    ensures CameAbout(run, k, f, t)
    ensures 0 <= IssueDelay(run, k, f, t) && 0 <= CodeDelay(run, k, t)
    ensures run.states[k].now - run.states[t.password].now
          < CHALLENGE_LIFETIME + IssueDelay(run, k, f, t) + CodeDelay(run, k, t)
  {
    assert StepAt(run, k);
    var o, c := CheckBehind(run, k, f);
    assert StepAt(run, o);
    var flow, token := run.states[k].flows[f], Presented(run.states[k], f);
    var p, r, m, g := ChallengeBehind(run, o, f, flow.node, token, flow.id);
    t := Trail(p, r, m, o, c, g);
    OpenedInTime(run, k, f, t);
    TimeOnlyGrows(run, o, k);
  }

  /** A session's challenge was opened within its lifetime, however the session came about. */
  lemma OpenedInTime(run: Run, k: nat, f: nat, t: Trail)
    requires IsRun(run) && CameAbout(run, k, f, t)
    ensures run.states[t.shown].now < Presented(run.states[k], f).claims.issuedAt + CHALLENGE_LIFETIME
  {
    assert StepAt(run, t.shown);
  }

  /** Every session that came about with these two delays was issued within the lifetime of
      its password. */
  ghost predicate AllWithinLifetime(issueDelay: nat, codeDelay: nat) {
    forall run, k: nat, f, t | IsRun(run) && CameAbout(run, k, f, t) ::
      IssueDelay(run, k, f, t) == issueDelay && CodeDelay(run, k, t) == codeDelay ==>
        run.states[k].now < run.states[t.password].now + CHALLENGE_LIFETIME
  }

  /** That is so exactly when there is no delay: a challenge that takes its time after the
      password, or a code that is slow to be accepted, can carry the session past it. */
  lemma WithinLifetimeExactlyWhenNoDelay(issueDelay: nat, codeDelay: nat)
    ensures AllWithinLifetime(issueDelay, codeDelay) <==> issueDelay == 0 && codeDelay == 0
  {
    if issueDelay == 0 && codeDelay == 0 {
      forall run, k: nat, f, t | IsRun(run) && CameAbout(run, k, f, t) && IssueDelay(run, k, f, t) == 0
          && CodeDelay(run, k, t) == 0
        ensures run.states[k].now < run.states[t.password].now + CHALLENGE_LIFETIME
      {
        OpenedInTime(run, k, f, t);
      }
    } else {
      var run, t := SlowRun(issueDelay, codeDelay);
    }
  }

  // ----- A run with any two delays -----

  function SlowStart(now: int): State {
    State(now, map[0 := "key"], map[(0, "id") := "binding"], {}, map[])
  }

  function SlowChallenge(issueDelay: nat): Token {
    Challenge("key", "id", issueDelay, "binding")
  }

  function SlowFlow(phase: Phase): map<nat, Flow> {
    map[0 := Flow(0, "id", phase)]
  }

  /** When the challenge is opened: in its last moment. */
  function LastMoment(issueDelay: nat): int {
    issueDelay + CHALLENGE_LIFETIME - 1
  }

  function SlowStates(issueDelay: nat, codeDelay: nat): seq<State> {
    var token, late := SlowChallenge(issueDelay), LastMoment(issueDelay);
    var minted := SlowStart(issueDelay).(minted := {token});
    var shown := minted.(now := late);
    var slow := minted.(now := late + codeDelay);
    [ SlowStart(0),
      SlowStart(0).(flows := SlowFlow(Passed)),
      SlowStart(issueDelay).(flows := SlowFlow(Passed)),
      SlowStart(issueDelay).(flows := SlowFlow(Timed(issueDelay))),
      SlowStart(issueDelay).(flows := SlowFlow(Read(issueDelay, "binding"))),
      minted,
      shown,
      shown.(flows := SlowFlow(Opened(token))),
      shown.(flows := SlowFlow(Checked(token))),
      slow.(flows := SlowFlow(Checked(token))),
      slow.(flows := SlowFlow(Coded(token))),
      slow.(flows := SlowFlow(Issuing(token, "binding"))),
      slow.(minted := {token, Session("key", "id", slow.now, "binding")}) ]
  }

  function SlowEvents(issueDelay: nat, codeDelay: nat): seq<Event> {
    [ PasswordOk(0, 0, "id"), Tick(issueDelay), TakeTime(0), ReadBinding(0), MintChallenge(0),
      Tick(LastMoment(issueDelay)), OpenChallenge(0, 0, SlowChallenge(issueDelay), "id"), CheckBinding(0),
      Tick(LastMoment(issueDelay) + codeDelay), AcceptCode(0), BindSession(0), MintSession(0) ]
  }

  lemma SlowFirstSteps(issueDelay: nat, codeDelay: nat)
    ensures var ss, es := SlowStates(issueDelay, codeDelay), SlowEvents(issueDelay, codeDelay);
            Next(ss[0], es[0], ss[1]) && Next(ss[1], es[1], ss[2])
  {
  }

  lemma SlowTime(issueDelay: nat, codeDelay: nat)
    ensures var ss, es := SlowStates(issueDelay, codeDelay), SlowEvents(issueDelay, codeDelay);
            Next(ss[2], es[2], ss[3])
  {
    var ss := SlowStates(issueDelay, codeDelay);
    assert ss[2].flows[0 := Flow(0, "id", Timed(issueDelay))] == SlowFlow(Timed(issueDelay));
  }

  lemma SlowMint(issueDelay: nat, codeDelay: nat)
    ensures var ss, es := SlowStates(issueDelay, codeDelay), SlowEvents(issueDelay, codeDelay);
            Next(ss[3], es[3], ss[4]) && Next(ss[4], es[4], ss[5])
  {
    var ss, es := SlowStates(issueDelay, codeDelay), SlowEvents(issueDelay, codeDelay);
    assert ss[3].flows[0 := Flow(0, "id", Read(issueDelay, "binding"))] == SlowFlow(Read(issueDelay, "binding"));
    assert Next(ss[3], es[3], ss[4]);
    assert ss[4].flows - {0} == map[] && {} + {SlowChallenge(issueDelay)} == {SlowChallenge(issueDelay)};
    assert Next(ss[4], es[4], ss[5]);
  }

  lemma SlowSecondSteps(issueDelay: nat, codeDelay: nat)
    ensures var ss, es := SlowStates(issueDelay, codeDelay), SlowEvents(issueDelay, codeDelay);
            forall k :: 5 <= k < 9 ==> Next(ss[k], es[k], ss[k + 1])
  {
    var ss, es, token := SlowStates(issueDelay, codeDelay), SlowEvents(issueDelay, codeDelay),
        SlowChallenge(issueDelay);
    assert Next(ss[5], es[5], ss[6]);
    assert Next(ss[6], es[6], ss[7]);
    assert ss[7].flows[0 := Flow(0, "id", Checked(token))] == SlowFlow(Checked(token));
    assert Next(ss[7], es[7], ss[8]);
    assert Next(ss[8], es[8], ss[9]);
  }

  lemma SlowLastSteps(issueDelay: nat, codeDelay: nat)
    ensures var ss, es := SlowStates(issueDelay, codeDelay), SlowEvents(issueDelay, codeDelay);
            forall k :: 9 <= k < 12 ==> Next(ss[k], es[k], ss[k + 1])
  {
    var ss, es, token := SlowStates(issueDelay, codeDelay), SlowEvents(issueDelay, codeDelay),
        SlowChallenge(issueDelay);
    assert ss[9].flows[0 := Flow(0, "id", Coded(token))] == SlowFlow(Coded(token));
    assert Next(ss[9], es[9], ss[10]);
    assert ss[10].flows[0 := Flow(0, "id", Issuing(token, "binding"))] == SlowFlow(Issuing(token, "binding"));
    assert Next(ss[10], es[10], ss[11]);
    assert ss[11].flows - {0} == map[];
    var session := Session("key", "id", ss[11].now, "binding");
    assert {token} + {session} == {token, session};
    assert Next(ss[11], es[11], ss[12]);
  }

  function SlowTrace(issueDelay: nat, codeDelay: nat): Run {
    Run(SlowStates(issueDelay, codeDelay), SlowEvents(issueDelay, codeDelay))
  }

  lemma SlowIsRun(issueDelay: nat, codeDelay: nat)
    ensures IsRun(SlowTrace(issueDelay, codeDelay))
  {
    var ss, es := SlowStates(issueDelay, codeDelay), SlowEvents(issueDelay, codeDelay);
    assert |ss| == 13 && |es| == 12 && ss[0] == SlowStart(0);
    hide SlowStates, SlowEvents, Next;
    SlowFirstSteps(issueDelay, codeDelay);
    SlowTime(issueDelay, codeDelay);
    SlowMint(issueDelay, codeDelay);
    SlowSecondSteps(issueDelay, codeDelay);
    SlowLastSteps(issueDelay, codeDelay);
    assert forall k :: 0 <= k < 12 ==> StepAt(Run(ss, es), k);
  }

  /** For any two delays there is a run from the start whose session is issued a lifetime and
      both delays, less a nanosecond, after its password. */
  lemma SlowRun(issueDelay: nat, codeDelay: nat) returns (run: Run, t: Trail)
    ensures IsRun(run) && CameAbout(run, 11, 0, t)
    ensures IssueDelay(run, 11, 0, t) == issueDelay && CodeDelay(run, 11, t) == codeDelay
    ensures run.states[11].now - run.states[t.password].now == CHALLENGE_LIFETIME + issueDelay + codeDelay - 1
  {
    run := SlowTrace(issueDelay, codeDelay);
    SlowLandmarks(issueDelay, codeDelay);
    SlowIsRun(issueDelay, codeDelay);
    hide IsRun, SlowTrace;
    t := SessionsNeedThePassword(run, 11, 0);
    assert run.events[t.password].PasswordOk? && run.events[t.shown].OpenChallenge?;
  }

  lemma SlowLandmarks(issueDelay: nat, codeDelay: nat)
    ensures var run := SlowTrace(issueDelay, codeDelay);
            && |run.events| == 12 && |run.states| == 13 && run.events[11] == MintSession(0)
            && (forall k :: 0 <= k < 12 && run.events[k].PasswordOk? ==> k == 0)
            && (forall k :: 0 <= k < 12 && run.events[k].OpenChallenge? ==> k == 6)
            && SecondStep(run.states[11], 0) && Presented(run.states[11], 0).claims.issuedAt == issueDelay
            && run.states[0].now == 0 && run.states[6].now == LastMoment(issueDelay)
            && run.states[11].now == LastMoment(issueDelay) + codeDelay
  {
    hide Next;
  }
}
