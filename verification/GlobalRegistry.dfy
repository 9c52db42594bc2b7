/** The global configuration registry and its secret references (internal/config/global.go,
    secrets.go). */
module GlobalRegistry {
  import opened Wrappers

  /** The fields of secretFields. */
  datatype Field =
    PasetoSecret | DatabaseUrl | DatabasePassword | MaxmindLicenseKey | AiApiKey | AuditSignatureKey | PowSecret

  const SECRET_FIELDS: seq<Field> :=
    [PasetoSecret, DatabaseUrl, DatabasePassword, MaxmindLicenseKey, AiApiKey, AuditSignatureKey, PowSecret]

  /** The secret fields whose section is present, with what they hold. */
  type Secrets = map<Field, string>

  const ENC_PREFIX := "enc:"

  predicate IsReference(s: string) {
    "$env:" <= s || "$vault:" <= s || "$aws-sm:" <= s
  }

  /** A reference names the environment, Vault or AWS Secrets Manager, and nothing else is one. */
  lemma ReferenceForms(s: string)
    ensures IsReference("$env:" + s) && IsReference("$vault:" + s) && IsReference("$aws-sm:" + s)
    ensures IsReference(s) ==> exists rest :: s in {"$env:" + rest, "$vault:" + rest, "$aws-sm:" + rest}
  {
    if "$env:" <= s {
      assert s == "$env:" + s[5..];
    } else if "$vault:" <= s {
      assert s == "$vault:" + s[7..];
    } else if "$aws-sm:" <= s {
      assert s == "$aws-sm:" + s[8..];
    }
  }

  /** What lies outside the registry: what a reference resolves to, if anything, and
      encryption at rest under whatever key is set. */
  datatype World = World(lookup: string -> Option<string>, seal: string -> string, unseal: string -> Option<string>)

  ghost predicate Lawful(w: World) {
    && (forall s :: !(ENC_PREFIX <= s) ==> w.unseal(s) == Some(s))
    && (forall s :: w.lookup(s) != Some(s))
    && (forall s :: w.seal(s) == s || (ENC_PREFIX <= w.seal(s) && w.unseal(w.seal(s)) == Some(s)))
    && w.seal("") == ""
  }

  /** ResolveSecretStrict. */
  function Resolve(w: World, s: string): Option<string> {
    match w.unseal(s)
    case None => None
    case Some(plain) => if IsReference(plain) then w.lookup(plain) else Some(plain)
  }

  lemma ReferenceResolves(w: World, s: string)
    requires Lawful(w) && IsReference(s)
    ensures Resolve(w, s) == w.lookup(s) && Resolve(w, s) != Some(s) && s != ""
  {
    assert s[0] == '$';
  }

  // ----- Adopting an update's secrets -----

  datatype Adoption = Adoption(value: string, ref: Option<string>, ok: bool)

  /** What an update makes of one field holding `v`, when the registry keeps `held` for it
      ("" for none) and the live configuration holds `live`. */
  function AdoptField(w: World, v: string, held: string, live: Option<string>): Adoption {
    if v == "" then Adoption(v, None, true)
    else if IsReference(v) then
      match Resolve(w, v)
      case Some(x) => Adoption(x, Some(v), true)
      case None => Adoption(v, None, false)
    else if held != "" && live == Some(v) then Adoption(v, Some(held), true)
    else Adoption(v, None, true)
  }

  function At(m: Secrets, f: Field): Option<string> {
    if f in m then Some(m[f]) else None
  }

  function HeldFor(refs: Secrets, f: Field): string {
    if f in refs then refs[f] else ""
  }

  function AdoptAt(w: World, sent: Secrets, refs: Secrets, live: Secrets, f: Field): Adoption
    requires f in sent
  {
    AdoptField(w, sent[f], HeldFor(refs, f), At(live, f))
  }

  function Adopted(w: World, sent: Secrets, refs: Secrets, live: Secrets): Secrets {
    map f | f in sent :: AdoptAt(w, sent, refs, live, f).value
  }

  function AdoptedRefs(w: World, sent: Secrets, refs: Secrets, live: Secrets): Secrets {
    map f | f in sent && AdoptAt(w, sent, refs, live, f).ref.Some? :: AdoptAt(w, sent, refs, live, f).ref.value
  }

  predicate Adoptable(w: World, sent: Secrets, refs: Secrets, live: Secrets) {
    forall f | f in sent :: AdoptAt(w, sent, refs, live, f).ok
  }

  /** WithSecretReferences, and what applySecretReferences leaves. */
  function Shown(secrets: Secrets, refs: Secrets): Secrets {
    map f | f in secrets :: if f in refs then refs[f] else secrets[f]
  }

  /** The fields encryptSensitiveFields encrypts. */
  predicate IsSealed(f: Field) {
    f != AiApiKey && f != AuditSignatureKey
  }

  function SealField(w: World, f: Field, v: string): string {
    if IsSealed(f) && (f == DatabasePassword ==> v != "") then w.seal(v) else v
  }

  function Sealed(w: World, secrets: Secrets): Secrets {
    map f | f in secrets :: SealField(w, f, secrets[f])
  }

  /** What a save writes of the secrets. */
  function Saved(w: World, secrets: Secrets, refs: Secrets): Secrets {
    Shown(Sealed(w, secrets), refs)
  }

  /** What each secret is in the file: its reference if it came from one, and otherwise encrypted,
      but for the two that are written as they are. */
  lemma FileHolds(w: World, live: Secrets, refs: Secrets, f: Field)
    requires Lawful(w)
    ensures f in Saved(w, live, refs) <==> f in live
    ensures f in live && f in refs ==> Saved(w, live, refs)[f] == refs[f]
    ensures f in live && f !in refs ==>
              Saved(w, live, refs)[f] ==
                match f
                case PasetoSecret => w.seal(live[f])
                case DatabaseUrl => w.seal(live[f])
                case DatabasePassword => w.seal(live[f])
                case MaxmindLicenseKey => w.seal(live[f])
                case PowSecret => w.seal(live[f])
                case AiApiKey => live[f]
                case AuditSignatureKey => live[f]
  {
  }

  /** The live secrets are what the references resolve to, and no other field holds one. */
  ghost predicate Consistent(w: World, live: Secrets, refs: Secrets) {
    && (forall f :: f in refs ==> f in live && IsReference(refs[f]) && Resolve(w, refs[f]) == Some(live[f]))
    && (forall f :: f in live && f !in refs ==> !IsReference(live[f]))
  }

  lemma FieldStaysConsistent(w: World, v: string, held: string, live: Option<string>)
    requires Lawful(w) && AdoptField(w, v, held, live).ok
    requires held != "" ==> IsReference(held) && live.Some? && Resolve(w, held) == live
    ensures var a := AdoptField(w, v, held, live);
            if a.ref.Some? then IsReference(a.ref.value) && Resolve(w, a.ref.value) == Some(a.value)
            else !IsReference(a.value)
  {
    hide Resolve;
  }

  /** Whatever an update carries, the references it leaves are the ones its secrets came from. */
  lemma UpdateStaysConsistent(w: World, sent: Secrets, refs: Secrets, live: Secrets)
    requires Lawful(w) && Consistent(w, live, refs) && Adoptable(w, sent, refs, live)
    ensures Consistent(w, Adopted(w, sent, refs, live), AdoptedRefs(w, sent, refs, live))
  {
    forall f | f in sent
      ensures var a := AdoptAt(w, sent, refs, live, f);
              if a.ref.Some? then IsReference(a.ref.value) && Resolve(w, a.ref.value) == Some(a.value)
              else !IsReference(a.value)
    {
      FieldStaysConsistent(w, sent[f], HeldFor(refs, f), At(live, f));
    }
    hide AdoptField, IsReference, Resolve;
  }

  /** An update does what it does field by field. */
  lemma AdoptionIsPointwise(w: World, sent: Secrets, refs: Secrets, live: Secrets, want: Secrets, wantRefs: Secrets)
    requires want.Keys == sent.Keys && wantRefs.Keys <= sent.Keys
    ensures (Adoptable(w, sent, refs, live) && Adopted(w, sent, refs, live) == want
            && AdoptedRefs(w, sent, refs, live) == wantRefs)
       <==> (forall f :: f in sent ==> AdoptAt(w, sent, refs, live, f) == Adoption(want[f], At(wantRefs, f), true))
  {
    hide AdoptAt;
    var now, newRefs := Adopted(w, sent, refs, live), AdoptedRefs(w, sent, refs, live);
    if Adoptable(w, sent, refs, live) && now == want && newRefs == wantRefs {
      forall f | f in sent
        ensures AdoptAt(w, sent, refs, live, f) == Adoption(want[f], At(wantRefs, f), true)
      {
        assert now[f] == want[f] && (f in newRefs <==> f in wantRefs);
      }
    }
  }

  /** Writing back the configuration as it is shown changes nothing, and the file names the
      references. */
  lemma ShownRoundTrip(w: World, live: Secrets, refs: Secrets)
    requires Lawful(w) && Consistent(w, live, refs)
    ensures Adoptable(w, Shown(live, refs), refs, live)
    ensures Adopted(w, Shown(live, refs), refs, live) == live
    ensures AdoptedRefs(w, Shown(live, refs), refs, live) == refs
    ensures forall f :: f in refs ==> Saved(w, live, refs)[f] == refs[f]
  {
    forall f | f in live
      ensures AdoptAt(w, Shown(live, refs), refs, live, f) == Adoption(live[f], At(refs, f), true)
    {
      ShownField(w, live, refs, f);
    }
    AdoptionIsPointwise(w, Shown(live, refs), refs, live, live, refs);
    hide AdoptAt, IsReference, Resolve;
  }

  lemma ShownField(w: World, live: Secrets, refs: Secrets, f: Field)
    requires Lawful(w) && Consistent(w, live, refs) && f in live
    ensures AdoptAt(w, Shown(live, refs), refs, live, f) == Adoption(live[f], At(refs, f), true)
  {
    if f in refs {
      ReferenceResolves(w, refs[f]);
    }
    hide IsReference, Resolve;
  }

  /** A resolved value that can be told apart from an empty field and from a reference. */
  predicate TellsApart(v: string) {
    v != "" && !IsReference(v)
  }

  /** Writing back the resolved values keeps the references exactly when every value that
      came from one is neither empty nor itself a reference. */
  lemma ResolvedRoundTripExactlyWhen(w: World, live: Secrets, refs: Secrets)
    requires Lawful(w) && Consistent(w, live, refs)
    ensures (Adoptable(w, live, refs, live) && Adopted(w, live, refs, live) == live
            && AdoptedRefs(w, live, refs, live) == refs)
       <==> (forall f :: f in refs ==> TellsApart(live[f]))
  {
    forall f | f in live
      ensures AdoptAt(w, live, refs, live, f) == Adoption(live[f], At(refs, f), true)
         <==> (f in refs ==> TellsApart(live[f]))
    {
      ResolvedField(w, live, refs, f);
    }
    AdoptionIsPointwise(w, live, refs, live, live, refs);
    assert forall f :: f in refs ==> f in live;
    hide AdoptAt, Adopted, AdoptedRefs, Adoptable, Consistent, TellsApart;
  }

  lemma ResolvedField(w: World, live: Secrets, refs: Secrets, f: Field)
    requires Lawful(w) && Consistent(w, live, refs) && f in live
    ensures AdoptAt(w, live, refs, live, f) == Adoption(live[f], At(refs, f), true)
       <==> (f in refs ==> TellsApart(live[f]))
  {
    if f in refs {
      ReferenceResolves(w, refs[f]);
    }
    if IsReference(live[f]) {
      ReferenceResolves(w, live[f]);
    }
    hide IsReference, Resolve;
  }

  // ----- Runs of updates -----

  datatype Registered = Registered(live: Secrets, refs: Secrets)

  /** One update with a configuration object of its own, given whether everything but its
      references is in order.  A refused one leaves the live configuration alone. */
  function Updated(w: World, r: Registered, sent: Secrets, works: bool): Registered {
    if works && Adoptable(w, sent, r.refs, r.live)
    then Registered(Adopted(w, sent, r.refs, r.live), AdoptedRefs(w, sent, r.refs, r.live))
    else r
  }

  function UpdatedAll(w: World, r: Registered, updates: seq<(Secrets, bool)>): Registered {
    if updates == [] then r
    else Updated(w, UpdatedAll(w, r, updates[..|updates| - 1]), updates[|updates| - 1].0, updates[|updates| - 1].1)
  }

  /** After any run of updates with objects of their own, failed ones among them, the shown
      configuration written back is no change. */
  lemma {:induction false} RunKeepsReferences(w: World, r: Registered, updates: seq<(Secrets, bool)>)
    requires Lawful(w) && Consistent(w, r.live, r.refs)
    ensures var s := UpdatedAll(w, r, updates);
            Consistent(w, s.live, s.refs) && Updated(w, s, Shown(s.live, s.refs), true) == s
  {
    if updates != [] {
      RunKeepsReferences(w, r, updates[..|updates| - 1]);
      var before := UpdatedAll(w, r, updates[..|updates| - 1]);
      var (sent, works) := updates[|updates| - 1];
      if works && Adoptable(w, sent, before.refs, before.live) {
        UpdateStaysConsistent(w, sent, before.refs, before.live);
      }
    }
    var s := UpdatedAll(w, r, updates);
    ShownRoundTrip(w, s.live, s.refs);
  }

  // ----- Loading what was saved -----

  /** What a load makes of one field: decryptSensitiveFields, which does not list the AI key and
      gives a placeholder proof-of-work secret a fresh value. */
  function LoadedField(w: World, f: Field, s: string, placeholder: string -> bool, generated: string): Option<string> {
    if f == AiApiKey then Some(s)
    else
      var resolved := if s == "" then Some(s) else Resolve(w, s);
      if f == PowSecret && resolved.Some? && placeholder(resolved.value) then Some(generated) else resolved
  }

  /** Outside facts a load depends on: which proof-of-work secrets are placeholders, and the
      value generated in place of one, which is none itself. */
  datatype Generation = Generation(placeholder: string -> bool, generated: string)

  predicate Sound(g: Generation) {
    !g.placeholder(g.generated) && !IsReference(g.generated)
  }

  function LoadField(w: World, g: Generation, f: Field, s: string): Option<string> {
    LoadedField(w, f, s, g.placeholder, g.generated)
  }

  /** A whole file: it loads when every field resolves, and then the fields hold what they
      resolve to, and the references are those the file names. */
  predicate Loadable(w: World, g: Generation, file: Secrets) {
    forall f | f in file :: LoadField(w, g, f, file[f]).Some?
  }

  function Loaded(w: World, g: Generation, file: Secrets): Secrets
    requires Loadable(w, g, file)
  {
    map f | f in file :: LoadField(w, g, f, file[f]).value
  }

  /** secretReferences. */
  function References(file: Secrets): Secrets {
    map f | f in file && IsReference(file[f]) :: file[f]
  }

  /** What a file may hold in a field for its load to be clean: an AI key is no reference, a
      proof-of-work secret kept as a reference does not resolve to a placeholder, and what is
      not a reference does not stand for one. */
  predicate LoadsClean(w: World, g: Generation, f: Field, s: string) {
    if f == AiApiKey then !IsReference(s)
    else
      match Resolve(w, s)
      case None => false
      case Some(v) => if f == PowSecret && g.placeholder(v) then !IsReference(s) else IsReference(s) || !IsReference(v)
  }

  /** The shown configuration written back is no change, for one field. */
  predicate WriteBackKeeps(w: World, live: Secrets, refs: Secrets, f: Field)
    requires f in live
  {
    AdoptAt(w, Shown(live, refs), refs, live, f) == Adoption(live[f], At(refs, f), true)
  }

  ghost predicate FieldConsistent(w: World, live: Secrets, refs: Secrets, f: Field)
    requires f in live
  {
    if f in refs then IsReference(refs[f]) && Resolve(w, refs[f]) == Some(live[f]) else !IsReference(live[f])
  }

  lemma LoadedFieldExactlyWhen(w: World, g: Generation, file: Secrets, f: Field)
    requires Lawful(w) && Sound(g) && Loadable(w, g, file) && f in file
    ensures FieldConsistent(w, Loaded(w, g, file), References(file), f) <==> LoadsClean(w, g, f, file[f])
    ensures WriteBackKeeps(w, Loaded(w, g, file), References(file), f) <==> LoadsClean(w, g, f, file[f])
  {
    var s, v := file[f], Loaded(w, g, file)[f];
    assert LoadField(w, g, f, s) == Some(v);
    if IsReference(s) {
      ReferenceResolves(w, s);
    }
    if IsReference(v) {
      ReferenceResolves(w, v);
    }
    assert s == "" ==> Resolve(w, s) == Some("") by { assert w.unseal("") == Some(""); }
    assert !IsReference("");
    hide IsReference, Resolve;
  }

  /** After a load, the registry is consistent, and writing back what WithSecretReferences
      shows is no change, exactly when every field of the file loads clean. */
  lemma LoadIsConsistentExactlyWhen(w: World, g: Generation, file: Secrets)
    requires Lawful(w) && Sound(g) && Loadable(w, g, file)
    ensures var r := Registered(Loaded(w, g, file), References(file));
            && (Consistent(w, r.live, r.refs) <==> forall f :: f in file ==> LoadsClean(w, g, f, file[f]))
            && (Adoptable(w, Shown(r.live, r.refs), r.refs, r.live) && Updated(w, r, Shown(r.live, r.refs), true) == r
                <==> forall f :: f in file ==> LoadsClean(w, g, f, file[f]))
  {
    var live, refs := Loaded(w, g, file), References(file);
    forall f | f in file
      ensures FieldConsistent(w, live, refs, f) <==> LoadsClean(w, g, f, file[f])
      ensures WriteBackKeeps(w, live, refs, f) <==> LoadsClean(w, g, f, file[f])
    {
      LoadedFieldExactlyWhen(w, g, file, f);
    }
    ConsistentIsPointwise(w, live, refs);
    AdoptionIsPointwise(w, Shown(live, refs), refs, live, live, refs);
    assert live.Keys == file.Keys && refs.Keys <= file.Keys && Shown(live, refs).Keys == live.Keys;
    hide LoadsClean, FieldConsistent, Consistent, AdoptAt, Adoptable, Adopted, AdoptedRefs, Loaded, References,
        Loadable, Shown;
  }

  lemma ConsistentIsPointwise(w: World, live: Secrets, refs: Secrets)
    requires refs.Keys <= live.Keys
    ensures Consistent(w, live, refs) <==> forall f :: f in live ==> FieldConsistent(w, live, refs, f)
  {
    hide IsReference, Resolve;
    if forall f :: f in live ==> FieldConsistent(w, live, refs, f) {
      forall f | f in refs ensures f in live && FieldConsistent(w, live, refs, f) {
        assert f in refs.Keys;
      }
    }
  }

  /** So from a file that loads clean, through any run of updates with objects of their own,
      the shown configuration written back is no change. */
  lemma LoadedRunKeepsReferences(w: World, g: Generation, file: Secrets, updates: seq<(Secrets, bool)>)
    requires Lawful(w) && Sound(g) && Loadable(w, g, file)
    requires forall f :: f in file ==> LoadsClean(w, g, f, file[f])
    ensures var s := UpdatedAll(w, Registered(Loaded(w, g, file), References(file)), updates);
            Consistent(w, s.live, s.refs) && Updated(w, s, Shown(s.live, s.refs), true) == s
  {
    LoadIsConsistentExactlyWhen(w, g, file);
    RunKeepsReferences(w, Registered(Loaded(w, g, file), References(file)), updates);
  }

  /** A field comes back from the file as it was, value and reference. */
  predicate Reloads(w: World, live: Secrets, refs: Secrets, f: Field, placeholder: string -> bool, generated: string)
    requires f in live
  {
    var s := Saved(w, live, refs)[f];
    LoadedField(w, f, s, placeholder, generated) == Some(live[f]) && (IsReference(s) <==> f in refs)
        && (f in refs ==> s == refs[f])
  }

  lemma ReferenceReloadsExactlyWhen(w: World, f: Field, ref: string, v: string, placeholder: string -> bool,
        generated: string)
    requires Lawful(w) && IsReference(ref) && Resolve(w, ref) == Some(v) && generated != v
    ensures LoadedField(w, f, ref, placeholder, generated) == Some(v)
       <==> f != AiApiKey && (f == PowSecret ==> !placeholder(v))
  {
    ReferenceResolves(w, ref);
    hide IsReference, Resolve;
  }

  lemma SealedValue(w: World, f: Field, v: string)
    requires Lawful(w) && !IsReference(v)
    ensures var s := SealField(w, f, v);
            && !IsReference(s) && (s == "" <==> v == "")
            && (s != v ==> f != AiApiKey && Resolve(w, s) == Some(v))
  {
    var s := SealField(w, f, v);
    if s != v {
      assert s[0] == 'e';
    }
  }

  lemma ValueReloadsExactlyWhen(w: World, f: Field, v: string, placeholder: string -> bool, generated: string)
    requires Lawful(w) && !IsReference(v) && generated != v
    ensures LoadedField(w, f, SealField(w, f, v), placeholder, generated) == Some(v)
       <==> && (f == PowSecret ==> !placeholder(v))
            && (f != AiApiKey && v != "" && SealField(w, f, v) == v ==> Resolve(w, v) == Some(v))
  {
    SealedValue(w, f, v);
    hide Lawful, IsReference, Resolve, SealField;
  }

  /** A field survives a save and a load exactly when it is not an AI key kept as a reference,
      not a placeholder proof-of-work secret, and not an unencrypted value that reads as
      encrypted. */
  lemma ReloadsExactlyWhen(w: World, live: Secrets, refs: Secrets, f: Field, placeholder: string -> bool,
        generated: string)
    requires Lawful(w) && Consistent(w, live, refs) && f in live && generated != live[f]
    ensures Reloads(w, live, refs, f, placeholder, generated)
       <==> && (f == AiApiKey ==> f !in refs)
            && (f == PowSecret ==> !placeholder(live[f]))
            && (f != AiApiKey && f !in refs && live[f] != "" && SealField(w, f, live[f]) == live[f]
                ==> Resolve(w, live[f]) == Some(live[f]))
  {
    if f in refs {
      ReferenceReloadsExactlyWhen(w, f, refs[f], live[f], placeholder, generated);
    } else {
      SealedValue(w, f, live[f]);
      ValueReloadsExactlyWhen(w, f, live[f], placeholder, generated);
    }
    hide Lawful, IsReference, Resolve, SealField, LoadedField;
  }

  /** An AI key loaded as a reference is left unresolved, so showing it and writing it back
      unchanged puts another value in force. */
  lemma AiKeyReferenceChangesOnWriteBack(w: World, g: Generation, ref: string, value: string)
    requires Lawful(w) && Sound(g) && IsReference(ref) && w.lookup(ref) == Some(value)
    ensures var file: Secrets := map[AiApiKey := ref];
            && Loadable(w, g, file) && Loaded(w, g, file) == file && References(file) == file
            && Adopted(w, Shown(file, file), file, file) == map[AiApiKey := value] != file
  {
    ReferenceResolves(w, ref);
    var file: Secrets := map[AiApiKey := ref];
    assert AdoptAt(w, Shown(file, file), file, file, AiApiKey) == Adoption(value, Some(ref), true);
    assert file[AiApiKey] == ref && AiApiKey in file;
  }

  /** A proof-of-work secret kept as a reference to a placeholder: the load puts a generated
      value in force, and writing back what is shown puts the placeholder in force. */
  lemma PlaceholderReferenceReturnsOnWriteBack(w: World, g: Generation, ref: string, value: string)
    requires Lawful(w) && Sound(g) && IsReference(ref) && w.lookup(ref) == Some(value) && g.placeholder(value)
    ensures var file: Secrets := map[PowSecret := ref];
            && Loadable(w, g, file) && Loaded(w, g, file) == map[PowSecret := g.generated] && References(file) == file
            && Adopted(w, Shown(map[PowSecret := g.generated], file), file, map[PowSecret := g.generated])
                == map[PowSecret := value]
  {
    PlaceholderReferenceLoads(w, g, ref, value);
    PlaceholderReferenceAdopted(w, g, ref, value);
  }

  lemma PlaceholderReferenceLoads(w: World, g: Generation, ref: string, value: string)
    requires Lawful(w) && Sound(g) && IsReference(ref) && w.lookup(ref) == Some(value) && g.placeholder(value)
    ensures var file: Secrets := map[PowSecret := ref];
            Loadable(w, g, file) && Loaded(w, g, file) == map[PowSecret := g.generated] && References(file) == file
  {
    ReferenceResolves(w, ref);
    hide Resolve, Lawful;
    assert LoadField(w, g, PowSecret, ref) == Some(g.generated);
    hide LoadField, IsReference;
  }

  lemma PlaceholderReferenceAdopted(w: World, g: Generation, ref: string, value: string)
    requires Lawful(w) && IsReference(ref) && w.lookup(ref) == Some(value)
    ensures var file: Secrets := map[PowSecret := ref];
            var live: Secrets := map[PowSecret := g.generated];
            Adopted(w, Shown(live, file), file, live) == map[PowSecret := value]
  {
    ReferenceResolves(w, ref);
    hide Resolve, Lawful, IsReference;
    var file: Secrets := map[PowSecret := ref];
    var live: Secrets := map[PowSecret := g.generated];
    assert AdoptAt(w, Shown(live, file), file, live, PowSecret) == Adoption(value, Some(ref), true);
  }

  // ----- The certificate index -----

  datatype Certificate = Certificate(id: string, body: string)

  function Index(certs: seq<Certificate>): map<string, Certificate> {
    if certs == [] then map[] else Index(certs[..|certs| - 1])[certs[|certs| - 1].id := certs[|certs| - 1]]
  }

  /** The index answers with the last certificate of an id, and knows exactly the ids there are. */
  predicate IsLastOf(certs: seq<Certificate>, i: nat, id: string)
    requires i < |certs|
  {
    certs[i].id == id && forall j :: i < j < |certs| ==> certs[j].id != id
  }

  lemma {:induction false} IndexFindsTheLast(certs: seq<Certificate>, i: nat)
    requires i < |certs| && forall j :: i < j < |certs| ==> certs[j].id != certs[i].id
    ensures certs[i].id in Index(certs) && Index(certs)[certs[i].id] == certs[i]
  {
    var before := certs[..|certs| - 1];
    if i < |certs| - 1 {
      assert forall j :: i < j < |before| ==> before[j] == certs[j];
      IndexFindsTheLast(before, i);
    }
  }

  lemma {:induction false} IndexKnowsOnlyItsIds(certs: seq<Certificate>, id: string)
    requires id in Index(certs)
    ensures exists i :: 0 <= i < |certs| && certs[i].id == id && certs[i] == Index(certs)[id]
  {
    var before, last := certs[..|certs| - 1], certs[|certs| - 1];
    if last.id != id {
      IndexKnowsOnlyItsIds(before, id);
      var i :| 0 <= i < |before| && before[i].id == id && before[i] == Index(before)[id];
      assert certs[i] == before[i];
    }
  }

  // ----- The registry -----

  class Config {
    var secrets: Secrets
    var certificates: seq<Certificate>
    var rest: string

    constructor (secrets: Secrets, certificates: seq<Certificate>, rest: string)
      ensures this.secrets == secrets && this.certificates == certificates && this.rest == rest
    {
      this.secrets, this.certificates, this.rest := secrets, certificates, rest;
    }
  }

  datatype File = File(secrets: Secrets, certificates: seq<Certificate>, rest: string)

  datatype UpdateError = PlaceholderStored | UnresolvedSecret | LoadFailed | WriteFailed

  /** Where the adoption loop is after the fields `done`. */
  ghost predicate ValuesUpTo(w: World, sent: Secrets, refs: Secrets, live: Secrets, done: set<Field>, now: Secrets) {
    && now.Keys == sent.Keys
    && forall f :: f in sent ==> now[f] == if f in done then AdoptAt(w, sent, refs, live, f).value else sent[f]
  }

  ghost predicate RefsUpTo(w: World, sent: Secrets, refs: Secrets, live: Secrets, done: set<Field>, newRefs: Secrets) {
    && (forall f :: f in newRefs <==> f in sent && f in done && AdoptAt(w, sent, refs, live, f).ref.Some?)
    && (forall f :: f in newRefs ==> newRefs[f] == AdoptAt(w, sent, refs, live, f).ref.value)
  }

  ghost predicate OkUpTo(w: World, sent: Secrets, refs: Secrets, live: Secrets, done: set<Field>, ok: bool) {
    ok <==> forall f :: f in sent && f in done ==> AdoptAt(w, sent, refs, live, f).ok
  }

  lemma ValuesStep(w: World, sent: Secrets, refs: Secrets, live: Secrets, done: set<Field>, now: Secrets, f: Field)
    requires ValuesUpTo(w, sent, refs, live, done, now) && f !in done
    ensures f in now <==> f in sent
    ensures f in sent ==> now[f] == sent[f]
                          && ValuesUpTo(w, sent, refs, live, done + {f},
                              now[f := AdoptAt(w, sent, refs, live, f).value])
    ensures f !in sent ==> ValuesUpTo(w, sent, refs, live, done + {f}, now)
  {
    hide AdoptAt;
  }

  lemma RefsStep(w: World, sent: Secrets, refs: Secrets, live: Secrets, done: set<Field>, newRefs: Secrets, f: Field)
    requires RefsUpTo(w, sent, refs, live, done, newRefs) && f !in done
    ensures if f in sent && AdoptAt(w, sent, refs, live, f).ref.Some?
            then RefsUpTo(w, sent, refs, live, done + {f}, newRefs[f := AdoptAt(w, sent, refs, live, f).ref.value])
            else RefsUpTo(w, sent, refs, live, done + {f}, newRefs)
  {
    hide AdoptAt;
  }

  lemma OkStep(w: World, sent: Secrets, refs: Secrets, live: Secrets, done: set<Field>, ok: bool, f: Field)
    requires OkUpTo(w, sent, refs, live, done, ok) && f !in done
    ensures OkUpTo(w, sent, refs, live, done + {f}, ok && (f in sent ==> AdoptAt(w, sent, refs, live, f).ok))
  {
    hide AdoptAt;
  }

  /** The fields the loop has been over. */
  ghost function Done(i: nat): set<Field>
    requires i <= |SECRET_FIELDS|
  {
    set j | 0 <= j < i :: SECRET_FIELDS[j]
  }

  lemma DoneStep(i: nat)
    requires i < |SECRET_FIELDS|
    ensures SECRET_FIELDS[i] !in Done(i) && Done(i + 1) == Done(i) + {SECRET_FIELDS[i]}
  {
  }

  lemma DoneIsAll(f: Field)
    ensures f in Done(|SECRET_FIELDS|)
  {
    assert SECRET_FIELDS[0] == PasetoSecret && SECRET_FIELDS[1] == DatabaseUrl && SECRET_FIELDS[2] == DatabasePassword;
    assert SECRET_FIELDS[3] == MaxmindLicenseKey && SECRET_FIELDS[4] == AiApiKey
        && SECRET_FIELDS[5] == AuditSignatureKey;
    assert SECRET_FIELDS[6] == PowSecret;
  }

  lemma AdoptionStarts(w: World, sent: Secrets, refs: Secrets, live: Secrets)
    ensures ValuesUpTo(w, sent, refs, live, Done(0), sent)
    ensures RefsUpTo(w, sent, refs, live, Done(0), map[])
    ensures OkUpTo(w, sent, refs, live, Done(0), true)
  {
    NoneDone();
    hide AdoptAt;
  }

  lemma AdoptionEnds(w: World, sent: Secrets, refs: Secrets, live: Secrets, now: Secrets, newRefs: Secrets, ok: bool)
    requires ValuesUpTo(w, sent, refs, live, Done(|SECRET_FIELDS|), now)
    requires RefsUpTo(w, sent, refs, live, Done(|SECRET_FIELDS|), newRefs)
    requires OkUpTo(w, sent, refs, live, Done(|SECRET_FIELDS|), ok)
    ensures now == Adopted(w, sent, refs, live) && ok == Adoptable(w, sent, refs, live)
    ensures newRefs == AdoptedRefs(w, sent, refs, live)
  {
    forall f: Field
      ensures f in Done(|SECRET_FIELDS|)
    {
      DoneIsAll(f);
    }
    hide *;
    ValuesEnd(w, sent, refs, live, Done(|SECRET_FIELDS|), now);
    RefsEnd(w, sent, refs, live, Done(|SECRET_FIELDS|), newRefs);
    OkEnd(w, sent, refs, live, Done(|SECRET_FIELDS|), ok);
  }

  lemma ValuesEnd(w: World, sent: Secrets, refs: Secrets, live: Secrets, done: set<Field>, now: Secrets)
    requires ValuesUpTo(w, sent, refs, live, done, now) && forall f: Field :: f in done
    ensures now == Adopted(w, sent, refs, live)
  {
    hide AdoptAt;
  }

  lemma RefsEnd(w: World, sent: Secrets, refs: Secrets, live: Secrets, done: set<Field>, newRefs: Secrets)
    requires RefsUpTo(w, sent, refs, live, done, newRefs) && forall f: Field :: f in done
    ensures newRefs == AdoptedRefs(w, sent, refs, live)
  {
    hide AdoptAt;
  }

  lemma OkEnd(w: World, sent: Secrets, refs: Secrets, live: Secrets, done: set<Field>, ok: bool)
    requires OkUpTo(w, sent, refs, live, done, ok) && forall f: Field :: f in done
    ensures ok == Adoptable(w, sent, refs, live)
  {
    hide AdoptAt;
  }

  /** applySecretReferences, on a clone's secrets. */
  method ApplySecretReferences(secrets: Secrets, refs: Secrets) returns (out: Secrets)
    ensures out == Shown(secrets, refs)
  {
    hide Done;
    out := secrets;
    assert Done(0) == {} by { NoneDone(); }
    for i := 0 to |SECRET_FIELDS|
      invariant out.Keys == secrets.Keys
      invariant forall f :: f in secrets ==> out[f] == if f in refs && f in Done(i) then refs[f] else secrets[f]
    {
      DoneStep(i);
      var f := SECRET_FIELDS[i];
      if f in refs && f in out {
        out := out[f := refs[f]];
      }
    }
    forall f | f in secrets
      ensures f in Done(|SECRET_FIELDS|)
    {
      DoneIsAll(f);
    }
  }

  /** secretReferences. */
  method SecretReferences(secrets: Secrets) returns (refs: Secrets)
    ensures refs == References(secrets)
  {
    hide Done, IsReference;
    refs := map[];
    assert Done(0) == {} by { NoneDone(); }
    for i := 0 to |SECRET_FIELDS|
      invariant forall f :: f in refs <==> f in Done(i) && f in secrets && IsReference(secrets[f])
      invariant forall f :: f in refs ==> refs[f] == secrets[f]
    {
      DoneStep(i);
      var f := SECRET_FIELDS[i];
      if f in secrets && IsReference(secrets[f]) {
        refs := refs[f := secrets[f]];
      }
    }
    forall f | f in secrets
      ensures f in Done(|SECRET_FIELDS|)
    {
      DoneIsAll(f);
    }
  }

  lemma NoneDone()
    ensures Done(0) == {}
  {
  }

  /** An update is refused for a placeholder it carries, a reference that does not resolve, a
      file that failed to load or cannot be written. */
  predicate Refused(w: World, sent: Secrets, refs: Secrets, live: Secrets, held: bool, loadErr: bool, writes: bool) {
    held || !Adoptable(w, sent, refs, live) || loadErr || !writes
  }

  /** What an update, accepted or refused, leaves in the object it was handed. */
  function LeftIn(w: World, sent: Secrets, refs: Secrets, live: Secrets, held: bool): Secrets {
    if held then sent else Adopted(w, sent, refs, live)
  }

  class Registry {
    const w: World
    var config: Config?
    var refs: Secrets
    var certIndex: map<string, Certificate>
    var loadErr: bool
    var file: Option<File>

    /** The certificate index matches the configuration in force. */
    ghost predicate Valid()
      reads this, config
    {
      certIndex == if config == null then map[] else Index(config.certificates)
    }

    constructor (w: World, loadErr: bool, file: Option<File>)
      ensures Valid() && this.w == w && config == null && refs == map[] && this.loadErr == loadErr && this.file == file
    {
      this.w, config, refs, certIndex := w, null, map[], map[];
      this.loadErr, this.file := loadErr, file;
    }

    /** rebuildCertIndexLocked. */
    method RebuildCertIndex()
      modifies this`certIndex
      ensures Valid()
    {
      var idx: map<string, Certificate> := map[];
      if config != null {
        for i := 0 to |config.certificates|
          invariant idx == Index(config.certificates[..i])
        {
          assert config.certificates[..i + 1][..i] == config.certificates[..i];
          idx := idx[config.certificates[i].id := config.certificates[i]];
        }
        assert config.certificates[..|config.certificates|] == config.certificates;
      }
      certIndex := idx;
    }

    /** GetCertificate. */
    method GetCertificate(id: string) returns (c: Option<Certificate>)
      requires Valid()
      ensures c.Some? <==> config != null && exists i ::
                0 <= i < |config.certificates| && config.certificates[i].id == id
      ensures c.Some? ==> c.value.id == id && c.value in config.certificates
      ensures config != null ==>
                forall i :: 0 <= i < |config.certificates| && IsLastOf(config.certificates, i, id) ==>
                  c == Some(config.certificates[i])
    {
      if config != null {
        forall i | 0 <= i < |config.certificates| && IsLastOf(config.certificates, i, id)
          ensures id in certIndex && certIndex[id] == config.certificates[i]
        {
          IndexFindsTheLast(config.certificates, i);
        }
      }
      if id in certIndex {
        c := Some(certIndex[id]);
        IndexKnowsOnlyItsIds(config.certificates, id);
      } else {
        c := None;
        if config != null && exists i :: 0 <= i < |config.certificates| && config.certificates[i].id == id {
          IndexKnows(config.certificates, id);
        }
      }
    }

    /** load, of the file as merged with the shipped defaults; `readable` is whether it can be read
        and parsed.  A file that is there and fails to load leaves the registry as it is, and
        is never written over. */
    method Load(g: Generation, readable: bool)
      requires Valid()
      modifies this
      ensures Valid() && file == old(file)
      ensures file.Some? && readable && Loadable(w, g, file.value.secrets) ==>
                && config != null && fresh(config) && config.secrets == Loaded(w, g, file.value.secrets)
                && config.certificates == file.value.certificates && config.rest == file.value.rest
                && refs == References(file.value.secrets) && loadErr == old(loadErr)
      ensures !(file.Some? && readable && Loadable(w, g, file.value.secrets)) ==>
                config == old(config) && refs == old(refs) && loadErr == (old(loadErr) || file.Some?)
    {
      if file.None? {
        return;
      }
      if !readable {
        loadErr := true;
        return;
      }
      var newRefs := SecretReferences(file.value.secrets);
      if !Loadable(w, g, file.value.secrets) {
        loadErr := true;
        return;
      }
      refs := newRefs;
      config := new Config(Loaded(w, g, file.value.secrets), file.value.certificates, file.value.rest);
      RebuildCertIndex();
    }

    /** adoptSecretsLocked; `live` may be `conf` itself. */
    method AdoptSecrets(conf: Config, live: Config?) returns (newRefs: Secrets, ok: bool)
      modifies conf`secrets
      ensures var sent := old(conf.secrets);
              var held := if live == null then map[] else old(live.secrets);
              && conf.secrets == Adopted(w, sent, refs, held)
              && ok == Adoptable(w, sent, refs, held)
              && newRefs == AdoptedRefs(w, sent, refs, held)
    {
      hide AdoptField, ValuesUpTo, RefsUpTo, OkUpTo, Adopted, AdoptedRefs, Adoptable, Done;
      ghost var sent, held := conf.secrets, if live == null then map[] else live.secrets;
      newRefs, ok := map[], true;
      AdoptionStarts(w, sent, refs, held);
      for i := 0 to |SECRET_FIELDS|
        invariant ValuesUpTo(w, sent, refs, held, Done(i), conf.secrets)
        invariant RefsUpTo(w, sent, refs, held, Done(i), newRefs)
        invariant OkUpTo(w, sent, refs, held, Done(i), ok)
        invariant live != null && live != conf ==> live.secrets == held
        invariant live == conf ==> held == sent
      {
        var f := SECRET_FIELDS[i];
        DoneStep(i);
        ValuesStep(w, sent, refs, held, Done(i), conf.secrets, f);
        RefsStep(w, sent, refs, held, Done(i), newRefs, f);
        OkStep(w, sent, refs, held, Done(i), ok, f);
        if f in conf.secrets {
          var a := AdoptField(w, conf.secrets[f], HeldFor(refs, f), if live == null then None else At(live.secrets, f));
          conf.secrets := conf.secrets[f := a.value];
          if a.ref.Some? {
            newRefs := newRefs[f := a.ref.value];
          }
          ok := ok && a.ok;
        }
      }
      AdoptionEnds(w, sent, refs, held, conf.secrets, newRefs, ok);
    }

    /** saveLocked; `writes` is whether the file can be written. */
    method Save(writes: bool) returns (err: Option<UpdateError>)
      modifies this`file
      ensures err.None? <==> !loadErr && (config == null || writes)
      ensures err.Some? ==> err == Some(if loadErr then LoadFailed else WriteFailed)
      ensures file == if err.None? && config != null
                      then Some(File(Saved(w, config.secrets, refs), config.certificates, config.rest))
                      else old(file)
    {
      if loadErr {
        return Some(LoadFailed);
      }
      if config == null {
        return None;
      }
      var secrets := ApplySecretReferences(Sealed(w, config.secrets), refs);
      if !writes {
        return Some(WriteFailed);
      }
      file := Some(File(secrets, config.certificates, config.rest));
      return None;
    }

    /** Update; `held` is whether the update still carries a stored-secret placeholder. */
    method Update(conf: Config, held: bool, writes: bool) returns (err: Option<UpdateError>)
      requires Valid()
      modifies this, conf`secrets
      ensures Valid() && loadErr == old(loadErr)
      ensures var live := if old(config) == null then map[] else old(config.secrets);
              var sent := old(conf.secrets);
              && (err.Some? <==> Refused(w, sent, old(refs), live, held, loadErr, writes))
              && (err.Some? ==>
                    err.value == if held then PlaceholderStored
                                 else if !Adoptable(w, sent, old(refs), live) then UnresolvedSecret
                                 else if loadErr then LoadFailed
                                 else WriteFailed)
              && conf.secrets == LeftIn(w, sent, old(refs), live, held)
              && (err.None? ==>
                    && config == conf && refs == AdoptedRefs(w, sent, old(refs), live)
                    && file == Some(File(Saved(w, conf.secrets, refs), conf.certificates, conf.rest)))
      ensures err.Some? ==>
                config == old(config) && refs == old(refs) && certIndex == old(certIndex) && file == old(file)
      ensures err.Some? && config != null && config != conf ==> config.secrets == old(config.secrets)
    {
      if held {
        return Some(PlaceholderStored);
      }
      var oldConfig, oldRefs := config, refs;
      var newRefs, ok := AdoptSecrets(conf, oldConfig);
      if !ok {
        return Some(UnresolvedSecret);
      }
      refs := newRefs;
      config := conf;
      RebuildCertIndex();
      err := Save(writes);
      if err.Some? {
        refs := oldRefs;
        config := oldConfig;
        RebuildCertIndex();
      }
    }

    /** WithSecretReferences: never changes the configuration it is given. */
    method WithSecretReferences(c: Config) returns (out: Config)
      ensures refs == map[] ==> out == c
      ensures refs != map[] ==> fresh(out) && out.secrets == Shown(c.secrets, refs)
                                && out.certificates == c.certificates && out.rest == c.rest
      ensures out.secrets == Shown(c.secrets, refs)
    {
      if refs == map[] {
        assert Shown(c.secrets, refs) == c.secrets;
        return c;
      }
      var secrets := ApplySecretReferences(c.secrets, refs);
      out := new Config(secrets, c.certificates, c.rest);
    }
  }

  /** A refused update keeps the live configuration in force.  Handed that object itself, it
      leaves its secrets changed exactly when it got as far as the references -- it was not
      refused for a placeholder -- and a field holds a reference that resolves. */
  lemma RefusedUpdateChangesLiveExactlyWhen(w: World, live: Secrets, refs: Secrets, held: bool, loadErr: bool,
        writes: bool)
    requires Lawful(w) && Refused(w, live, refs, live, held, loadErr, writes)
    ensures LeftIn(w, live, refs, live, held) != live
       <==> !held && exists f :: f in live && IsReference(live[f]) && Resolve(w, live[f]).Some?
  {
    AdoptionChangesExactlyWhen(w, live, refs);
  }

  /** A loaded AI key kept as a reference is such a field: an update handed the live object,
      and refused because the file cannot be written, leaves the resolved key in it. */
  lemma RefusedUpdateResolvesTheAiKey(w: World, g: Generation, ref: string, value: string)
    requires Lawful(w) && Sound(g) && IsReference(ref) && w.lookup(ref) == Some(value)
    ensures var file: Secrets := map[AiApiKey := ref];
            && Loadable(w, g, file) && Loaded(w, g, file) == file && References(file) == file
            && Refused(w, file, file, file, false, false, false)
            && LeftIn(w, file, file, file, false) == map[AiApiKey := value] != file
  {
    var file: Secrets := map[AiApiKey := ref];
    AiKeyReferenceChangesOnWriteBack(w, g, ref, value);
    assert Shown(file, file) == file;
  }

  lemma AdoptionChangesExactlyWhen(w: World, live: Secrets, refs: Secrets)
    requires Lawful(w)
    ensures Adopted(w, live, refs, live) != live <==> exists f ::
              f in live && IsReference(live[f]) && Resolve(w, live[f]).Some?
  {
    forall f | f in live
      ensures AdoptAt(w, live, refs, live, f).value != live[f] <==> IsReference(live[f]) && Resolve(w, live[f]).Some?
    {
      if IsReference(live[f]) {
        ReferenceResolves(w, live[f]);
      }
      hide IsReference, Resolve;
    }
    hide AdoptField, IsReference, Resolve;
    if f :| f in live && IsReference(live[f]) && Resolve(w, live[f]).Some? {
      assert Adopted(w, live, refs, live)[f] != live[f];
    } else {
      assert forall f :: f in live ==> Adopted(w, live, refs, live)[f] == live[f];
    }
  }

  lemma {:induction false} IndexKnows(certs: seq<Certificate>, id: string)
    requires exists i :: 0 <= i < |certs| && certs[i].id == id
    ensures id in Index(certs)
  {
    var before, last := certs[..|certs| - 1], certs[|certs| - 1];
    if last.id != id {
      var i :| 0 <= i < |certs| && certs[i].id == id;
      assert before[i].id == id;
      IndexKnows(before, id);
    }
  }
}
