/** The session binding (internal/auth/revocation.go): the fingerprint of an
    account's row that a session token carries.  Go strings are byte strings; a
    byte is a `char` below 256 here. */
module SessionBinding {
  import opened Text

  const ROLE_VIEWER := "viewer"

  /** The part of a users row a session is bound to. */
  datatype AccountState = AccountState(passwordHash: string, role: string, disabled: bool, sessionEpoch: nat)

  const TWO_TO_THE_64: nat := 0x1_0000_0000_0000_0000

  ghost predicate Injective(h: string -> string) {
    forall x, y :: h(x) == h(y) ==> x == y
  }

  /** The truncated SHA-256, taken to be collision-free. */
  type Digest = h: string -> string | Injective(h) witness (x: string) => x

  // ----- The bytes that are hashed -----

  /** The low `width` bytes of `n`, least significant first. */
  function LittleEndian(n: nat, width: nat): (b: string)
    ensures |b| == width
  {
    if width == 0 then "" else [(n % 256) as char] + LittleEndian(n / 256, width - 1)
  }

  function Power256(i: nat): (p: nat)
    ensures p > 0
  {
    if i == 0 then 1 else 256 * Power256(i - 1)
  }

  /** What writeField writes for one field: its length, then the field. */
  function Field(s: string): string {
    LittleEndian(|s|, 8) + s
  }

  function FlagText(a: AccountState): string {
    if a.disabled then "1" else "0"
  }

  /** The bytes hashed before an account's first sign-out: three fields. */
  function ThreeFields(a: AccountState): string {
    Field(a.passwordHash) + Field(a.role) + Field(FlagText(a))
  }

  /** The bytes binding() hashes: a fourth field only once the epoch is above zero. */
  function Preimage(a: AccountState): string {
    ThreeFields(a) + EpochField(a)
  }

  /** Every field is shorter than 2^64 bytes, as every Go string is. */
  predicate Sized(a: AccountState) {
    && |a.passwordHash| < TWO_TO_THE_64
    && |a.role| < TWO_TO_THE_64
    && |Decimal(a.sessionEpoch)| < TWO_TO_THE_64
  }

  // ----- What those bytes are -----

  /** n >> (8 * i). */
  function Shifted(n: nat, i: nat): nat {
    if i == 0 then n else Shifted(n / 256, i - 1)
  }

  /** Byte `i` of a length is the low byte of the length shifted right by `i` bytes. */
  lemma {:induction false} LittleEndianAt(n: nat, width: nat, i: nat)
    requires i < width
    ensures LittleEndian(n, width)[i] as int == Shifted(n, i) % 256
    decreases width
  {
    if i > 0 { LittleEndianAt(n / 256, width - 1, i - 1); }
  }

  /** The bytes in full: password hash, role, "1" for disabled or "0", each after its length, and
      after them the epoch in decimal once it is above zero. */
  lemma PreimageIs(a: AccountState)
    ensures Preimage(a) ==
            LittleEndian(|a.passwordHash|, 8) + a.passwordHash + LittleEndian(|a.role|, 8) + a.role
            + LittleEndian(1, 8) + (if a.disabled then "1" else "0")
            + if a.sessionEpoch == 0 then "" else LittleEndian(|Decimal(a.sessionEpoch)|, 8) + Decimal(a.sessionEpoch)
  {
    hide LittleEndian, Decimal;
  }

  // ----- Injectivity of the encoding -----

  lemma {:induction false} LittleEndianInjective(m: nat, n: nat, width: nat)
    requires m < Power256(width) && n < Power256(width)
    requires LittleEndian(m, width) == LittleEndian(n, width)
    ensures m == n
  {
    if width > 0 {
      var a, b := LittleEndian(m, width), LittleEndian(n, width);
      assert a[0] == b[0] && a[1..] == LittleEndian(m / 256, width - 1) && b[1..] == LittleEndian(n / 256, width - 1);
      LittleEndianInjective(m / 256, n / 256, width - 1);
    }
  }

  lemma Power256Of8()
    ensures Power256(8) == TWO_TO_THE_64
  {
    assert Power256(2) == 65536;
    assert Power256(4) == 0x1_0000_0000;
    assert Power256(6) == 0x1_0000_0000_0000;
  }

  /** A length-prefixed field can be read back off the front of whatever follows it. */
  lemma FieldUniquelyReadable(s: string, rest: string, s': string, rest': string)
    requires |s| < TWO_TO_THE_64 && |s'| < TWO_TO_THE_64
    requires Field(s) + rest == Field(s') + rest'
    ensures s == s' && rest == rest'
  {
    var w := Field(s) + rest;
    assert w[..8] == LittleEndian(|s|, 8);
    assert w[..8] == LittleEndian(|s'|, 8) by { assert w == Field(s') + rest'; }
    Power256Of8();
    LittleEndianInjective(|s|, |s'|, 8);
    assert w[8..8 + |s|] == s && w[8 + |s|..] == rest;
    assert w[8..8 + |s|] == s' && w[8 + |s|..] == rest' by { assert w == Field(s') + rest'; }
  }

  lemma Regroup(w: string, x: string, y: string, z: string)
    ensures w + x + y + z == w + (x + (y + z))
  {
  }

  function EpochField(a: AccountState): string {
    if a.sessionEpoch > 0 then Field(Decimal(a.sessionEpoch)) else ""
  }

  lemma EpochFieldInjective(a: AccountState, b: AccountState)
    requires Sized(a) && Sized(b)
    requires EpochField(a) == EpochField(b)
    ensures a.sessionEpoch == b.sessionEpoch
  {
    if a.sessionEpoch > 0 && b.sessionEpoch > 0 {
      FieldUniquelyReadable(Decimal(a.sessionEpoch), "", Decimal(b.sessionEpoch), "");
      DecimalInjective(a.sessionEpoch, b.sessionEpoch);
    }
  }

  /** The hashed bytes determine every one of the four inputs, and two accounts
      differ in them as soon as one input differs. */
  lemma PreimageInjective(a: AccountState, b: AccountState)
    requires Sized(a) && Sized(b)
    ensures Preimage(a) == Preimage(b) <==> a == b
  {
    if Preimage(a) == Preimage(b) {
      var fa, fb := Field(FlagText(a)) + EpochField(a), Field(FlagText(b)) + EpochField(b);
      Regroup(Field(a.passwordHash), Field(a.role), Field(FlagText(a)), EpochField(a));
      Regroup(Field(b.passwordHash), Field(b.role), Field(FlagText(b)), EpochField(b));
      FieldUniquelyReadable(a.passwordHash, Field(a.role) + fa, b.passwordHash, Field(b.role) + fb);
      FieldUniquelyReadable(a.role, fa, b.role, fb);
      FieldUniquelyReadable(FlagText(a), EpochField(a), FlagText(b), EpochField(b));
      EpochFieldInjective(a, b);
    }
  }

  /** Until an account first signs out, the hashed bytes are the three-field form
      earlier releases hashed, so upgrading ends nobody's session; from then on
      they are not that form of any account. */
  lemma EpochZeroIsTheThreeFieldForm(a: AccountState, b: AccountState)
    requires Sized(a) && Sized(b)
    ensures Preimage(a) == ThreeFields(b) <==> a == b.(sessionEpoch := 0)
  {
    var b0 := b.(sessionEpoch := 0);
    assert Decimal(0) == "0";
    assert Preimage(b0) == ThreeFields(b0) + "" == ThreeFields(b);
    PreimageInjective(a, b0);
  }

  // ----- The code that writes those bytes -----

  /** The hash state h: what has been written to it. */
  class Hasher {
    var written: string

    constructor ()
      ensures written == ""
    {
      written := "";
    }

    method Write(p: string)
      modifies this
      ensures written == old(written) + p
    {
      written := written + p;
    }
  }

  method WriteField(h: Hasher, s: string)
    modifies h
    ensures h.written == old(h.written) + Field(s)
  {
    hide LittleEndian;
    var lenBuf := new char[8](_ => 0 as char);
    var n: nat := |s|; // len(s) >> (8 * i)
    for i := 0 to 8
      modifies lenBuf
      invariant LittleEndian(|s|, 8) == lenBuf[..i] + LittleEndian(n, 8 - i)
    {
      LittleEndianStep(n, 8 - i);
      ghost var done := lenBuf[..i];
      lenBuf[i] := (n % 256) as char;
      assert lenBuf[..i + 1] == done + [(n % 256) as char];
      n := n / 256;
    }
    assert lenBuf[..8] == lenBuf[..];
    ghost var before := h.written;
    h.Write(lenBuf[..]);
    h.Write(s);
    assert h.written == before + (lenBuf[..] + s);
  }

  lemma LittleEndianStep(n: nat, width: nat)
    requires width > 0
    ensures LittleEndian(n, width) == [(n % 256) as char] + LittleEndian(n / 256, width - 1)
  {
  }

  /** binding(): the digest of exactly the bytes `Preimage` names. */
  method ComputeBinding(digest: Digest, a: AccountState) returns (b: string)
    ensures b == digest(Preimage(a))
  {
    hide Field, Decimal;
    var h := new Hasher();
    WriteField(h, a.passwordHash);
    WriteField(h, a.role);
    if a.disabled {
      WriteField(h, "1");
    } else {
      WriteField(h, "0");
    }
    assert h.written == ThreeFields(a);
    if a.sessionEpoch > 0 {
      WriteField(h, Decimal(a.sessionEpoch));
    }
    assert h.written == Preimage(a);
    b := digest(h.written);
  }
}
