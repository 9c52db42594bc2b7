/** Migration 68 (internal/db/migration_ipv6_keys.go): the block list is re-keyed, an IPv6
    address to its /64 and an IPv4-mapped one to its IPv4 address, and rows that collapse
    to one key become one.  Times are nanoseconds. */
module Migration {
  import opened Wrappers

  // ----- Addresses -----

  const TWO_TO_THE_32: nat := 0x1_0000_0000
  const TWO_TO_THE_64: nat := 0x1_0000_0000_0000_0000

  type Word32 = n: nat | n < TWO_TO_THE_32

  type Word64 = n: nat | n < TWO_TO_THE_64

  /** An IPv6 address is its two halves; `zone` is its scope, if any. */
  datatype Address = V4(bits: Word32) | V6(high: Word64, low: Word64, zone: string)

  /** netip.Addr.Unmap: the IPv4-mapped form of section 2.5.5.2 of RFC 4291 is 80 zero
      bits, 16 one bits, and the IPv4 address. */
  function Unmap(a: Address): Address {
    if a.V6? && a.high == 0 && a.low / TWO_TO_THE_32 == 0xffff then V4(a.low % TWO_TO_THE_32) else a
  }

  function WithoutZone(a: Address): Address {
    if a.V6? then a.(zone := "") else a
  }

  /** The network address of an IPv6 address's /64. */
  function Network(a: Address): Address {
    if a.V6? then a.(low := 0) else a
  }

  function KeyAddress(a: Address): Address {
    Network(WithoutZone(Unmap(a)))
  }

  /** netip's text form.  Parsing reverses formatting; an IPv6 form has a colon; a form
      without one is the one form of an IPv4 address. */
  datatype AddressText = AddressText(parse: string -> Option<Address>, format: Address -> string)

  ghost predicate ValidText(text: AddressText) {
    && (forall a: Address :: (a.V6? ==> a.zone == "" && !Mapped(a)) ==> text.parse(text.format(a)) == Some(a))
    && (forall a: Address :: a.V6? ==> ':' in text.format(a))
    && (forall a: Address :: a.V4? ==> ':' !in text.format(a))
    && (forall s: string :: ':' !in s && text.parse(s).Some? ==>
          text.parse(s).value.V4? && s == text.format(text.parse(s).value))
  }

  predicate Mapped(a: Address) {
    a.V6? && Unmap(a).V4?
  }

  /** migratedIPv6Key: the key `ip` moves to; none when it is not an address. */
  function MigratedKey(text: AddressText, ip: string): Option<string> {
    match text.parse(ip)
    case None => None
    case Some(a) => Some(text.format(KeyAddress(a)))
  }

  /** A key stays where it is, so running the migration again moves nothing twice. */
  lemma KeyIsStable(text: AddressText, ip: string)
    requires ValidText(text) && MigratedKey(text, ip).Some?
    ensures MigratedKey(text, MigratedKey(text, ip).value) == MigratedKey(text, ip)
  {
    var a := text.parse(ip).value;
    var k := KeyAddress(a);
    assert text.parse(text.format(k)) == Some(k);
  }

  /** `a` is the IPv4 address `bits`, as itself or as an IPv4-mapped address. */
  predicate IsV4(a: Address, bits: Word32) {
    a == V4(bits) || (a.V6? && a.high == 0 && a.low == 0xffff_0000_0000 + bits)
  }

  /** `a` is an IPv6 address that maps no IPv4 address. */
  predicate IsPlainV6(a: Address) {
    a.V6? && !(a.high == 0 && 0xffff_0000_0000 <= a.low <= 0xffff_ffff_ffff)
  }

  /** The one or the other. */
  lemma EveryAddressIsOne(a: Address)
    ensures IsPlainV6(a) <==> forall bits: Word32 :: !IsV4(a, bits)
    ensures forall m: Word32, n: Word32 :: IsV4(a, m) && IsV4(a, n) ==> m == n
  {
    if a.V6? && !IsPlainV6(a) {
      assert IsV4(a, a.low - 0xffff_0000_0000);
    }
    if a.V4? {
      assert IsV4(a, a.bits);
    }
  }

  /** One block answers for both: the same IPv4 address, or IPv6 addresses of one /64, whatever their
      zones. */
  ghost predicate SameSource(a: Address, b: Address) {
    || (IsPlainV6(a) && IsPlainV6(b) && a.high == b.high)
    || exists bits: Word32 :: IsV4(a, bits) && IsV4(b, bits)
  }

  /** The text of the network address of a /64. */
  function Slash64(text: AddressText, high: Word64): string {
    text.format(V6(high, 0, ""))
  }

  lemma KeyOfV4(a: Address, bits: Word32)
    requires IsV4(a, bits)
    ensures KeyAddress(a) == V4(bits)
  {
    if a.V6? {
      assert a.low / TWO_TO_THE_32 == 0xffff && a.low % TWO_TO_THE_32 == bits;
    }
  }

  lemma KeyOfPlainV6(a: Address)
    requires IsPlainV6(a)
    ensures KeyAddress(a) == V6(a.high, 0, "")
  {
    assert a.low / TWO_TO_THE_32 == 0xffff <==> 0xffff_0000_0000 <= a.low <= 0xffff_ffff_ffff;
  }

  lemma FormatsDiffer(text: AddressText, a: Address, b: Address)
    requires ValidText(text) && a != b
    requires (a.V6? ==> a.zone == "" && a.low == 0) && (b.V6? ==> b.zone == "" && b.low == 0)
    ensures text.format(a) != text.format(b)
  {
    assert !Mapped(a) && !Mapped(b);
    assert text.parse(text.format(a)) == Some(a) && text.parse(text.format(b)) == Some(b);
  }

  /** What an address is keyed by: its IPv4 address, or the network address of its /64. */
  lemma KeyIsTheSource(text: AddressText, ip: string, a: Address)
    requires ValidText(text) && text.parse(ip) == Some(a)
    ensures IsPlainV6(a) ==> MigratedKey(text, ip) == Some(Slash64(text, a.high))
    ensures forall bits: Word32 :: IsV4(a, bits) ==> MigratedKey(text, ip) == Some(text.format(V4(bits)))
  {
    if IsPlainV6(a) { KeyOfPlainV6(a); }
    forall bits: Word32 | IsV4(a, bits) ensures KeyAddress(a) == V4(bits) { KeyOfV4(a, bits); }
  }

  /** Two addresses have one key exactly when they are one source. */
  lemma OneKeyExactlyWhenOneSource(text: AddressText, s: string, t: string, a: Address, b: Address)
    requires ValidText(text) && text.parse(s) == Some(a) && text.parse(t) == Some(b)
    ensures MigratedKey(text, s) == MigratedKey(text, t) <==> SameSource(a, b)
  {
    KeyAddressesAgree(a, b);
    if KeyAddress(a) != KeyAddress(b) { FormatsDiffer(text, KeyAddress(a), KeyAddress(b)); }
  }

  lemma KeyAddressesAgree(a: Address, b: Address)
    ensures KeyAddress(a) == KeyAddress(b) <==> SameSource(a, b)
    ensures KeyAddress(a).V6? ==> KeyAddress(a).zone == "" && KeyAddress(a).low == 0
    ensures KeyAddress(b).V6? ==> KeyAddress(b).zone == "" && KeyAddress(b).low == 0
  {
    var m := KeyCases(a);
    var n := KeyCases(b);
    if !IsPlainV6(a) && !IsPlainV6(b) && m == n { assert IsV4(a, m) && IsV4(b, m); }
  }

  lemma KeyCases(a: Address) returns (bits: Word32)
    ensures IsPlainV6(a) ==> KeyAddress(a) == V6(a.high, 0, "") && forall m: Word32 :: !IsV4(a, m)
    ensures !IsPlainV6(a) ==> KeyAddress(a) == V4(bits) && IsV4(a, bits) && forall m: Word32 :: IsV4(a, m) ==> m == bits
  {
    EveryAddressIsOne(a);
    bits := 0;
    if IsPlainV6(a) {
      KeyOfPlainV6(a);
    } else {
      bits :| IsV4(a, bits);
      KeyOfV4(a, bits);
    }
  }

  // ----- Rows -----

  /** A row without its key; a time is `None` where the column is NULL. */
  datatype Row = Row(status: string, reason: string, mitigatedAt: Option<int>, unmitigatedAt: Option<int>,
                     updatedAt: Option<int>, expiresAt: Option<int>)

  /** ip_mitigations, by its key column. */
  type Table = map<string, Row>

  predicate InForce(r: Row, now: int) {
    r.status == "mitigated" && (r.expiresAt.None? || r.expiresAt.value > now)
  }

  predicate Stronger(a: Row, b: Row, now: int) {
    var fa, fb := InForce(a, now), InForce(b, now);
    var ra, rb := a.status == "unmitigated", b.status == "unmitigated";
    if fa != fb then fa
    else if fa then
      (a.expiresAt.None? && b.expiresAt.Some?) ||
      (a.expiresAt.Some? && b.expiresAt.Some? && a.expiresAt.value > b.expiresAt.value)
    else if ra != rb then ra
    else a.updatedAt.Some? && (b.updatedAt.None? || a.updatedAt.value > b.updatedAt.value)
  }

  /** strongerShunRow is a strict weak order: the strongest row is well defined. */
  lemma StrongerIsStrictWeakOrder(a: Row, b: Row, c: Row, now: int)
    ensures !Stronger(a, a, now)
    ensures Stronger(a, b, now) ==> !Stronger(b, a, now)
    ensures Stronger(a, b, now) && Stronger(b, c, now) ==> Stronger(a, c, now)
    ensures Stronger(a, c, now) ==> Stronger(a, b, now) || Stronger(b, c, now)
  {
  }

  /** strongestShunRow keeps a row no other is stronger than. */
  method StrongestRow(group: seq<Row>, now: int) returns (keep: Row)
    requires group != []
    ensures keep in group && forall r :: r in group ==> !Stronger(r, keep, now)
  {
    keep := group[0];
    for i := 1 to |group|
      invariant keep in group[..i]
      invariant forall r :: r in group[..i] ==> !Stronger(r, keep, now)
    {
      assert group[..i + 1] == group[..i] + [group[i]];
      if Stronger(group[i], keep, now) {
        forall r | r in group[..i + 1] ensures !Stronger(r, group[i], now) {
          StrongerIsStrictWeakOrder(r, group[i], keep, now);
        }
        keep := group[i];
      }
    }
    assert group[..|group|] == group;
  }

  const NANOS_PER_SECOND := 1_000_000_000

  /** migratedTime writes a time back to the second. */
  function WholeSeconds(t: Option<int>): Option<int> {
    if t.None? then None else Some(t.value - t.value % NANOS_PER_SECOND)
  }

  function Rewritten(r: Row): Row {
    Row(r.status, r.reason, WholeSeconds(r.mitigatedAt), WholeSeconds(r.unmitigatedAt), WholeSeconds(r.updatedAt),
        WholeSeconds(r.expiresAt))
  }

  /** The row refuses to the second, as every row this table's writers write does. */
  predicate ToTheSecond(r: Row) {
    r.expiresAt.None? || r.expiresAt.value % NANOS_PER_SECOND == 0
  }

  /** Writing a row back to the second keeps what it answers at every time exactly when it
      is not a block that ends within a second. */
  lemma RewritingKeepsAnswers(r: Row)
    ensures (forall t :: InForce(Rewritten(r), t) <==> InForce(r, t)) <==> r.status != "mitigated" || ToTheSecond(r)
  {
    if r.status == "mitigated" && !ToTheSecond(r) {
      var t := r.expiresAt.value - r.expiresAt.value % NANOS_PER_SECOND;
      assert InForce(r, t) && !InForce(Rewritten(r), t);
    }
  }

  /** The strongest of some rows refuses for as long as any of them does. */
  lemma StrongestOutlasts(keep: Row, r: Row, now: int, t: int)
    requires !Stronger(r, keep, now) && now <= t && InForce(r, t)
    ensures InForce(keep, t)
  {
  }

  /** `t'` is `t` to the second. */
  predicate SameToTheSecond(t: Option<int>, t': Option<int>) {
    t.Some? == t'.Some? && (t.Some? ==> t'.value % NANOS_PER_SECOND == 0 && 0 <= t.value - t'.value < NANOS_PER_SECOND)
  }

  /** `r'` is `r` with its times to the second. */
  predicate SameRowToTheSecond(r: Row, r': Row) {
    && r'.status == r.status && r'.reason == r.reason
    && SameToTheSecond(r.mitigatedAt, r'.mitigatedAt) && SameToTheSecond(r.unmitigatedAt, r'.unmitigatedAt)
    && SameToTheSecond(r.updatedAt, r'.updatedAt) && SameToTheSecond(r.expiresAt, r'.expiresAt)
  }

  /** Where nothing is in force, the strongest row is a release if there is one, and the last written
      of its kind. */
  lemma StrongestIsTheLastRelease(keep: Row, r: Row, now: int)
    requires !Stronger(r, keep, now) && !InForce(keep, now)
    ensures !InForce(r, now)
    ensures r.status == "unmitigated" ==> keep.status == "unmitigated"
    ensures (r.status == "unmitigated") == (keep.status == "unmitigated") && r.updatedAt.Some? ==>
              keep.updatedAt.Some? && r.updatedAt.value <= keep.updatedAt.value
  {
  }

  // ----- What the table answers -----

  /** The rows that collapse to `key`. */
  function Collapsing(text: AddressText, table: Table, key: string): set<string> {
    set ip | ip in table && MigratedKey(text, ip) == Some(key)
  }

  /** Some row that collapses to `key` refuses at `t`. */
  ghost predicate Blocked(text: AddressText, table: Table, key: string, t: int) {
    exists ip :: ip in Collapsing(text, table, key) && InForce(table[ip], t)
  }

  /** What enforcement asks after the migration: the row at the key itself. */
  predicate BlockedAtKey(table: Table, key: string, t: int) {
    key in table && InForce(table[key], t)
  }

  ghost predicate AllToTheSecond(table: Table) {
    forall ip :: ip in table ==> ToTheSecond(table[ip])
  }

  // ----- Merging one key's rows -----

  /** The table after mergeShunRows: the rows of `ips` give way to one row under `key`. */
  function Merged(table: Table, key: string, ips: set<string>, keep: Row): Table {
    (table - ips - {key})[key := Rewritten(keep)]
  }

  /** `keep` is one of the rows of `ips` and none of them is stronger. */
  ghost predicate IsStrongest(table: Table, ips: set<string>, keep: Row, now: int) {
    && (exists ip :: ip in ips && ip in table && table[ip] == keep)
    && (forall ip :: ip in ips && ip in table ==> !Stronger(table[ip], keep, now))
  }

  /** One merge, at `now`, of all the rows that collapse to `key`. */
  ghost predicate MergeStep(text: AddressText, table: Table, key: string, now: int, table': Table) {
    && Collapsing(text, table, key) != {}
    && exists keep :: IsStrongest(table, Collapsing(text, table, key), keep, now)
                      && table' == Merged(table, key, Collapsing(text, table, key), keep)
  }

  /** A merge changes no answer from `now` on, for the key it merges or any other, and
      leaves one row of its key: the one at the key. */
  lemma MergePreservesBlocking(text: AddressText, table: Table, key: string, now: int, table': Table)
    requires ValidText(text) && AllToTheSecond(table) && MergeStep(text, table, key, now, table')
    ensures AllToTheSecond(table')
    ensures Collapsing(text, table', key) == {key}
    ensures forall k :: k != key ==> Collapsing(text, table', k) == Collapsing(text, table, k)
    ensures forall k, t :: now <= t ==> (Blocked(text, table', k, t) <==> Blocked(text, table, k, t))
  {
    var ips := Collapsing(text, table, key);
    var keep :| IsStrongest(table, ips, keep, now) && table' == Merged(table, key, ips, keep);
    var one :| one in ips && one in table && table[one] == keep;
    KeyIsStable(text, one);
    hide ValidText, MigratedKey, Blocked;
    KeptToTheSecond(table, key, ips, keep);
    OtherKeysUntouched(text, table, key, table', keep);
    forall k, t | now <= t ensures Blocked(text, table', k, t) <==> Blocked(text, table, k, t) {
      if k == key { KeyBlocking(text, table, key, now, table', keep, t); }
    }
  }

  /** The row a merge leaves at its key is one of those that collapsed to it, its times to the second,
      and no other of them was stronger; every row that did not collapse to it stays. */
  lemma MergeKeepsTheStrongest(text: AddressText, table: Table, key: string, now: int, table': Table)
    requires ValidText(text) && MergeStep(text, table, key, now, table')
    ensures key in table'
    ensures exists ip :: ip in Collapsing(text, table, key) && SameRowToTheSecond(table[ip], table'[key])
                         && forall other :: other in Collapsing(text, table, key) ==>
                              !Stronger(table[other], table[ip], now)
    ensures forall ip :: ip != key && ip !in Collapsing(text, table, key) ==>
              (ip in table' <==> ip in table) && (ip in table ==> table'[ip] == table[ip])
    ensures forall ip :: ip != key && ip in Collapsing(text, table, key) ==> ip !in table'
  {
    var ips := Collapsing(text, table, key);
    var keep :| IsStrongest(table, ips, keep, now) && table' == Merged(table, key, ips, keep);
    var one :| one in ips && one in table && table[one] == keep;
    RewrittenIsTheSame(keep);
    hide MigratedKey, Stronger, Rewritten, SameRowToTheSecond;
  }

  lemma RewrittenIsTheSame(r: Row)
    ensures SameRowToTheSecond(r, Rewritten(r))
  {
  }

  lemma KeptToTheSecond(table: Table, key: string, ips: set<string>, keep: Row)
    requires AllToTheSecond(table) && ToTheSecond(keep)
    ensures AllToTheSecond(Merged(table, key, ips, keep))
  {
    assert Rewritten(keep).expiresAt == keep.expiresAt;
  }

  lemma OtherKeysUntouched(text: AddressText, table: Table, key: string, table': Table, keep: Row)
    requires table' == Merged(table, key, Collapsing(text, table, key), keep)
    requires MigratedKey(text, key) == Some(key)
    ensures Collapsing(text, table', key) == {key}
    ensures forall k :: k != key ==> Collapsing(text, table', k) == Collapsing(text, table, k)
    ensures forall k, t :: k != key ==> (Blocked(text, table', k, t) <==> Blocked(text, table, k, t))
  {
    hide MigratedKey, InForce;
    forall k | k != key ensures Collapsing(text, table', k) == Collapsing(text, table, k) {
    }
    forall k, ip | k != key && ip in Collapsing(text, table, k) ensures ip in table' && table'[ip] == table[ip] {
    }
  }

  lemma KeyBlocking(text: AddressText, table: Table, key: string, now: int, table': Table, keep: Row, t: int)
    requires AllToTheSecond(table) && now <= t
    requires IsStrongest(table, Collapsing(text, table, key), keep, now)
    requires table' == Merged(table, key, Collapsing(text, table, key), keep)
    requires MigratedKey(text, key) == Some(key)
    ensures Blocked(text, table', key, t) <==> Blocked(text, table, key, t)
  {
    var ips := Collapsing(text, table, key);
    assert key in Collapsing(text, table', key) && Collapsing(text, table', key) == {key};
    var one :| one in ips && one in table && table[one] == keep;
    assert InForce(table'[key], t) <==> InForce(keep, t);
    if Blocked(text, table, key, t) {
      var ip :| ip in ips && InForce(table[ip], t);
      StrongestOutlasts(keep, table[ip], now, t);
    }
  }

  // ----- Any number of merges, stopped anywhere and begun again -----

  /** `tables[i + 1]` is `tables[i]` after one merge at `nows[i]`.  A stop between two
      transactions and a later run are just more merges, at later times. */
  ghost predicate IsHistory(text: AddressText, tables: seq<Table>, keys: seq<string>, nows: seq<int>) {
    && |tables| == |keys| + 1 && |nows| == |keys|
    && (forall i :: 0 <= i < |keys| ==> MergeStep(text, tables[i], keys[i], nows[i], tables[i + 1]))
    && (forall i, j :: 0 <= i < j < |nows| ==> nows[i] <= nows[j])
  }

  lemma {:induction false} HistoryPreservesBlocking(text: AddressText, tables: seq<Table>, keys: seq<string>,
        nows: seq<int>, n: nat, key: string, t: int)
    requires ValidText(text) && IsHistory(text, tables, keys, nows) && AllToTheSecond(tables[0]) && n <= |keys|
    requires forall i :: 0 <= i < n ==> nows[i] <= t
    ensures AllToTheSecond(tables[n])
    ensures Blocked(text, tables[n], key, t) <==> Blocked(text, tables[0], key, t)
  {
    if n > 0 {
      hide Blocked, MergeStep;
      HistoryPreservesBlocking(text, tables, keys, nows, n - 1, key, t);
      MergePreservesBlocking(text, tables[n - 1], keys[n - 1], nows[n - 1], tables[n]);
    }
  }

  /** Keys the finished migration leaves: nothing but the row at the key collapses to it. */
  ghost predicate Finished(text: AddressText, table: Table) {
    forall ip :: ip in table && MigratedKey(text, ip).Some? ==> MigratedKey(text, ip) == Some(ip)
  }

  /** Once every row is at its key, asking for the row at a key is asking whether any
      row that collapses to it refuses. */
  lemma FinishedAnswersAtKey(text: AddressText, table: Table, key: string, t: int)
    requires ValidText(text) && Finished(text, table) && MigratedKey(text, key) == Some(key)
    ensures BlockedAtKey(table, key, t) <==> Blocked(text, table, key, t)
  {
    if BlockedAtKey(table, key, t) { assert key in Collapsing(text, table, key); }
  }

  /** The migration, however often it was cut short and begun again, keeps the answer at every key:
      from the last run's time on, the row there refuses exactly when some row that collapsed to it
      before the first run did. */
  lemma MigrationKeepsKeys(text: AddressText, tables: seq<Table>, keys: seq<string>, nows: seq<int>,
        key: string, t: int)
    requires ValidText(text) && IsHistory(text, tables, keys, nows) && AllToTheSecond(tables[0])
    requires Finished(text, tables[|keys|]) && MigratedKey(text, key) == Some(key)
    requires forall i :: 0 <= i < |nows| ==> nows[i] <= t
    ensures BlockedAtKey(tables[|keys|], key, t) <==> Blocked(text, tables[0], key, t)
  {
    HistoryPreservesBlocking(text, tables, keys, nows, |keys|, key, t);
    FinishedAnswersAtKey(text, tables[|keys|], key, t);
  }

  /** Some row that names the same source as `a` refuses at `t`. */
  ghost predicate SourceBlocked(text: AddressText, table: Table, a: Address, t: int) {
    exists ip :: ip in table && text.parse(ip).Some? && SameSource(text.parse(ip).value, a) && InForce(table[ip], t)
  }

  /** What enforcement looks up for an address: its IPv4 address, or its /64. */
  ghost predicate LookedUpAt(text: AddressText, a: Address, key: string) {
    || (IsPlainV6(a) && key == Slash64(text, a.high))
    || exists bits: Word32 :: IsV4(a, bits) && key == text.format(V4(bits))
  }

  lemma LookedUpAtKey(text: AddressText, a: Address, key: string)
    requires ValidText(text) && LookedUpAt(text, a, key)
    ensures MigratedKey(text, key) == Some(key) && key == text.format(KeyAddress(a))
  {
    var bits := KeyCases(a);
    var k := KeyAddress(a);
    assert text.parse(text.format(k)) == Some(k);
  }

  lemma SourceBlockedAtKey(text: AddressText, table: Table, a: Address, key: string, t: int)
    requires ValidText(text) && LookedUpAt(text, a, key)
    ensures Blocked(text, table, key, t) <==> SourceBlocked(text, table, a, t)
  {
    LookedUpAtKey(text, a, key);
    forall ip | ip in table && text.parse(ip).Some?
      ensures MigratedKey(text, ip) == Some(key) <==> SameSource(text.parse(ip).value, a)
    {
      var b := text.parse(ip).value;
      KeyAddressesAgree(b, a);
      if KeyAddress(b) != KeyAddress(a) { FormatsDiffer(text, KeyAddress(b), KeyAddress(a)); }
    }
    hide SameSource, LookedUpAt, ValidText;
  }

  /** So every address is refused after the migration, at the key it is looked up under, exactly when
      a row of the same source -- any address of its /64, or its IPv4 address in either form --
      refused it before. */
  lemma MigrationPreservesBlocking(text: AddressText, tables: seq<Table>, keys: seq<string>, nows: seq<int>,
        a: Address, key: string, t: int)
    requires ValidText(text) && IsHistory(text, tables, keys, nows) && AllToTheSecond(tables[0])
    requires Finished(text, tables[|keys|]) && LookedUpAt(text, a, key)
    requires forall i :: 0 <= i < |nows| ==> nows[i] <= t
    ensures BlockedAtKey(tables[|keys|], key, t) <==> SourceBlocked(text, tables[0], a, t)
  {
    LookedUpAtKey(text, a, key);
    SourceBlockedAtKey(text, tables[0], a, key, t);
    hide IsHistory, LookedUpAt, SourceBlocked, ValidText, BlockedAtKey, Blocked, Finished;
    MigrationKeepsKeys(text, tables, keys, nows, key, t);
  }

  // ----- The code that does it -----

  datatype ShunRow = ShunRow(ip: string, row: Row)

  /** The group holds, with their rows, the keys with a colon that collapse to `key`. */
  ghost predicate IsGroup(text: AddressText, table: Table, key: string, group: seq<ShunRow>) {
    && (forall r :: r in group ==>
          r.ip in table && table[r.ip] == r.row && ':' in r.ip && MigratedKey(text, r.ip) == Some(key))
    && (forall ip :: ip in table && ':' in ip && MigratedKey(text, ip) == Some(key) ==> ShunRow(ip, table[ip]) in group)
  }

  /** A key without a colon is at its key already. */
  lemma PlainKeyStays(text: AddressText, ip: string)
    requires ValidText(text) && ':' !in ip && MigratedKey(text, ip).Some?
    ensures MigratedKey(text, ip) == Some(ip)
  {
    var a := text.parse(ip).value;
    assert a.V4? && KeyAddress(a) == a;
  }

  class MitigationTable {
    var rows: Table

    constructor (rows: Table)
      ensures this.rows == rows
    {
      this.rows := rows;
    }

    /** readColonKeyedShuns. */
    method ReadColonKeyed() returns (out: seq<ShunRow>)
      ensures forall r :: r in out <==> r.ip in rows && ':' in r.ip && rows[r.ip] == r.row
    {
      out := [];
      var todo := rows.Keys;
      while todo != {}
        invariant todo <= rows.Keys
        invariant forall r :: r in out <==> r.ip in rows && r.ip !in todo && ':' in r.ip && rows[r.ip] == r.row
      {
        var ip :| ip in todo;
        if ':' in ip {
          out := out + [ShunRow(ip, rows[ip])];
        }
        todo := todo - {ip};
      }
    }

    /** withRowAtKey: the row stored under `key` is one of those that collapse to it. */
    method WithRowAtKey(key: string, group: seq<ShunRow>) returns (all: seq<ShunRow>)
      requires forall r :: r in group ==> r.ip in rows && rows[r.ip] == r.row
      ensures forall r :: r in all <==> r in group || (r.ip == key && key in rows && r.row == rows[key])
      ensures group != [] ==> all != []
    {
      for i := 0 to |group|
        invariant forall k :: 0 <= k < i ==> group[k].ip != key
      {
        if group[i].ip == key {
          assert group[i] in group;
          return group;
        }
      }
      if key !in rows {
        return group;
      }
      return group + [ShunRow(key, rows[key])];
    }

    /** mergeShunRows: one transaction, which commits or changes nothing. */
    method Merge(text: AddressText, key: string, group: seq<ShunRow>, now: int, commits: bool)
      requires ValidText(text) && group != [] && IsGroup(text, rows, key, group)
      modifies this
      ensures if commits then MergeStep(text, old(rows), key, now, rows) else rows == old(rows)
    {
      var all := WithRowAtKey(key, group);
      GroupIsCollapsing(text, rows, key, group, all);
      var keep := StrongestRow(seq(|all|, i requires 0 <= i < |all| => all[i].row), now);
      var ips := set r | r in all :: r.ip;
      if commits {
        rows := (rows - ips - {key})[key := Rewritten(keep)];
      }
      StrongestOfGroup(old(rows), all, keep, now);
    }

    /** rekeyIPv6Mitigations.  `commits(i)` says whether transaction `i` commits; the run
        ends with the first that does not.  What it does, complete or cut short, is a
        history of merges at `now`; complete, it leaves every row at its key. */
    method Rekey(text: AddressText, now: int, commits: nat -> bool)
      returns (complete: bool, ghost tables: seq<Table>, ghost keys: seq<string>)
      requires ValidText(text)
      modifies this
      ensures IsHistory(text, tables, keys, seq(|keys|, _ => now))
      ensures tables[0] == old(rows) && tables[|keys|] == rows
      ensures complete ==> Finished(text, rows)
      ensures (forall i :: commits(i)) ==> complete
      ensures complete && AllToTheSecond(old(rows)) ==>
                forall a: Address, key, t :: LookedUpAt(text, a, key) && now <= t ==>
                  (BlockedAtKey(rows, key, t) <==> SourceBlocked(text, old(rows), a, t))
    {
      hide ValidText, MigratedKey, MergeStep, IsGroup, Outstanding, Finished;
      var read := ReadColonKeyed();
      var groups, moves := GroupRows(text, read);
      GroupsOfTable(text, rows, read, groups);
      tables, keys := [rows], [];
      var todo := groups.Keys;
      var done := 0;
      assert Outstanding(text, rows, groups, moves, todo) by { OutstandingAtStart(text, rows, read, groups, moves); }
      while todo != {}
        invariant todo <= groups.Keys
        invariant Outstanding(text, rows, groups, moves, todo)
        invariant |tables| == |keys| + 1 && tables[0] == old(rows) && tables[|keys|] == rows
        invariant forall i :: 0 <= i < |keys| ==> MergeStep(text, tables[i], keys[i], now, tables[i + 1])
      {
        var key :| key in todo;
        assert todo == todo - {key} + {key};
        todo := todo - {key};
        if key in moves {
          ghost var before := rows;
          OutstandingGroup(text, rows, groups, moves, todo, key);
          Merge(text, key, groups[key], now, commits(done));
          if !commits(done) {
            complete := false;
            return;
          }
          done := done + 1;
          MergeKeepsOutstanding(text, before, groups, moves, todo, key, now, rows);
          tables, keys := tables + [rows], keys + [key];
        } else {
          SkipKeepsOutstanding(text, rows, groups, moves, todo, key);
        }
      }
      NothingOutstanding(text, rows, groups, moves);
      RunPreservesBlocking(text, tables, keys, now);
      complete := true;
    }
  }

  lemma RunPreservesBlocking(text: AddressText, tables: seq<Table>, keys: seq<string>, now: int)
    requires ValidText(text) && IsHistory(text, tables, keys, seq(|keys|, _ => now)) && Finished(text, tables[|keys|])
    ensures AllToTheSecond(tables[0]) ==>
              forall a: Address, key, t :: LookedUpAt(text, a, key) && now <= t ==>
                (BlockedAtKey(tables[|keys|], key, t) <==> SourceBlocked(text, tables[0], a, t))
  {
    hide MergeStep, LookedUpAt, SourceBlocked, BlockedAtKey, Finished;
    if AllToTheSecond(tables[0]) {
      forall a: Address, key, t | LookedUpAt(text, a, key) && now <= t
        ensures BlockedAtKey(tables[|keys|], key, t) <==> SourceBlocked(text, tables[0], a, t)
      {
        MigrationPreservesBlocking(text, tables, keys, seq(|keys|, _ => now), a, key, t);
      }
    }
  }

  /** The rows read, grouped by the key they move to, and the keys some row moves to. */
  method GroupRows(text: AddressText, read: seq<ShunRow>)
        returns (groups: map<string, seq<ShunRow>>, moves: set<string>)
    ensures forall key :: key in groups ==> groups[key] != []
    ensures forall key :: key in groups ==> forall r :: r in groups[key] <==>
              r in read && MigratedKey(text, r.ip) == Some(key)
    ensures forall r :: r in read && MigratedKey(text, r.ip).Some? ==> MigratedKey(text, r.ip).value in groups
    ensures forall key :: key in moves <==> exists r :: r in read && MigratedKey(text, r.ip) == Some(key) && r.ip != key
  {
    groups, moves := map[], {};
    for i := 0 to |read|
      invariant forall key :: key in groups ==> groups[key] != []
      invariant forall key :: key in groups ==> forall r :: r in groups[key] <==>
                r in read[..i] && MigratedKey(text, r.ip) == Some(key)
      invariant forall r :: r in read[..i] && MigratedKey(text, r.ip).Some? ==> MigratedKey(text, r.ip).value in groups
      invariant forall key :: key in moves <==> exists r ::
                r in read[..i] && MigratedKey(text, r.ip) == Some(key) && r.ip != key
    {
      hide MigratedKey;
      var r := read[i];
      assert read[..i + 1] == read[..i] + [r];
      var key := MigratedKey(text, r.ip);
      if key.Some? {
        groups := groups[key.value := (if key.value in groups then groups[key.value] else []) + [r]];
        if key.value != r.ip {
          moves := moves + {key.value};
        }
      }
    }
    assert read[..|read|] == read;
  }

  lemma GroupIsCollapsing(text: AddressText, table: Table, key: string, group: seq<ShunRow>, all: seq<ShunRow>)
    requires ValidText(text) && group != [] && IsGroup(text, table, key, group)
    requires forall r :: r in all <==> r in group || (r.ip == key && key in table && r.row == table[key])
    ensures (set r | r in all :: r.ip) == Collapsing(text, table, key)
    ensures forall r :: r in all ==> r.ip in table && table[r.ip] == r.row
  {
    assert group[0] in group;
    KeyIsStable(text, group[0].ip);
    var ips := set r | r in all :: r.ip;
    forall ip | ip in Collapsing(text, table, key) ensures ip in ips {
      if ':' !in ip { PlainKeyStays(text, ip); }
      assert ShunRow(ip, table[ip]) in all;
    }
  }

  lemma StrongestOfGroup(table: Table, all: seq<ShunRow>, keep: Row, now: int)
    requires forall r :: r in all ==> r.ip in table && table[r.ip] == r.row
    requires var rows := seq(|all|, i requires 0 <= i < |all| => all[i].row);
             keep in rows && forall r :: r in rows ==> !Stronger(r, keep, now)
    ensures IsStrongest(table, set r | r in all :: r.ip, keep, now)
  {
    var rows := seq(|all|, i requires 0 <= i < |all| => all[i].row);
    var i :| 0 <= i < |rows| && rows[i] == keep;
    assert all[i] in all;
    forall r | r in all ensures !Stronger(table[r.ip], keep, now) {
      var j :| 0 <= j < |all| && all[j] == r;
      assert rows[j] in rows;
    }
  }

  /** What is left to do: the groups of the keys in `todo` are still whole, and every row
      that is not at its key belongs to one of them. */
  ghost predicate Outstanding(text: AddressText, table: Table, groups: map<string, seq<ShunRow>>, moves: set<string>,
        todo: set<string>)
    requires todo <= groups.Keys
  {
    && (forall key :: key in todo ==> groups[key] != [] && IsGroup(text, table, key, groups[key]))
    && (forall ip :: ip in table && MigratedKey(text, ip).Some? && MigratedKey(text, ip) != Some(ip) ==>
          MigratedKey(text, ip).value in todo && MigratedKey(text, ip).value in moves)
  }

  lemma OutstandingGroup(text: AddressText, table: Table, groups: map<string, seq<ShunRow>>, moves: set<string>,
        todo: set<string>, key: string)
    requires key in groups && todo <= groups.Keys && Outstanding(text, table, groups, moves, todo + {key})
    ensures groups[key] != [] && IsGroup(text, table, key, groups[key])
  {
  }

  lemma GroupsOfTable(text: AddressText, table: Table, read: seq<ShunRow>, groups: map<string, seq<ShunRow>>)
    requires forall r :: r in read <==> r.ip in table && ':' in r.ip && table[r.ip] == r.row
    requires forall key :: key in groups ==> forall r :: r in groups[key] <==>
              r in read && MigratedKey(text, r.ip) == Some(key)
    ensures forall key :: key in groups ==> IsGroup(text, table, key, groups[key])
  {
    hide MigratedKey;
    forall key, ip | key in groups && ip in table && ':' in ip && MigratedKey(text, ip) == Some(key)
      ensures ShunRow(ip, table[ip]) in groups[key]
    {
      assert ShunRow(ip, table[ip]) in read;
    }
  }

  lemma OutstandingAtStart(text: AddressText, table: Table, read: seq<ShunRow>, groups: map<string, seq<ShunRow>>,
        moves: set<string>)
    requires ValidText(text)
    requires forall r :: r in read <==> r.ip in table && ':' in r.ip && table[r.ip] == r.row
    requires forall key :: key in groups ==> groups[key] != [] && IsGroup(text, table, key, groups[key])
    requires forall r :: r in read && MigratedKey(text, r.ip).Some? ==> MigratedKey(text, r.ip).value in groups
    requires forall key :: key in moves <==> exists r ::
              r in read && MigratedKey(text, r.ip) == Some(key) && r.ip != key
    ensures Outstanding(text, table, groups, moves, groups.Keys)
  {
    forall ip | ip in table && MigratedKey(text, ip).Some? && MigratedKey(text, ip) != Some(ip)
      ensures MigratedKey(text, ip).value in groups && MigratedKey(text, ip).value in moves
    {
      if ':' !in ip { PlainKeyStays(text, ip); }
      assert ShunRow(ip, table[ip]) in read;
    }
  }

  lemma SkipKeepsOutstanding(text: AddressText, table: Table, groups: map<string, seq<ShunRow>>, moves: set<string>,
        todo: set<string>, key: string)
    requires key in groups && todo <= groups.Keys && Outstanding(text, table, groups, moves, todo + {key})
            && key !in moves
    ensures Outstanding(text, table, groups, moves, todo)
  {
  }

  lemma MergeKeepsOutstanding(text: AddressText, table: Table, groups: map<string, seq<ShunRow>>, moves: set<string>,
        todo: set<string>,
                              key: string, now: int, table': Table)
    requires ValidText(text) && key in groups && key !in todo && todo <= groups.Keys
    requires Outstanding(text, table, groups, moves, todo + {key}) && MergeStep(text, table, key, now, table')
    ensures Outstanding(text, table', groups, moves, todo)
  {
    var ips := Collapsing(text, table, key);
    var keep :| IsStrongest(table, ips, keep, now) && table' == Merged(table, key, ips, keep);
    var one :| one in ips && one in table && table[one] == keep;
    KeyIsStable(text, one);
    hide ValidText, MigratedKey, IsGroup;
    forall k | k in todo ensures IsGroup(text, table', k, groups[k]) {
      GroupUntouched(text, table, key, keep, k, groups[k]);
    }
    forall ip | ip in table' && MigratedKey(text, ip).Some? && MigratedKey(text, ip) != Some(ip)
      ensures MigratedKey(text, ip).value in todo && MigratedKey(text, ip).value in moves
    {
      assert ip in table && ip !in ips;
    }
  }

  /** Merging one key's rows leaves the rows of every other group as they are. */
  lemma GroupUntouched(text: AddressText, table: Table, key: string, keep: Row, k: string, group: seq<ShunRow>)
    requires MigratedKey(text, key) == Some(key) && k != key && IsGroup(text, table, k, group)
    ensures IsGroup(text, Merged(table, key, Collapsing(text, table, key), keep), k, group)
  {
    hide MigratedKey;
  }

  lemma NothingOutstanding(text: AddressText, table: Table, groups: map<string, seq<ShunRow>>, moves: set<string>)
    requires Outstanding(text, table, groups, moves, {})
    ensures Finished(text, table)
  {
  }
}
