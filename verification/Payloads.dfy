// The signed claim inside a token (src/payload.rs).
module Payloads {
  import opened Common
  import opened Address
  import opened AssocLists
  import opened Bits
  import opened Cbor
  import opened Names
  import opened Reasons
  import Text

  const MAX_LIFETIME_SECS: u64 := 86_400
  const DEFAULT_UNIT: u8 := 64

  const KEY_OPERATOR: int := 1
  const KEY_PREFIX: int := 2
  const KEY_UNIT: int := 3
  const KEY_IAT: int := 4
  const KEY_EXP: int := 5
  const KEY_ROLE: int := 6

  datatype Role = Mta | EspTenant | Forwarder

  function RoleName(role: Role): string {
    match role
    case Mta => "mta"
    case EspTenant => "esp-tenant"
    case Forwarder => "forwarder"
  }

  function ParseRole(s: string): Option<Role> {
    if s == "mta" then Some(Mta)
    else if s == "esp-tenant" then Some(EspTenant)
    else if s == "forwarder" then Some(Forwarder)
    else None
  }

  datatype Payload = Payload(operator: string, prefix: Ipv6Prefix, unit: u8, iat: u64, exp: u64, role: Role)

  type Entries = seq<(Value, Value)>

  // ---- Reading single values ----

  function AsString(v: Value): Option<string> {
    match v case Text(s) => Some(s) case _ => None
  }

  function AsOctets(v: Value): Option<Octets> {
    match v case Bytes(b) => Some(b) case _ => None
  }

  function AsUint(v: Value): Option<u64> {
    match v
    case Integer(n) => if 0 <= n < 0x1_0000_0000_0000_0000 then Some(n) else None
    case _ => None
  }

  // A prefix on the wire takes 17 octets; the last is its length.
  function DecodePrefix(b: seq<byte>): Result<Ipv6Prefix, Reason> {
    if |b| != 17 then Err(Malformed)
    else
      OctetsFitAddress(b[..16]);
      OkOr(NewPrefix(FromBigEndian(b[..16]), b[16]), BadPrefix)
  }

  lemma OctetsFitAddress(b: seq<byte>)
    requires |b| == 16
    ensures FromBigEndian(b) <= U128_MAX
  {
    FromBigEndianWritesBack(b);
    Pow2Literals();
  }

  // ---- What a payload map means, whatever the order of its entries ----

  // The six slots the map can fill; None where the key is absent.
  datatype Slots = Slots(
    operator: Option<string>,
    prefix: Option<Octets>,
    unit: Option<u64>,
    iat: Option<u64>,
    exp: Option<u64>,
    role: Option<string>)

  predicate WellTyped(key: int, v: Value) {
    && (key in {1, 6} ==> AsString(v).Some?)
    && (key == 2 ==> AsOctets(v).Some?)
    && (key in {3, 4, 5} ==> AsUint(v).Some?)
  }

  predicate EntryOk(entry: (Value, Value)) {
    entry.0.Integer? && WellTyped(entry.0.n, entry.1)
  }

  // Integer keys only, none repeated, each defined key of its CDDL type.
  predicate Admissible(entries: Entries) {
    DistinctKeys(entries) && forall i :: 0 <= i < |entries| ==> EntryOk(entries[i])
  }

  function Lookup<T>(entries: Entries, key: int, convert: Value -> Option<T>): Option<T> {
    match Get(entries, Integer(key))
    case Some(v) => convert(v)
    case None => None
  }

  function SlotsOf(entries: Entries): Slots {
    Slots(
      Lookup(entries, 1, AsString),
      Lookup(entries, 2, AsOctets),
      Lookup(entries, 3, AsUint),
      Lookup(entries, 4, AsUint),
      Lookup(entries, 5, AsUint),
      Lookup(entries, 6, AsString))
  }

  // The checks on the filled slots, in the order the program makes them.
  function Judge(s: Slots): (r: Result<Payload, Reason>)
    ensures r.Ok? ==> r.value.unit <= MAX_PREFIX_LEN
  {
    if s.operator.None? || s.prefix.None? || s.iat.None? || s.exp.None? || s.role.None? then Err(Malformed)
    else if !IsOperatorDomain(s.operator.value) then Err(Malformed)
    else
      var role :- OkOr(ParseRole(s.role.value), BadRole);
      var prefix :- DecodePrefix(s.prefix.value);
      if !prefix.IsAttestable() then Err(BadPrefix)
      else if s.exp.value <= s.iat.value then Err(BadValidity)
      else
        var lifetime: u64 := s.exp.value - s.iat.value;
        if lifetime > MAX_LIFETIME_SECS then Err(LifetimeTooLong)
        else
          var unit := EffectiveUnit(s);
          if unit > MAX_PREFIX_LEN || unit < prefix.len then Err(BadUnit)
          else if role == EspTenant && unit != prefix.len then Err(BadUnit)
          else Ok(Payload(Text.Lower(s.operator.value), prefix, unit, s.iat.value, s.exp.value, role))
  }

  function EffectiveUnit(s: Slots): u64 {
    if s.unit.Some? then s.unit.value else DEFAULT_UNIT
  }

  function PayloadOf(value: Value): (r: Result<Payload, Reason>)
    ensures r.Ok? ==> r.value.unit <= MAX_PREFIX_LEN
  {
    match value
    case Map(entries) => if Admissible(entries) then Judge(SlotsOf(entries)) else Err(Malformed)
    case _ => Err(Malformed)
  }

  // The accumulating loop computes the order-free meaning.
  method FromValue(value: Value) returns (r: Result<Payload, Reason>)
    ensures r == PayloadOf(value)
  {
    hide Judge, Get;
    if !value.Map? {
      return Err(Malformed);
    }
    var entries := value.entries;
    var slots := Slots(None, None, None, None, None, None);
    NoSlots();
    var seen: seq<int> := [];
    var i := 0;
    while i < |entries|
      invariant 0 <= i <= |entries|
      invariant Admissible(entries[..i])
      invariant |seen| == i && forall j :: 0 <= j < i ==> Integer(seen[j]) == entries[j].0
      invariant slots == SlotsOf(entries[..i])
    {
      var (key, val) := entries[i];
      AdmissibleStep(entries, i);
      if !key.Integer? {
        return Err(Malformed);
      }
      if key.n in seen {
        return Err(Malformed);
      }
      seen := seen + [key.n];
      if !WellTyped(key.n, val) {
        return Err(Malformed);
      }
      SlotsStep(entries, i);
      if key.n == KEY_OPERATOR {
        slots := slots.(operator := AsString(val));
      } else if key.n == KEY_PREFIX {
        slots := slots.(prefix := AsOctets(val));
      } else if key.n == KEY_UNIT {
        slots := slots.(unit := AsUint(val));
      } else if key.n == KEY_IAT {
        slots := slots.(iat := AsUint(val));
      } else if key.n == KEY_EXP {
        slots := slots.(exp := AsUint(val));
      } else if key.n == KEY_ROLE {
        slots := slots.(role := AsString(val));
      }
      i := i + 1;
    }
    assert entries[..i] == entries;
    r := Judge(slots);
  }

  lemma NoSlots()
    ensures SlotsOf([]) == Slots(None, None, None, None, None, None)
  {
  }

  lemma AdmissibleStep(entries: Entries, i: nat)
    requires i < |entries|
    ensures Admissible(entries[..i + 1]) <==>
      Admissible(entries[..i]) && EntryOk(entries[i]) && !HasKey(entries[..i], entries[i].0)
    ensures Admissible(entries) ==> Admissible(entries[..i + 1])
  {
    hide EntryOk;
    var front, more := entries[..i], entries[..i + 1];
    assert forall j :: 0 <= j < i ==> front[j] == more[j];
    assert more[i] == entries[i];
  }

  lemma SlotsStep(entries: Entries, i: nat)
    requires i < |entries| && !HasKey(entries[..i], entries[i].0)
    ensures forall key :: Get(entries[..i + 1], key) ==
                          (if key == entries[i].0 then Some(entries[i].1) else Get(entries[..i], key))
  {
    var front := entries[..i];
    assert entries[..i + 1] == front + [entries[i]];
    forall key
      ensures Get(front + [entries[i]], key) == if key == entries[i].0 then Some(entries[i].1) else Get(front, key)
    {
      GetAppend(front, [entries[i]], key);
      GetFinds(front, key);
    }
  }

  // ---- Order-independence ----

  lemma ReorderKeepsAdmissible(s: Entries, t: Entries)
    requires multiset(s) == multiset(t) && Admissible(s)
    ensures Admissible(t)
  {
    hide EntryOk;
    ReorderKeepsDistinct(s, t);
    ReorderKeepsMembers(s, t);
    forall i | 0 <= i < |t|
      ensures EntryOk(t[i])
    {
      assert t[i] in s;
    }
  }

  // Every permutation of the entries gives the same result, reason included.
  lemma PayloadIgnoresOrder(s: Entries, t: Entries)
    requires multiset(s) == multiset(t)
    ensures PayloadOf(Map(s)) == PayloadOf(Map(t))
  {
    if Admissible(s) {
      ReorderKeepsAdmissible(s, t);
      forall key
        ensures Get(s, key) == Get(t, key)
      {
        ReorderKeepsGet(s, t, key);
      }
    } else if Admissible(t) {
      ReorderKeepsAdmissible(t, s);
    }
  }

  // A fresh integer key outside 1..6, put anywhere, never changes the result.
  lemma PayloadIgnoresUnknownKey(s: Entries, at: nat, key: int, value: Value)
    requires at <= |s| && !(1 <= key <= 6) && !HasKey(s, Integer(key))
    ensures PayloadOf(Map(s[..at] + [(Integer(key), value)] + s[at..])) == PayloadOf(Map(s))
  {
    hide PayloadOf;
    var entry := (Integer(key), value);
    assert s == s[..at] + s[at..];
    PayloadIgnoresOrder(s[..at] + [entry] + s[at..], s + [entry]);
    LastUnknownKey(s, key, value);
  }

  lemma LastUnknownKey(s: Entries, key: int, value: Value)
    requires !(1 <= key <= 6) && !HasKey(s, Integer(key))
    ensures PayloadOf(Map(s + [(Integer(key), value)])) == PayloadOf(Map(s))
  {
    hide Judge;
    var more := s + [(Integer(key), value)];
    assert more[..|s|] == s && more[..|s| + 1] == more;
    AdmissibleStep(more, |s|);
    SlotsStep(more, |s|);
  }

  // ---- What is accepted ----

  // A payload whose every field meets the draft's payload-intrinsic rules.
  predicate Conforming(p: Payload) {
    && IsOperatorDomain(p.operator) && Text.Lower(p.operator) == p.operator
    && p.prefix.IsAttestable()
    && p.prefix.len <= p.unit <= 64
    && (p.role == EspTenant ==> p.unit == p.prefix.len)
    && 0 < p.exp - p.iat <= 86_400
  }

  lemma AcceptedIsConforming(value: Value)
    ensures PayloadOf(value).Ok? ==> Conforming(PayloadOf(value).value)
  {
    if PayloadOf(value).Ok? {
      Text.LowerTwice(SlotsOf(value.entries).operator.value);
      LowerKeepsDomain(SlotsOf(value.entries).operator.value);
    }
  }

  // The map a signer writes for a payload; the unit may be left out when it is the default.
  function Encode(p: Payload, writeUnit: bool): Value {
    Map([
      (Integer(1), Text(p.operator)),
      (Integer(2), Bytes(PrefixOctets(p.prefix))),
      (Integer(4), Integer(p.iat)),
      (Integer(5), Integer(p.exp)),
      (Integer(6), Text(RoleName(p.role)))
    ] + if writeUnit then [(Integer(3), Integer(p.unit))] else [])
  }

  // Every conforming payload is accepted, and reads back unchanged.
  lemma ConformingIsAccepted(p: Payload, writeUnit: bool)
    requires Conforming(p) && (writeUnit || p.unit == 64)
    ensures PayloadOf(Encode(p, writeUnit)) == Ok(p)
  {
    EncodedSlots(p, writeUnit);
    PrefixReadsBack(p.prefix);
  }

  function SlotsOfPayload(p: Payload, writeUnit: bool): Slots {
    Slots(Some(p.operator), Some(PrefixOctets(p.prefix)),
      if writeUnit then Some(p.unit) else None, Some(p.iat), Some(p.exp), Some(RoleName(p.role)))
  }

  lemma EncodedSlots(p: Payload, writeUnit: bool)
    ensures Admissible(Encode(p, writeUnit).entries)
    ensures SlotsOf(Encode(p, writeUnit).entries) == SlotsOfPayload(p, writeUnit)
  {
    var entries := Encode(p, writeUnit).entries;
    EntriesAreEncoded(p, writeUnit);
    GetIsMembership(entries, entries[0].0, entries[0].1);
    GetIsMembership(entries, entries[1].0, entries[1].1);
    GetIsMembership(entries, entries[2].0, entries[2].1);
    GetIsMembership(entries, entries[3].0, entries[3].1);
    GetIsMembership(entries, entries[4].0, entries[4].1);
    GetFinds(entries, Integer(3));
    if writeUnit {
      GetIsMembership(entries, entries[5].0, entries[5].1);
    }
  }

  lemma EntriesAreEncoded(p: Payload, writeUnit: bool)
    ensures Admissible(Encode(p, writeUnit).entries)
    ensures HasKey(Encode(p, writeUnit).entries, Integer(3)) <==> writeUnit
  {
    if writeUnit {
      assert Encode(p, writeUnit).entries[5].0 == Integer(3);
    }
  }

  function PrefixOctets(p: Ipv6Prefix): (r: Octets)
    ensures |r| == 17
  {
    BigEndian(p.addr, 16) + [p.len]
  }

  lemma PrefixReadsBack(p: Ipv6Prefix)
    ensures DecodePrefix(PrefixOctets(p)) == Ok(p)
  {
    Pow2Literals();
    BigEndianReadsBack(p.addr, 16);
    assert PrefixOctets(p)[..16] == BigEndian(p.addr, 16);
  }

  // Each prefix has exactly one wire form.
  lemma PrefixFormIsUnique(b: seq<byte>, p: Ipv6Prefix)
    ensures DecodePrefix(b) == Ok(p) <==> b == PrefixOctets(p)
  {
    hide FromBigEndian, BigEndian, Pow2;
    PrefixReadsBack(p);
    if |b| == 17 {
      FromBigEndianWritesBack(b[..16]);
      assert b == b[..16] + [b[16]];
    }
  }

  // ---- Accepted payloads, entry by entry ----

  // The entries of a map that say what `p` says, key by key.
  ghost predicate Spells(entries: Entries, p: Payload) {
    && (exists operator :: (Integer(1), Text(operator)) in entries && Text.Lower(operator) == p.operator)
    && (Integer(2), Bytes(PrefixOctets(p.prefix))) in entries
    && (if HasKey(entries, Integer(3)) then (Integer(3), Integer(p.unit)) in entries else p.unit == 64)
    && (Integer(4), Integer(p.iat)) in entries
    && (Integer(5), Integer(p.exp)) in entries
    && (exists role :: (Integer(6), Text(role)) in entries && NamesRole(role, p.role))
  }

  predicate NamesRole(s: string, role: Role) {
    match role
    case Mta => s == "mta"
    case EspTenant => s == "esp-tenant"
    case Forwarder => s == "forwarder"
  }

  // A map is accepted as a payload exactly when its keys are admissible, its entries spell the
  // payload, and the payload conforms.
  lemma AcceptedIffSpelled(entries: Entries, p: Payload)
    ensures PayloadOf(Map(entries)) == Ok(p) <==> Admissible(entries) && Spells(entries, p) && Conforming(p)
  {
    hide PayloadOf, Spells, Conforming;
    if PayloadOf(Map(entries)) == Ok(p) {
      AcceptedIsConforming(Map(entries));
      AcceptedIsSpelled(entries, p);
    } else if Admissible(entries) && Spells(entries, p) && Conforming(p) {
      SpelledIsAccepted(entries, p);
    }
  }

  lemma AcceptedIsSpelled(entries: Entries, p: Payload)
    requires PayloadOf(Map(entries)) == Ok(p)
    ensures Admissible(entries) && Spells(entries, p)
  {
    hide IsOperatorDomain, RawPrefix.IsAttestable, DecodePrefix, PrefixOctets, Get;
    var s := SlotsOf(entries);
    EntriesAreFound(entries);
    assert (Integer(1), Text(s.operator.value)) in entries;
    PrefixFormIsUnique(s.prefix.value, p.prefix);
    assert (Integer(6), Text(s.role.value)) in entries && NamesRole(s.role.value, p.role);
  }

  lemma EntriesAreFound(entries: Entries)
    ensures forall key :: Get(entries, key).Some? <==> HasKey(entries, key)
    ensures forall key :: Get(entries, key).Some? ==> (key, Get(entries, key).value) in entries
  {
    forall key
      ensures Get(entries, key).Some? <==> HasKey(entries, key)
      ensures Get(entries, key).Some? ==> (key, Get(entries, key).value) in entries
    {
      GetFinds(entries, key);
    }
  }

  lemma SpelledIsAccepted(entries: Entries, p: Payload)
    requires Admissible(entries) && Spells(entries, p) && Conforming(p)
    ensures PayloadOf(Map(entries)) == Ok(p)
  {
    hide IsOperatorDomain, RawPrefix.IsAttestable, DecodePrefix, PrefixOctets, Get, Admissible;
    assert DistinctKeys(entries) by {
      DistinctOf(entries);
    }
    var operator :| (Integer(1), Text(operator)) in entries && Text.Lower(operator) == p.operator;
    var role :| (Integer(6), Text(role)) in entries && NamesRole(role, p.role);
    GetIsMembership(entries, Integer(1), Text(operator));
    GetIsMembership(entries, Integer(2), Bytes(PrefixOctets(p.prefix)));
    GetIsMembership(entries, Integer(3), Integer(p.unit));
    GetIsMembership(entries, Integer(4), Integer(p.iat));
    GetIsMembership(entries, Integer(5), Integer(p.exp));
    GetIsMembership(entries, Integer(6), Text(role));
    GetFinds(entries, Integer(3));
    LowerKeepsDomain(operator);
    PrefixReadsBack(p.prefix);
    RoleIsNamed(role, p.role);
  }

  lemma DistinctOf(entries: Entries)
    requires Admissible(entries)
    ensures DistinctKeys(entries)
  {
  }

  // ---- What is refused ----

  // The payload checks that fail, each stated on its own.
  ghost predicate SlotFails(s: Slots, c: Check) {
    match c
    case RequiredKeys => s.operator.None? || s.prefix.None? || s.iat.None? || s.exp.None? || s.role.None?
    case OperatorName => s.operator.Some? && !IsOperatorDomain(s.operator.value)
    case KnownRole => s.role.Some? && s.role.value !in {"mta", "esp-tenant", "forwarder"}
    case PrefixForm => s.prefix.Some? && |s.prefix.value| != 17
    case PrefixRange => s.prefix.Some? && !SpellsAttestable(s.prefix.value)
    case ValidityOrder => s.iat.Some? && s.exp.Some? && s.exp.value <= s.iat.value
    case Lifetime => s.iat.Some? && s.exp.Some? && s.exp.value > s.iat.value + 86_400
    case UnitRange =>
      var unit := if s.unit.Some? then s.unit.value else 64;
      var length := if s.prefix.Some? && |s.prefix.value| == 17 then s.prefix.value[16] else 0;
      unit < length || unit > 64 || (s.role == Some("esp-tenant") && unit != length)
    case _ => false
  }

  ghost function SlotFailing(s: Slots): set<Check> {
    set c | SlotFails(s, c)
  }

  ghost predicate SpellsAttestable(b: Octets) {
    exists p: Ipv6Prefix :: b == PrefixOctets(p) && p.IsAttestable()
  }

  lemma SlotsFailInOrder(s: Slots)
    ensures FailsInOrder(Judge(s), SlotFailing(s))
  {
    hide IsOperatorDomain, RawPrefix.IsAttestable, DecodePrefix, SpellsAttestable, ParseRole;
    if s.role.Some? {
      RolesAreThree(s.role.value);
    }
    if s.prefix.Some? {
      DecodedIsAttestable(s.prefix.value);
    }
    var failing := SlotFailing(s);
    if Judge(s).Err? {
      var c :=
        if SlotFails(s, RequiredKeys) then RequiredKeys
        else if SlotFails(s, OperatorName) then OperatorName
        else if SlotFails(s, KnownRole) then KnownRole
        else if SlotFails(s, PrefixForm) then PrefixForm
        else if SlotFails(s, PrefixRange) then PrefixRange
        else if SlotFails(s, ValidityOrder) then ValidityOrder
        else if SlotFails(s, Lifetime) then Lifetime
        else UnitRange;
      assert IsFirst(failing, c);
    }
  }

  lemma DecodedIsAttestable(b: Octets)
    ensures DecodePrefix(b) == Err(Malformed) <==> |b| != 17
    ensures DecodePrefix(b).Err? ==> DecodePrefix(b).error in {Malformed, BadPrefix}
    ensures DecodePrefix(b).Ok? && DecodePrefix(b).value.IsAttestable() <==> SpellsAttestable(b)
    ensures DecodePrefix(b).Ok? ==> DecodePrefix(b).value.len == b[16]
  {
    hide RawPrefix.IsAttestable, FromBigEndian, PrefixOctets;
    forall p: Ipv6Prefix
      ensures DecodePrefix(b) == Ok(p) <==> b == PrefixOctets(p)
    {
      PrefixFormIsUnique(b, p);
    }
  }

  lemma RolesAreThree(name: string)
    ensures ParseRole(name).None? <==> name !in {"mta", "esp-tenant", "forwarder"}
    ensures ParseRole(name) == Some(EspTenant) <==> name == "esp-tenant"
  {
    assert "mta"[0] == 'm' && "esp-tenant"[0] == 'e' && "forwarder"[0] == 'f';
  }

  lemma RoleIsNamed(name: string, role: Role)
    ensures ParseRole(name) == Some(role) <==> NamesRole(name, role)
    ensures name == RoleName(role) <==> NamesRole(name, role)
  {
    assert "mta"[0] == 'm' && "esp-tenant"[0] == 'e' && "forwarder"[0] == 'f';
  }
}
