// What a verdict of the staged verifier guarantees, for every input and every run.
module Guarantees {
  import opened Common
  import opened Address
  import opened AssocLists
  import opened Cbor
  import opened Cose
  import opened Names
  import opened Payloads
  import opened Policies
  import opened Reasons
  import opened TaggedFields
  import opened Text
  import opened Verifier

  // ---- Payloads that were read ----

  lemma ReadPayloadConforms(env: Backend, octets: seq<byte>)
    ensures ReadPayload(env, octets).Ok? ==> Conforming(ReadPayload(env, octets).value)
  {
    hide PayloadOf, Conforming;
    if ReadPayload(env, octets).Ok? {
      AcceptedIsConforming(DecodeCbor(env.cbor, octets).value);
    }
  }

  lemma ReadClaimConforms(env: Backend, token: seq<byte>)
    ensures ReadClaim(env, token).Ok? ==>
      var claim := ReadClaim(env, token).value;
      Conforming(claim.payload) && IsLabel(claim.selector)
  {
    hide ReadPayload, CoseOf, SelectorFromKid, IsLabel, Conforming;
    if ReadClaim(env, token).Ok? {
      var claim := ReadClaim(env, token).value;
      ReadPayloadConforms(env, claim.cose.payload);
      SelectorIsOneLabelDomain(Get(claim.cose.protected, KID).value.octets);
    }
  }

  // The defined keys of an accepted token's payload are unique, untagged and of their CDDL
  // type on the wire, and the required ones are all there.
  lemma AcceptedPayloadIsClean(env: Backend, token: seq<byte>, source: Addr, now: i64, ex: seq<Ipv6Prefix>)
    requires ParseExcluding(env, token, source, now, ex).Ok?
    ensures var read := env.cbor.read(ReadClaim(env, token).value.cose.payload);
      && read.Some? && read.value.0.Map?
      && DefinedKeysClean(env.cbor, read.value.0.entries)
      && RequiredKeysPresent(env.cbor, read.value.0.entries)
  {
    hide CheckConnection, PayloadOf, CoseOf, CheckHeaders, DefinedKeysClean, RequiredKeysPresent;
    var octets := ReadClaim(env, token).value.cose.payload;
    AcceptedIsMap(env, octets);
    var (item, n) := env.cbor.read(octets).value;
    TwoPassesTogether(env.cbor, octets, item.entries, n);
  }

  lemma AcceptedIsMap(env: Backend, octets: seq<byte>)
    ensures ReadPayload(env, octets).Ok? ==>
      && env.cbor.read(octets).Some?
      && env.cbor.read(octets).value.0.Map?
      && PayloadOf(Folded(env.cbor, env.cbor.read(octets).value.0)).Ok?
      && RejectTaggedFields(env.cbor, octets).Ok?
  {
    hide PayloadOf;
  }

  // ---- Address sets, from policy to source ----

  ghost predicate Chain(prefix: Ipv6Prefix, unit: Ipv6Prefix, observed: Ipv6Prefix, source: Addr) {
    && AddrSet(unit) <= AddrSet(prefix)
    && AddrSet(observed) <= AddrSet(unit)
    && source in AddrSet(observed)
    && prefix.IsAttestable() && unit.IsAttestable() && observed.IsAttestable()
  }

  lemma LocalChain(env: Backend, token: seq<byte>, source: Addr, now: i64, ex: seq<Ipv6Prefix>)
    ensures ParseExcluding(env, token, source, now, ex).Ok? ==>
      var u := ParseExcluding(env, token, source, now, ex).value;
      && Chain(u.payload.prefix, u.unit, u.observedUnit, source)
      && u.unit.len == u.payload.unit && u.observedUnit.len == 64
  {
    hide ReadClaim, Mask, SharesTop, RawPrefix.IsAttestable, IsOperatorDomain, IsEligibleSource;
    if ParseExcluding(env, token, source, now, ex).Ok? {
      var u := ParseExcluding(env, token, source, now, ex).value;
      ReadClaimConforms(env, token);
      SubPrefixAttestable(u.payload.prefix, source, u.payload.unit);
      ContainsIsMembership(u.unit, source);
      SubPrefixAttestable(u.unit, source, OBSERVED_UNIT_LEN);
    }
  }

  // A verdict of either kind, under any exclusions, means: some policy prefix holds the token's prefix, which holds
  // the declared unit, which holds the observed /64, which holds the source; and the policy
  // would authorize each of them.
  lemma VerdictChain(env: Backend, token: seq<byte>, key: Key, policy: PolicyRecord, source: Addr, now: i64,
                     ex: seq<Ipv6Prefix>)
    requires VerifyExcluding(env, token, key, policy, source, now, ex).Ok?
    ensures var v := VerifyExcluding(env, token, key, policy, source, now, ex).value.verified;
      && Chain(v.prefix, v.unit, v.observedUnit, source)
      && (exists i :: 0 <= i < |policy.prefixes| && AddrSet(v.prefix) <= AddrSet(policy.prefixes[i]))
      && v.unit.len == policy.unit && v.observedUnit.len == 64
      && Authorizes(policy, v.prefix) && Authorizes(policy, v.unit) && Authorizes(policy, v.observedUnit)
  {
    hide ReadClaim, CheckConnection, Authorizes, AddrSet, RawPrefix.IsAttestable;
    var v := VerifyExcluding(env, token, key, policy, source, now, ex).value.verified;
    LocalChain(env, token, source, now, ex);
    AuthorizesIsInclusion(policy, v.prefix);
    AuthorizesSubPrefixes(policy, v.prefix, v.unit);
    AuthorizesSubPrefixes(policy, v.unit, v.observedUnit);
  }

  // With the protocol's own ranges only, an ineligible source is always off the prefix too.
  lemma IneligibleIsOffPrefix(env: Backend, token: seq<byte>, source: Addr, now: i64)
    requires Parse(env, token, source, now) == Err(IneligibleSource)
    ensures ReadClaim(env, token).Ok? && source !in AddrSet(ReadClaim(env, token).value.payload.prefix)
  {
    hide Mask, SharesTop, IsEligibleSource, RawPrefix.IsAttestable, IsOperatorDomain;
    ReadClaimReasons(env, token);
    var claim := ReadClaim(env, token).value;
    ReadClaimConforms(env, token);
    ContainsIsMembership(claim.payload.prefix, source);
    if claim.payload.prefix.Contains(source) {
      AttestableMeansEligible(claim.payload.prefix, source);
    }
  }

  // The reasons that belong to the token alone.
  predicate IsTokenReason(r: Reason) {
    r in {Malformed, HeaderConfusion, BadContentType, BadKid, BadRole, BadPrefix, BadValidity, LifetimeTooLong, BadUnit}
  }

  lemma ReadClaimReasons(env: Backend, token: seq<byte>)
    ensures ReadClaim(env, token).Err? ==> IsTokenReason(ReadClaim(env, token).error)
  {
    hide Folded, Judge, HeadersOf, SelectorFromKid;
    if ReadClaim(env, token).Err? {
      CoseReasons(env.cbor, token);
      if CoseOf(env.cbor, token).Ok? {
        PayloadReasons(env, CoseOf(env.cbor, token).value.payload);
      }
    }
  }

  lemma CoseReasons(lib: Library, token: seq<byte>)
    ensures CoseOf(lib, token).Err? ==> CoseOf(lib, token).error == Malformed
  {
  }

  lemma PayloadReasons(env: Backend, octets: seq<byte>)
    ensures ReadPayload(env, octets).Err? ==>
      && IsTokenReason(ReadPayload(env, octets).error)
      && ReadPayload(env, octets).error !in {HeaderConfusion, BadContentType, BadKid}
  {
    hide Judge, Folded;
    if DecodeCbor(env.cbor, octets).Ok? {
      var value := DecodeCbor(env.cbor, octets).value;
      if value.Map? {
        JudgeReasons(SlotsOf(value.entries));
      }
    }
  }

  lemma JudgeReasons(s: Slots)
    ensures Judge(s).Err? ==> Judge(s).error in {Malformed, BadRole, BadPrefix, BadValidity, LifetimeTooLong, BadUnit}
  {
    hide IsOperatorDomain, RawPrefix.IsAttestable;
  }

  // ---- What the signed octets determine ----

  lemma ClaimDeterminedBySignedOctets(env: Backend, t1: seq<byte>, t2: seq<byte>)
    requires ReadClaim(env, t1).Ok? && ReadClaim(env, t2).Ok?
    requires var c1, c2 := ReadClaim(env, t1).value.cose, ReadClaim(env, t2).value.cose;
      SigStructure(c1.protectedRaw, c1.payload) == SigStructure(c2.protectedRaw, c2.payload)
    ensures ReadClaim(env, t1).value.selector == ReadClaim(env, t2).value.selector
    ensures ReadClaim(env, t1).value.payload == ReadClaim(env, t2).value.payload
  {
    hide ReadPayload, CheckHeaders, DecodeCbor, HeadersOf, SigStructure;
    var c1, c2 := ReadClaim(env, t1).value.cose, ReadClaim(env, t2).value.cose;
    SigStructureInjective(c1.protectedRaw, c1.payload, c2.protectedRaw, c2.payload);
    CoseBucket(env.cbor, t1);
    CoseBucket(env.cbor, t2);
    UnprotectedOnlyRejects(c1.protected, c1.unprotected);
    UnprotectedOnlyRejects(c2.protected, c2.unprotected);
  }

  lemma CoseBucket(lib: Library, token: seq<byte>)
    ensures CoseOf(lib, token).Ok? ==>
      ProtectedOf(lib, CoseOf(lib, token).value.protectedRaw) == Ok(CoseOf(lib, token).value.protected)
  {
    hide HeadersOf, Folded;
  }

  // Two tokens over the same signed octets, accepted at one source at whatever times and under
  // whatever exclusions, give the same result up to the signature: the unprotected bucket and
  // the encoding around the signed octets have no say.
  lemma SignedOctetsDetermineResult(env: Backend, t1: seq<byte>, t2: seq<byte>, source: Addr,
                                    now1: i64, now2: i64, ex1: seq<Ipv6Prefix>, ex2: seq<Ipv6Prefix>)
    requires ParseExcluding(env, t1, source, now1, ex1).Ok? && ParseExcluding(env, t2, source, now2, ex2).Ok?
    requires ParseExcluding(env, t1, source, now1, ex1).value.toBeSigned
          == ParseExcluding(env, t2, source, now2, ex2).value.toBeSigned
    ensures ParseExcluding(env, t1, source, now1, ex1).value.(signature := [])
         == ParseExcluding(env, t2, source, now2, ex2).value.(signature := [])
  {
    hide ReadClaim, SigStructure, Mask, IsEligibleSource;
    ClaimDeterminedBySignedOctets(env, t1, t2);
  }

  // ---- Exclusions ----

  // Adding exclusions keeps the result or turns it into IneligibleSource, and it does the
  // latter exactly when a token that reads meets a source some exclusion holds.
  lemma ExclusionsOnlyRemove(env: Backend, token: seq<byte>, source: Addr, now: i64,
                             ex: seq<Ipv6Prefix>, more: seq<Ipv6Prefix>)
    requires forall p :: p in ex ==> p in more
    ensures ParseExcluding(env, token, source, now, more) ==
      if ReadClaim(env, token).Ok? && (exists p :: p in more && source in AddrSet(p)) then Err(IneligibleSource)
      else ParseExcluding(env, token, source, now, ex)
  {
    hide ReadClaim, Mask, SharesTop, IsEligibleSource, OutsideWindow;
    ExcludedIsMembership(ex, source);
    ExcludedIsMembership(more, source);
  }

  lemma ExcludedIsMembership(ex: seq<Ipv6Prefix>, source: Addr)
    ensures Excluded(ex, source) <==> exists p :: p in ex && source in AddrSet(p)
  {
    hide Mask, SharesTop;
    forall p: Ipv6Prefix | p in ex
      ensures p.Contains(source) <==> source in AddrSet(p)
    {
      ContainsIsMembership(p, source);
    }
    if exists p :: p in ex && source in AddrSet(p) {
      var p :| p in ex && source in AddrSet(p);
      var i :| 0 <= i < |ex| && ex[i] == p;
      assert ex[i].Contains(source);
    }
  }

  // The observed /64 of an accepted source is clear of an exclusion, except of one that lies
  // strictly inside that /64.
  lemma ObservedUnitClearOfExclusions(env: Backend, token: seq<byte>, source: Addr, now: i64,
                                      ex: seq<Ipv6Prefix>, p: Ipv6Prefix)
    requires ParseExcluding(env, token, source, now, ex).Ok? && p in ex
    ensures var observed := ParseExcluding(env, token, source, now, ex).value.observedUnit;
      AddrSet(observed) * AddrSet(p) == iset{} <==> !(p.len > 64 && p.addr in AddrSet(observed))
  {
    hide ReadClaim, Mask, SharesTop, IsEligibleSource, OutsideWindow;
    var observed := ParseExcluding(env, token, source, now, ex).value.observedUnit;
    ExcludedIsMembership(ex, source);
    LocalChain(env, token, source, now, ex);
    if p.len <= 64 {
      NestedOrDisjoint(p, observed);
    } else {
      NestedOrDisjoint(observed, p);
      ContainsIsMembership(observed, p.addr);
      OwnAddress(p);
      assert p.addr in AddrSet(observed) ==> p.addr in AddrSet(observed) * AddrSet(p);
    }
  }

  // ---- Units ----

  // The observed unit is the source's /64 whatever the token says; the declared unit is a
  // function of it for a fixed token; and an ESP tenant's unit is its attested prefix.
  lemma UnitFollowsObservedUnit(env: Backend, token: seq<byte>, s1: Addr, s2: Addr, now1: i64, now2: i64,
                                ex1: seq<Ipv6Prefix>, ex2: seq<Ipv6Prefix>)
    requires ParseExcluding(env, token, s1, now1, ex1).Ok? && ParseExcluding(env, token, s2, now2, ex2).Ok?
    ensures var u1 := ParseExcluding(env, token, s1, now1, ex1).value;
      var u2 := ParseExcluding(env, token, s2, now2, ex2).value;
      && u1.observedUnit == UnitAround(s1, 64)
      && (u1.observedUnit == u2.observedUnit ==> u1.unit == u2.unit)
      && (u1.payload.role == EspTenant ==> u1.unit == u1.payload.prefix)
  {
    hide ReadClaim, Mask, IsEligibleSource, OutsideWindow;
    var claim := ReadClaim(env, token).value;
    MaskOfMask(s1, 64, claim.payload.unit);
    MaskOfMask(s2, 64, claim.payload.unit);
    EspUnitIsPrefix(env, token, s1);
  }

  lemma EspUnitIsPrefix(env: Backend, token: seq<byte>, source: Addr)
    requires ReadClaim(env, token).Ok? && ReadClaim(env, token).value.payload.prefix.Contains(source)
    ensures var p := ReadClaim(env, token).value.payload;
      p.role == EspTenant ==> UnitAround(source, p.unit) == p.prefix
  {
    hide ReadClaim, Mask, IsOperatorDomain;
    ReadClaimConforms(env, token);
  }

  // ---- Record names ----

  // The key record two accepted tokens ask for is the same only when selector and operator
  // both are, and is never anyone's policy record.
  lemma KeyLookupsAreInjective(env: Backend, t1: seq<byte>, t2: seq<byte>)
    requires ReadClaim(env, t1).Ok? && ReadClaim(env, t2).Ok?
    ensures var c1, c2 := ReadClaim(env, t1).value, ReadClaim(env, t2).value;
      && (KeyRecordName(c1.selector, c1.payload.operator) == KeyRecordName(c2.selector, c2.payload.operator)
          <==> c1.selector == c2.selector && c1.payload.operator == c2.payload.operator)
      && KeyRecordName(c1.selector, c1.payload.operator) != PolicyRecordName(c2.payload.operator)
      && IsOperatorDomain(c1.payload.operator) && IsOperatorDomain(c1.selector)
  {
    hide ReadClaim, IsLabel, KeyRecordName, PolicyRecordName, RawPrefix.IsAttestable;
    ReadClaimConforms(env, t1);
    ReadClaimConforms(env, t2);
    var c1, c2 := ReadClaim(env, t1).value, ReadClaim(env, t2).value;
    KeyRecordNameInjective(c1.selector, c1.payload.operator, c2.selector, c2.payload.operator);
    LabelIsDomain(c1.selector);
  }

  // ---- What is reported ----

  // The verified values are the token's own: the entries of its payload map and the key
  // identifier of its protected bucket, names in lower case; and the policy's own two fields.
  ghost predicate Reports(v: Verified, cose: CoseSign1, entries: Entries) {
    && (exists p :: Spells(entries, p) && v.operator == p.operator && v.prefix == p.prefix && v.role == p.role
                    && v.unit.len == p.unit)
    && (exists kid: Octets :: (IntLabel(4), Bytes(kid)) in cose.protected && v.selector == Lower(AsText(kid)))
  }

  lemma VerdictReportsTheToken(env: Backend, token: seq<byte>, key: Key, policy: PolicyRecord,
                               source: Addr, now: i64, ex: seq<Ipv6Prefix>)
    requires VerifyExcluding(env, token, key, policy, source, now, ex).Ok?
    ensures var outcome := VerifyExcluding(env, token, key, policy, source, now, ex).value;
      && (exists cose, entries ::
            && CoseOf(env.cbor, token) == Ok(cose) && DecodeCbor(env.cbor, cose.payload) == Ok(Map(entries))
            && Reports(outcome.verified, cose, entries))
      && outcome.verified.testing == policy.testing && outcome.verified.rua == policy.rua
      && (outcome.ObserveOnly? <==> policy.testing)
  {
    hide CoseOf, CheckHeaders, ReadPayload, CheckConnection, Reports, Spells;
    var v := VerifyExcluding(env, token, key, policy, source, now, ex).value.verified;
    var claim := ReadClaim(env, token).value;
    CheckedFields(claim, source, now, ex);
    var entries := SlotsAreEntries(env, claim.cose.payload);
    KidIsReported(claim.cose.protected, claim.cose.unprotected);
    ReportsParts(v, claim, entries);
  }

  lemma ReportsParts(v: Verified, claim: Claim, entries: Entries)
    requires v.operator == claim.payload.operator && v.prefix == claim.payload.prefix
    requires v.role == claim.payload.role && v.selector == claim.selector && v.unit.len == claim.payload.unit
    requires Spells(entries, claim.payload)
    requires exists kid: Octets :: (IntLabel(4), Bytes(kid)) in claim.cose.protected
                                   && claim.selector == Lower(AsText(kid))
    ensures Reports(v, claim.cose, entries)
  {
  }

  lemma CheckedFields(claim: Claim, source: Addr, now: i64, ex: seq<Ipv6Prefix>)
    requires claim.payload.unit <= MAX_PREFIX_LEN
    ensures CheckConnection(claim, source, now, ex).Ok? ==>
      var u := CheckConnection(claim, source, now, ex).value;
      u.payload == claim.payload && u.selector == claim.selector && u.unit.len == claim.payload.unit
  {
    hide IsEligibleSource, OutsideWindow, Mask;
  }

  lemma SlotsAreEntries(env: Backend, octets: seq<byte>) returns (entries: Entries)
    requires ReadPayload(env, octets).Ok?
    ensures DecodeCbor(env.cbor, octets) == Ok(Map(entries))
    ensures Spells(entries, ReadPayload(env, octets).value)
  {
    hide Folded, RejectTaggedFields, PayloadOf, Spells;
    var value := DecodeCbor(env.cbor, octets).value;
    AcceptedIsAMap(value);
    entries := value.entries;
    AcceptedIffSpelled(entries, ReadPayload(env, octets).value);
  }

  lemma AcceptedIsAMap(value: Value)
    ensures PayloadOf(value).Ok? ==> value.Map?
  {
  }

  lemma KidIsReported(p: Headers, u: Headers)
    requires CheckHeaders(p, u).Ok?
    ensures exists kid: Octets :: (IntLabel(4), Bytes(kid)) in p && CheckHeaders(p, u).value == Lower(AsText(kid))
  {
    GetFinds(p, KID);
    var kid := Get(p, KID).value.octets;
    assert (IntLabel(4), Bytes(kid)) in p;
  }

  // ---- The complete verdict and the signature-only one ----

  // A complete verdict is a signature-only result whose prefix the policy authorizes and whose
  // unit is the policy's; they differ in the policy's own two fields, and the verdict is
  // observe-only exactly when the policy says so.
  lemma VerifyRefinesSignatureOnly(env: Backend, token: seq<byte>, key: Key, policy: PolicyRecord,
                                   source: Addr, now: i64)
    ensures var low := VerifySignatureOnly(env, token, key, source, now);
      var full := Verify(env, token, key, policy, source, now);
      && (full.Ok? <==> low.Ok? && Authorizes(policy, low.value.prefix) && policy.unit == low.value.unit.len)
      && (full.Ok? ==>
            && full.value.verified == low.value.(testing := policy.testing, rua := policy.rua)
            && (full.value.ObserveOnly? <==> policy.testing))
      && (low.Ok? ==> low.value.testing == false && low.value.rua == None)
  {
    hide ReadClaim, Mask, IsEligibleSource, OutsideWindow, Authorizes;
  }
}
