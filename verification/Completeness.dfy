// An honest token passes, with exactly the outcome its signer and the policy intend.
module Completeness {
  import opened Common
  import opened Address
  import opened AssocLists
  import opened Cbor
  import opened Cose
  import opened Guarantees
  import opened Names
  import opened Payloads
  import opened Policies
  import opened Runs
  import opened TaggedFields
  import opened Verifier
  import Text

  // What a signer chooses.
  datatype Signed = Signed(payload: Payload, writeUnit: bool, kid: Octets, alg: int)

  predicate Honest(s: Signed) {
    && Conforming(s.payload) && (s.writeUnit || s.payload.unit == 64)
    && IsOperatorDomain(AsText(s.kid)) && '.' !in AsText(s.kid)
    && s.alg in {-8, -19}
  }

  function SignedHeaders(s: Signed): Headers {
    [(IntLabel(1), Integer(s.alg)), (IntLabel(3), Text("application/sworn-token+cbor")), (IntLabel(4), Bytes(s.kid))]
  }

  predicate Harmless(u: Headers) {
    DistinctKeys(u) && forall i :: 0 <= i < |u| ==> u[i].0 !in {IntLabel(1), IntLabel(2), IntLabel(3), IntLabel(4)}
  }

  // The octets `token` carry what was signed, with any unprotected labels beside it.
  ghost predicate Carries(lib: Library, token: seq<byte>, cose: CoseSign1, s: Signed) {
    && |token| <= 3072
    && DecodeCbor(lib, token) == Ok(Tag(18, Array([
         Bytes(cose.protectedRaw), EncodeHeaders(cose.unprotected), Bytes(cose.payload), Bytes(cose.signature)])))
    && cose.protectedRaw != [] && DecodeCbor(lib, cose.protectedRaw) == Ok(EncodeHeaders(cose.protected))
    && cose.protected == SignedHeaders(s) && Harmless(cose.unprotected)
    && lib.read(cose.payload) == Some((Encode(s.payload, s.writeUnit), |cose.payload|))
  }

  lemma EncodedIsPlain(lib: Library, p: Payload, writeUnit: bool)
    ensures Encode(p, writeUnit).Map? && Folded(lib, Encode(p, writeUnit)) == Encode(p, writeUnit)
    ensures KeysFold(lib, Encode(p, writeUnit).entries)
    ensures forall i :: 0 <= i < |Encode(p, writeUnit).entries| ==> !Encode(p, writeUnit).entries[i].1.Tag?
  {
    var entries := Encode(p, writeUnit).entries;
    forall i | 0 <= i < |entries|
      ensures Folded(lib, entries[i].0) == entries[i].0 && Folded(lib, entries[i].1) == entries[i].1
      ensures entries[i].0.Integer? && !entries[i].1.Tag?
    {
      assert i in {0, 1, 2, 3, 4, 5};
    }
    assert FoldedEntries(lib, entries) == entries;
  }

  lemma HonestPayloadIsRead(env: Backend, octets: seq<byte>, s: Signed)
    requires Honest(s) && env.cbor.read(octets) == Some((Encode(s.payload, s.writeUnit), |octets|))
    ensures ReadPayload(env, octets) == Ok(s.payload)
  {
    hide PayloadOf, RejectTaggedFields, Conforming, Encode, IsOperatorDomain;
    EncodedIsPlain(env.cbor, s.payload, s.writeUnit);
    ConformingIsAccepted(s.payload, s.writeUnit);
    SecondPassIsExact(env.cbor, octets);
    NoTagsIsUntagged(env.cbor, Encode(s.payload, s.writeUnit).entries);
  }

  lemma NoTagsIsUntagged(lib: Library, entries: Entries)
    requires forall i :: 0 <= i < |entries| ==> !entries[i].1.Tag?
    ensures LastDefinedUntagged(lib, entries)
  {
  }

  lemma SignedLabels(s: Signed)
    ensures var p := SignedHeaders(s);
      && DistinctKeys(p) && (forall name :: HasKey(p, name) ==> name in {IntLabel(1), IntLabel(3), IntLabel(4)})
      && Get(p, IntLabel(1)) == Some(Integer(s.alg))
      && Get(p, IntLabel(3)) == Some(Text("application/sworn-token+cbor"))
      && Get(p, IntLabel(4)) == Some(Bytes(s.kid))
  {
    var p := SignedHeaders(s);
    GetIsMembership(p, IntLabel(1), p[0].1);
    GetIsMembership(p, IntLabel(3), p[1].1);
    GetIsMembership(p, IntLabel(4), p[2].1);
  }

  lemma HonestHeadersPass(s: Signed, u: Headers)
    requires Honest(s) && Harmless(u)
    ensures CheckHeaders(SignedHeaders(s), u) == Ok(Text.Lower(AsText(s.kid)))
  {
    hide SelectorFromKid, IsOperatorDomain, Conforming, SignedHeaders, Get;
    var p := SignedHeaders(s);
    SignedLabels(s);
    SelectorIsOneLabelDomain(s.kid);
    UnprotectedOnlyRejects(p, u);
    UnprotectedOnlyRejects(p, []);
  }

  lemma HonestTokenIsRead(env: Backend, token: seq<byte>, cose: CoseSign1, s: Signed)
    requires Honest(s) && Carries(env.cbor, token, cose, s)
    ensures ReadClaim(env, token) == Ok(Claim(cose, Text.Lower(AsText(s.kid)), s.payload))
  {
    hide CheckHeaders, ReadPayload, DecodeCbor, HeadersOf, EncodeHeaders, Honest, Encode;
    assert DistinctKeys(SignedHeaders(s));
    HeadersRoundTrip(EncodeHeaders(cose.protected), cose.protected);
    CoseShape(env.cbor, token, cose);
    HonestHeadersPass(s, cose.unprotected);
    HonestPayloadIsRead(env, cose.payload, s);
  }

  // The connection, the policy and the key agree with what was signed.
  ghost predicate Agrees(a: Attempt, now: i64, cose: CoseSign1, p: Payload) {
    && a.source in AddrSet(p.prefix) && (forall q :: q in a.ineligible ==> a.source !in AddrSet(q))
    && p.iat - 300 <= now <= p.exp + 300
    && Authorizes(a.policy, p.prefix) && a.policy.unit == p.unit
    && |cose.signature| == 64 && a.env.strict(a.key, SigStructure(cose.protectedRaw, cose.payload), cose.signature)
  }

  function Intended(a: Attempt, s: Signed): Outcome
    requires s.payload.unit <= 128
  {
    var v := Verified(s.payload.operator, UnitAround(a.source, s.payload.unit), UnitAround(a.source, 64),
      s.payload.prefix, Text.Lower(AsText(s.kid)), s.payload.role, a.policy.testing, a.policy.rua);
    if a.policy.testing then ObserveOnly(v) else Pass(v)
  }

  // A conforming payload under valid headers and a good signature, from a source in its prefix
  // and inside its window, under a policy that authorizes it, gives exactly the intended outcome.
  lemma HonestTokenPasses(a: Attempt, now: i64, cose: CoseSign1, s: Signed)
    requires Honest(s) && Carries(a.env.cbor, a.token, cose, s) && Agrees(a, now, cose, s.payload)
    ensures s.payload.unit <= 64 && Verdict(a, now) == Ok(Intended(a, s))
  {
    hide ReadClaim, Carries, Authorizes, SigStructure, IsEligibleSource, OutsideWindow, Mask, SharesTop,
      RawPrefix.IsAttestable, IsOperatorDomain, Excluded;
    HonestTokenIsRead(a.env, a.token, cose, s);
    ContainsIsMembership(s.payload.prefix, a.source);
    AttestableMeansEligible(s.payload.prefix, a.source);
    ExcludedIsMembership(a.ineligible, a.source);
    WindowIsExact(s.payload, now);
  }

  // For every honest choice of a signer there are octets that carry it, so the hypotheses of
  // the theorem above can be met.
  lemma HonestTokenExists(s: Signed, fold: (u64, Octets) -> Option<int>, strict: (Key, seq<byte>, seq<byte>) -> bool)
    returns (env: Backend, token: seq<byte>, cose: CoseSign1)
    requires Honest(s)
    ensures env.cbor.fold == fold && env.strict == strict
    ensures Carries(env.cbor, token, cose, s) && |cose.signature| == 64
  {
    hide Honest, Encode;
    cose := CoseSign1([1], SignedHeaders(s), [], [2], seq(64, _ => 0));
    token := [0];
    var parts := [Bytes(cose.protectedRaw), EncodeHeaders([]), Bytes(cose.payload), Bytes(cose.signature)];
    var whole, bucket, payload := Tag(18, Array(parts)), EncodeHeaders(cose.protected), Encode(s.payload, s.writeUnit);
    var read: seq<byte> -> Option<(Value, nat)> := octets =>
      if octets == [0] then Some((whole, 1))
      else if octets == [1] then Some((bucket, 1))
      else if octets == [2] then Some((payload, 1))
      else None;
    env := Backend(Library(read, fold), strict);
    FoldedArray(env.cbor, parts);
    FoldedHeaders(env.cbor, s);
  }

  lemma FoldedArray(lib: Library, parts: seq<Value>)
    requires |parts| == 4 && parts[0].Bytes? && parts[1] == EncodeHeaders([]) && parts[2].Bytes? && parts[3].Bytes?
    ensures Folded(lib, Tag(18, Array(parts))) == Tag(18, Array(parts))
  {
    assert Folded(lib, parts[1]).entries == parts[1].entries;
    forall i | 0 <= i < 4
      ensures Folded(lib, parts[i]) == parts[i]
    {
      assert i in {0, 1, 2, 3};
    }
    assert Folded(lib, Array(parts)).items == parts;
  }

  lemma FoldedHeaders(lib: Library, s: Signed)
    ensures Folded(lib, EncodeHeaders(SignedHeaders(s))) == EncodeHeaders(SignedHeaders(s))
  {
    var entries := EncodeHeaders(SignedHeaders(s)).entries;
    forall i | 0 <= i < 3
      ensures Folded(lib, entries[i].0) == entries[i].0 && Folded(lib, entries[i].1) == entries[i].1
    {
      assert i in {0, 1, 2};
    }
    assert FoldedEntries(lib, entries) == entries;
  }

  // And whatever an honest signer claims, from every source in the prefix and at every time in
  // the window, some attempt on it passes.
  lemma SomeAttemptPasses(s: Signed, source: Addr, now: i64) returns (a: Attempt)
    requires Honest(s) && source in AddrSet(s.payload.prefix)
    requires s.payload.iat - 300 <= now <= s.payload.exp + 300
    ensures a.source == source && s.payload.unit <= 64 && Verdict(a, now) == Ok(Intended(a, s))
    ensures Intended(a, s).Pass?
  {
    hide Verdict, Mask, SharesTop, IsOperatorDomain, Carries, SigStructure, Encode;
    var env, token, cose := HonestTokenExists(s, (_, _) => None, (_, _, _) => true);
    var policy := PolicyRecord([s.payload.prefix], s.payload.unit, false, None);
    a := Attempt(env, token, [], policy, source, []);
    assert Covers(policy.prefixes[0], s.payload.prefix);
    HonestTokenPasses(a, now, cose, s);
  }
}
