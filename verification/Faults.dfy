// The checks a verification can fail, each stated on its own (src/reason.rs), and the proof
// that the staged verifier reports the first of them.
module Faults {
  import opened Common
  import opened Address
  import opened Cbor
  import opened Cose
  import opened Guarantees
  import opened Payloads
  import opened Policies
  import opened Reasons
  import opened Runs
  import opened TaggedFields
  import opened Verifier

  // Payload octets are one whole map, clean on the wire, or they fail as a whole; in a map, the
  // checks on what its defined keys say.
  ghost function PayloadFailing(env: Backend, octets: seq<byte>): set<Check> {
    match env.cbor.read(octets)
    case Some((Map(entries), n)) =>
      if n == |octets| && CleanOnWire(env.cbor, entries) then SlotFailing(SlotsOf(FoldedEntries(env.cbor, entries)))
      else {PayloadMap}
    case _ => {PayloadMap}
  }

  ghost function CoseFailing(a: Attempt, cose: CoseSign1): set<Check> {
    HeaderFailing(cose.protected, cose.unprotected) + PayloadFailing(a.env, cose.payload)
  }

  // The checks on the token alone.
  ghost function TokenFailing(a: Attempt): set<Check> {
    FailsIf(TokenLength, |a.token| > 3072) +
    match CoseOf(a.env.cbor, a.token)
    case Err(_) => {CoseObject}
    case Ok(cose) => CoseFailing(a, cose)
  }

  ghost predicate SourceFails(a: Attempt) {
    || a.source !in AddrSet(GLOBAL_UNICAST) || a.source in AddrSet(TEREDO) || a.source in AddrSet(SIX_TO_FOUR)
    || exists q :: q in a.ineligible && a.source in AddrSet(q)
  }

  ghost predicate SignatureFails(a: Attempt, cose: CoseSign1) {
    !(|cose.signature| == 64 && a.env.strict(a.key, SigStructure(cose.protectedRaw, cose.payload), cose.signature))
  }

  // The checks of the time, the source and the policy against a payload.
  ghost predicate ClaimFails(a: Attempt, now: i64, p: Payload, c: Check) {
    match c
    case WindowOpen => now < p.iat - 300
    case WindowClosed => now > p.exp + 300
    case Membership => a.source !in AddrSet(p.prefix)
    case PolicyPrefix =>
      forall i :: 0 <= i < |a.policy.prefixes| && a.policy.prefixes[i].IsAttestable() ==>
        !(AddrSet(p.prefix) <= AddrSet(a.policy.prefixes[i]))
    case PolicyUnit => a.policy.unit != p.unit
    case _ => false
  }

  // The checks that come after the token's own, as far as there is an object or a payload to
  // make them on.
  ghost predicate LaterFails(a: Attempt, now: i64, c: Check) {
    match c
    case SourceRange => SourceFails(a)
    case Signature => CoseOf(a.env.cbor, a.token).Ok? && SignatureFails(a, CoseOf(a.env.cbor, a.token).value)
    case _ =>
      match CoseOf(a.env.cbor, a.token)
      case Err(_) => false
      case Ok(cose) =>
        ReadPayload(a.env, cose.payload).Ok? && ClaimFails(a, now, ReadPayload(a.env, cose.payload).value, c)
  }

  ghost function LaterFailing(a: Attempt, now: i64): set<Check> {
    set c | LaterFails(a, now, c)
  }

  // Every check the attempt fails.
  ghost function Failing(a: Attempt, now: i64): set<Check> {
    TokenFailing(a) + LaterFailing(a, now)
  }

  ghost predicate Within(failing: set<Check>, low: nat, high: nat) {
    forall c :: c in failing ==> low <= Place(c) <= high
  }

  lemma PayloadFailsInOrder(env: Backend, octets: seq<byte>)
    ensures FailsInOrder(ReadPayload(env, octets), PayloadFailing(env, octets))
    ensures Within(PayloadFailing(env, octets), 6, 14)
  {
    hide Judge, Admissible, RejectTaggedFields, CleanOnWire;
    RejectIsMalformed(env.cbor, octets);
    match env.cbor.read(octets) {
      case Some((Map(entries), n)) =>
        PassesAreCleanOnWire(env.cbor, octets, entries, n);
        SlotsFailInOrder(SlotsOf(FoldedEntries(env.cbor, entries)));
        assert IsFirst({PayloadMap}, PayloadMap);
      case Some((item, _)) =>
        FoldedIsMap(env.cbor, item);
        assert IsFirst({PayloadMap}, PayloadMap);
      case None =>
        assert IsFirst({PayloadMap}, PayloadMap);
    }
  }

  lemma FoldedIsMap(lib: Library, item: Value)
    ensures Folded(lib, item).Map? <==> item.Map?
  {
  }

  lemma RejectIsMalformed(lib: Library, octets: seq<byte>)
    ensures RejectTaggedFields(lib, octets).Ok? || RejectTaggedFields(lib, octets).error == Malformed
  {
  }

  lemma HeadersAreBeforePayload(p: Headers, u: Headers)
    ensures Within(HeaderFailing(p, u), 2, 5)
  {
  }

  // A token fails at the first of its own checks that fails, and is read when none does.
  lemma TokenFailsInOrder(a: Attempt)
    ensures FailsInOrder(ReadClaim(a.env, a.token), TokenFailing(a))
    ensures Within(TokenFailing(a), 0, 14)
  {
    hide CoseOf, CheckHeaders, ReadPayload, HeaderFailing, PayloadFailing;
    CoseReasons(a.env.cbor, a.token);
    match CoseOf(a.env.cbor, a.token) {
      case Err(_) =>
        assert IsFirst(TokenFailing(a), if |a.token| > 3072 then TokenLength else CoseObject);
      case Ok(cose) =>
        HeadersFailInOrder(cose.protected, cose.unprotected);
        HeadersAreBeforePayload(cose.protected, cose.unprotected);
        PayloadFailsInOrder(a.env, cose.payload);
        InSequence(
          CheckHeaders(cose.protected, cose.unprotected), HeaderFailing(cose.protected, cose.unprotected),
          ReadPayload(a.env, cose.payload), PayloadFailing(a.env, cose.payload));
        if |a.token| > 3072 {
          assert IsFirst(TokenFailing(a), TokenLength);
        }
    }
  }

  // The checks on the connection, the policy and the signature, once a token was read.
  function Finish(a: Attempt, now: i64, claim: Claim): Result<Outcome, Reason>
    requires claim.payload.unit <= MAX_PREFIX_LEN
  {
    var u :- CheckConnection(claim, a.source, now, a.ineligible);
    var authorized :- Authorize(u, a.policy);
    VerifySignature(a.env, authorized, a.key)
  }

  lemma SourceMeaning(a: Attempt)
    ensures IsEligibleSource(a.source) && !Excluded(a.ineligible, a.source) <==> !SourceFails(a)
  {
    hide IsEligibleSource, Excluded, SharesTop;
    EligibleSourceMeaning(a.source);
    ExcludedIsMembership(a.ineligible, a.source);
  }

  lemma ClaimMeaning(a: Attempt, now: i64, p: Payload)
    requires Conforming(p)
    ensures OutsideWindow(p, now) ==
      if ClaimFails(a, now, p, WindowOpen) then Some(NotYetValid)
      else if ClaimFails(a, now, p, WindowClosed) then Some(Expired)
      else None
    ensures p.prefix.Contains(a.source) <==> !ClaimFails(a, now, p, Membership)
    ensures Authorizes(a.policy, p.prefix) <==> !ClaimFails(a, now, p, PolicyPrefix)
  {
    hide OutsideWindow, Authorizes, Mask, SharesTop, RawPrefix.IsAttestable;
    WindowIsExact(p, now);
    ContainsIsMembership(p.prefix, a.source);
    AuthorizesIsInclusion(a.policy, p.prefix);
  }

  lemma ClaimParts(env: Backend, token: seq<byte>)
    ensures ReadClaim(env, token).Ok? ==>
      var claim := ReadClaim(env, token).value;
      CoseOf(env.cbor, token) == Ok(claim.cose) && ReadPayload(env, claim.cose.payload) == Ok(claim.payload)
  {
    hide CoseOf, CheckHeaders, ReadPayload;
  }

  lemma LaterAreLater(a: Attempt, now: i64)
    ensures Within(LaterFailing(a, now), 15, 21)
  {
    hide SourceFails, SignatureFails, CoseOf, ReadPayload;
  }

  lemma LaterMeaning(a: Attempt, now: i64, claim: Claim)
    requires ReadClaim(a.env, a.token) == Ok(claim)
    ensures LaterFails(a, now, SourceRange) <==> !IsEligibleSource(a.source) || Excluded(a.ineligible, a.source)
    ensures LaterFails(a, now, Signature) <==> SignatureFails(a, claim.cose)
    ensures forall c :: c != SourceRange && c != Signature ==>
      (LaterFails(a, now, c) <==> ClaimFails(a, now, claim.payload, c))
  {
    hide ReadClaim, CoseOf, ReadPayload, IsEligibleSource, Excluded, SourceFails, SignatureFails, ClaimFails;
    ClaimParts(a.env, a.token);
    SourceMeaning(a);
  }

  // The first of the later checks, in the program's order; the signature when no earlier one fails.
  ghost function FirstLater(a: Attempt, now: i64): Check {
    if LaterFails(a, now, SourceRange) then SourceRange
    else if LaterFails(a, now, WindowOpen) then WindowOpen
    else if LaterFails(a, now, WindowClosed) then WindowClosed
    else if LaterFails(a, now, Membership) then Membership
    else if LaterFails(a, now, PolicyPrefix) then PolicyPrefix
    else if LaterFails(a, now, PolicyUnit) then PolicyUnit
    else Signature
  }

  lemma FinishReports(a: Attempt, now: i64, claim: Claim)
    requires ReadClaim(a.env, a.token) == Ok(claim)
    ensures match Finish(a, now, claim)
      case Ok(_) => FirstLater(a, now) == Signature && !LaterFails(a, now, Signature)
      case Err(r) => LaterFails(a, now, FirstLater(a, now)) && r == ReasonOf(FirstLater(a, now))
  {
    hide ReadClaim, IsEligibleSource, Excluded, OutsideWindow, Mask, Authorizes, SigStructure, Conforming,
      ClaimFails, LaterFails;
    ReadClaimConforms(a.env, a.token);
    LaterMeaning(a, now, claim);
    ClaimMeaning(a, now, claim.payload);
    UnitMeaning(a, now, claim.payload);
  }

  lemma LaterFailInOrder(a: Attempt, now: i64, claim: Claim)
    requires ReadClaim(a.env, a.token) == Ok(claim)
    ensures FailsInOrder(Finish(a, now, claim), LaterFailing(a, now))
  {
    hide ReadClaim, Finish, LaterFails;
    FinishReports(a, now, claim);
    LaterAreLater(a, now);
    var c := FirstLater(a, now);
    assert LaterFails(a, now, c) ==> IsFirst(LaterFailing(a, now), c);
  }

  lemma UnitMeaning(a: Attempt, now: i64, p: Payload)
    ensures ClaimFails(a, now, p, PolicyUnit) <==> a.policy.unit != p.unit
  {
  }

  // The staged verifier reports the first check that fails, whatever else is wrong with the
  // attempt, and accepts exactly when none does.
  lemma VerdictIsFirstFailure(a: Attempt, now: i64)
    ensures FailsInOrder(Verdict(a, now), Failing(a, now))
  {
    hide ReadClaim, CheckConnection, Authorize, VerifySignature, TokenFailing, LaterFailing;
    TokenFailsInOrder(a);
    LaterAreLater(a, now);
    if ReadClaim(a.env, a.token).Ok? {
      var claim := ReadClaim(a.env, a.token).value;
      LaterFailInOrder(a, now, claim);
      InSequence(ReadClaim(a.env, a.token), TokenFailing(a), Finish(a, now, claim), LaterFailing(a, now));
    } else {
      InSequence(ReadClaim(a.env, a.token), TokenFailing(a), Verdict(a, now), LaterFailing(a, now));
    }
  }

  // A fault is a reason some failing check gives.
  ghost predicate Fault(a: Attempt, now: i64, r: Reason) {
    exists c :: c in Failing(a, now) && ReasonOf(c) == r
  }

  // So the reason reported is a fault the attempt has, and acceptance is the absence of faults.
  lemma VerdictNamesAFault(a: Attempt, now: i64)
    ensures Verdict(a, now).Err? ==> Fault(a, now, Verdict(a, now).error)
    ensures Verdict(a, now).Ok? <==> forall r :: !Fault(a, now, r)
  {
    hide Verdict, Failing;
    VerdictIsFirstFailure(a, now);
    if Failing(a, now) != {} {
      var c :| c in Failing(a, now);
      assert Fault(a, now, ReasonOf(c));
    }
  }

  // The signature is looked at last: a bad one is reported only of an attempt that has no other
  // fault, and the policy is consulted before it.
  lemma SignatureIsCheckedLast(a: Attempt, now: i64)
    ensures Verdict(a, now) == Err(BadSignature) ==> forall r :: Fault(a, now, r) <==> r == BadSignature
    ensures Fault(a, now, UnauthorizedPrefix) || Fault(a, now, PolicyUnitMismatch) ==>
      Verdict(a, now).Err? && Verdict(a, now).error != BadSignature
  {
    hide Verdict, Failing;
    VerdictIsFirstFailure(a, now);
  }

  // ---- The signature-only verification ----

  const POLICY_CHECKS: set<Check> := {PolicyPrefix, PolicyUnit}

  // The same attempt under a policy made for its claim.
  function Suited(a: Attempt, claim: Claim): Attempt {
    a.(policy := PolicyRecord([claim.payload.prefix], claim.payload.unit, false, None))
  }

  lemma SuitedPolicyAgrees(a: Attempt, now: i64, claim: Claim)
    requires ReadClaim(a.env, a.token) == Ok(claim)
    ensures LaterFailing(Suited(a, claim), now) == LaterFailing(a, now) - POLICY_CHECKS
  {
    hide ReadClaim, CoseOf, ReadPayload, AddrSet, RawPrefix.IsAttestable, SourceFails, SignatureFails;
    ClaimParts(a.env, a.token);
    ClaimIsAttestable(a.env, a.token);
    var b := Suited(a, claim);
    assert b.policy.prefixes[0] == claim.payload.prefix;
    SuitedSource(a, claim);
    forall c
      ensures LaterFails(b, now, c) <==> LaterFails(a, now, c) && c !in POLICY_CHECKS
    {
    }
  }

  lemma SuitedSource(a: Attempt, claim: Claim)
    ensures SourceFails(Suited(a, claim)) <==> SourceFails(a)
    ensures forall cose :: SignatureFails(Suited(a, claim), cose) <==> SignatureFails(a, cose)
  {
  }

  lemma ClaimIsAttestable(env: Backend, token: seq<byte>)
    requires ReadClaim(env, token).Ok?
    ensures ReadClaim(env, token).value.payload.prefix.IsAttestable()
  {
    hide ReadClaim, RawPrefix.IsAttestable;
    ReadClaimConforms(env, token);
  }

  lemma SuitedVerdict(a: Attempt, now: i64, claim: Claim)
    requires ReadClaim(a.env, a.token) == Ok(claim) && a.ineligible == []
    ensures var low, full := VerifySignatureOnly(a.env, a.token, a.key, a.source, now), Verdict(Suited(a, claim), now);
      (low.Ok? <==> full.Ok?) && (low.Err? ==> full.Err? && low.error == full.error)
  {
    hide ReadClaim, IsEligibleSource, OutsideWindow, Mask, RawPrefix.IsAttestable, SigStructure;
    ClaimIsAttestable(a.env, a.token);
    assert Covers(Suited(a, claim).policy.prefixes[0], claim.payload.prefix);
  }

  // Without a policy the first failing check is reported too, the policy's own two left out.
  lemma SignatureOnlyIsFirstFailure(a: Attempt, now: i64)
    requires a.ineligible == []
    ensures FailsInOrder(VerifySignatureOnly(a.env, a.token, a.key, a.source, now), Failing(a, now) - POLICY_CHECKS)
  {
    hide ReadClaim, CheckConnection, FinishSignature, TokenFailing, LaterFailing, Verdict;
    TokenFailsInOrder(a);
    LaterAreLater(a, now);
    if ReadClaim(a.env, a.token).Ok? {
      var claim := ReadClaim(a.env, a.token).value;
      SuitedVerdict(a, now, claim);
      SuitedPolicyAgrees(a, now, claim);
      VerdictIsFirstFailure(Suited(a, claim), now);
      TokenFailsInOrder(Suited(a, claim));
      assert Failing(Suited(a, claim), now) == Failing(a, now) - POLICY_CHECKS;
    } else {
      var c :| IsFirst(TokenFailing(a), c) && ReasonOf(c) == ReadClaim(a.env, a.token).error;
      assert IsFirst(Failing(a, now) - POLICY_CHECKS, c);
    }
  }
}
