// The staged verifier (src/token.rs): parse, authorize, check the signature.
module Verifier {
  import opened Common
  import opened Address
  import opened Cbor
  import opened Cose
  import opened Payloads
  import opened Policies
  import opened Reasons
  import opened TaggedFields

  const MAX_TOKEN_LEN: nat := 3072
  const OBSERVED_UNIT_LEN: u8 := 64
  const SKEW_SECS: i128 := 300

  // A public key, by its octets.
  type Key = seq<byte>

  // What the verifier is built on: the CBOR library and strict Ed25519 verification of a
  // 64-octet signature over a message.
  datatype Backend = Backend(cbor: Library, strict: (Key, seq<byte>, seq<byte>) -> bool)

  predicate KeyVerifies(env: Backend, key: Key, message: seq<byte>, signature: seq<byte>) {
    |signature| == 64 && env.strict(key, message, signature)
  }

  datatype Unverified = Unverified(
    payload: Payload,
    selector: string,
    unit: Ipv6Prefix,
    observedUnit: Ipv6Prefix,
    toBeSigned: seq<byte>,
    signature: seq<byte>)

  datatype Authorized = Authorized(token: Unverified, testing: bool, rua: Option<string>)

  datatype Verified = Verified(
    operator: string,
    unit: Ipv6Prefix,
    observedUnit: Ipv6Prefix,
    prefix: Ipv6Prefix,
    selector: string,
    role: Role,
    testing: bool,
    rua: Option<string>)

  datatype Outcome = Pass(verified: Verified) | ObserveOnly(verified: Verified)

  // ---- What a token says, before anything about the connection ----

  // The payload octets, through both passes.
  function ReadPayload(env: Backend, octets: seq<byte>): (r: Result<Payload, Reason>)
    ensures r.Ok? ==> r.value.unit <= MAX_PREFIX_LEN
  {
    var value :- DecodeCbor(env.cbor, octets);
    var _ :- RejectTaggedFields(env.cbor, octets);
    PayloadOf(value)
  }

  datatype Claim = Claim(cose: CoseSign1, selector: string, payload: Payload)

  function ReadClaim(env: Backend, token: seq<byte>): (r: Result<Claim, Reason>)
    ensures r.Ok? ==> r.value.payload.unit <= MAX_PREFIX_LEN
  {
    if |token| > MAX_TOKEN_LEN then Err(Malformed)
    else
      var cose :- CoseOf(env.cbor, token);
      var selector :- CheckHeaders(cose.protected, cose.unprotected);
      var payload :- ReadPayload(env, cose.payload);
      Ok(Claim(cose, selector, payload))
  }

  // ---- The checks against the connection. A payload that was read has a unit of at most 64,
  // so the unit prefix always exists. ----

  predicate Excluded(ineligible: seq<Ipv6Prefix>, source: Addr) {
    exists i :: 0 <= i < |ineligible| && ineligible[i].Contains(source)
  }

  // None inside the validity window, skew included; in wrapping 128-bit arithmetic.
  function OutsideWindow(payload: Payload, now: i64): Option<Reason> {
    if now < Wrapped(payload.iat - SKEW_SECS) then Some(NotYetValid)
    else if now > Wrapped(payload.exp + SKEW_SECS) then Some(Expired)
    else None
  }

  function UnitAround(source: Addr, len: u8): Ipv6Prefix
    requires len <= 128
  {
    Prefix(Mask(source, len), len)
  }

  function CheckConnection(claim: Claim, source: Addr, now: i64, ineligible: seq<Ipv6Prefix>)
    : Result<Unverified, Reason>
    requires claim.payload.unit <= MAX_PREFIX_LEN
  {
    if !IsEligibleSource(source) || Excluded(ineligible, source) then Err(IneligibleSource)
    else
      match OutsideWindow(claim.payload, now)
      case Some(reason) => Err(reason)
      case None =>
        if !claim.payload.prefix.Contains(source) then Err(OffPrefix)
        else
          Ok(Unverified(
            claim.payload,
            claim.selector,
            UnitAround(source, claim.payload.unit),
            UnitAround(source, OBSERVED_UNIT_LEN),
            SigStructure(claim.cose.protectedRaw, claim.cose.payload),
            claim.cose.signature))
  }

  function ParseExcluding(env: Backend, token: seq<byte>, source: Addr, now: i64, ineligible: seq<Ipv6Prefix>)
    : Result<Unverified, Reason>
  {
    var claim :- ReadClaim(env, token);
    CheckConnection(claim, source, now, ineligible)
  }

  function Parse(env: Backend, token: seq<byte>, source: Addr, now: i64): Result<Unverified, Reason> {
    ParseExcluding(env, token, source, now, [])
  }

  // ---- Authorization and signature ----

  function Authorize(u: Unverified, policy: PolicyRecord): Result<Authorized, Reason> {
    if !Authorizes(policy, u.payload.prefix) then Err(UnauthorizedPrefix)
    else if policy.unit != u.payload.unit then Err(PolicyUnitMismatch)
    else Ok(Authorized(u, policy.testing, policy.rua))
  }

  function FinishSignature(env: Backend, u: Unverified, key: Key, testing: bool, rua: Option<string>)
    : Result<Verified, Reason>
  {
    if !KeyVerifies(env, key, u.toBeSigned, u.signature) then Err(BadSignature)
    else
      Ok(Verified(
        u.payload.operator, u.unit, u.observedUnit, u.payload.prefix, u.selector, u.payload.role, testing, rua))
  }

  function VerifySignature(env: Backend, a: Authorized, key: Key): Result<Outcome, Reason> {
    var verified :- FinishSignature(env, a.token, key, a.testing, a.rua);
    Ok(if a.testing then ObserveOnly(verified) else Pass(verified))
  }

  function VerifySignatureOnly(env: Backend, token: seq<byte>, key: Key, source: Addr, now: i64)
    : Result<Verified, Reason>
  {
    var u :- Parse(env, token, source, now);
    FinishSignature(env, u, key, false, None)
  }

  // The staged flow of a receiver with exclusions of its own: parse, authorize, then the key.
  function VerifyExcluding(env: Backend, token: seq<byte>, key: Key, policy: PolicyRecord, source: Addr, now: i64,
                           ineligible: seq<Ipv6Prefix>)
    : Result<Outcome, Reason>
  {
    var u :- ParseExcluding(env, token, source, now, ineligible);
    var a :- Authorize(u, policy);
    VerifySignature(env, a, key)
  }

  // The one-shot form knows the protocol's own ranges only.
  function Verify(env: Backend, token: seq<byte>, key: Key, policy: PolicyRecord, source: Addr, now: i64)
    : Result<Outcome, Reason>
  {
    VerifyExcluding(env, token, key, policy, source, now, [])
  }
}
