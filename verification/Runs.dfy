// Verdicts over whole runs of the staged verifier on one token, key, policy, source and list
// of exclusions while the clock moves forward.
module Runs {
  import opened Common
  import opened Address
  import opened Guarantees
  import opened Payloads
  import opened Policies
  import opened Reasons
  import opened Verifier

  // Everything about an attempt but the time.
  datatype Attempt = Attempt(
    env: Backend,
    token: seq<byte>,
    key: Key,
    policy: PolicyRecord,
    source: Addr,
    ineligible: seq<Ipv6Prefix>)

  function Verdict(a: Attempt, now: i64): Result<Outcome, Reason> {
    VerifyExcluding(a.env, a.token, a.key, a.policy, a.source, now, a.ineligible)
  }

  // The token reads and the source is eligible, so the clock is consulted.
  predicate ReachesClock(a: Attempt) {
    ReadClaim(a.env, a.token).Ok? && IsEligibleSource(a.source) && !Excluded(a.ineligible, a.source)
  }

  predicate InWindow(p: Payload, now: i64) {
    p.iat - 300 <= now <= p.exp + 300
  }

  // No 64-bit time makes the 128-bit sums wrap, so the window test is exact over the unbounded
  // integers.
  lemma WindowIsExact(p: Payload, now: i64)
    ensures Wrapped(p.iat - SKEW_SECS) == p.iat - 300 && Wrapped(p.exp + SKEW_SECS) == p.exp + 300
    ensures OutsideWindow(p, now) == None <==> InWindow(p, now)
    ensures OutsideWindow(p, now) == Some(NotYetValid) <==> now < p.iat - 300
    ensures p.iat <= p.exp ==> (OutsideWindow(p, now) == Some(Expired) <==> now > p.exp + 300)
  {
    hide Wrapped;
    InRangeIsNotWrapped(p.iat - SKEW_SECS);
    InRangeIsNotWrapped(p.exp + SKEW_SECS);
  }

  predicate IsTimeReason(r: Result<Outcome, Reason>) {
    r == Err(NotYetValid) || r == Err(Expired)
  }

  // Before the clock is consulted, and inside the window, the time has no say.
  lemma VerdictAtTime(a: Attempt, now: i64, later: i64)
    ensures !ReachesClock(a) ==> Verdict(a, now) == Verdict(a, later) && !IsTimeReason(Verdict(a, now))
    ensures ReachesClock(a) ==>
      var p := ReadClaim(a.env, a.token).value.payload;
      && (Verdict(a, now) == Err(NotYetValid) <==> now < p.iat - 300)
      && (Verdict(a, now) == Err(Expired) <==> now > p.exp + 300)
      && (InWindow(p, now) && InWindow(p, later) ==> Verdict(a, now) == Verdict(a, later))
  {
    hide ReadClaim, IsEligibleSource, Excluded, OutsideWindow, Mask, Authorizes;
    ReadClaimReasons(a.env, a.token);
    if ReadClaim(a.env, a.token).Ok? {
      ReadClaimConforms(a.env, a.token);
      WindowIsExact(ReadClaim(a.env, a.token).value.payload, now);
      WindowIsExact(ReadClaim(a.env, a.token).value.payload, later);
      PositiveLifetime(a.env, a.token);
    }
  }

  lemma PositiveLifetime(env: Backend, token: seq<byte>)
    ensures ReadClaim(env, token).Ok? ==>
      var p := ReadClaim(env, token).value.payload;
      p.iat < p.exp <= p.iat + 86_400
  {
    hide ReadClaim, RawPrefix.IsAttestable;
    ReadClaimConforms(env, token);
  }

  ghost predicate Nondecreasing(clock: seq<i64>) {
    forall i, j :: 0 <= i < j < |clock| ==> clock[i] <= clock[j]
  }

  // The phases of a run: not yet valid, then one settled verdict, then expired.
  ghost predicate Phases(a: Attempt, clock: seq<i64>, opens: nat, closes: nat, settled: Result<Outcome, Reason>) {
    && opens <= closes <= |clock|
    && !IsTimeReason(settled)
    && forall i :: 0 <= i < |clock| ==>
         Verdict(a, clock[i]) ==
           if i < opens then Err(NotYetValid) else if i < closes then settled else Err(Expired)
  }

  lemma FirstAbove(clock: seq<i64>, bound: int) returns (n: nat)
    requires Nondecreasing(clock)
    ensures n <= |clock| && (n < |clock| ==> clock[n] > bound)
    ensures forall i :: 0 <= i < |clock| ==> (i < n <==> clock[i] <= bound)
  {
    n := 0;
    while n < |clock| && clock[n] <= bound
      invariant n <= |clock|
      invariant forall i :: 0 <= i < n ==> clock[i] <= bound
    {
      n := n + 1;
    }
  }

  // Every run has those phases; a run that fails before the clock is one settled verdict.
  lemma RunHasPhases(a: Attempt, clock: seq<i64>) returns (opens: nat, closes: nat, settled: Result<Outcome, Reason>)
    requires Nondecreasing(clock)
    ensures Phases(a, clock, opens, closes, settled)
    ensures !ReachesClock(a) ==> opens == 0 && closes == |clock|
  {
    hide Verdict, ReachesClock, ReadClaim;
    if !ReachesClock(a) {
      opens, closes := 0, |clock|;
      settled := Verdict(a, 0);
      VerdictAtTime(a, 0, 0);
      forall i | 0 <= i < |clock|
        ensures Verdict(a, clock[i]) == settled
      {
        VerdictAtTime(a, 0, clock[i]);
      }
    } else {
      ReachingMeansRead(a);
      PositiveLifetime(a.env, a.token);
      var p := ReadClaim(a.env, a.token).value.payload;
      opens := FirstAbove(clock, p.iat - 301);
      closes := FirstAbove(clock, p.exp + 300);
      if opens < closes {
        settled := Verdict(a, clock[opens]);
        VerdictAtTime(a, clock[opens], clock[opens]);
      } else {
        settled := Err(OffPrefix);
      }
      forall i | 0 <= i < |clock|
        ensures Verdict(a, clock[i]) ==
          if i < opens then Err(NotYetValid) else if i < closes then settled else Err(Expired)
      {
        VerdictAtTime(a, clock[i], if opens < closes then clock[opens] else 0);
      }
    }
  }

  lemma ReachingMeansRead(a: Attempt)
    requires ReachesClock(a)
    ensures ReadClaim(a.env, a.token).Ok?
  {
  }

  // So once expired, a run never accepts again.
  lemma NeverAcceptedAfterExpiry(a: Attempt, clock: seq<i64>, i: nat, j: nat)
    requires Nondecreasing(clock) && i < j < |clock| && Verdict(a, clock[i]) == Err(Expired)
    ensures Verdict(a, clock[j]) == Err(Expired)
  {
    hide Verdict;
    var opens, closes, settled := RunHasPhases(a, clock);
  }

  // Accepted at one time: accepted, with the same outcome, at exactly the times in the window
  // around the signed validity; so two acceptances are at most 87000 seconds apart.
  lemma AcceptanceWindow(a: Attempt, t: i64, t': i64)
    requires Verdict(a, t).Ok?
    ensures ReadClaim(a.env, a.token).Ok?
    ensures Verdict(a, t') == Verdict(a, t) <==> InWindow(ReadClaim(a.env, a.token).value.payload, t')
    ensures Verdict(a, t').Ok? ==> Verdict(a, t') == Verdict(a, t) && -87_000 <= t - t' <= 87_000
  {
    hide ReadClaim, IsEligibleSource, Excluded, OutsideWindow, Mask, Authorizes;
    assert ReadClaim(a.env, a.token).Ok? && ReachesClock(a);
    VerdictAtTime(a, t, t');
    VerdictAtTime(a, t', t);
    PositiveLifetime(a.env, a.token);
  }
}
