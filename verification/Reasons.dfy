// Why a token fails verification (src/reason.rs), and the checks that find out, in the order
// the program makes them.
module Reasons {
  import opened Common

  datatype Reason =
    | OffPrefix
    | IneligibleSource
    | Expired
    | NotYetValid
    | BadSignature
    | LifetimeTooLong
    | BadUnit
    | BadPrefix
    | BadValidity
    | UnauthorizedPrefix
    | PolicyUnitMismatch
    | BadContentType
    | BadKid
    | HeaderConfusion
    | BadRole
    | Malformed

  datatype Check =
    | TokenLength
    | CoseObject
    | Buckets
    | Algorithm
    | ContentType
    | KeyIdentifier
    | PayloadMap
    | RequiredKeys
    | OperatorName
    | KnownRole
    | PrefixForm
    | PrefixRange
    | ValidityOrder
    | Lifetime
    | UnitRange
    | SourceRange
    | WindowOpen
    | WindowClosed
    | Membership
    | PolicyPrefix
    | PolicyUnit
    | Signature

  // Where each check stands in the program.
  function Place(c: Check): nat {
    match c
    case TokenLength => 0
    case CoseObject => 1
    case Buckets => 2
    case Algorithm => 3
    case ContentType => 4
    case KeyIdentifier => 5
    case PayloadMap => 6
    case RequiredKeys => 7
    case OperatorName => 8
    case KnownRole => 9
    case PrefixForm => 10
    case PrefixRange => 11
    case ValidityOrder => 12
    case Lifetime => 13
    case UnitRange => 14
    case SourceRange => 15
    case WindowOpen => 16
    case WindowClosed => 17
    case Membership => 18
    case PolicyPrefix => 19
    case PolicyUnit => 20
    case Signature => 21
  }

  function ReasonOf(c: Check): Reason {
    match c
    case Buckets => HeaderConfusion
    case Algorithm => HeaderConfusion
    case ContentType => BadContentType
    case KeyIdentifier => BadKid
    case KnownRole => BadRole
    case PrefixRange => BadPrefix
    case ValidityOrder => BadValidity
    case Lifetime => LifetimeTooLong
    case UnitRange => BadUnit
    case SourceRange => IneligibleSource
    case WindowOpen => NotYetValid
    case WindowClosed => Expired
    case Membership => OffPrefix
    case PolicyPrefix => UnauthorizedPrefix
    case PolicyUnit => PolicyUnitMismatch
    case Signature => BadSignature
    case _ => Malformed
  }

  function FailsIf(c: Check, fails: bool): set<Check> {
    if fails then {c} else {}
  }

  ghost predicate IsFirst(failing: set<Check>, c: Check) {
    c in failing && forall d :: d in failing ==> Place(c) <= Place(d)
  }

  // A success has no failing check; a failure gives the reason of the first one.
  ghost predicate FailsInOrder<T>(r: Result<T, Reason>, failing: set<Check>) {
    match r
    case Ok(_) => failing == {}
    case Err(reason) => exists c :: IsFirst(failing, c) && reason == ReasonOf(c)
  }

  // There is never more than one first, so the failing checks determine the reason.
  lemma FirstIsUnique(failing: set<Check>, c: Check, d: Check)
    requires IsFirst(failing, c) && IsFirst(failing, d)
    ensures c == d
  {
  }

  ghost predicate AllBefore(early: set<Check>, late: set<Check>) {
    forall c, d :: c in early && d in late ==> Place(c) < Place(d)
  }

  // One stage after another fails in the order of both.
  lemma InSequence<T, U>(r: Result<T, Reason>, early: set<Check>, next: Result<U, Reason>, late: set<Check>)
    requires FailsInOrder(r, early) && (r.Ok? ==> FailsInOrder(next, late)) && AllBefore(early, late)
    ensures FailsInOrder(if r.Ok? then next else r.PropagateFailure(), early + late)
  {
    if r.Ok? {
      assert early + late == late;
    } else {
      var c :| IsFirst(early, c) && r.error == ReasonOf(c);
      assert IsFirst(early + late, c);
    }
  }
}
