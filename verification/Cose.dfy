// Tagged COSE_Sign1 objects and their header buckets (src/token.rs; RFC 9052, sections 3
// and 4).
module Cose {
  import opened Common
  import opened AssocLists
  import opened Cbor
  import opened Names
  import opened Reasons

  const COSE_SIGN1_TAG: u64 := 18
  const ALG_EDDSA: int := -8
  const ALG_ED25519: int := -19
  const CONTENT_TYPE: string := "application/sworn-token+cbor"

  datatype Label = IntLabel(n: int) | TextLabel(name: string)

  const ALG: Label := IntLabel(1)
  const CRIT: Label := IntLabel(2)
  const TYPE: Label := IntLabel(3)
  const KID: Label := IntLabel(4)

  // One bucket, in wire order.
  type Headers = seq<(Label, Value)>

  function LabelOf(key: Value): Option<Label> {
    match key
    case Integer(n) => Some(IntLabel(n))
    case Text(s) => Some(TextLabel(s))
    case _ => None
  }

  predicate AllLabels(entries: seq<(Value, Value)>) {
    forall i :: 0 <= i < |entries| ==> LabelOf(entries[i].0).Some?
  }

  function Labelled(entries: seq<(Value, Value)>): (r: Headers)
    requires AllLabels(entries)
    ensures |r| == |entries|
  {
    seq(|entries|, i requires 0 <= i < |entries| => (LabelOf(entries[i].0).value, entries[i].1))
  }

  // A header map: labels only, none repeated, kept in wire order.
  function HeadersOf(value: Value): Result<Headers, Reason> {
    match value
    case Map(entries) =>
      if AllLabels(entries) && DistinctKeys(Labelled(entries)) then Ok(Labelled(entries)) else Err(Malformed)
    case _ => Err(Malformed)
  }

  method ReadHeaders(value: Value) returns (r: Result<Headers, Reason>)
    ensures r == HeadersOf(value)
    ensures r.Ok? ==> DistinctKeys(r.value)
  {
    if !value.Map? {
      return Err(Malformed);
    }
    var entries := value.entries;
    var out: Headers := [];
    var i := 0;
    while i < |entries|
      invariant 0 <= i <= |entries|
      invariant AllLabels(entries[..i]) && out == Labelled(entries[..i])
      invariant DistinctKeys(out)
    {
      var name := LabelOf(entries[i].0);
      if name.None? {
        return Err(Malformed);
      }
      if HasKey(out, name.value) {
        ghost var j :| 0 <= j < |out| && out[j].0 == name.value;
        assert AllLabels(entries) ==> Labelled(entries)[j].0 == Labelled(entries)[i].0;
        return Err(Malformed);
      }
      out := out + [(name.value, entries[i].1)];
      i := i + 1;
    }
    assert entries[..i] == entries;
    r := Ok(out);
  }

  datatype CoseSign1 = CoseSign1(
    protectedRaw: Octets,
    protected: Headers,
    unprotected: Headers,
    payload: Octets,
    signature: Octets)

  // Decodes an item that must take up all the octets.
  function DecodeCbor(lib: Library, octets: seq<byte>): Result<Value, Reason> {
    match lib.read(octets)
    case Some((item, n)) => if n == |octets| then Ok(Folded(lib, item)) else Err(Malformed)
    case None => Err(Malformed)
  }

  // A zero-length protected bucket is an empty map.
  function ProtectedOf(lib: Library, raw: Octets): Result<Headers, Reason> {
    if raw == [] then Ok([])
    else
      var value :- DecodeCbor(lib, raw);
      HeadersOf(value)
  }

  // Tag 18 around [protected bstr, unprotected map, payload bstr, signature bstr].
  function CoseOf(lib: Library, token: seq<byte>): Result<CoseSign1, Reason> {
    match DecodeCbor(lib, token)
    case Ok(Tag(18, Array(items))) =>
      if |items| != 4 || !items[0].Bytes? || !items[2].Bytes? || !items[3].Bytes? then Err(Malformed)
      else
        var unprotected :- HeadersOf(items[1]);
        var protected :- ProtectedOf(lib, items[0].octets);
        Ok(CoseSign1(items[0].octets, protected, unprotected, items[2].octets, items[3].octets))
    case _ => Err(Malformed)
  }

  function KeyOf(name: Label): Value {
    match name
    case IntLabel(n) => Integer(n)
    case TextLabel(s) => Text(s)
  }

  function EncodeHeaders(headers: Headers): Value {
    Map(seq(|headers|, i requires 0 <= i < |headers| => (KeyOf(headers[i].0), headers[i].1)))
  }

  // A bucket reads exactly as the distinct labels and values its map carries, in order.
  lemma HeadersRoundTrip(value: Value, headers: Headers)
    ensures HeadersOf(value) == Ok(headers) <==> value == EncodeHeaders(headers) && DistinctKeys(headers)
  {
    hide DistinctKeys;
    if value == EncodeHeaders(headers) {
      assert Labelled(value.entries) == headers;
    }
    if HeadersOf(value) == Ok(headers) {
      var entries := value.entries;
      forall i | 0 <= i < |entries|
        ensures entries[i] == (KeyOf(headers[i].0), headers[i].1)
      {
      }
      assert EncodeHeaders(headers).entries == entries;
    }
  }

  // An object reads exactly when it is the tagged array of its four parts, each in its place.
  lemma CoseShape(lib: Library, token: seq<byte>, cose: CoseSign1)
    ensures CoseOf(lib, token) == Ok(cose) <==>
      && DistinctKeys(cose.unprotected)
      && ProtectedOf(lib, cose.protectedRaw) == Ok(cose.protected)
      && DecodeCbor(lib, token) == Ok(Tag(18, Array([
           Bytes(cose.protectedRaw), EncodeHeaders(cose.unprotected), Bytes(cose.payload), Bytes(cose.signature)])))
  {
    hide DecodeCbor, ProtectedOf, HeadersOf, EncodeHeaders, DistinctKeys;
    if DecodeCbor(lib, token).Ok? && DecodeCbor(lib, token).value.Tag? && DecodeCbor(lib, token).value.inner.Array? {
      var items := DecodeCbor(lib, token).value.inner.items;
      if |items| == 4 {
        assert items == [items[0], items[1], items[2], items[3]];
        HeadersRoundTrip(items[1], cose.unprotected);
      }
    }
  }

  // The octets are one item and nothing else, and it folds to `v`.
  ghost predicate Holds(lib: Library, octets: seq<byte>, v: Value) {
    exists item :: lib.read(octets) == Some((item, |octets|)) && Folded(lib, item) == v
  }

  lemma DecodedIsHeld(lib: Library, octets: seq<byte>, v: Value)
    ensures DecodeCbor(lib, octets) == Ok(v) <==> Holds(lib, octets, v)
  {
    hide Folded;
  }

  // The same seen from the octets: the token holds tag 18 around its four parts, the protected
  // part is empty or holds the protected bucket, and no label repeats in either bucket.
  lemma CoseOnWire(lib: Library, token: seq<byte>, cose: CoseSign1)
    ensures CoseOf(lib, token) == Ok(cose) <==>
      && Holds(lib, token, Tag(18, Array([
           Bytes(cose.protectedRaw), EncodeHeaders(cose.unprotected), Bytes(cose.payload), Bytes(cose.signature)])))
      && (if cose.protectedRaw == [] then cose.protected == []
          else Holds(lib, cose.protectedRaw, EncodeHeaders(cose.protected)))
      && DistinctKeys(cose.protected) && DistinctKeys(cose.unprotected)
  {
    hide CoseOf, DecodeCbor, Holds, HeadersOf, EncodeHeaders, DistinctKeys;
    CoseShape(lib, token, cose);
    DecodedIsHeld(lib, token, Tag(18, Array([
      Bytes(cose.protectedRaw), EncodeHeaders(cose.unprotected), Bytes(cose.payload), Bytes(cose.signature)])));
    DecodedIsHeld(lib, cose.protectedRaw, EncodeHeaders(cose.protected));
    NoneAreDistinct();
    if DecodeCbor(lib, cose.protectedRaw).Ok? {
      HeadersRoundTrip(DecodeCbor(lib, cose.protectedRaw).value, cose.protected);
    }
  }

  lemma NoneAreDistinct()
    ensures var none: Headers := []; DistinctKeys(none)
  {
  }

  method TakeBytes(value: Option<Value>) returns (r: Result<Octets, Reason>)
    ensures r == if value.Some? && value.value.Bytes? then Ok(value.value.octets) else Err(Malformed)
  {
    match value {
      case Some(Bytes(b)) => r := Ok(b);
      case _ => r := Err(Malformed);
    }
  }

  // The iterator over the four array elements.
  class Items {
    const items: seq<Value>
    var next: nat

    constructor (items: seq<Value>)
      ensures this.items == items && next == 0
    {
      this.items := items;
      next := 0;
    }

    method Next() returns (r: Option<Value>)
      modifies this`next
      ensures old(next) < |items| ==> r == Some(items[old(next)]) && next == old(next) + 1
      ensures old(next) >= |items| ==> r == None && next == old(next)
    {
      if next < |items| {
        r := Some(items[next]);
        next := next + 1;
      } else {
        r := None;
      }
    }
  }

  method ParseCose(lib: Library, token: seq<byte>) returns (r: Result<CoseSign1, Reason>)
    ensures r == CoseOf(lib, token)
  {
    var decoded := lib.read(token);
    if decoded.None? {
      return Err(Malformed);
    }
    var (item, position) := decoded.value;
    if position != |token| {
      return Err(Malformed);
    }
    var value := Folded(lib, item);
    if !(value.Tag? && value.tag == COSE_SIGN1_TAG && value.inner.Array? && |value.inner.items| == 4) {
      return Err(Malformed);
    }
    var items := new Items(value.inner.items);
    var element := items.Next();
    var protectedRaw :- TakeBytes(element);
    element := items.Next();
    var unprotected :- ReadHeaders(element.value);
    element := items.Next();
    var payload :- TakeBytes(element);
    element := items.Next();
    var signature :- TakeBytes(element);
    var protected: Headers := [];
    if protectedRaw != [] {
      var bucket :- DecodeCbor(lib, protectedRaw);
      protected :- ReadHeaders(bucket);
    }
    r := Ok(CoseSign1(protectedRaw, protected, unprotected, payload, signature));
  }

  // The octets the signature is over: of all octets that read as the parts it binds, the
  // shortest, and the only ones so short.
  method ToBeSigned(cose: CoseSign1) returns (out: seq<byte>)
    ensures ReadSigStructure(out) == Some((AsciiOctets("Signature1"), cose.protectedRaw, [], cose.payload))
    ensures forall s :: ReadSigStructure(s) == ReadSigStructure(out) ==> |out| <= |s| && (|out| == |s| ==> s == out)
    ensures out == SigStructure(cose.protectedRaw, cose.payload)
  {
    var sigStructure := Array([Text(CONTEXT), Bytes(cose.protectedRaw), Bytes([]), Bytes(cose.payload)]);
    assert sigStructure == SigValue(cose.protectedRaw, cose.payload);
    hide Encoded, ReadSigStructure, AsciiOctets;
    out := Encoded(sigStructure);
    SigStructureReadsBack(cose.protectedRaw, cose.payload);
    forall s | ReadSigStructure(s) == ReadSigStructure(out)
      ensures |out| <= |s| && (|out| == |s| ==> s == out)
    {
      SigStructureIsShortest(s, cose.protectedRaw, cose.payload);
    }
  }

  // ---- The header rules ----

  predicate NamesEd25519(v: Option<Value>) {
    v == Some(Integer(ALG_EDDSA)) || v == Some(Integer(ALG_ED25519))
  }

  predicate SharesLabel(u: Headers, p: Headers) {
    exists i :: 0 <= i < |u| && HasKey(p, u[i].0)
  }

  // The header checks in the program's order; the selector on success.
  function CheckHeaders(p: Headers, u: Headers): Result<string, Reason> {
    if HasKey(p, CRIT) || HasKey(u, CRIT) then Err(HeaderConfusion)
    else if HasKey(u, ALG) || HasKey(u, TYPE) || HasKey(u, KID) then Err(HeaderConfusion)
    else if SharesLabel(u, p) then Err(HeaderConfusion)
    else if !NamesEd25519(Get(p, ALG)) then Err(HeaderConfusion)
    else if Get(p, TYPE) != Some(Text(CONTENT_TYPE)) then Err(BadContentType)
    else
      var kid: Option<Value> := Get(p, KID);
      match kid
      case Some(Bytes(kid)) => OkOr(SelectorFromKid(kid), BadKid)
      case _ => Err(BadKid)
  }

  // The unprotected bucket only ever takes acceptance away: any label of 1..4 or of the
  // protected bucket in it is confusion, and otherwise it does not matter.
  lemma UnprotectedOnlyRejects(p: Headers, u: Headers)
    ensures CheckHeaders(p, u) ==
      if forall i :: 0 <= i < |u| ==>
          u[i].0 !in {IntLabel(1), IntLabel(2), IntLabel(3), IntLabel(4)} && !HasKey(p, u[i].0)
      then CheckHeaders(p, []) else Err(HeaderConfusion)
  {
    if HasKey(u, ALG) || HasKey(u, CRIT) || HasKey(u, TYPE) || HasKey(u, KID) || SharesLabel(u, p) {
      assert CheckHeaders(p, u) == Err(HeaderConfusion);
    }
  }

  // Accepted buckets merge into one single-valued map without `crit`, in either order, and
  // the algorithm, content type and key identifier come from the protected one.
  lemma AcceptedBucketsMerge(p: Headers, u: Headers)
    requires DistinctKeys(p) && DistinctKeys(u) && CheckHeaders(p, u).Ok?
    ensures DistinctKeys(p + u) && !HasKey(p + u, IntLabel(2))
    ensures forall name :: Get(p + u, name) == Get(u + p, name)
    ensures forall n :: n in {1, 3, 4} ==>
      Get(p + u, IntLabel(n)) == Get(p, IntLabel(n)) && Get(u, IntLabel(n)).None?
  {
    forall i, j | 0 <= i < |p| && 0 <= j < |u|
      ensures p[i].0 != u[j].0
    {
      assert !HasKey(p, u[j].0);
    }
    assert !HasKey(p + u, CRIT) by {
      forall i | 0 <= i < |p + u|
        ensures (p + u)[i].0 != CRIT
      {
        assert i < |p| ==> (p + u)[i] == p[i];
        assert i >= |p| ==> (p + u)[i] == u[i - |p|];
      }
    }
    forall name
      ensures Get(p + u, name) == Get(u + p, name)
      ensures name in {IntLabel(1), IntLabel(3), IntLabel(4)} ==> Get(p + u, name) == Get(p, name) && Get(u, name).None?
    {
      GetAppend(p, u, name);
      GetAppend(u, p, name);
      GetFinds(p, name);
      GetFinds(u, name);
    }
  }

  lemma ReorderKeepsHasKey(s: Headers, t: Headers, name: Label)
    requires multiset(s) == multiset(t)
    ensures HasKey(s, name) <==> HasKey(t, name)
  {
    ReorderKeepsMembers(s, t);
    if HasKey(s, name) {
      var i :| 0 <= i < |s| && s[i].0 == name;
      assert s[i] in t;
    }
    if HasKey(t, name) {
      var i :| 0 <= i < |t| && t[i].0 == name;
      assert t[i] in s;
    }
  }

  // Both buckets of any object that parses have distinct labels, so the merge applies.
  lemma BucketsAreDistinct(lib: Library, token: seq<byte>)
    ensures CoseOf(lib, token).Ok? ==>
      DistinctKeys(CoseOf(lib, token).value.protected) && DistinctKeys(CoseOf(lib, token).value.unprotected)
  {
    hide DecodeCbor, HeadersOf;
    if CoseOf(lib, token).Ok? {
      var cose := CoseOf(lib, token).value;
      CoseShape(lib, token, cose);
      if cose.protectedRaw != [] {
        HeadersRoundTrip(DecodeCbor(lib, cose.protectedRaw).value, cose.protected);
      }
    }
  }

  // Reordering either bucket changes nothing, the reported reason included.
  lemma HeadersIgnoreOrder(p: Headers, p': Headers, u: Headers, u': Headers)
    requires DistinctKeys(p) && multiset(p) == multiset(p') && multiset(u) == multiset(u')
    ensures CheckHeaders(p, u) == CheckHeaders(p', u')
  {
    forall name
      ensures HasKey(p, name) <==> HasKey(p', name)
      ensures HasKey(u, name) <==> HasKey(u', name)
      ensures Get(p, name) == Get(p', name)
    {
      ReorderKeepsHasKey(p, p', name);
      ReorderKeepsHasKey(u, u', name);
      ReorderKeepsGet(p, p', name);
    }
    ReorderKeepsMembers(u, u');
    assert SharesLabel(u, p) <==> SharesLabel(u', p') by {
      if SharesLabel(u, p) {
        var i :| 0 <= i < |u| && HasKey(p, u[i].0);
        assert u[i] in u';
      }
      if SharesLabel(u', p') {
        var i :| 0 <= i < |u'| && HasKey(p', u'[i].0);
        assert u'[i] in u;
      }
    }
  }

  // ---- What is refused ----

  // The header checks that fail, each stated on its own.
  ghost predicate HeaderFails(p: Headers, u: Headers, c: Check) {
    match c
    case Buckets =>
      || HasKey(p, IntLabel(2))
      || (exists n :: 1 <= n <= 4 && HasKey(u, IntLabel(n)))
      || (exists name :: HasKey(u, name) && HasKey(p, name))
    case Algorithm => Get(p, IntLabel(1)) != Some(Integer(-8)) && Get(p, IntLabel(1)) != Some(Integer(-19))
    case ContentType => Get(p, IntLabel(3)) != Some(Text("application/sworn-token+cbor"))
    case KeyIdentifier => !exists kid: Octets :: Get(p, IntLabel(4)) == Some(Bytes(kid)) && NamesSelector(kid)
    case _ => false
  }

  ghost function HeaderFailing(p: Headers, u: Headers): set<Check> {
    set c | HeaderFails(p, u, c)
  }

  // A key identifier that can be put in front of a domain as one more label.
  predicate NamesSelector(kid: Octets) {
    IsOperatorDomain(AsText(kid)) && '.' !in AsText(kid)
  }

  lemma HeadersFailInOrder(p: Headers, u: Headers)
    ensures FailsInOrder(CheckHeaders(p, u), HeaderFailing(p, u))
  {
    hide SelectorFromKid, NamesSelector, IsOperatorDomain, SharesLabel, Get, HasKey;
    SharedLabel(p, u);
    KidIsSelector(p);
    assert (exists n :: 1 <= n <= 4 && HasKey(u, IntLabel(n))) <==>
        HasKey(u, IntLabel(1)) || HasKey(u, IntLabel(2)) || HasKey(u, IntLabel(3)) || HasKey(u, IntLabel(4));
    var failing := HeaderFailing(p, u);
    if CheckHeaders(p, u).Err? {
      var c :=
        if HeaderFails(p, u, Buckets) then Buckets
        else if HeaderFails(p, u, Algorithm) then Algorithm
        else if HeaderFails(p, u, ContentType) then ContentType
        else KeyIdentifier;
      assert IsFirst(failing, c);
    }
  }

  lemma SharedLabel(p: Headers, u: Headers)
    ensures SharesLabel(u, p) <==> exists name :: HasKey(u, name) && HasKey(p, name)
  {
    if SharesLabel(u, p) {
      var i :| 0 <= i < |u| && HasKey(p, u[i].0);
      assert HasKey(u, u[i].0);
    }
  }

  lemma KidIsSelector(p: Headers)
    ensures (exists kid: Octets :: Get(p, KID) == Some(Bytes(kid)) && NamesSelector(kid)) <==>
      Get(p, KID).Some? && Get(p, KID).value.Bytes? && SelectorFromKid(Get(p, KID).value.octets).Some?
  {
    hide SelectorFromKid, IsOperatorDomain, Get;
    if Get(p, KID).Some? && Get(p, KID).value.Bytes? {
      SelectorIsOneLabelDomain(Get(p, KID).value.octets);
    }
  }
}
