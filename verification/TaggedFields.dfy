// The second pass over the payload octets (`reject_tagged_fields` in src/payload.rs), and
// what the two passes establish together.
module TaggedFields {
  import opened Common
  import opened AssocLists
  import opened Cbor
  import opened Payloads
  import opened Reasons

  function TagOf(v: Value): Option<u64> {
    if v.Tag? then Some(v.tag) else None
  }

  // What the tag-keeping decode sees of each entry: its integer key and the tag of its value.
  function Captured(lib: Library, entries: Entries): (r: seq<(Value, Option<u64>)>)
    ensures |r| == |entries|
  {
    seq(|entries|, i requires 0 <= i < |entries| => (Folded(lib, entries[i].0), TagOf(entries[i].1)))
  }

  // Decoding into a map: a key that is not an integer fails, a repeated one overwrites.
  function LastWins(pairs: seq<(Value, Option<u64>)>): Option<map<int, Option<u64>>> {
    if pairs == [] then Some(map[])
    else
      var (key, tag) := pairs[|pairs| - 1];
      match LastWins(pairs[..|pairs| - 1])
      case Some(m) => if key.Integer? then Some(m[key.n := tag]) else None
      case None => None
  }

  predicate HasTaggedField(m: map<int, Option<u64>>) {
    exists key :: key in m && 1 <= key <= 6 && m[key].Some?
  }

  function RejectTaggedFields(lib: Library, octets: seq<byte>): Result<(), Reason> {
    match lib.read(octets)
    case Some((Map(entries), _)) =>
      (match LastWins(Captured(lib, entries))
       case None => Err(Malformed)
       case Some(m) => if HasTaggedField(m) then Err(Malformed) else Ok(()))
    case _ => Err(Malformed)
  }

  // ---- Which occurrence of a key the map holds ----

  ghost predicate PairAt(pairs: seq<(Value, Option<u64>)>, i: int, key: int) {
    0 <= i < |pairs| && pairs[i].0 == Integer(key)
  }

  ghost predicate LastPair(pairs: seq<(Value, Option<u64>)>, i: int, key: int) {
    PairAt(pairs, i, key) && forall j :: i < j ==> !PairAt(pairs, j, key)
  }

  // Decoding fails exactly on a key that is not an integer; otherwise the map holds, for each
  // key, the tag at its last occurrence.
  lemma {:induction false} MapKeepsLast(pairs: seq<(Value, Option<u64>)>)
    ensures LastWins(pairs).Some? <==> forall i :: 0 <= i < |pairs| ==> pairs[i].0.Integer?
    ensures LastWins(pairs).Some? ==>
      forall key :: key in LastWins(pairs).value <==> exists i :: LastPair(pairs, i, key)
    ensures LastWins(pairs).Some? ==>
      forall i, key :: LastPair(pairs, i, key) ==>
                         key in LastWins(pairs).value && LastWins(pairs).value[key] == pairs[i].1
  {
    if pairs != [] {
      var n := |pairs| - 1;
      var front := pairs[..n];
      MapKeepsLast(front);
      assert forall i :: 0 <= i < n ==> front[i] == pairs[i];
      if LastWins(pairs).Some? {
        forall i, key
          ensures LastPair(pairs, i, key) <==>
            if pairs[n].0 == Integer(key) then i == n else LastPair(front, i, key)
        {
          assert PairAt(pairs, n, key) <==> pairs[n].0 == Integer(key);
          assert forall j :: j != n ==> (PairAt(pairs, j, key) <==> PairAt(front, j, key));
        }
        forall key
          ensures key in LastWins(pairs).value <==> exists i :: LastPair(pairs, i, key)
        {
          if pairs[n].0 == Integer(key) {
            assert LastPair(pairs, n, key);
          } else if exists i :: LastPair(front, i, key) {
            var i :| LastPair(front, i, key);
            assert LastPair(pairs, i, key);
          }
        }
      }
    }
  }

  // ---- The CDDL rule for the defined keys, on the wire ----

  // The CDDL type of a defined key's value: no tag, so no bignum.
  predicate CddlTyped(key: int, v: Value) {
    match key
    case 1 => v.Text?
    case 2 => v.Bytes?
    case 6 => v.Text?
    case _ => v.Integer? && 0 <= v.n < 0x1_0000_0000_0000_0000
  }

  ghost predicate KeyAt(lib: Library, entries: Entries, i: int, key: int) {
    0 <= i < |entries| && Folded(lib, entries[i].0) == Integer(key)
  }

  ghost predicate LastAt(lib: Library, entries: Entries, i: int, key: int) {
    KeyAt(lib, entries, i, key) && forall j :: i < j ==> !KeyAt(lib, entries, j, key)
  }

  ghost predicate KeysFold(lib: Library, entries: Entries) {
    forall i :: 0 <= i < |entries| ==> Folded(lib, entries[i].0).Integer?
  }

  ghost predicate LastDefinedUntagged(lib: Library, entries: Entries) {
    forall i, key :: LastAt(lib, entries, i, key) && 1 <= key <= 6 ==> !entries[i].1.Tag?
  }

  // No defined key repeats, and the value of each is untagged and of its type.
  ghost predicate DefinedKeysClean(lib: Library, entries: Entries) {
    forall i, key :: KeyAt(lib, entries, i, key) && 1 <= key <= 6 ==>
      CddlTyped(key, entries[i].1) && forall j :: KeyAt(lib, entries, j, key) ==> j == i
  }

  ghost predicate DefinedKeysUntagged(lib: Library, entries: Entries) {
    forall i, key :: KeyAt(lib, entries, i, key) && 1 <= key <= 6 ==> !entries[i].1.Tag?
  }

  ghost predicate RequiredKeysPresent(lib: Library, entries: Entries) {
    forall key :: IsRequired(key) ==> OnWire(lib, entries, key)
  }

  predicate IsRequired(key: int) {
    key in {1, 2, 4, 5, 6}
  }

  ghost predicate OnWire(lib: Library, entries: Entries, key: int) {
    exists i :: KeyAt(lib, entries, i, key)
  }

  function FoldedEntries(lib: Library, entries: Entries): Entries {
    Folded(lib, Map(entries)).entries
  }

  // The second pass, on all octets: it accepts exactly a map whose keys all read as integers
  // and whose defined keys are untagged where they occur last.
  lemma SecondPassIsExact(lib: Library, octets: seq<byte>)
    ensures RejectTaggedFields(lib, octets).Ok? <==>
      match lib.read(octets)
      case Some((Map(entries), _)) => KeysFold(lib, entries) && LastDefinedUntagged(lib, entries)
      case _ => false
  {
    match lib.read(octets) {
      case Some((Map(entries), _)) =>
        var pairs := Captured(lib, entries);
        MapKeepsLast(pairs);
        forall i, key
          ensures LastPair(pairs, i, key) <==> LastAt(lib, entries, i, key)
        {
          assert forall j :: PairAt(pairs, j, key) <==> KeyAt(lib, entries, j, key);
        }
        forall i | 0 <= i < |entries|
          ensures pairs[i].0 == Folded(lib, entries[i].0) && pairs[i].1 == TagOf(entries[i].1)
        {
        }
        if KeysFold(lib, entries) {
          TaggedFieldIsLast(pairs, LastWins(pairs).value);
        }
      case _ =>
    }
  }

  lemma TaggedFieldIsLast(pairs: seq<(Value, Option<u64>)>, m: map<int, Option<u64>>)
    requires LastWins(pairs) == Some(m)
    ensures HasTaggedField(m) <==> exists i, key :: LastPair(pairs, i, key) && 1 <= key <= 6 && pairs[i].1.Some?
  {
    hide LastWins, LastPair;
    MapKeepsLast(pairs);
  }

  // Some later entry repeats the key.
  ghost predicate Overwritten(lib: Library, entries: Entries, i: int, key: int) {
    KeyAt(lib, entries, i, key) && !LastAt(lib, entries, i, key)
  }

  // So the pass does what its name promises, refusing every tagged defined field, except on
  // exactly the maps whose tagged defined fields are all overwritten by later duplicates.
  lemma TagsEscapeOnlyByDuplicates(lib: Library, octets: seq<byte>, entries: Entries, n: nat)
    requires lib.read(octets) == Some((Map(entries), n)) && KeysFold(lib, entries)
    ensures RejectTaggedFields(lib, octets).Ok? <==>
      forall i, key :: KeyAt(lib, entries, i, key) && 1 <= key <= 6 && entries[i].1.Tag? ==>
                         Overwritten(lib, entries, i, key)
    ensures (forall i, key :: KeyAt(lib, entries, i, key) && 1 <= key <= 6 ==> LastAt(lib, entries, i, key)) ==>
      (RejectTaggedFields(lib, octets).Ok? <==> DefinedKeysUntagged(lib, entries))
  {
    hide RejectTaggedFields, KeyAt;
    SecondPassIsExact(lib, octets);
  }

  lemma AdmissibleIsUnique(lib: Library, entries: Entries)
    requires Admissible(FoldedEntries(lib, entries))
    ensures KeysFold(lib, entries)
    ensures forall i, j, key :: KeyAt(lib, entries, i, key) && KeyAt(lib, entries, j, key) ==> i == j
    ensures forall i, key :: KeyAt(lib, entries, i, key) ==> WellTyped(key, Folded(lib, entries[i].1))
  {
    hide WellTyped;
    var folded := FoldedEntries(lib, entries);
    forall i | 0 <= i < |entries|
      ensures folded[i] == (Folded(lib, entries[i].0), Folded(lib, entries[i].1)) && EntryOk(folded[i])
    {
    }
  }

  // Folding only ever makes an integer, and only out of a tagged byte string.
  lemma UntaggedIsTyped(lib: Library, key: int, v: Value)
    requires 1 <= key <= 6 && WellTyped(key, Folded(lib, v))
    ensures !v.Tag? <==> CddlTyped(key, v)
  {
  }

  lemma UntaggedIsClean(lib: Library, entries: Entries)
    requires Admissible(FoldedEntries(lib, entries))
    ensures DefinedKeysUntagged(lib, entries) <==> DefinedKeysClean(lib, entries)
  {
    hide WellTyped, Admissible;
    AdmissibleIsUnique(lib, entries);
    forall i, key | KeyAt(lib, entries, i, key) && 1 <= key <= 6
      ensures !entries[i].1.Tag? <==> CddlTyped(key, entries[i].1)
    {
      UntaggedIsTyped(lib, key, entries[i].1);
    }
  }

  // Seen on the wire, what the two passes require of a map together.
  ghost predicate CleanOnWire(lib: Library, entries: Entries) {
    && KeysFold(lib, entries)
    && (forall i, j, key :: KeyAt(lib, entries, i, key) && KeyAt(lib, entries, j, key) ==> i == j)
    && DefinedKeysClean(lib, entries)
  }

  lemma CleanIsAdmissible(lib: Library, entries: Entries)
    requires CleanOnWire(lib, entries)
    ensures Admissible(FoldedEntries(lib, entries))
  {
    hide WellTyped, CddlTyped;
    var folded := FoldedEntries(lib, entries);
    forall i | 0 <= i < |entries|
      ensures folded[i] == (Folded(lib, entries[i].0), Folded(lib, entries[i].1)) && EntryOk(folded[i])
    {
      var key := Folded(lib, entries[i].0).n;
      assert KeyAt(lib, entries, i, key);
      CddlIsTyped(lib, key, entries[i].1);
    }
    forall i, j | 0 <= i < j < |folded|
      ensures folded[i].0 != folded[j].0
    {
      assert KeyAt(lib, entries, i, folded[i].0.n);
      assert folded[j].0 == folded[i].0 ==> KeyAt(lib, entries, j, folded[i].0.n);
    }
  }

  lemma CddlIsTyped(lib: Library, key: int, v: Value)
    requires 1 <= key <= 6 ==> CddlTyped(key, v)
    ensures WellTyped(key, Folded(lib, v))
  {
  }

  // On a map that is read, the second pass and the shape checks of the first hold together
  // exactly when the map is clean on the wire.
  lemma PassesAreCleanOnWire(lib: Library, octets: seq<byte>, entries: Entries, n: nat)
    requires lib.read(octets) == Some((Map(entries), n))
    ensures RejectTaggedFields(lib, octets).Ok? && Admissible(FoldedEntries(lib, entries)) <==>
      CleanOnWire(lib, entries)
  {
    hide RejectTaggedFields, Admissible, CddlTyped, WellTyped, KeyAt;
    SecondPassIsExact(lib, octets);
    if Admissible(FoldedEntries(lib, entries)) {
      AdmissibleIsUnique(lib, entries);
      UntaggedIsClean(lib, entries);
      forall i, key | KeyAt(lib, entries, i, key)
        ensures LastAt(lib, entries, i, key)
      {
      }
      assert LastDefinedUntagged(lib, entries) <==> DefinedKeysUntagged(lib, entries);
    }
    if CleanOnWire(lib, entries) {
      CleanIsAdmissible(lib, entries);
    }
  }

  lemma RequiredSlot(entries: Entries, key: int)
    requires PayloadOf(Map(entries)).Ok? && IsRequired(key)
    ensures Admissible(entries) && HasKey(entries, Integer(key))
  {
    hide AsString, AsOctets, AsUint;
    GetFinds(entries, Integer(key));
  }

  lemma CleanMeansClean(lib: Library, entries: Entries)
    requires Admissible(FoldedEntries(lib, entries))
    ensures CleanOnWire(lib, entries) <==> DefinedKeysClean(lib, entries)
  {
    hide Admissible;
    AdmissibleIsUnique(lib, entries);
  }

  // For a payload the first pass accepts, the second is exact: it accepts when and only when
  // the CDDL rule for the defined keys holds on the wire.
  lemma TwoPassesTogether(lib: Library, octets: seq<byte>, entries: Entries, n: nat)
    requires lib.read(octets) == Some((Map(entries), n))
    requires PayloadOf(Folded(lib, Map(entries))).Ok?
    ensures RejectTaggedFields(lib, octets).Ok? <==> DefinedKeysClean(lib, entries)
    ensures RequiredKeysPresent(lib, entries)
  {
    hide PayloadOf, Admissible;
    var folded := FoldedEntries(lib, entries);
    RequiredSlot(folded, 1);
    PassesAreCleanOnWire(lib, octets, entries, n);
    CleanMeansClean(lib, entries);
    forall key | IsRequired(key)
      ensures OnWire(lib, entries, key)
    {
      RequiredSlot(folded, key);
      var i :| 0 <= i < |folded| && folded[i].0 == Integer(key);
      assert KeyAt(lib, entries, i, key);
    }
  }

  // Neither pass suffices alone. Any repeated key is refused by the first pass only; the
  // second looks at the last occurrence, whatever the earlier ones carry.
  lemma RepeatedKeyDividesPasses(lib: Library, octets: seq<byte>, entries: Entries, n: nat, i: nat, j: nat)
    requires lib.read(octets) == Some((Map(entries), n)) && KeysFold(lib, entries)
    requires i < j < |entries| && Folded(lib, entries[i].0) == Folded(lib, entries[j].0)
    ensures PayloadOf(Folded(lib, Map(entries))) == Err(Malformed)
    ensures RejectTaggedFields(lib, octets).Ok? <==> LastDefinedUntagged(lib, entries)
  {
    hide Judge, RejectTaggedFields;
    SecondPassIsExact(lib, octets);
    var folded := FoldedEntries(lib, entries);
    assert folded[i].0 == folded[j].0;
  }

  // For one, a tagged operator followed by a plain one.
  lemma LastDuplicateHidesATag(lib: Library, octets: seq<byte>, t: u64, n: nat)
    requires lib.read(octets) ==
      Some((Map([(Integer(1), Tag(t, Text("a"))), (Integer(1), Text("a"))]), n))
    ensures RejectTaggedFields(lib, octets).Ok?
    ensures PayloadOf(Folded(lib, lib.read(octets).value.0)) == Err(Malformed)
  {
    hide PayloadOf, RejectTaggedFields;
    var entries := lib.read(octets).value.0.entries;
    assert KeyAt(lib, entries, 1, 1);
    RepeatedKeyDividesPasses(lib, octets, entries, n, 0, 1);
  }

  lemma FoldedUnit(lib: Library, p: Payload, t: u64, b: Octets)
    requires lib.fold(t, b) == Some(p.unit)
    ensures var plain := Encode(p, true).entries;
      FoldedEntries(lib, plain[5 := (Integer(3), Tag(t, Bytes(b)))]) == plain
  {
    var plain := Encode(p, true).entries;
    var entries := plain[5 := (Integer(3), Tag(t, Bytes(b)))];
    forall i | 0 <= i < |plain|
      ensures Folded(lib, entries[i].0) == plain[i].0 && Folded(lib, entries[i].1) == plain[i].1
    {
      assert i in {0, 1, 2, 3, 4, 5};
    }
  }

  // And a unit written as a bignum reads as a plain integer in the first pass; only the
  // second refuses it.
  lemma FoldingHidesABignum(lib: Library, octets: seq<byte>, p: Payload, t: u64, b: Octets, n: nat)
    requires Conforming(p) && lib.fold(t, b) == Some(p.unit)
    requires var entries := Encode(p, true).entries;
      lib.read(octets) == Some((Map(entries[5 := (Integer(3), Tag(t, Bytes(b)))]), n))
    ensures PayloadOf(Folded(lib, lib.read(octets).value.0)) == Ok(p)
    ensures RejectTaggedFields(lib, octets) == Err(Malformed)
  {
    hide PayloadOf, Conforming;
    var plain := Encode(p, true).entries;
    var entries := plain[5 := (Integer(3), Tag(t, Bytes(b)))];
    FoldedUnit(lib, p, t, b);
    ConformingIsAccepted(p, true);
    TwoPassesTogether(lib, octets, entries, n);
    assert KeyAt(lib, entries, 5, 3);
  }
}
