// Operator policy records (`PolicyRecord` in src/record.rs).
module Policies {
  import opened Common
  import opened Address
  import opened AssocLists
  import opened PrefixText
  import opened Rua
  import opened Tags
  import opened Text
  import Payloads

  const MAX_POLICY_PREFIXES: nat := 64

  datatype PolicyRecord = PolicyRecord(prefixes: seq<Ipv6Prefix>, unit: u8, testing: bool, rua: Option<string>)

  // ---- The prefix list ----

  function NonEmpty(parts: seq<string>): (r: seq<string>)
    ensures |r| <= |parts|
    ensures forall e :: e in r ==> e in parts && e != ""
  {
    if parts == [] then []
    else if parts[0] == "" then NonEmpty(parts[1..])
    else [parts[0]] + NonEmpty(parts[1..])
  }

  function Capped(parts: seq<string>): seq<string> {
    if |parts| <= MAX_POLICY_PREFIXES then parts else parts[..MAX_POLICY_PREFIXES]
  }

  // The elements that are read: the first 64 that are not empty.
  function Listed(list: string): seq<string> {
    Capped(NonEmpty(Split(list, ',')))
  }

  predicate Listable(codec: AddressCodec, entry: string) {
    ParsePrefix(codec, entry).Some? && ParsePrefix(codec, entry).value.IsAttestable()
  }

  predicate AllListable(codec: AddressCodec, entries: seq<string>) {
    forall i :: 0 <= i < |entries| ==> Listable(codec, entries[i])
  }

  function Prefixes(codec: AddressCodec, entries: seq<string>): (r: seq<Ipv6Prefix>)
    requires AllListable(codec, entries)
    ensures |r| == |entries|
  {
    seq(|entries|, i requires 0 <= i < |entries| => ParsePrefix(codec, entries[i]).value)
  }

  function PrefixesOf(codec: AddressCodec, list: string): Result<seq<Ipv6Prefix>, RecordError> {
    if AllListable(codec, Listed(list)) then Ok(Prefixes(codec, Listed(list))) else Err(BadValue("p"))
  }

  // The capped loop over the elements, skipping empty ones without counting them.
  method ReadPrefixes(codec: AddressCodec, list: string) returns (r: Result<seq<Ipv6Prefix>, RecordError>)
    ensures r == PrefixesOf(codec, list)
  {
    hide Listable, NonEmpty, Mask, ParsePrefix;
    var parts := Split(list, ',');
    assert NonEmpty(parts[..0]) == [] by {
      assert |NonEmpty(parts[..0])| <= |parts[..0]|;
    }
    var prefixes: seq<Ipv6Prefix> := [];
    var i := 0;
    while i < |parts| && |prefixes| < MAX_POLICY_PREFIXES
      invariant 0 <= i <= |parts| && |prefixes| <= MAX_POLICY_PREFIXES
      invariant AllListable(codec, NonEmpty(parts[..i])) && prefixes == Prefixes(codec, NonEmpty(parts[..i]))
    {
      NonEmptyStep(parts, i);
      NonEmptyPrefix(parts, i + 1);
      if parts[i] != "" {
        var parsed := ParsePrefix(codec, parts[i]);
        if parsed.None? || !parsed.value.IsAttestable() {
          ListableMeans(codec, parts[i]);
          assert Listed(list)[|prefixes|] == NonEmpty(parts[..i + 1])[|prefixes|] == parts[i];
          return Err(BadValue("p"));
        }
        ListableMeans(codec, parts[i]);
        prefixes := prefixes + [parsed.value];
      }
      i := i + 1;
    }
    NonEmptyPrefix(parts, i);
    assert Listed(list) == NonEmpty(parts[..i]);
    r := Ok(prefixes);
  }

  lemma ListableMeans(codec: AddressCodec, entry: string)
    ensures Listable(codec, entry) <==>
      ParsePrefix(codec, entry).Some? && ParsePrefix(codec, entry).value.IsAttestable()
  {
  }

  lemma {:induction false} NonEmptyConcat(a: seq<string>, b: seq<string>)
    ensures NonEmpty(a + b) == NonEmpty(a) + NonEmpty(b)
  {
    if a == [] {
      assert a + b == b;
    } else {
      assert (a + b)[1..] == a[1..] + b;
      NonEmptyConcat(a[1..], b);
    }
  }

  lemma NonEmptyStep(parts: seq<string>, i: nat)
    requires i < |parts|
    ensures NonEmpty(parts[..i + 1]) == NonEmpty(parts[..i]) + (if parts[i] == "" then [] else [parts[i]])
  {
    hide NonEmpty;
    assert parts[..i + 1] == parts[..i] + [parts[i]];
    NonEmptyOne(parts[i]);
    NonEmptyConcat(parts[..i], [parts[i]]);
  }

  lemma NonEmptyPrefix(parts: seq<string>, i: nat)
    requires i <= |parts|
    ensures NonEmpty(parts[..i]) + NonEmpty(parts[i..]) == NonEmpty(parts)
  {
    hide NonEmpty;
    assert parts == parts[..i] + parts[i..];
    NonEmptyConcat(parts[..i], parts[i..]);
  }

  lemma NonEmptyOne(part: string)
    ensures NonEmpty([part]) == if part == "" then [] else [part]
  {
    assert NonEmpty([part][1..]) == [];
  }

  // ---- The record ----

  function UnitOf(tag: Option<string>): Result<u8, RecordError> {
    match tag
    case None => Ok(Payloads.DEFAULT_UNIT)
    case Some(value) =>
      var unit :- OkOr(ParseDecimal(value), BadValue("u"));
      if 1 <= unit <= MAX_PREFIX_LEN then Ok(unit) else Err(BadValue("u"))
  }

  // The `y` flag counts among any others; unknown flags are ignored.
  predicate TestingOf(tag: Option<string>) {
    tag.Some? && "y" in Split(tag.value, ':')
  }

  lemma TestingAmongFlags(flags: seq<string>)
    requires |flags| >= 1 && forall f :: f in flags ==> ':' !in f
    ensures TestingOf(Some(Join(flags, ':'))) <==> "y" in flags
  {
    SplitJoin(flags, ':');
  }

  function RuaOf(tag: Option<string>): Result<Option<string>, RecordError> {
    if tag.Some? && !ValidRua(tag.value) then Err(BadValue("rua")) else Ok(tag)
  }

  function ListOf(tag: Option<string>): string {
    if tag.Some? then tag.value else ""
  }

  function PolicyOfTags(codec: AddressCodec, tags: TagList): Result<PolicyRecord, RecordError> {
    var prefixes :- PrefixesOf(codec, ListOf(Get(tags, "p")));
    var unit :- UnitOf(Get(tags, "u"));
    var rua :- RuaOf(Get(tags, "rua"));
    if exists i :: 0 <= i < |prefixes| && unit < prefixes[i].len then Err(BadValue("u"))
    else Ok(PolicyRecord(prefixes, unit, TestingOf(Get(tags, "t")), rua))
  }

  function PolicyOf(codec: AddressCodec, txt: string): Result<PolicyRecord, RecordError> {
    var tags :- TagsOf(txt);
    PolicyOfTags(codec, tags)
  }

  method ParsePolicy(codec: AddressCodec, txt: string) returns (r: Result<PolicyRecord, RecordError>)
    ensures r == PolicyOf(codec, txt)
  {
    hide TagsOf, PrefixesOf, ParseDecimal, ValidRua, Split, Get;
    var tags :- ParseTags(txt);
    var prefixes: seq<Ipv6Prefix> := [];
    EmptyListIsEmpty(codec);
    var list: Option<string> := Get(tags, "p");
    if list.Some? {
      prefixes :- ReadPrefixes(codec, list.value);
    }
    var unit := Payloads.DEFAULT_UNIT;
    var value: Option<string> := Get(tags, "u");
    if value.Some? {
      var parsed := ParseDecimal(value.value);
      if parsed.None? || !(1 <= parsed.value <= MAX_PREFIX_LEN) {
        return Err(BadValue("u"));
      }
      unit := parsed.value;
    }
    var flags: Option<string> := Get(tags, "t");
    var testing := flags.Some? && "y" in Split(flags.value, ':');
    var rua: Option<string> := Get(tags, "rua");
    if rua.Some? && !ValidRua(rua.value) {
      return Err(BadValue("rua"));
    }
    if exists i :: 0 <= i < |prefixes| && unit < prefixes[i].len {
      return Err(BadValue("u"));
    }
    r := Ok(PolicyRecord(prefixes, unit, testing, rua));
  }

  // An absent list reads like an empty one.
  lemma EmptyListIsEmpty(codec: AddressCodec)
    ensures PrefixesOf(codec, "") == Ok([])
  {
    assert Split("", ',') == [""];
    assert NonEmpty([""]) == [];
  }

  // ---- What a parsed policy satisfies ----

  predicate Sound(p: PolicyRecord) {
    && |p.prefixes| <= 64
    && 1 <= p.unit <= 64
    && (forall i :: 0 <= i < |p.prefixes| ==> p.prefixes[i].IsAttestable() && p.prefixes[i].len <= p.unit)
    && (p.rua.Some? ==> ValidRua(p.rua.value))
  }

  lemma ParsedPolicyIsSound(codec: AddressCodec, txt: string)
    ensures PolicyOf(codec, txt).Ok? ==> Sound(PolicyOf(codec, txt).value)
  {
    hide TagsOf, ValidRua, Listed;
    if PolicyOf(codec, txt).Ok? {
      var p := PolicyOf(codec, txt).value;
      var list := ListOf(Get(TagsOf(txt).value, "p"));
      ListedIsCapped(list);
      forall i | 0 <= i < |p.prefixes|
        ensures p.prefixes[i].IsAttestable() && p.prefixes[i].len <= p.unit
      {
        assert Listable(codec, Listed(list)[i]);
      }
    }
  }

  lemma ListedIsCapped(list: string)
    ensures |Listed(list)| <= 64
  {
  }

  // Empty elements, wherever they stand, are skipped and not counted.
  lemma ListedIgnoresEmpty(a: string, b: string)
    ensures Listed(a + ",," + b) == Listed(a + "," + b)
    ensures Listed("," + b) == Listed(b) && Listed(a + ",") == Listed(a)
  {
    hide Split, NonEmpty, Capped;
    SplitConcat(a, b, ',');
    SplitConcat(a, "," + b, ',');
    SplitConcat("", b, ',');
    SplitConcat(a, "", ',');
    SplitFree("", ',');
    assert a + [','] + ("," + b) == a + ",," + b;
    assert "" + [','] + b == "," + b;
    assert a + [','] + "" == a + ",";
    EmptyPartSkipped(Split(a, ','), Split(b, ','));
    EmptyPartSkipped([], Split(b, ','));
    EmptyPartSkipped(Split(a, ','), []);
    assert [] + ([""] + Split(b, ',')) == [""] + Split(b, ',');
    assert Split(a, ',') + ([""] + []) == Split(a, ',') + [""];
    assert [] + Split(b, ',') == Split(b, ',') && Split(a, ',') + [] == Split(a, ',');
  }

  lemma EmptyPartSkipped(xs: seq<string>, ys: seq<string>)
    ensures NonEmpty(xs + ([""] + ys)) == NonEmpty(xs + ys)
  {
    NonEmptyConcat(xs, [""] + ys);
    NonEmptyConcat(xs, ys);
    assert ([""] + ys)[1..] == ys;
  }

  // Nothing after the 64th non-empty element is looked at, well formed or not.
  lemma ListedStopsAtCap(a: string, b: string)
    requires |NonEmpty(Split(a, ','))| >= 64
    ensures Listed(a + "," + b) == Listed(a)
  {
    SplitConcat(a, b, ',');
    NonEmptyConcat(Split(a, ','), Split(b, ','));
  }

  // And up to the cap every element of a list without empty ones is there, in order.
  lemma ListedReadsBack(parts: seq<string>)
    requires |parts| >= 1 && forall i :: 0 <= i < |parts| ==> parts[i] != "" && ',' !in parts[i]
    ensures Listed(Join(parts, ',')) == if |parts| <= 64 then parts else parts[..64]
  {
    SplitJoin(parts, ',');
    AllNonEmpty(parts);
  }

  // ---- What each tag means, and which error is given ----

  // The elements read are the texts of these attestable prefixes, one by one.
  ghost predicate ListsAs(codec: AddressCodec, list: string, prefixes: seq<Ipv6Prefix>) {
    && |prefixes| == |Listed(list)|
    && forall i :: 0 <= i < |prefixes| ==>
         prefixes[i].IsAttestable() && IsTextOf(codec, Listed(list)[i], prefixes[i])
  }

  // `u=` is a plain number from 1 to 64, and 64 when absent.
  ghost predicate UnitIs(tag: Option<string>, unit: int) {
    1 <= unit <= 64 && if tag.Some? then tag.value == PrintDecimal(unit) else unit == 64
  }

  ghost predicate IsDestination(tag: Option<string>) {
    tag.Some? ==> exists local, domain :: IsRuaOf(tag.value, local, domain)
  }

  lemma PrefixesMeaning(codec: AddressCodec, list: string)
    ensures forall prefixes :: PrefixesOf(codec, list) == Ok(prefixes) <==> ListsAs(codec, list, prefixes)
    ensures PrefixesOf(codec, list).Err? ==> PrefixesOf(codec, list) == Err(BadValue("p"))
  {
    hide ParsePrefix, Listed, IsTextOf, RawPrefix.IsAttestable;
    forall entry, p: Ipv6Prefix
      ensures ParsePrefix(codec, entry) == Some(p) <==> IsTextOf(codec, entry, p)
    {
      PrefixTextIsExact(codec, entry, p);
    }
    forall prefixes
      ensures PrefixesOf(codec, list) == Ok(prefixes) <==> ListsAs(codec, list, prefixes)
    {
      if ListsAs(codec, list, prefixes) {
        forall i | 0 <= i < |prefixes|
          ensures ParsePrefix(codec, Listed(list)[i]) == Some(prefixes[i])
        {
          assert IsTextOf(codec, Listed(list)[i], prefixes[i]);
        }
        assert Prefixes(codec, Listed(list)) == prefixes;
      }
    }
  }

  // A list is refused exactly for an element that is the text of no attestable prefix.
  lemma ListRefusedByElement(codec: AddressCodec, list: string)
    ensures PrefixesOf(codec, list) == Err(BadValue("p")) <==>
      exists entry :: entry in Listed(list) && forall p :: IsTextOf(codec, entry, p) ==> !p.IsAttestable()
  {
    hide ParsePrefix, Listed, IsTextOf, RawPrefix.IsAttestable;
    forall entry
      ensures Listable(codec, entry) <==> exists p :: IsTextOf(codec, entry, p) && p.IsAttestable()
    {
      forall p: Ipv6Prefix
        ensures ParsePrefix(codec, entry) == Some(p) <==> IsTextOf(codec, entry, p)
      {
        PrefixTextIsExact(codec, entry, p);
      }
    }
    if PrefixesOf(codec, list).Err? {
      var i :| 0 <= i < |Listed(list)| && !Listable(codec, Listed(list)[i]);
      assert Listed(list)[i] in Listed(list);
    }
  }

  lemma UnitMeaning(tag: Option<string>)
    ensures forall unit :: UnitOf(tag) == Ok(unit) <==> UnitIs(tag, unit)
    ensures UnitOf(tag).Err? ==> UnitOf(tag) == Err(BadValue("u"))
  {
    hide ParseDecimal, PrintDecimal;
    if tag.Some? {
      forall unit: u8
        ensures ParseDecimal(tag.value) == Some(unit) <==> tag.value == PrintDecimal(unit)
      {
        DecimalIsCanonical(tag.value, unit);
      }
    }
  }

  lemma RuaMeaning(tag: Option<string>)
    ensures RuaOf(tag) == if IsDestination(tag) then Ok(tag) else Err(BadValue("rua"))
  {
    hide ValidRua, IsRuaOf;
    if tag.Some? {
      RuaGrammar(tag.value);
    }
  }

  // The policy a record states: its prefixes from `p`, its unit from `u`, no prefix longer than
  // the unit, its flag from `t` and its destination from `rua`.
  ghost predicate States(codec: AddressCodec, tags: TagList, p: PolicyRecord) {
    && ListsAs(codec, ListOf(Get(tags, "p")), p.prefixes)
    && UnitIs(Get(tags, "u"), p.unit)
    && IsDestination(Get(tags, "rua")) && p.rua == Get(tags, "rua")
    && (p.testing <==> Get(tags, "t").Some? && "y" in Split(Get(tags, "t").value, ':'))
    && forall i :: 0 <= i < |p.prefixes| ==> p.prefixes[i].len <= p.unit
  }

  // A record parses as exactly the policy its tags state.
  lemma PolicyIsStated(codec: AddressCodec, txt: string, tags: TagList, p: PolicyRecord)
    requires TagsOf(txt) == Ok(tags)
    ensures PolicyOf(codec, txt) == Ok(p) <==> States(codec, tags, p)
  {
    hide TagsOf, PrefixesOf, UnitOf, RuaOf, ListsAs, UnitIs, IsDestination, Split, Get;
    PrefixesMeaning(codec, ListOf(Get(tags, "p")));
    UnitMeaning(Get(tags, "u"));
    RuaMeaning(Get(tags, "rua"));
  }

  // And when they state none, the error names the first tag at fault: the list, the unit's own
  // text, the destination, and last a unit shorter than a listed prefix.
  lemma PolicyErrorsInOrder(codec: AddressCodec, txt: string, tags: TagList)
    requires TagsOf(txt) == Ok(tags)
    ensures var list, u, rua := ListOf(Get(tags, "p")), Get(tags, "u"), Get(tags, "rua");
      var listed := exists prefixes :: ListsAs(codec, list, prefixes);
      var united := exists unit :: UnitIs(u, unit);
      && (PolicyOf(codec, txt) == Err(BadValue("p")) <==> !listed)
      && (PolicyOf(codec, txt) == Err(BadValue("rua")) <==> listed && united && !IsDestination(rua))
      && (PolicyOf(codec, txt) == Err(BadValue("u")) <==>
            && listed
            && (united ==> IsDestination(rua) && exists prefixes: seq<Ipv6Prefix>, unit: int, i: int ::
                  && ListsAs(codec, list, prefixes) && UnitIs(u, unit)
                  && 0 <= i < |prefixes| && unit < prefixes[i].len))
      && (PolicyOf(codec, txt).Err? ==> PolicyOf(codec, txt).error in {BadValue("p"), BadValue("u"), BadValue("rua")})
  {
    hide TagsOf, PrefixesOf, UnitOf, RuaOf, ListsAs, UnitIs, IsDestination, TestingOf, Get;
    assert "p"[0] == 'p' && "u"[0] == 'u' && |"rua"| == 3 && |"p"| == |"u"| == 1;
    PrefixesMeaning(codec, ListOf(Get(tags, "p")));
    UnitMeaning(Get(tags, "u"));
    RuaMeaning(Get(tags, "rua"));
    var prefixes, unit := PrefixesOf(codec, ListOf(Get(tags, "p"))), UnitOf(Get(tags, "u"));
    assert prefixes.Ok? <==> exists ps :: ListsAs(codec, ListOf(Get(tags, "p")), ps) by {
      assert prefixes.Ok? ==> ListsAs(codec, ListOf(Get(tags, "p")), prefixes.value);
    }
    assert unit.Ok? <==> exists n :: UnitIs(Get(tags, "u"), n) by {
      assert unit.Ok? ==> UnitIs(Get(tags, "u"), unit.value);
    }
  }

  // ---- Records that differ in layout only ----

  lemma {:induction false} TagsInConcat(a: seq<Piece>, b: seq<Piece>)
    ensures TagsIn(a + b) == TagsIn(a) + TagsIn(b)
  {
    if a == [] {
      assert a + b == b;
    } else {
      assert (a + b)[1..] == a[1..] + b;
      TagsInConcat(a[1..], b);
    }
  }

  // Reordering the tags of a record behind its first one, in whatever layout, changes nothing:
  // neither the policy nor the error.
  lemma PolicyIgnoresTagOrder(codec: AddressCodec, txt: string, pieces: seq<Piece>, txt': string, pieces': seq<Piece>)
    requires IsPrintOf(txt, pieces) && IsPrintOf(txt', pieces')
    requires multiset(TagsIn(pieces)) == multiset(TagsIn(pieces'))
    requires |TagsIn(pieces)| > 0 && |TagsIn(pieces')| > 0 ==> TagsIn(pieces)[0] == TagsIn(pieces')[0]
    ensures PolicyOf(codec, txt) == PolicyOf(codec, txt')
  {
    hide TagsOf, IsPrintOf, PrefixesOf, ValidRua;
    var tags, tags' := TagsIn(pieces), TagsIn(pieces');
    PrintReadsBack(txt, pieces);
    PrintReadsBack(txt', pieces');
    assert |tags| == |multiset(tags)| == |multiset(tags')| == |tags'|;
    if DistinctKeys(tags) {
      ReorderKeepsDistinct(tags, tags');
      ReorderKeepsGet(tags, tags', "p");
      ReorderKeepsGet(tags, tags', "u");
      ReorderKeepsGet(tags, tags', "t");
      ReorderKeepsGet(tags, tags', "rua");
    } else if DistinctKeys(tags') {
      ReorderKeepsDistinct(tags', tags);
    }
  }

  predicate IsListPiece(p: Piece) {
    p.Tag? && p.name == "p"
  }

  // The prefix list of a record counts only through the elements that are read: a list with
  // the same first 64 non-empty elements gives the same policy, or the same error.
  lemma PolicyReadsListedOnly(codec: AddressCodec, txt: string, pieces: seq<Piece>, k: nat, list: string)
    requires IsPrintOf(txt, pieces) && k < |pieces| && IsListPiece(pieces[k])
    requires IsValue(list) && Listed(list) == Listed(pieces[k].value)
    ensures PolicyOf(codec, Print(pieces[k := pieces[k].(value := list)])) == PolicyOf(codec, txt)
  {
    hide TagsOf, PolicyOfTags, Print, Listed, IsValue, IsName, IsPad, TagsIn, Get;
    var pieces' := pieces[k := pieces[k].(value := list)];
    PrintReadsBack(txt, pieces);
    PrintReadsBack(Print(pieces'), pieces');
    var before, after := TagsIn(pieces[..k]), TagsIn(pieces[k + 1..]);
    TagsAround(pieces, k);
    TagsAround(pieces', k);
    assert pieces'[..k] == pieces[..k] && pieces'[k + 1..] == pieces[k + 1..];
    var tags, tags' := TagsIn(pieces), TagsIn(pieces');
    assert forall i :: 0 <= i < |tags| ==> tags'[i].0 == tags[i].0;
    assert forall i :: 0 <= i < |tags| && i != |before| ==> tags'[i] == tags[i];
    if DistinctKeys(tags) && tags[0] == ("v", "SWORN1") {
      LookupAround(before, ("p", pieces[k].value), after);
      LookupAround(before, ("p", list), after);
      PolicyOfTagsReadsListed(codec, tags, tags');
    }
  }

  lemma TagsInOne(p: Piece)
    ensures p.Tag? ==> TagsIn([p]) == [(p.name, p.value)]
  {
    assert [p][1..] == [];
  }

  lemma TagsAround(pieces: seq<Piece>, k: nat)
    requires k < |pieces| && pieces[k].Tag?
    ensures TagsIn(pieces) ==
      TagsIn(pieces[..k]) + [(pieces[k].name, pieces[k].value)] + TagsIn(pieces[k + 1..])
  {
    hide TagsIn;
    assert pieces == pieces[..k] + [pieces[k]] + pieces[k + 1..];
    TagsInConcat(pieces[..k] + [pieces[k]], pieces[k + 1..]);
    TagsInConcat(pieces[..k], [pieces[k]]);
    TagsInOne(pieces[k]);
  }

  lemma LookupAround(before: TagList, entry: (string, string), after: TagList)
    requires DistinctKeys(before + [entry] + after)
    ensures forall name :: Get(before + [entry] + after, name) ==
                           (if name == entry.0 then Some(entry.1) else Get(before + after, name))
  {
    var tags := before + [entry] + after;
    assert tags[|before|] == entry;
    GetIsMembership(tags, entry.0, entry.1);
    forall name | name != entry.0
      ensures Get(tags, name) == Get(before + after, name)
    {
      GetAppend(before + [entry], after, name);
      GetAppend(before, [entry], name);
      GetAppend(before, after, name);
    }
  }

  lemma PolicyOfTagsReadsListed(codec: AddressCodec, tags: TagList, tags': TagList)
    requires Get(tags, "u") == Get(tags', "u") && Get(tags, "t") == Get(tags', "t")
    requires Get(tags, "rua") == Get(tags', "rua")
    requires Listed(ListOf(Get(tags, "p"))) == Listed(ListOf(Get(tags', "p")))
    ensures PolicyOfTags(codec, tags) == PolicyOfTags(codec, tags')
  {
    hide Listed, ValidRua, AllListable;
  }

  lemma LongerListIsValue(a: string, sep: string, b: string)
    requires IsValue(a) && IsValue(sep) && IsValue(b)
    ensures IsValue(a + sep + b)
  {
  }

  // So whatever follows 64 non-empty elements of a record's list, prefixes or not, is ignored.
  lemma PolicyIgnoresPastCap(codec: AddressCodec, txt: string, pieces: seq<Piece>, k: nat, more: string)
    requires IsPrintOf(txt, pieces) && k < |pieces| && IsListPiece(pieces[k]) && IsValue(more)
    requires |NonEmpty(Split(pieces[k].value, ','))| >= 64
    ensures PolicyOf(codec, Print(pieces[k := pieces[k].(value := pieces[k].value + "," + more)]))
         == PolicyOf(codec, txt)
  {
    hide PolicyOf, Print, Listed, IsName, IsPad, Split, NonEmpty;
    assert WellFormed(pieces[k]);
    ListedStopsAtCap(pieces[k].value, more);
    LongerListIsValue(pieces[k].value, ",", more);
    PolicyReadsListedOnly(codec, txt, pieces, k, pieces[k].value + "," + more);
  }

  // And an empty element put between two others changes nothing.
  lemma PolicyIgnoresEmptyElement(codec: AddressCodec, txt: string, pieces: seq<Piece>, k: nat, a: string, b: string)
    requires IsPrintOf(txt, pieces) && k < |pieces| && IsListPiece(pieces[k])
    requires pieces[k].value == a + "," + b
    ensures PolicyOf(codec, Print(pieces[k := pieces[k].(value := a + ",," + b)])) == PolicyOf(codec, txt)
  {
    hide PolicyOf, Print, Listed, IsName, IsPad;
    assert WellFormed(pieces[k]);
    PartsAreValues(a, b);
    LongerListIsValue(a, ",,", b);
    ListedIgnoresEmpty(a, b);
    PolicyReadsListedOnly(codec, txt, pieces, k, a + ",," + b);
  }

  lemma PartsAreValues(a: string, b: string)
    requires IsValue(a + "," + b)
    ensures IsValue(a) && IsValue(b)
  {
    var s := a + "," + b;
    assert forall i :: 0 <= i < |a| ==> s[i] == a[i];
    assert forall i :: 0 <= i < |b| ==> s[|a| + 1 + i] == b[i];
  }

  // ---- Publishing a report destination ----

  // A destination tag put anywhere behind the first tag of a usable record without one, in any
  // layout, comes back verbatim if it is valid; otherwise it makes the record unusable.
  lemma RuaComesBackVerbatim(codec: AddressCodec, txt: string, pieces: seq<Piece>, k: nat, piece: Piece)
    requires IsPrintOf(txt, pieces) && PolicyOf(codec, txt).Ok? && !HasKey(TagsIn(pieces), "rua")
    requires k <= |pieces| && TagsIn(pieces[..k]) != []
    requires WellFormed(piece) && piece.Tag? && piece.name == "rua"
    ensures PolicyOf(codec, Print(pieces[..k] + [piece] + pieces[k..])) ==
      if ValidRua(piece.value) then Ok(PolicyOf(codec, txt).value.(rua := Some(piece.value)))
      else Err(BadValue("rua"))
  {
    hide TagsOf, ValidRua, PolicyOfTags, Print, TagsIn, WellFormed, Get, DistinctKeys;
    var more := pieces[..k] + [piece] + pieces[k..];
    var before, after := TagsIn(pieces[..k]), TagsIn(pieces[k..]);
    var entry := ("rua", piece.value);
    assert pieces == pieces[..k] + pieces[k..];
    TagsInConcat(pieces[..k], pieces[k..]);
    assert more[k] == piece && more[..k] == pieces[..k] && more[k + 1..] == pieces[k..];
    TagsAround(more, k);
    PrintReadsBack(txt, pieces);
    assert AllWellFormed(more);
    PrintReadsBack(Print(more), more);
    InsertedKeepsDistinct(before, entry, after);
    LookupAround(before, entry, after);
    GetFinds(TagsIn(pieces), "rua");
    assert TagsIn(more)[0] == TagsIn(pieces)[0];
    PolicyOfTagsReadsRua(codec, TagsIn(pieces), TagsIn(more));
  }

  lemma PolicyOfTagsReadsRua(codec: AddressCodec, tags: TagList, more: TagList)
    requires PolicyOfTags(codec, tags).Ok? && Get(tags, "rua").None? && Get(more, "rua").Some?
    requires forall name :: name != "rua" ==> Get(more, name) == Get(tags, name)
    ensures PolicyOfTags(codec, more) ==
      var value := Get(more, "rua").value;
      if ValidRua(value) then Ok(PolicyOfTags(codec, tags).value.(rua := Some(value))) else Err(BadValue("rua"))
  {
    hide ValidRua, PrefixesOf, Get;
    assert "p" != "rua" && "u" != "rua" && "t" != "rua" by {
      assert |"rua"| == 3;
    }
  }

  lemma InsertedKeepsDistinct(before: TagList, entry: (string, string), after: TagList)
    requires DistinctKeys(before + after) && !HasKey(before + after, entry.0)
    ensures DistinctKeys(before + [entry] + after)
  {
    var tags, more := before + after, before + [entry] + after;
    var n := |before|;
    forall i, j | 0 <= i < j < |more|
      ensures more[i].0 != more[j].0
    {
      var i', j' := if i < n then i else i - 1, if j < n then j else j - 1;
      assert i != n ==> more[i] == tags[i'];
      assert j != n ==> more[j] == tags[j'];
    }
  }

  // Every valid destination, `=` and all, makes such a tag, so it can be appended to any usable
  // record without one.
  lemma RuaCanBeAppended(codec: AddressCodec, txt: string, pieces: seq<Piece>, value: string)
    requires IsPrintOf(txt, pieces) && PolicyOf(codec, txt).Ok? && !HasKey(TagsIn(pieces), "rua")
    requires ValidRua(value)
    ensures PolicyOf(codec, Print(pieces + [Tag("", "rua", "", "", value, "")]))
         == Ok(PolicyOf(codec, txt).value.(rua := Some(value)))
  {
    hide TagsOf, ValidRua, PolicyOfTags, Print;
    var piece := Tag("", "rua", "", "", value, "");
    RuaIsTagValue(value);
    PrintReadsBack(txt, pieces);
    assert pieces[..|pieces|] == pieces && pieces[|pieces|..] == [];
    assert pieces + [piece] == pieces[..|pieces|] + [piece] + pieces[|pieces|..];
    RuaComesBackVerbatim(codec, txt, pieces, |pieces|, piece);
  }

  // ---- Publishing a policy ----

  function PrefixTexts(codec: AddressCodec, prefixes: seq<Ipv6Prefix>): (r: seq<string>)
    ensures |r| == |prefixes|
  {
    seq(|prefixes|, i requires 0 <= i < |prefixes| => PrintPrefix(codec, prefixes[i]))
  }

  function ListText(codec: AddressCodec, prefixes: seq<Ipv6Prefix>): string {
    if prefixes == [] then "" else Join(PrefixTexts(codec, prefixes), ',')
  }

  // The unit may be left out when it is the default.
  function PolicyTags(codec: AddressCodec, p: PolicyRecord, writeUnit: bool): TagList {
    [("v", "SWORN1"), ("p", ListText(codec, p.prefixes))]
    + Optional("u", if writeUnit then Some(PrintDecimal(p.unit)) else None)
    + Optional("t", if p.testing then Some("y") else None)
    + Optional("rua", p.rua)
  }

  function Optional(name: string, value: Option<string>): TagList {
    if value.Some? then [(name, value.value)] else []
  }

  lemma OptionalAdds(tags: TagList, name: string, value: Option<string>)
    requires DistinctKeys(tags) && Get(tags, name).None?
    ensures DistinctKeys(tags + Optional(name, value))
    ensures forall key :: Get(tags + Optional(name, value), key) == if key == name then value else Get(tags, key)
  {
    GetFinds(tags, name);
    forall key
      ensures Get(tags + Optional(name, value), key) == if key == name then value else Get(tags, key)
    {
      GetAppend(tags, Optional(name, value), key);
    }
  }

  lemma ListReadsBack(codec: AddressCodec, prefixes: seq<Ipv6Prefix>)
    requires Faithful(codec) && |prefixes| <= 64
    requires forall i :: 0 <= i < |prefixes| ==> prefixes[i].IsAttestable()
    ensures PrefixesOf(codec, ListText(codec, prefixes)) == Ok(prefixes)
  {
    hide Mask, ParsePrefix, PrintPrefix;
    if prefixes == [] {
      EmptyListIsEmpty(codec);
    } else {
      var texts := PrefixTexts(codec, prefixes);
      forall i | 0 <= i < |texts|
        ensures ',' !in texts[i] && texts[i] != "" && ParsePrefix(codec, texts[i]) == Some(prefixes[i])
      {
        PrefixReadsBack(codec, prefixes[i]);
      }
      SplitJoin(texts, ',');
      AllNonEmpty(texts);
      assert Listed(ListText(codec, prefixes)) == texts;
      assert Prefixes(codec, texts) == prefixes;
    }
  }

  lemma {:induction false} AllNonEmpty(parts: seq<string>)
    requires forall i :: 0 <= i < |parts| ==> parts[i] != ""
    ensures NonEmpty(parts) == parts
  {
    if parts != [] {
      AllNonEmpty(parts[1..]);
      assert parts == [parts[0]] + parts[1..];
    }
  }

  lemma PolicyTagLookup(codec: AddressCodec, p: PolicyRecord, writeUnit: bool)
    ensures var tags := PolicyTags(codec, p, writeUnit);
      && DistinctKeys(tags) && tags[0] == ("v", "SWORN1")
      && Get(tags, "p") == Some(ListText(codec, p.prefixes))
      && Get(tags, "u") == (if writeUnit then Some(PrintDecimal(p.unit)) else None)
      && Get(tags, "t") == (if p.testing then Some("y") else None)
      && Get(tags, "rua") == p.rua
  {
    hide ListText, PrintDecimal, Optional;
    assert |"v"| == |"p"| == |"u"| == |"t"| == 1 && |"rua"| == 3;
    assert "v"[0] == 'v' && "p"[0] == 'p' && "u"[0] == 'u' && "t"[0] == 't';
    var version: TagList := [("v", "SWORN1")];
    var list := Some(ListText(codec, p.prefixes));
    var unit := if writeUnit then Some(PrintDecimal(p.unit)) else None;
    var flag := if p.testing then Some("y") else None;
    forall name
      ensures Get(version, name) == if name == "v" then Some("SWORN1") else None
    {
      assert |version[1..]| == 0;
    }
    OptionalAdds(version, "p", list);
    var tags := version + Optional("p", list);
    assert tags == [("v", "SWORN1"), ("p", list.value)] by {
      OptionalIsOne("p", list.value);
    }
    OptionalAdds(tags, "u", unit);
    OptionalAdds(tags + Optional("u", unit), "t", flag);
    OptionalAdds(tags + Optional("u", unit) + Optional("t", flag), "rua", p.rua);
  }

  lemma OptionalIsOne(name: string, value: string)
    ensures Optional(name, Some(value)) == [(name, value)]
  {
  }

  // Every sound policy can be published, in any layout, and parses back unchanged.
  lemma PublishedPolicyReadsBack(codec: AddressCodec, p: PolicyRecord, writeUnit: bool, txt: string, pieces: seq<Piece>)
    requires Faithful(codec) && Sound(p) && (writeUnit || p.unit == 64)
    requires IsPrintOf(txt, pieces) && TagsIn(pieces) == PolicyTags(codec, p, writeUnit)
    ensures PolicyOf(codec, txt) == Ok(p)
  {
    hide TagsOf, ValidRua, PrefixesOf, IsPrintOf, Faithful;
    PrintReadsBack(txt, pieces);
    PolicyTagLookup(codec, p, writeUnit);
    ListReadsBack(codec, p.prefixes);
    DecimalReadsBack(p.unit);
    assert Split("y", ':') == ["y"] by {
      SplitFree("y", ':');
    }
  }

  lemma ListTextIsValue(codec: AddressCodec, prefixes: seq<Ipv6Prefix>)
    requires Faithful(codec)
    ensures IsValue(ListText(codec, prefixes))
  {
    hide PrintPrefix, IsPrefixText;
    if prefixes != [] {
      var texts := PrefixTexts(codec, prefixes);
      JoinChars(texts, ',');
      forall c | c in ListText(codec, prefixes)
        ensures Permitted(c) && !IsBlank(c) && c != ';'
      {
        if c != ',' {
          var i :| 0 <= i < |texts| && c in texts[i];
          PrefixReadsBack(codec, prefixes[i]);
          PrefixTextIsPlain(texts[i], c);
        }
      }
      CharsMakeValue(ListText(codec, prefixes));
    }
  }

  lemma PrefixTextIsPlain(s: string, c: char)
    requires IsPrefixText(s) && c in s
    ensures Permitted(c) && !IsBlank(c) && c != ';'
  {
  }

  lemma CharsMakeValue(s: string)
    requires forall c :: c in s ==> Permitted(c) && !IsBlank(c) && c != ';'
    ensures IsValue(s)
  {
  }

  lemma PolicyTagsPrintable(codec: AddressCodec, p: PolicyRecord, writeUnit: bool)
    requires Faithful(codec) && Sound(p)
    ensures Printable(PolicyTags(codec, p, writeUnit))
  {
    hide ValidRua, Faithful, ListText, PrintDecimal;
    ListTextIsValue(codec, p.prefixes);
    DecimalIsValue(p.unit);
    if p.rua.Some? {
      RuaIsTagValue(p.rua.value);
    }
    assert IsValue("SWORN1") && IsValue("y");
    assert IsName("v") && IsName("p") && IsName("u") && IsName("t") && IsName("rua");
  }

  lemma DecimalIsValue(n: u8)
    ensures IsValue(PrintDecimal(n))
  {
  }

  // The plain text of a sound policy is such a publication, so there always is one.
  lemma PlainPolicyReadsBack(codec: AddressCodec, p: PolicyRecord, writeUnit: bool)
    requires Faithful(codec) && Sound(p) && (writeUnit || p.unit == 64)
    ensures PolicyOf(codec, Print(Plain(PolicyTags(codec, p, writeUnit)))) == Ok(p)
  {
    hide PolicyOf, Print, Faithful, Sound, Printable, AllWellFormed;
    var tags := PolicyTags(codec, p, writeUnit);
    PolicyTagsPrintable(codec, p, writeUnit);
    PlainPieces(tags);
    PublishedPolicyReadsBack(codec, p, writeUnit, Print(Plain(tags)), Plain(tags));
  }

  // ---- Authorization ----

  predicate Authorizes(p: PolicyRecord, token: Ipv6Prefix) {
    && token.IsAttestable()
    && exists i :: 0 <= i < |p.prefixes| && Covers(p.prefixes[i], token)
  }

  predicate Covers(allowed: Ipv6Prefix, token: Ipv6Prefix) {
    allowed.IsAttestable() && token.len >= allowed.len && allowed.Contains(token.addr)
  }

  // Authorization is inclusion of address sets in one enumerated attestable prefix.
  lemma AuthorizesIsInclusion(p: PolicyRecord, token: Ipv6Prefix)
    ensures Authorizes(p, token) <==>
      && token.IsAttestable()
      && exists i :: 0 <= i < |p.prefixes| && p.prefixes[i].IsAttestable() && AddrSet(token) <= AddrSet(p.prefixes[i])
  {
    hide Mask, SharesTop;
    forall i | 0 <= i < |p.prefixes|
      ensures Covers(p.prefixes[i], token) <==> p.prefixes[i].IsAttestable() && AddrSet(token) <= AddrSet(p.prefixes[i])
    {
      InclusionIsContainment(p.prefixes[i], token);
    }
  }

  lemma AuthorizesSubPrefixes(p: PolicyRecord, token: Ipv6Prefix, sub: Ipv6Prefix)
    requires Authorizes(p, token) && sub.IsAttestable() && AddrSet(sub) <= AddrSet(token)
    ensures Authorizes(p, sub)
  {
    hide Mask, SharesTop, Covers;
    AuthorizesIsInclusion(p, token);
    AuthorizesIsInclusion(p, sub);
  }

  lemma AuthorizesGrowsWithList(p: PolicyRecord, q: PolicyRecord, token: Ipv6Prefix)
    requires forall x :: x in p.prefixes ==> x in q.prefixes
    ensures Authorizes(p, token) ==> Authorizes(q, token)
  {
    hide Mask, SharesTop, Covers;
    if Authorizes(p, token) {
      var i :| 0 <= i < |p.prefixes| && Covers(p.prefixes[i], token);
      assert p.prefixes[i] in q.prefixes;
    }
  }

  // An enumeration of prefixes strictly inside the token's never authorizes the token.
  lemma NarrowNeverAuthorizesParent(p: PolicyRecord, token: Ipv6Prefix)
    requires forall i :: 0 <= i < |p.prefixes| ==> AddrSet(p.prefixes[i]) < AddrSet(token)
    ensures !Authorizes(p, token)
  {
    hide Mask, SharesTop;
    AuthorizesIsInclusion(p, token);
  }
}
