// The names a token can steer a lookup to: operator domains (src/payload.rs), selectors
// (src/token.rs) and the record names built from them (src/lib.rs).
module Names {
  import opened Common
  import opened Text

  predicate IsLdh(c: char) {
    IsAlphanumeric(c) || c == '-'
  }

  predicate AllLdh(s: string) {
    forall i :: 0 <= i < |s| ==> IsLdh(s[i])
  }

  predicate IsLabel(part: string) {
    && part != "" && |part| <= 63
    && part[0] != '-' && part[|part| - 1] != '-'
    && AllLdh(part)
  }

  // The length test is on UTF-8 octets; a string that is not ASCII is refused either way.
  predicate IsOperatorDomain(s: string) {
    && s != "" && |s| <= 253
    && (forall i :: 0 <= i < |s| ==> s[i] < '\U{0080}')
    && var labels := Split(s, '.');
       forall i :: 0 <= i < |labels| ==> IsLabel(labels[i])
  }

  function AsText(octets: seq<byte>): (r: string)
    ensures |r| == |octets|
  {
    seq(|octets|, i requires 0 <= i < |octets| => octets[i] as char)
  }

  function SelectorFromKid(kid: seq<byte>): Option<string> {
    var text := AsText(kid);
    if kid == [] || |kid| > 63 then None
    else if text[0] == '-' || text[|text| - 1] == '-' then None
    else if AllLdh(text) then Some(Lower(text))
    else None
  }

  function KeyRecordName(selector: string, operator: string): string {
    selector + "._sworn." + operator
  }

  function PolicyRecordName(operator: string): string {
    "_prefixes._sworn." + operator
  }

  // The domain test is a test of the labels and the length, and of nothing else.
  lemma DomainIsItsLabels(s: string)
    ensures IsOperatorDomain(s) <==> |s| <= 253 && forall part :: part in Split(s, '.') ==> IsLabel(part)
  {
    var labels := Split(s, '.');
    if forall i :: 0 <= i < |labels| ==> IsLabel(labels[i]) {
      assert IsLabel(labels[0]);
      LabelsAreAscii(s);
    }
  }

  lemma LabelsAreAscii(s: string)
    requires var labels := Split(s, '.'); forall i :: 0 <= i < |labels| ==> IsLabel(labels[i])
    ensures forall i :: 0 <= i < |s| ==> s[i] < '\U{0080}'
    ensures forall c :: c in s ==> c == '.' || IsLdh(c)
  {
    hide Split;
    var labels := Split(s, '.');
    forall c | c in s
      ensures c == '.' || IsLdh(c)
    {
      if c != '.' {
        SplitChars(s, '.', c);
        var j :| 0 <= j < |labels| && c in labels[j];
        var k :| 0 <= k < |labels[j]| && labels[j][k] == c;
        assert IsLabel(labels[j]);
      }
    }
    forall i | 0 <= i < |s|
      ensures s[i] < '\U{0080}'
    {
      assert s[i] in s;
    }
  }

  lemma DomainAlphabet(s: string)
    requires IsOperatorDomain(s)
    ensures forall c :: c in s ==> c == '.' || IsLdh(c)
  {
    LabelsAreAscii(s);
  }

  // A label of RFC 5890, section 2.3.1, by octet values: 1 to 63 letters, digits and hyphens,
  // with no hyphen at either end.
  ghost predicate IsLdhLabel(part: string) {
    && 1 <= |part| <= 63
    && forall i :: 0 <= i < |part| ==>
         var n := part[i] as int;
         48 <= n <= 57 || 65 <= n <= 90 || 97 <= n <= 122 || (n == 45 && 0 < i < |part| - 1)
  }

  lemma LabelGrammar(part: string)
    ensures IsLabel(part) <==> IsLdhLabel(part)
  {
    if IsLdhLabel(part) {
      forall i | 0 <= i < |part|
        ensures IsLdh(part[i])
      {
      }
    }
    if IsLabel(part) {
      forall i | 0 <= i < |part|
        ensures var n := part[i] as int;
          48 <= n <= 57 || 65 <= n <= 90 || 97 <= n <= 122 || (n == 45 && 0 < i < |part| - 1)
      {
        assert IsLdh(part[i]);
      }
    }
  }

  // So a domain is 1 to 253 octets of such labels with single dots between them.
  lemma DomainGrammar(s: string)
    ensures IsOperatorDomain(s) <==>
      |s| <= 253 && exists parts: seq<string> :: |parts| >= 1 && AllLdhLabels(parts) && s == Join(parts, '.')
  {
    hide IsOperatorDomain, IsLabel, IsLdhLabel, Split;
    DomainIsItsLabels(s);
    JoinSplit(s, '.');
    forall part
      ensures IsLabel(part) <==> IsLdhLabel(part)
      ensures IsLdhLabel(part) ==> '.' !in part
    {
      LabelGrammar(part);
      NoDotInLabel(part);
    }
    if IsOperatorDomain(s) {
      assert AllLdhLabels(Split(s, '.'));
    } else if exists parts: seq<string> :: |parts| >= 1 && AllLdhLabels(parts) && s == Join(parts, '.') {
      var parts: seq<string> :| |parts| >= 1 && AllLdhLabels(parts) && s == Join(parts, '.');
      SplitJoin(parts, '.');
    }
  }

  ghost predicate AllLdhLabels(parts: seq<string>) {
    forall part :: part in parts ==> IsLdhLabel(part)
  }

  lemma NoDotInLabel(part: string)
    ensures IsLdhLabel(part) ==> '.' !in part
  {
  }

  // Two names joined by a dot form a domain exactly when each is one and the whole fits.
  lemma DomainConcat(a: string, b: string)
    ensures IsOperatorDomain(a + "." + b) <==>
      IsOperatorDomain(a) && IsOperatorDomain(b) && |a| + 1 + |b| <= 253
  {
    DomainIsItsLabels(a);
    DomainIsItsLabels(b);
    DomainIsItsLabels(a + "." + b);
    SplitConcat(a, b, '.');
    var xs, ys := Split(a, '.'), Split(b, '.');
    assert forall x :: x in xs + ys <==> x in xs || x in ys;
  }

  lemma LowerKeepsLabel(part: string)
    ensures IsLabel(Lower(part)) <==> IsLabel(part)
  {
    forall i | 0 <= i < |part|
      ensures IsLdh(Lower(part)[i]) <==> IsLdh(part[i])
      ensures Lower(part)[i] == '-' <==> part[i] == '-'
    {
      assert Lower(part)[i] == LowerChar(part[i]);
    }
  }

  function LowerAll(parts: seq<string>): (r: seq<string>)
    ensures |r| == |parts|
  {
    seq(|parts|, i requires 0 <= i < |parts| => Lower(parts[i]))
  }

  lemma {:induction false} LowerSplits(s: string)
    ensures Split(Lower(s), '.') == LowerAll(Split(s, '.'))
  {
    if s == "" {
      assert Lower("") == "";
    } else {
      LowerSplits(s[1..]);
      assert Lower(s)[0] == LowerChar(s[0]) && Lower(s)[1..] == Lower(s[1..]);
      LowerExtend(s[0], Split(s[1..], '.'));
    }
  }

  lemma LowerCharKeepsDot(c: char)
    ensures LowerChar(c) == '.' <==> c == '.'
  {
  }

  lemma LowerExtend(c: char, parts: seq<string>)
    requires |parts| >= 1
    ensures Extend(LowerChar(c), LowerAll(parts), '.') == LowerAll(Extend(c, parts, '.'))
  {
    hide LowerChar;
    LowerCharKeepsDot(c);
    assert Lower("") == "";
    assert Lower([c] + parts[0]) == [LowerChar(c)] + Lower(parts[0]);
  }

  lemma LowerKeepsDomain(s: string)
    ensures IsOperatorDomain(Lower(s)) <==> IsOperatorDomain(s)
  {
    DomainIsItsLabels(s);
    DomainIsItsLabels(Lower(s));
    LowerSplits(s);
    var labels := Split(s, '.');
    forall i | 0 <= i < |labels|
      ensures IsLabel(Split(Lower(s), '.')[i]) <==> IsLabel(labels[i])
    {
      LowerKeepsLabel(labels[i]);
    }
  }

  lemma LabelIsDomain(part: string)
    requires IsLabel(part)
    ensures IsOperatorDomain(part) && '.' !in part
  {
    assert !IsLdh('.');
    SplitFree(part, '.');
    DomainIsItsLabels(part);
  }

  // A key identifier is a selector exactly when it is a domain of one label.
  lemma SelectorIsOneLabelDomain(kid: seq<byte>)
    ensures SelectorFromKid(kid).Some? <==> '.' !in AsText(kid) && IsOperatorDomain(AsText(kid))
    ensures SelectorFromKid(kid).Some? ==>
      SelectorFromKid(kid).value == Lower(AsText(kid)) && IsLabel(SelectorFromKid(kid).value)
  {
    var text := AsText(kid);
    DomainIsItsLabels(text);
    if '.' !in text {
      SplitFree(text, '.');
      assert IsOperatorDomain(text) <==> IsLabel(text) by {
        assert IsLabel([text][0]) <==> IsLabel(text);
      }
    }
    LowerKeepsLabel(text);
  }

  // The key record name determines the selector and the operator, and is never a policy name.
  lemma KeyRecordNameInjective(s1: string, o1: string, s2: string, o2: string)
    requires IsLabel(s1) && IsLabel(s2)
    ensures KeyRecordName(s1, o1) == KeyRecordName(s2, o2) <==> s1 == s2 && o1 == o2
    ensures KeyRecordName(s1, o1) != PolicyRecordName(o2)
  {
    assert KeyRecordName(s1, o1) == s1 + ['.'] + ("_sworn." + o1);
    assert KeyRecordName(s2, o2) == s2 + ['.'] + ("_sworn." + o2);
    assert PolicyRecordName(o2) == "_prefixes" + ['.'] + ("_sworn." + o2);
    SplitOnceFirst(s1, "_sworn." + o1, '.');
    SplitOnceFirst(s2, "_sworn." + o2, '.');
    SplitOnceFirst("_prefixes", "_sworn." + o2, '.');
    assert ("_sworn." + o1)[7..] == o1 && ("_sworn." + o2)[7..] == o2;
    assert !IsLdh("_prefixes"[0]);
  }

  // The records asked for: the key record one label above `_sworn` and the operator's labels,
  // the policy record under a label of its own.
  lemma RecordNameLabels(selector: string, operator: string)
    requires '.' !in selector
    ensures Split(KeyRecordName(selector, operator), '.') == [selector, "_sworn"] + Split(operator, '.')
    ensures Split(PolicyRecordName(operator), '.') == ["_prefixes", "_sworn"] + Split(operator, '.')
  {
    hide Split;
    assert KeyRecordName(selector, operator) == selector + ['.'] + ("_sworn" + ['.'] + operator);
    assert PolicyRecordName(operator) == "_prefixes" + ['.'] + ("_sworn" + ['.'] + operator);
    SplitConcat(selector, "_sworn" + ['.'] + operator, '.');
    SplitConcat("_prefixes", "_sworn" + ['.'] + operator, '.');
    SplitConcat("_sworn", operator, '.');
    SplitFree(selector, '.');
    SplitFree("_prefixes", '.');
    SplitFree("_sworn", '.');
  }
}
