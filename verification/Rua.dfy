// Report destinations (`valid_rua` in src/record.rs): mailto: dot-atom @ operator domain.
module Rua {
  import opened Common
  import opened Names
  import opened Tags
  import opened Text

  const MAILTO: string := "mailto:"

  // `atext` of RFC 5322, section 3.2.3.
  predicate IsAtext(c: char) {
    IsAlphanumeric(c) || c in "!#$%&'*+-/=?^_`{|}~"
  }

  predicate IsAtom(s: string) {
    s != "" && forall i :: 0 <= i < |s| ==> IsAtext(s[i])
  }

  function CountOf(s: string, c: char): nat {
    if s == "" then 0 else (if s[0] == c then 1 else 0) + CountOf(s[1..], c)
  }

  predicate ValidAddress(address: string) {
    && CountOf(address, '@') == 1
    && match SplitOnce(address, '@')
       case None => false
       case Some((local, domain)) =>
         && local != ""
         && (var atoms := Split(local, '.'); forall i :: 0 <= i < |atoms| ==> IsAtom(atoms[i]))
         && IsOperatorDomain(domain)
  }

  predicate ValidRua(value: string) {
    MAILTO <= value && ValidAddress(value[|MAILTO|..])
  }

  // `atext` by octet value.
  predicate IsAtextOctet(n: int) {
    || n in {33, 35, 36, 37, 38, 39, 42, 43, 45, 47, 61, 63}
    || 48 <= n <= 57 || 65 <= n <= 90 || 94 <= n <= 126
  }

  predicate IsAtomText(s: string) {
    s != "" && forall i :: 0 <= i < |s| ==> IsAtextOctet(s[i] as int)
  }

  lemma AtomIsByOctet(s: string)
    ensures IsAtom(s) <==> IsAtomText(s)
  {
    hide IsAtext, IsAtextOctet;
    forall i | 0 <= i < |s|
      ensures IsAtext(s[i]) <==> IsAtextOctet(s[i] as int)
    {
      AtextIsByOctet(s[i]);
    }
  }

  lemma AtextIsByOctet(c: char)
    ensures IsAtext(c) <==> IsAtextOctet(c as int)
  {
  }

  // dot-atom-text = 1*atext *("." 1*atext)
  ghost predicate IsDotAtom(s: string) {
    exists atoms: seq<string> :: |atoms| >= 1 && AllAtoms(atoms) && s == Join(atoms, '.')
  }

  predicate AllAtoms(atoms: seq<string>) {
    forall i :: 0 <= i < |atoms| ==> IsAtomText(atoms[i])
  }

  lemma DotAtomSplits(s: string)
    ensures IsDotAtom(s) <==> AllAtoms(Split(s, '.'))
    ensures IsDotAtom(s) ==> s != "" && '@' !in s
  {
    hide Split;
    JoinSplit(s, '.');
    if AllAtoms(Split(s, '.')) {
      AtomsJoin(Split(s, '.'));
    }
    if IsDotAtom(s) {
      var atoms :| |atoms| >= 1 && AllAtoms(atoms) && s == Join(atoms, '.');
      AtomsJoin(atoms);
    }
  }

  lemma AtomsJoin(atoms: seq<string>)
    requires |atoms| >= 1 && AllAtoms(atoms)
    ensures Split(Join(atoms, '.'), '.') == atoms
    ensures Join(atoms, '.') != "" && '@' !in Join(atoms, '.')
  {
    hide IsAtomText, Split;
    forall i | 0 <= i < |atoms|
      ensures '.' !in atoms[i] && '@' !in atoms[i] && atoms[i] != ""
    {
      AtomAlphabet(atoms[i]);
    }
    SplitJoin(atoms, '.');
    JoinChars(atoms, '.');
    assert atoms[0] != "";
  }

  lemma AtomAlphabet(s: string)
    requires IsAtomText(s)
    ensures '.' !in s && '@' !in s && s != ""
  {
    hide IsAtextOctet;
    AtextExcludes();
  }

  lemma AtextExcludes()
    ensures !IsAtextOctet('.' as int) && !IsAtextOctet('@' as int)
  {
  }

  lemma {:induction false} CountConcat(a: string, b: string, c: char)
    ensures CountOf(a + b, c) == CountOf(a, c) + CountOf(b, c)
  {
    if a == "" {
      assert a + b == b;
    } else {
      assert (a + b)[1..] == a[1..] + b;
      CountConcat(a[1..], b, c);
    }
  }

  lemma {:induction false} CountIsAbsence(s: string, c: char)
    ensures CountOf(s, c) == 0 <==> c !in s
  {
    if s != "" {
      CountIsAbsence(s[1..], c);
      assert s == [s[0]] + s[1..];
    }
  }

  lemma AtomsAreByOctet(atoms: seq<string>)
    ensures AllAtoms(atoms) <==> forall i :: 0 <= i < |atoms| ==> IsAtom(atoms[i])
  {
    hide IsAtom, IsAtomText;
    forall i | 0 <= i < |atoms|
      ensures IsAtom(atoms[i]) <==> IsAtomText(atoms[i])
    {
      AtomIsByOctet(atoms[i]);
    }
  }

  lemma AddressGrammar(local: string, domain: string)
    requires '@' !in local
    ensures ValidAddress(local + ['@'] + domain) <==> IsDotAtom(local) && IsOperatorDomain(domain)
  {
    hide IsAtom, IsAtomText;
    SplitOnceFirst(local, domain, '@');
    DotAtomSplits(local);
    AtomsAreByOctet(Split(local, '.'));
    CountConcat(local + ['@'], domain, '@');
    CountConcat(local, ['@'], '@');
    CountIsAbsence(local, '@');
    CountIsAbsence(domain, '@');
    if IsOperatorDomain(domain) {
      DomainAlphabet(domain);
      assert !IsLdh('@');
    }
  }

  // Accepted destinations are exactly the grammar's, and the two halves are determined.
  lemma RuaGrammar(value: string)
    ensures ValidRua(value) <==> exists local, domain :: IsRuaOf(value, local, domain)
    ensures forall l1, d1, l2, d2 :: IsRuaOf(value, l1, d1) && IsRuaOf(value, l2, d2) ==> l1 == l2 && d1 == d2
  {
    hide ValidAddress, IsOperatorDomain, IsDotAtom;
    forall local, domain | IsRuaOf(value, local, domain)
      ensures ValidRua(value) && SplitOnce(value[|MAILTO|..], '@') == Some((local, domain))
    {
      assert value[|MAILTO|..] == local + ['@'] + domain;
      DotAtomSplits(local);
      AddressGrammar(local, domain);
      SplitOnceFirst(local, domain, '@');
    }
    if ValidRua(value) {
      var address := value[|MAILTO|..];
      ValidAddressSplits(address);
      var (local, domain) := SplitOnce(address, '@').value;
      AddressGrammar(local, domain);
      assert value == MAILTO + (local + ['@'] + domain);
      assert IsRuaOf(value, local, domain);
    }
  }

  ghost predicate IsRuaOf(value: string, local: string, domain: string) {
    value == "mailto:" + (local + ['@'] + domain) && IsDotAtom(local) && IsOperatorDomain(domain)
  }

  lemma ValidAddressSplits(address: string)
    ensures ValidAddress(address) ==> SplitOnce(address, '@').Some?
  {
  }

  // So every accepted destination can stand as a tag value.
  lemma RuaIsTagValue(value: string)
    requires ValidRua(value)
    ensures IsValue(value)
  {
    hide ValidRua, IsOperatorDomain, IsDotAtom;
    RuaGrammar(value);
    var local, domain :| IsRuaOf(value, local, domain);
    DotAtomChars(local);
    DomainChars(domain);
    assert AllRuaChars(MAILTO) && AllRuaChars(['@']);
    forall i | 0 <= i < |value|
      ensures IsRuaChar(value[i])
    {
      var parts := MAILTO + (local + ['@'] + domain);
      assert parts[i] in MAILTO || parts[i] in local || parts[i] in ['@'] || parts[i] in domain;
    }
    forall i | 0 <= i < |value|
      ensures Permitted(value[i]) && !IsBlank(value[i]) && value[i] != ';'
    {
      RuaCharIsPlain(value[i]);
    }
  }

  predicate IsRuaChar(c: char) {
    IsAtext(c) || c in {'.', ':', '@'}
  }

  predicate AllRuaChars(s: string) {
    forall c :: c in s ==> IsRuaChar(c)
  }

  lemma RuaCharIsPlain(c: char)
    requires IsRuaChar(c)
    ensures Permitted(c) && !IsBlank(c) && c != ';'
  {
  }

  lemma DotAtomChars(s: string)
    requires IsDotAtom(s)
    ensures AllRuaChars(s)
  {
    hide IsAtext;
    var atoms :| |atoms| >= 1 && AllAtoms(atoms) && s == Join(atoms, '.');
    JoinChars(atoms, '.');
    forall c | c in s
      ensures IsRuaChar(c)
    {
      if c != '.' {
        var i :| 0 <= i < |atoms| && c in atoms[i];
        AtomIsByOctet(atoms[i]);
      }
    }
  }

  lemma DomainChars(s: string)
    requires IsOperatorDomain(s)
    ensures AllRuaChars(s)
  {
    hide IsOperatorDomain;
    DomainAlphabet(s);
    assert '-' in "!#$%&'*+-/=?^_`{|}~";
  }
}
