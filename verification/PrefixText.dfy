// Prefixes in presentation form (`FromStr` and `parse_decimal` in src/address.rs). The text
// form of an address is the standard library's and stays a parameter.
module PrefixText {
  import opened Common
  import opened Address
  import opened Text

  datatype AddressCodec = AddressCodec(parse: string -> Option<Addr>, format: Addr -> string)

  // What the address text is assumed to be: it reads back, and is made of hexadecimal
  // digits, colons and dots.
  ghost predicate Faithful(codec: AddressCodec) {
    forall a: Addr :: codec.parse(codec.format(a)) == Some(a) && IsAddressText(codec.format(a))
  }

  predicate IsAddressText(s: string) {
    s != "" && forall i :: 0 <= i < |s| ==> IsAlphanumeric(s[i]) || s[i] == ':' || s[i] == '.'
  }

  predicate AllDigits(s: string) {
    forall i :: 0 <= i < |s| ==> IsDigit(s[i])
  }

  function DigitValue(c: char): nat
    requires IsDigit(c)
  {
    c as int - '0' as int
  }

  function DecimalValue(s: string): nat
    requires AllDigits(s)
  {
    if s == "" then 0 else DecimalValue(s[..|s| - 1]) * 10 + DigitValue(s[|s| - 1])
  }

  // One to three digits, no sign, no leading zero, and at most 255.
  function ParseDecimal(s: string): Option<u8> {
    if s != "" && |s| <= 3 && AllDigits(s) && (|s| == 1 || s[0] != '0') then
      var n := DecimalValue(s);
      if n < 0x100 then Some(n) else None
    else None
  }

  function Digit(n: nat): (c: char)
    requires n < 10
    ensures IsDigit(c) && DigitValue(c) == n
  {
    '0' + n as char
  }

  function PrintDecimal(n: u8): string {
    if n < 10 then [Digit(n)]
    else if n < 100 then [Digit(n / 10), Digit(n % 10)]
    else [Digit(n / 100), Digit(n / 10 % 10), Digit(n % 10)]
  }

  // The decimal form is unique: parsing and printing are inverse both ways.
  lemma DecimalIsCanonical(s: string, n: u8)
    ensures ParseDecimal(s) == Some(n) <==> s == PrintDecimal(n)
  {
    if s == PrintDecimal(n) {
      DecimalReadsBack(n);
    } else if ParseDecimal(s) == Some(n) {
      DecimalOfShort(s);
    }
  }

  lemma DecimalReadsBack(n: u8)
    ensures ParseDecimal(PrintDecimal(n)) == Some(n)
  {
    DecimalOfShort(PrintDecimal(n));
  }

  lemma DecimalOfShort(s: string)
    requires s != "" && |s| <= 3 && AllDigits(s)
    ensures |s| == 1 ==> DecimalValue(s) == DigitValue(s[0])
    ensures |s| == 2 ==> DecimalValue(s) == DigitValue(s[0]) * 10 + DigitValue(s[1])
    ensures |s| == 3 ==> DecimalValue(s) == DigitValue(s[0]) * 100 + DigitValue(s[1]) * 10 + DigitValue(s[2])
    ensures forall i :: 0 <= i < |s| ==> DigitValue(s[i]) < 10 && s[i] == Digit(DigitValue(s[i]))
  {
    var init := s[..|s| - 1];
    assert DecimalValue("") == 0;
    if |s| > 1 {
      assert DecimalValue(init[..0]) == 0;
    }
  }

  function ParsePrefix(codec: AddressCodec, s: string): Option<Ipv6Prefix> {
    match SplitOnce(s, '/')
    case None => None
    case Some((address, length)) =>
      match (codec.parse(address), ParseDecimal(length))
      case (Some(a), Some(len)) => NewPrefix(a, len)
      case _ => None
  }

  function PrintPrefix(codec: AddressCodec, p: Ipv6Prefix): string {
    codec.format(p.addr) + ['/'] + PrintDecimal(p.len)
  }

  predicate IsPrefixText(s: string) {
    s != "" && forall i :: 0 <= i < |s| ==> IsAlphanumeric(s[i]) || s[i] in {':', '.', '/'}
  }

  lemma PrefixReadsBack(codec: AddressCodec, p: Ipv6Prefix)
    requires Faithful(codec)
    ensures ParsePrefix(codec, PrintPrefix(codec, p)) == Some(p)
    ensures IsPrefixText(PrintPrefix(codec, p))
  {
    assert IsAddressText(codec.format(p.addr));
    SplitOnceFirst(codec.format(p.addr), PrintDecimal(p.len), '/');
    DecimalReadsBack(p.len);
  }

  // `s` is address text without a slash, one slash, and the plain decimal length.
  ghost predicate IsTextOf(codec: AddressCodec, s: string, p: Ipv6Prefix) {
    exists a :: '/' !in a && codec.parse(a) == Some(p.addr) && s == a + ['/'] + PrintDecimal(p.len)
  }

  // Exactly such texts are read, and nothing else is.
  lemma PrefixTextIsExact(codec: AddressCodec, s: string, p: Ipv6Prefix)
    ensures ParsePrefix(codec, s) == Some(p) <==> IsTextOf(codec, s, p)
  {
    hide ParseDecimal, PrintDecimal;
    if ParsePrefix(codec, s) == Some(p) {
      var (a, length) := SplitOnce(s, '/').value;
      DecimalIsCanonical(length, p.len);
    } else if IsTextOf(codec, s, p) {
      var a :| '/' !in a && codec.parse(a) == Some(p.addr) && s == a + ['/'] + PrintDecimal(p.len);
      SplitOnceFirst(a, PrintDecimal(p.len), '/');
      DecimalIsCanonical(PrintDecimal(p.len), p.len);
    }
  }
}
