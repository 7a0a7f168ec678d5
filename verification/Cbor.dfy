// CBOR values (RFC 8949) as the decoder presents them, and the octets the encoder writes
// for the one structure this program encodes.
module Cbor {
  import opened Common
  import opened Bits

  // A data item. On the wire a bignum is a tagged byte string; `Folded` is the item after
  // the decoder has turned bignums into integers.
  datatype Value =
    | Integer(n: int)
    | Bytes(octets: Octets)
    | Text(text: string)
    | Array(items: seq<Value>)
    | Map(entries: seq<(Value, Value)>)
    | Tag(tag: u64, inner: Value)
    | Simple(code: nat)

  // The CBOR library: the item at the front of some octets and how many octets it took, and
  // which tagged byte strings it folds into integers.
  datatype Library = Library(
    read: seq<byte> -> Option<(Value, nat)>,
    fold: (u64, Octets) -> Option<int>)

  function Folded(lib: Library, v: Value): Value
    decreases v
  {
    match v
    case Tag(t, Bytes(b)) =>
      (match lib.fold(t, b)
       case Some(n) => Integer(n)
       case None => v)
    case Tag(t, inner) => Tag(t, Folded(lib, inner))
    case Array(items) => Array(seq(|items|, i requires 0 <= i < |items| => Folded(lib, items[i])))
    case Map(entries) =>
      Map(seq(|entries|, i requires 0 <= i < |entries| =>
        (Folded(lib, entries[i].0), Folded(lib, entries[i].1))))
    case _ => v
  }

  // No tagged byte string that folds, at any depth.
  predicate IsPlain(lib: Library, v: Value)
    decreases v
  {
    match v
    case Tag(t, Bytes(b)) => lib.fold(t, b).None?
    case Tag(_, inner) => IsPlain(lib, inner)
    case Array(items) => forall i :: 0 <= i < |items| ==> IsPlain(lib, items[i])
    case Map(entries) =>
      forall i :: 0 <= i < |entries| ==> IsPlain(lib, entries[i].0) && IsPlain(lib, entries[i].1)
    case _ => true
  }

  // Folding leaves none, and changes nothing where there is none: keys and values, elements and
  // tagged items alike.
  lemma {:induction false} FoldedIsPlain(lib: Library, v: Value)
    ensures IsPlain(lib, Folded(lib, v))
    ensures IsPlain(lib, v) ==> Folded(lib, v) == v
    decreases v
  {
    match v {
      case Tag(_, Bytes(_)) =>
      case Tag(_, inner) =>
        FoldedIsPlain(lib, inner);
      case Array(items) =>
        forall i | 0 <= i < |items|
          ensures IsPlain(lib, Folded(lib, items[i])) && (IsPlain(lib, items[i]) ==> Folded(lib, items[i]) == items[i])
        {
          FoldedIsPlain(lib, items[i]);
        }
        assert IsPlain(lib, v) ==> Folded(lib, v).items == items;
      case Map(entries) =>
        forall i | 0 <= i < |entries|
          ensures IsPlain(lib, Folded(lib, entries[i].0)) && IsPlain(lib, Folded(lib, entries[i].1))
          ensures IsPlain(lib, entries[i].0) ==> Folded(lib, entries[i].0) == entries[i].0
          ensures IsPlain(lib, entries[i].1) ==> Folded(lib, entries[i].1) == entries[i].1
        {
          FoldedIsPlain(lib, entries[i].0);
          FoldedIsPlain(lib, entries[i].1);
        }
        assert IsPlain(lib, v) ==> Folded(lib, v).entries == entries;
      case _ =>
    }
  }

  // ---- Big-endian numbers ----

  function BigEndian(n: nat, width: nat): (r: seq<byte>)
    ensures |r| == width
  {
    if width == 0 then [] else BigEndian(n / 0x100, width - 1) + [n % 0x100]
  }

  function FromBigEndian(s: seq<byte>): nat {
    if s == [] then 0 else FromBigEndian(s[..|s| - 1]) * 0x100 + s[|s| - 1]
  }

  lemma EightMoreBits(width: nat)
    ensures Pow2(8 * (width + 1)) == Pow2(8 * width) * 0x100
  {
    Pow2Literals();
    Pow2Add(8 * width, 8);
  }

  lemma {:induction false} BigEndianReadsBack(n: nat, width: nat)
    requires n < Pow2(8 * width)
    ensures FromBigEndian(BigEndian(n, width)) == n
  {
    if width > 0 {
      hide Pow2;
      EightMoreBits(width - 1);
      BigEndianReadsBack(n / 0x100, width - 1);
      assert BigEndian(n, width)[..width - 1] == BigEndian(n / 0x100, width - 1);
    }
  }

  lemma {:induction false} FromBigEndianWritesBack(s: seq<byte>)
    ensures FromBigEndian(s) < Pow2(8 * |s|)
    ensures BigEndian(FromBigEndian(s), |s|) == s
  {
    if s != [] {
      hide Pow2;
      var init := s[..|s| - 1];
      FromBigEndianWritesBack(init);
      EightMoreBits(|init|);
      assert s == init + [s[|s| - 1]];
    }
  }

  // ---- Item heads (RFC 8949, section 3.1) ----

  const MAJOR_BYTES: nat := 2
  const MAJOR_TEXT: nat := 3
  const MAJOR_ARRAY: nat := 4

  // The shortest head for a major type and an argument.
  function Head(major: nat, n: u64): seq<byte>
    requires major < 8
  {
    if n < 24 then [major * 32 + n]
    else if n < 0x100 then [major * 32 + 24] + BigEndian(n, 1)
    else if n < 0x1_0000 then [major * 32 + 25] + BigEndian(n, 2)
    else if n < 0x1_0000_0000 then [major * 32 + 26] + BigEndian(n, 4)
    else [major * 32 + 27] + BigEndian(n, 8)
  }

  // Reads a definite-length head: major type, argument, and the octets after it.
  function ReadHead(s: seq<byte>): Option<(nat, nat, seq<byte>)> {
    if s == [] then None
    else
      var major, info := s[0] / 32, s[0] % 32;
      if info < 24 then Some((major, info, s[1..]))
      else if info == 24 then ReadArgument(major, 1, s[1..])
      else if info == 25 then ReadArgument(major, 2, s[1..])
      else if info == 26 then ReadArgument(major, 4, s[1..])
      else if info == 27 then ReadArgument(major, 8, s[1..])
      else None
  }

  function ReadArgument(major: nat, width: nat, s: seq<byte>): Option<(nat, nat, seq<byte>)> {
    if |s| < width then None else Some((major, FromBigEndian(s[..width]), s[width..]))
  }

  lemma HeadReadsBack(major: nat, n: u64, rest: seq<byte>)
    requires major < 8
    ensures ReadHead(Head(major, n) + rest) == Some((major, n, rest))
  {
    hide BigEndian, Pow2, ReadArgument;
    Pow2Literals();
    if n < 24 {
      assert (Head(major, n) + rest)[1..] == rest;
    } else if n < 0x100 {
      ArgumentReadsBack(major, 24, n, 1, rest);
    } else if n < 0x1_0000 {
      ArgumentReadsBack(major, 25, n, 2, rest);
    } else if n < 0x1_0000_0000 {
      ArgumentReadsBack(major, 26, n, 4, rest);
    } else {
      ArgumentReadsBack(major, 27, n, 8, rest);
    }
  }

  lemma ArgumentReadsBack(major: nat, info: nat, n: nat, width: nat, rest: seq<byte>)
    requires major < 8 && info < 32 && n < Pow2(8 * width)
    ensures var s := [(major * 32 + info) as byte] + BigEndian(n, width) + rest;
      s[0] / 32 == major && s[0] % 32 == info && ReadArgument(major, width, s[1..]) == Some((major, n, rest))
  {
    var s := [(major * 32 + info) as byte] + BigEndian(n, width) + rest;
    assert s[1..] == BigEndian(n, width) + rest;
    BigEndianReadsBack(n, width);
  }

  // No other head says the same in as few octets.
  lemma HeadIsShortest(s: seq<byte>, major: nat, n: nat, rest: seq<byte>)
    requires ReadHead(s) == Some((major, n, rest))
    ensures major < 8 && n < 0x1_0000_0000_0000_0000
    ensures |Head(major, n)| + |rest| <= |s|
    ensures |Head(major, n)| + |rest| == |s| ==> s == Head(major, n) + rest
  {
    hide BigEndian, FromBigEndian, Pow2;
    Pow2Literals();
    var info := s[0] % 32;
    assert s[0] == major * 32 + info;
    assert s == [s[0]] + s[1..];
    if info >= 24 {
      var width := if info == 24 then 1 else if info == 25 then 2 else if info == 26 then 4 else 8;
      ArgumentIsShortest(major, width, s[1..], n, rest);
      assert s == [s[0]] + BigEndian(n, width) + rest;
    }
  }

  lemma ArgumentIsShortest(major: nat, width: nat, s: seq<byte>, n: nat, rest: seq<byte>)
    requires ReadArgument(major, width, s) == Some((major, n, rest))
    ensures n < Pow2(8 * width) && s == BigEndian(n, width) + rest
  {
    FromBigEndianWritesBack(s[..width]);
    assert s == s[..width] + s[width..];
  }

  // ---- The encoder, for the values this program writes ----

  predicate IsAscii(s: string) {
    forall i :: 0 <= i < |s| ==> s[i] < '\U{0080}'
  }

  function AsciiOctets(s: string): (r: seq<byte>)
    requires IsAscii(s)
    ensures |r| == |s|
  {
    seq(|s|, i requires 0 <= i < |s| => s[i] as int)
  }

  predicate Writable(v: Value) {
    match v
    case Bytes(_) => true
    case Text(s) => IsAscii(s) && |s| < 0x1_0000_0000_0000_0000
    case Array(items) => |items| < 0x1_0000_0000_0000_0000 && forall i :: 0 <= i < |items| ==> Writable(items[i])
    case _ => false
  }

  // Definite lengths and shortest heads throughout.
  function Encoded(v: Value): seq<byte>
    requires Writable(v)
    decreases v, 1
  {
    match v
    case Bytes(b) => Head(MAJOR_BYTES, |b|) + b
    case Text(s) => Head(MAJOR_TEXT, |s|) + AsciiOctets(s)
    case Array(items) => Head(MAJOR_ARRAY, |items|) + EncodedAll(items)
  }

  function EncodedAll(items: seq<Value>): seq<byte>
    requires forall i :: 0 <= i < |items| ==> Writable(items[i])
    decreases items, 0
  {
    if items == [] then [] else Encoded(items[0]) + EncodedAll(items[1..])
  }

  // ---- The Sig_structure of COSE_Sign1 (RFC 9052, section 4.4) ----

  const CONTEXT: string := "Signature1"

  function SigValue(protectedRaw: Octets, payload: Octets): (r: Value)
    ensures Writable(r)
  {
    Array([Text(CONTEXT), Bytes(protectedRaw), Bytes([]), Bytes(payload)])
  }

  function SigStructure(protectedRaw: Octets, payload: Octets): seq<byte> {
    Encoded(SigValue(protectedRaw, payload))
  }

  // Reads one definite-length string of the given major type.
  function ReadString(major: nat, s: seq<byte>): Option<(seq<byte>, seq<byte>)> {
    match ReadHead(s)
    case Some((m, n, rest)) => if m == major && n <= |rest| then Some((rest[..n], rest[n..])) else None
    case None => None
  }

  // Reads an array of one text and three byte strings (major types 4, 3 and 2), with nothing
  // after it.
  function ReadSigStructure(s: seq<byte>): Option<(seq<byte>, seq<byte>, seq<byte>, seq<byte>)> {
    match ReadHead(s)
    case Some((4, 4, s1)) =>
      (match ReadString(3, s1)
       case None => None
       case Some((context, s2)) =>
         match ReadString(2, s2)
         case None => None
         case Some((protectedRaw, s3)) =>
           match ReadString(2, s3)
           case None => None
           case Some((aad, s4)) =>
             match ReadString(2, s4)
             case None => None
             case Some((payload, s5)) => if s5 == [] then Some((context, protectedRaw, aad, payload)) else None)
    case _ => None
  }

  lemma StringReadsBack(major: nat, octets: Octets, rest: seq<byte>)
    requires major < 8
    ensures ReadString(major, (Head(major, |octets|) + octets) + rest) == Some((octets, rest))
  {
    HeadReadsBack(major, |octets|, octets + rest);
    assert Head(major, |octets|) + octets + rest == Head(major, |octets|) + (octets + rest);
  }

  lemma EncodedFour(a: Value, b: Value, c: Value, d: Value)
    requires Writable(Array([a, b, c, d]))
    ensures Writable(a) && Writable(b) && Writable(c) && Writable(d)
    ensures Encoded(Array([a, b, c, d])) ==
      Head(MAJOR_ARRAY, 4) + (Encoded(a) + (Encoded(b) + (Encoded(c) + (Encoded(d) + []))))
  {
    hide Head;
    var items := [a, b, c, d];
    assert Writable(items[0]) && Writable(items[1]) && Writable(items[2]) && Writable(items[3]);
    assert items[1..] == [b, c, d] && [b, c, d][1..] == [c, d] && [c, d][1..] == [d] && [d][1..] == [];
    assert EncodedAll([]) == [];
    assert EncodedAll([d]) == Encoded(d) + [];
    assert EncodedAll([c, d]) == Encoded(c) + EncodedAll([d]);
    assert EncodedAll([b, c, d]) == Encoded(b) + EncodedAll([c, d]);
  }

  // What is signed is the four-element array of RFC 9052, section 4.4.
  lemma SigStructureReadsBack(protectedRaw: Octets, payload: Octets)
    ensures ReadSigStructure(SigStructure(protectedRaw, payload)) ==
      Some((AsciiOctets("Signature1"), protectedRaw, [], payload))
  {
    hide Head, ReadString;
    var none: Octets := [];
    EncodedFour(Text(CONTEXT), Bytes(protectedRaw), Bytes(none), Bytes(payload));
    var s4 := Encoded(Bytes(payload)) + [];
    var s3 := Encoded(Bytes(none)) + s4;
    var s2 := Encoded(Bytes(protectedRaw)) + s3;
    var s1 := Encoded(Text(CONTEXT)) + s2;
    HeadReadsBack(MAJOR_ARRAY, 4, s1);
    StringReadsBack(MAJOR_TEXT, AsciiOctets(CONTEXT), s2);
    StringReadsBack(MAJOR_BYTES, protectedRaw, s3);
    StringReadsBack(MAJOR_BYTES, none, s4);
    StringReadsBack(MAJOR_BYTES, payload, []);
  }

  // And it is written in the one shortest way: any octets that read as these parts are longer,
  // or are these octets.
  lemma SigStructureIsShortest(s: seq<byte>, protectedRaw: Octets, payload: Octets)
    requires ReadSigStructure(s) == Some((AsciiOctets("Signature1"), protectedRaw, [], payload))
    ensures |SigStructure(protectedRaw, payload)| <= |s|
    ensures |SigStructure(protectedRaw, payload)| == |s| ==> s == SigStructure(protectedRaw, payload)
  {
    hide Head, ReadHead, AsciiOctets;
    var none: Octets := [];
    EncodedFour(Text(CONTEXT), Bytes(protectedRaw), Bytes(none), Bytes(payload));
    var (_, _, s1) := ReadHead(s).value;
    var (_, s2) := ReadString(3, s1).value;
    var (_, s3) := ReadString(2, s2).value;
    var (_, s4) := ReadString(2, s3).value;
    HeadIsShortest(s, 4, 4, s1);
    StringIsShortest(s1, 3, AsciiOctets(CONTEXT), s2);
    StringIsShortest(s2, 2, protectedRaw, s3);
    StringIsShortest(s3, 2, none, s4);
    StringIsShortest(s4, 2, payload, []);
  }

  lemma StringIsShortest(s: seq<byte>, major: nat, octets: seq<byte>, rest: seq<byte>)
    requires major < 8 && ReadString(major, s) == Some((octets, rest))
    ensures |octets| < 0x1_0000_0000_0000_0000
    ensures |Head(major, |octets|) + octets| + |rest| <= |s|
    ensures |Head(major, |octets|) + octets| + |rest| == |s| ==> s == Head(major, |octets|) + octets + rest
  {
    hide Head, ReadHead;
    var (_, n, after) := ReadHead(s).value;
    HeadIsShortest(s, major, n, after);
    assert after == octets + rest;
    assert Head(major, n) + (octets + rest) == Head(major, n) + octets + rest;
  }

  // Number octets are written most significant first.
  lemma {:induction false} BigEndianPlaces(n: nat, width: nat, i: nat)
    requires i < width
    ensures BigEndian(n, width)[i] == n / Pow2(8 * (width - 1 - i)) % 0x100
  {
    hide Pow2;
    if i < width - 1 {
      BigEndianPlaces(n / 0x100, width - 1, i);
      EightMoreBits(width - 2 - i);
      DivDiv(n, 0x100, Pow2(8 * (width - 2 - i)));
    } else {
      ShiftByNothing(n);
    }
  }

  lemma ShiftByNothing(n: nat)
    ensures n / Pow2(0) == n
  {
    DivModUnique(n, 1, n, 0);
  }

  // So the signed octets determine the protected bucket and the payload, octet for octet.
  lemma SigStructureInjective(p1: Octets, b1: Octets, p2: Octets, b2: Octets)
    ensures SigStructure(p1, b1) == SigStructure(p2, b2) <==> p1 == p2 && b1 == b2
  {
    hide SigStructure, ReadSigStructure;
    SigStructureReadsBack(p1, b1);
    SigStructureReadsBack(p2, b2);
  }
}
