// IPv6 prefix arithmetic (src/address.rs): addresses are naturals below 2^128, and a
// prefix means an aligned interval of them.
module Address {
  import opened Common
  import opened Bits

  const U128_MAX: nat := 0xFFFF_FFFF_FFFF_FFFF_FFFF_FFFF_FFFF_FFFF

  type Addr = x: int | 0 <= x <= U128_MAX

  const MIN_PREFIX_LEN: u8 := 32
  const MAX_PREFIX_LEN: u8 := 64

  const GLOBAL_UNICAST: Ipv6Prefix := Prefix(0x2000_0000_0000_0000_0000_0000_0000_0000, 3)
  const TEREDO: Ipv6Prefix := Prefix(0x2001_0000_0000_0000_0000_0000_0000_0000, 32)
  const SIX_TO_FOUR: Ipv6Prefix := Prefix(0x2002_0000_0000_0000_0000_0000_0000_0000, 16)
  const IPV4_MAPPED: Ipv6Prefix := Prefix(0x0000_0000_0000_0000_0000_FFFF_0000_0000, 96)
  const IPV4_COMPATIBLE: Ipv6Prefix := Prefix(0x0000_0000_0000_0000_0000_0000_0000_0000, 96)
  const NAT64: Ipv6Prefix := Prefix(0x0064_FF9B_0000_0000_0000_0000_0000_0000, 96)
  const NAT64_LOCAL: Ipv6Prefix := Prefix(0x0064_FF9B_0001_0000_0000_0000_0000_0000, 48)

  const INELIGIBLE_SOURCE_RANGES: seq<Ipv6Prefix> :=
    [IPV4_MAPPED, IPV4_COMPATIBLE, NAT64, NAT64_LOCAL, TEREDO, SIX_TO_FOUR]

  // The length is at most 128 in every prefix the constructor hands out.
  type Ipv6Prefix = p: RawPrefix | p.len <= 128 witness Prefix(0, 0)

  datatype RawPrefix = Prefix(addr: Addr, len: u8) {
    predicate IsCanonical() {
      Mask(addr, len) == addr
    }

    predicate Contains(a: Addr) {
      Mask(a, len) == Mask(addr, len)
    }

    predicate Overlaps(other: RawPrefix) {
      var shorter := if len <= other.len then len else other.len;
      Mask(addr, shorter) == Mask(other.addr, shorter)
    }

    predicate IsAttestable() {
      && IsCanonical()
      && MIN_PREFIX_LEN <= len <= MAX_PREFIX_LEN
      && GLOBAL_UNICAST.Contains(addr)
      && !Overlaps(TEREDO)
      && !Overlaps(SIX_TO_FOUR)
    }
  }

  function NewPrefix(addr: Addr, len: u8): Option<Ipv6Prefix> {
    if len > 128 then None else Some(Prefix(addr, len))
  }

  // Clears every bit beyond `len`: `bits & !(u128::MAX >> len)`, with the shift guarded.
  function Mask(addr: Addr, len: u8): Addr {
    var keep := if len >= 128 then U128_MAX else U128_MAX - Shr(U128_MAX, len);
    And(addr, keep)
  }

  predicate IsEligibleSource(addr: Addr) {
    && GLOBAL_UNICAST.Contains(addr)
    && !exists i :: 0 <= i < |INELIGIBLE_SOURCE_RANGES| && INELIGIBLE_SOURCE_RANGES[i].Contains(addr)
  }

  // ---- What a prefix means ----

  // The top `len` bits.
  function Top(a: Addr, len: u8): nat
    requires len <= 128
  {
    Shr(a, 128 - len)
  }

  predicate SharesTop(p: Ipv6Prefix, a: Addr) {
    Top(a, p.len) == Top(p.addr, p.len)
  }

  // The addresses of a prefix: those that agree with it in its top `len` bits.
  ghost function AddrSet(p: Ipv6Prefix): iset<Addr> {
    iset a: Addr | SharesTop(p, a)
  }

  function Size(len: u8): nat
    requires len <= 128
  {
    Pow2(128 - len)
  }

  function Start(p: Ipv6Prefix): nat {
    RoundDown(p.addr, Size(p.len))
  }

  // That is an aligned interval of 2^(128-len) addresses.
  lemma AddrSetIsInterval(p: Ipv6Prefix, a: Addr)
    ensures a in AddrSet(p) <==> Start(p) <= a < Start(p) + Size(p.len)
    ensures Start(p) == Size(p.len) * Top(p.addr, p.len)
  {
    hide Shr, Pow2;
    ShrDivides(a, 128 - p.len);
    ShrDivides(p.addr, 128 - p.len);
    SameBlock(a, p.addr, Size(p.len));
    SameBlock(p.addr, a, Size(p.len));
  }

  lemma KeepMaskMeaning(len: u8)
    requires len <= 128
    ensures U128_MAX - Shr(U128_MAX, len) == Pow2(128) - Size(len)
  {
    hide Quot, Pow2, Shr;
    Pow2Literals();
    Pow2Add(len, 128 - len);
    KeepMask(U128_MAX, Pow2(len), Size(len));
    ShrDivides(U128_MAX, len);
  }

  lemma MaskRoundsDown(a: Addr, len: u8)
    ensures len <= 128 ==> Mask(a, len) == RoundDown(a, Size(len))
    ensures len >= 128 ==> Mask(a, len) == a
  {
    hide And, RoundDown, Pow2, Shr;
    Pow2Literals();
    if len >= 128 {
      AndAllOnes(a, 128);
      RoundDownToOne(a);
    } else {
      KeepMaskMeaning(len);
      AndKeepsHigh(a, 128 - len, 128);
    }
  }

  lemma MaskIsTop(a: Addr, b: Addr, len: u8)
    requires len <= 128
    ensures Mask(a, len) == Mask(b, len) <==> Top(a, len) == Top(b, len)
  {
    hide Mask, Shr, Pow2, RoundDown, Quot;
    MaskRoundsDown(a, len);
    MaskRoundsDown(b, len);
    ShrDivides(a, 128 - len);
    ShrDivides(b, 128 - len);
    SameBlock(a, b, Size(len));
  }

  lemma ContainsIsMembership(p: Ipv6Prefix, a: Addr)
    ensures p.Contains(a) <==> a in AddrSet(p)
  {
    hide Mask, Top;
    MaskIsTop(a, p.addr, p.len);
  }

  lemma TopNests(a: Addr, m: u8, n: u8)
    requires m <= n <= 128
    ensures Top(a, m) == Shr(Top(a, n), n - m)
  {
    hide Shr;
    ShrTwice(a, 128 - n, n - m);
    assert (128 - n) + (n - m) == 128 - m;
  }

  lemma SizeSplits(m: u8, n: u8)
    requires m <= n <= 128
    ensures Size(m) == Size(n) * Pow2(n - m)
  {
    Pow2Add(128 - n, n - m);
    assert (128 - n) + (n - m) == 128 - m;
  }

  lemma MaskOfMask(a: Addr, m: u8, n: u8)
    ensures Mask(Mask(a, m), n) == Mask(a, if m <= n then m else n)
  {
    hide Mask, Pow2;
    MaskRoundsDown(a, m);
    MaskRoundsDown(a, n);
    MaskRoundsDown(Mask(a, m), n);
    if m <= n <= 128 {
      SizeSplits(m, n);
      RoundDownTwice(a, Size(n), Pow2(n - m));
    } else if n < m <= 128 {
      SizeSplits(n, m);
      RoundDownTwice(a, Size(m), Pow2(m - n));
    }
  }

  lemma MaskedIsCanonical(a: Addr, len: u8)
    requires len <= 128
    ensures Prefix(Mask(a, len), len).IsCanonical()
    ensures AddrSet(Prefix(Mask(a, len), len)) == AddrSet(Prefix(a, len))
    ensures a in AddrSet(Prefix(Mask(a, len), len))
  {
    hide Mask, Shr;
    MaskOfMask(a, len, len);
    MaskIsTop(Mask(a, len), a, len);
  }

  // Any two prefixes are nested or disjoint, and the length says which way they nest.
  lemma NestedOrDisjoint(p: Ipv6Prefix, q: Ipv6Prefix)
    requires p.len <= q.len
    ensures p.Contains(q.addr) ==> AddrSet(q) <= AddrSet(p)
    ensures !p.Contains(q.addr) ==> AddrSet(p) * AddrSet(q) == iset{}
  {
    hide Mask, Top;
    ContainsIsMembership(p, q.addr);
    TopNests(q.addr, p.len, q.len);
    forall a | a in AddrSet(q)
      ensures a in AddrSet(p) <==> p.Contains(q.addr)
    {
      TopNests(a, p.len, q.len);
    }
  }

  lemma OwnAddress(p: Ipv6Prefix)
    ensures p.addr in AddrSet(p)
  {
  }

  lemma OverlapsIsIntersection(p: Ipv6Prefix, q: Ipv6Prefix)
    ensures p.Overlaps(q) <==> AddrSet(p) * AddrSet(q) != iset{}
  {
    hide Mask, SharesTop;
    OwnAddress(p);
    OwnAddress(q);
    if p.len <= q.len {
      NestedOrDisjoint(p, q);
    } else {
      NestedOrDisjoint(q, p);
    }
    if p.Overlaps(q) {
      assert (if p.len <= q.len then q.addr else p.addr) in AddrSet(p) * AddrSet(q);
    }
  }

  lemma EndsOf(p: Ipv6Prefix) returns (first: Addr, last: Addr)
    ensures first in AddrSet(p) && last in AddrSet(p) && last - first == Size(p.len) - 1
  {
    hide Mask, RoundDown, Quot, Pow2, AddrSet, Top;
    Pow2Literals();
    SizeSplits(0, p.len);
    BlockFits(p.addr, Size(p.len), Pow2(p.len));
    first := Start(p);
    last := Start(p) + Size(p.len) - 1;
    AddrSetIsInterval(p, first);
    AddrSetIsInterval(p, last);
  }

  // Inclusion of address sets is exactly the length test and the address test.
  lemma InclusionIsContainment(p: Ipv6Prefix, q: Ipv6Prefix)
    ensures AddrSet(q) <= AddrSet(p) <==> p.len <= q.len && p.Contains(q.addr)
  {
    hide Mask, Quot, RoundDown, SharesTop, Top;
    if p.len <= q.len {
      NestedOrDisjoint(p, q);
      OwnAddress(q);
      ContainsIsMembership(p, q.addr);
    } else {
      Pow2Grows(128 - p.len, 128 - q.len);
      var first, last := EndsOf(q);
      AddrSetIsInterval(p, first);
      AddrSetIsInterval(p, last);
    }
  }

  // ---- Attestable prefixes and eligible sources ----

  lemma TopBitsAre001(a: Addr)
    ensures GLOBAL_UNICAST.Contains(a) <==>
      0x2000_0000_0000_0000_0000_0000_0000_0000 <= a < 0x4000_0000_0000_0000_0000_0000_0000_0000
  {
    hide Mask, Shr;
    ContainsIsMembership(GLOBAL_UNICAST, a);
    AddrSetIsInterval(GLOBAL_UNICAST, a);
    Pow2Literals();
    Pow2Add(125, 3);
    assert Size(3) == 0x2000_0000_0000_0000_0000_0000_0000_0000;
  }

  lemma TransitionRanges(a: Addr)
    ensures TEREDO.Contains(a) <==>
      0x2001_0000_0000_0000_0000_0000_0000_0000 <= a < 0x2001_0001_0000_0000_0000_0000_0000_0000
    ensures SIX_TO_FOUR.Contains(a) <==>
      0x2002_0000_0000_0000_0000_0000_0000_0000 <= a < 0x2003_0000_0000_0000_0000_0000_0000_0000
  {
    hide Mask, Pow2, Shr;
    ContainsIsMembership(TEREDO, a);
    ContainsIsMembership(SIX_TO_FOUR, a);
    AddrSetIsInterval(TEREDO, a);
    AddrSetIsInterval(SIX_TO_FOUR, a);
    Pow2Literals();
    Pow2Add(64, 32);
    Pow2Add(96, 16);
    assert Size(32) == 0x1_0000_0000_0000_0000_0000_0000;
    assert Size(16) == 0x1_0000_0000_0000_0000_0000_0000_0000;
  }

  // The six-range scan means: in 2000::/3, not Teredo, not 6to4. The other four ranges are redundant.
  lemma EligibleSourceMeaning(a: Addr)
    ensures IsEligibleSource(a) <==> a in AddrSet(GLOBAL_UNICAST) && a !in AddrSet(TEREDO) && a !in AddrSet(SIX_TO_FOUR)
    ensures a in AddrSet(GLOBAL_UNICAST) ==> forall i :: 0 <= i < 4 ==> !INELIGIBLE_SOURCE_RANGES[i].Contains(a)
  {
    hide Mask, SharesTop;
    ContainsIsMembership(GLOBAL_UNICAST, a);
    ContainsIsMembership(TEREDO, a);
    ContainsIsMembership(SIX_TO_FOUR, a);
    assert INELIGIBLE_SOURCE_RANGES[4] == TEREDO && INELIGIBLE_SOURCE_RANGES[5] == SIX_TO_FOUR;
    if GLOBAL_UNICAST.Contains(a) {
      forall i | 0 <= i < 4
        ensures !INELIGIBLE_SOURCE_RANGES[i].Contains(a)
      {
        var r := INELIGIBLE_SOURCE_RANGES[i];
        assert r in [IPV4_MAPPED, IPV4_COMPATIBLE, NAT64, NAT64_LOCAL];
        TopBitsAre001(r.addr);
        ContainsIsMembership(r, a);
        assert a in AddrSet(GLOBAL_UNICAST) * AddrSet(r) <==> r.Contains(a);
        NestedOrDisjoint(GLOBAL_UNICAST, r);
      }
    }
  }

  lemma AttestableMeaning(p: Ipv6Prefix)
    ensures p.IsAttestable() <==>
      && Start(p) == p.addr
      && 32 <= p.len <= 64
      && AddrSet(p) <= AddrSet(GLOBAL_UNICAST)
      && AddrSet(p) * AddrSet(TEREDO) == iset{}
      && AddrSet(p) * AddrSet(SIX_TO_FOUR) == iset{}
  {
    hide Mask, SharesTop;
    MaskRoundsDown(p.addr, p.len);
    InclusionIsContainment(GLOBAL_UNICAST, p);
    OverlapsIsIntersection(p, TEREDO);
    OverlapsIsIntersection(p, SIX_TO_FOUR);
  }

  lemma AttestableMeansEligible(p: Ipv6Prefix, a: Addr)
    requires p.IsAttestable() && p.Contains(a)
    ensures IsEligibleSource(a)
  {
    hide Mask, SharesTop;
    ContainsIsMembership(p, a);
    assert a in AddrSet(p) * AddrSet(TEREDO) <==> a in AddrSet(TEREDO);
    assert a in AddrSet(p) * AddrSet(SIX_TO_FOUR) <==> a in AddrSet(SIX_TO_FOUR);
    AttestableMeaning(p);
    EligibleSourceMeaning(a);
  }

  // Masking any member of an attestable prefix to a length between its own and 64 stays attestable.
  lemma SubPrefixAttestable(p: Ipv6Prefix, a: Addr, len: u8)
    requires p.IsAttestable() && p.Contains(a) && p.len <= len <= 64
    ensures var sub := Prefix(Mask(a, len), len);
      sub.IsAttestable() && AddrSet(sub) <= AddrSet(p) && a in AddrSet(sub)
  {
    hide Mask, SharesTop;
    var sub: Ipv6Prefix := Prefix(Mask(a, len), len);
    MaskedIsCanonical(a, len);
    NestedOrDisjoint(p, Prefix(a, len));
    AttestableMeaning(p);
    MaskRoundsDown(sub.addr, len);
    AttestableMeaning(sub);
  }
}
