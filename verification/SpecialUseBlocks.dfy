/** The loopback and private address blocks, and which configured ranges may be exempted from them. */
module SpecialUseBlocks {
  import opened Prelude

  // ---------------------------------------------------------------- addresses as bits

  function PowerOfTwo(n: nat): (p: nat)
    ensures p >= 1
  {
    if n == 0 then 1 else 2 * PowerOfTwo(n - 1)
  }

  /** Bit `k` of a byte, counted from the most significant; what masking with 0x80 >> k tests. */
  predicate ByteBit(b: byte, k: nat)
    requires k < 8
  {
    (b / PowerOfTwo(7 - k)) % 2 == 1
  }

  lemma MasksTestBits(b: bv8)
    ensures (b & 0x80) != 0 <==> (b / 128) % 2 == 1
    ensures (b & 0x40) != 0 <==> (b / 64) % 2 == 1
    ensures (b & 0x20) != 0 <==> (b / 32) % 2 == 1
    ensures (b & 0x10) != 0 <==> (b / 16) % 2 == 1
    ensures (b & 0x08) != 0 <==> (b / 8) % 2 == 1
    ensures (b & 0x04) != 0 <==> (b / 4) % 2 == 1
    ensures (b & 0x02) != 0 <==> (b / 2) % 2 == 1
    ensures (b & 0x01) != 0 <==> b % 2 == 1
  {
  }

  /** Sixteen bytes in network order; an IPv4 address uses the first four. */
  type Octets = s: Bytes | |s| == 16 witness [0, 0, 0, 0, 0, 0, 0, 0, 0, 0, 0, 0, 0, 0, 0, 0]

  predicate Bit(octets: Octets, i: nat)
    requires i < 128
  {
    ByteBit(octets[i / 8], i % 8)
  }

  datatype Cidr = Cidr(ipv6: bool, octets: Octets, prefix: nat)

  datatype Block = Block(ipv6: bool, allowable: bool, octets: Octets, prefix: nat)

  function Width(ipv6: bool): nat {
    if ipv6 then 128 else 32
  }

  /** An address of either family, as its bits. */
  datatype Address = Address(ipv6: bool, bits: seq<bool>)

  predicate WellFormed(a: Address) {
    |a.bits| == Width(a.ipv6)
  }

  /** The address set of a network: its family's addresses that agree with it on the prefix. */
  predicate Within(a: Address, ipv6: bool, octets: Octets, prefix: nat) {
    && WellFormed(a) && a.ipv6 == ipv6 && prefix <= Width(ipv6)
    && forall i :: 0 <= i < prefix ==> a.bits[i] == Bit(octets, i)
  }

  predicate InCidr(a: Address, c: Cidr) {
    Within(a, c.ipv6, c.octets, c.prefix)
  }

  predicate InBlock(a: Address, b: Block) {
    Within(a, b.ipv6, b.octets, b.prefix)
  }

  // ---------------------------------------------------------------- the table

  const LOOPBACK_V4 := Block(false, false, [127, 0, 0, 0, 0, 0, 0, 0, 0, 0, 0, 0, 0, 0, 0, 0], 8)
  const TEN := Block(false, true, [10, 0, 0, 0, 0, 0, 0, 0, 0, 0, 0, 0, 0, 0, 0, 0], 8)
  const ONE_SEVEN_TWO := Block(false, true, [172, 16, 0, 0, 0, 0, 0, 0, 0, 0, 0, 0, 0, 0, 0, 0], 12)
  const ONE_NINE_TWO := Block(false, true, [192, 168, 0, 0, 0, 0, 0, 0, 0, 0, 0, 0, 0, 0, 0, 0], 16)
  const LOOPBACK_V6 := Block(true, false, [0, 0, 0, 0, 0, 0, 0, 0, 0, 0, 0, 0, 0, 0, 0, 1], 128)
  const UNIQUE_LOCAL := Block(true, true, [252, 0, 0, 0, 0, 0, 0, 0, 0, 0, 0, 0, 0, 0, 0, 0], 7)

  const BLOCKS: seq<Block> := [LOOPBACK_V4, TEN, ONE_SEVEN_TWO, ONE_NINE_TWO, LOOPBACK_V6, UNIQUE_LOCAL]

  // ---------------------------------------------------------------- the check

  predicate LeadingBitsAgree(a: Octets, b: Octets, bits: nat)
    requires bits <= 128
  {
    forall i :: 0 <= i < bits ==> Bit(a, i) == Bit(b, i)
  }

  predicate NoHostBits(c: Cidr) {
    c.prefix <= Width(c.ipv6) && forall i :: c.prefix <= i < Width(c.ipv6) ==> !Bit(c.octets, i)
  }

  method LeadingBitsMatch(address: Octets, network: Octets, bits: nat) returns (ok: bool)
    requires bits <= 128
    ensures ok <==> LeadingBitsAgree(address, network, bits)
  {
    var bit := 0;
    while bit < bits
      invariant 0 <= bit <= bits
      invariant forall i :: 0 <= i < bit ==> Bit(address, i) == Bit(network, i)
    {
      if ByteBit(address[bit / 8], bit % 8) != ByteBit(network[bit / 8], bit % 8) {
        assert Bit(address, bit) != Bit(network, bit);
        return false;
      }
      assert Bit(address, bit) == Bit(network, bit);
      bit := bit + 1;
    }
    return true;
  }

  /** Whether a block of the table may be exempted and covers the range. */
  predicate Covers(b: Block, c: Cidr) {
    && b.prefix <= Width(b.ipv6)
    && b.allowable && b.ipv6 == c.ipv6 && c.prefix >= b.prefix && LeadingBitsAgree(c.octets, b.octets, b.prefix)
  }

  method HasHostBits(c: Cidr) returns (found: bool)
    requires c.prefix <= Width(c.ipv6)
    ensures found <==> !NoHostBits(c)
  {
    var bit := c.prefix;
    while bit < Width(c.ipv6)
      invariant c.prefix <= bit <= Width(c.ipv6)
      invariant forall i :: c.prefix <= i < bit ==> !Bit(c.octets, i)
    {
      if ByteBit(c.octets[bit / 8], bit % 8) {
        assert Bit(c.octets, bit);
        return true;
      }
      assert !Bit(c.octets, bit);
      bit := bit + 1;
    }
    return false;
  }

  /**
   A range may be exempted exactly when it has no host bits and every address of it lies in one block
   that may be.
   */
  method PrivateRangeIsAllowable(c: Cidr) returns (ok: bool)
    requires c.prefix <= Width(c.ipv6)
    ensures ok <==> NoHostBits(c) && exists b :: b in BLOCKS && b.allowable && Inside(c, b)
  {
    var hostBits := HasHostBits(c);
    if hostBits {
      return false;
    }
    var n := 0;
    while n < |BLOCKS|
      invariant 0 <= n <= |BLOCKS|
      invariant forall k :: 0 <= k < n ==> !(BLOCKS[k].allowable && Inside(c, BLOCKS[k]))
    {
      var b := BLOCKS[n];
      TableInRange(n);
      CoversIsInside(c, b);
      var matches := LeadingBitsMatch(c.octets, b.octets, b.prefix);
      if b.allowable && b.ipv6 == c.ipv6 && c.prefix >= b.prefix && matches {
        assert b in BLOCKS;
        return true;
      }
      n := n + 1;
    }
    return false;
  }

  lemma TableInRange(n: nat)
    requires n < |BLOCKS|
    ensures BLOCKS[n].prefix <= Width(BLOCKS[n].ipv6)
  {
  }

  // ---------------------------------------------------------------- sets of addresses

  /** Every address of the range is in the block. */
  ghost predicate Inside(c: Cidr, b: Block) {
    forall a :: InCidr(a, c) ==> InBlock(a, b)
  }

  function NetworkAddress(c: Cidr): Address {
    Address(c.ipv6, seq(Width(c.ipv6), i requires 0 <= i < Width(c.ipv6) => Bit(c.octets, i)))
  }

  lemma CoveredIsInside(c: Cidr, b: Block)
    requires Covers(b, c)
    ensures Inside(c, b)
  {
    forall a | InCidr(a, c) ensures InBlock(a, b) {
      assert forall i :: 0 <= i < b.prefix ==> a.bits[i] == Bit(c.octets, i);
    }
  }

  /** Of the network address and the same with the first bit behind the prefix set, one is outside. */
  lemma ShortPrefixEscapes(c: Cidr, b: Block)
    requires NoHostBits(c) && c.prefix < b.prefix
    ensures !Inside(c, b)
  {
    var a := NetworkAddress(c);
    assert InCidr(a, c);
    if InBlock(a, b) {
      var other := a.(bits := a.bits[c.prefix := true]);
      assert InCidr(other, c);
      assert other.bits[c.prefix] != Bit(b.octets, c.prefix);
      assert !InBlock(other, b);
    }
  }

  /** A block that holds the whole range has the range's family, a prefix no longer, and its leading bits. */
  lemma InsideIsCovered(c: Cidr, b: Block)
    requires NoHostBits(c) && b.allowable && Inside(c, b)
    ensures Covers(b, c)
  {
    var a := NetworkAddress(c);
    assert InCidr(a, c);
    assert InBlock(a, b);
    if c.prefix < b.prefix {
      ShortPrefixEscapes(c, b);
    }
    assert forall i :: 0 <= i < b.prefix ==> Bit(c.octets, i) == a.bits[i];
  }

  lemma CoversIsInside(c: Cidr, b: Block)
    requires NoHostBits(c)
    ensures Covers(b, c) <==> b.allowable && Inside(c, b)
  {
    if Covers(b, c) {
      CoveredIsInside(c, b);
    } else if b.allowable && Inside(c, b) {
      InsideIsCovered(c, b);
    }
  }

  // ---------------------------------------------------------------- never a block that may not be exempted

  /** The two networks differ in a bit both prefixes cover, so no address is in both. */
  predicate DifferAt(b: Block, d: Block, i: nat) {
    i < b.prefix && i < d.prefix && i < 128 && Bit(b.octets, i) != Bit(d.octets, i)
  }

  lemma DifferingAreDisjoint(b: Block, d: Block, i: nat, a: Address)
    requires DifferAt(b, d, i)
    ensures !(InBlock(a, b) && InBlock(a, d))
  {
  }

  lemma FirstBits()
    ensures !ByteBit(127, 0) && ByteBit(127, 1) && !ByteBit(10, 0) && !ByteBit(10, 1)
    ensures ByteBit(172, 0) && ByteBit(192, 0) && ByteBit(252, 0) && !ByteBit(0, 0)
  {
    assert PowerOfTwo(6) == 64 && PowerOfTwo(7) == 128 by {
      assert PowerOfTwo(2) == 4 && PowerOfTwo(4) == 4 * PowerOfTwo(2);
    }
  }

  /** Blocks that may be exempted share no address with those that may not. */
  lemma TableIsDisjoint(b: Block, d: Block, a: Address)
    requires b in BLOCKS && d in BLOCKS && b.allowable && !d.allowable
    ensures !(InBlock(a, b) && InBlock(a, d))
  {
    FirstBits();
    if b.ipv6 == d.ipv6 {
      DifferingAreDisjoint(b, d, if b == TEN then 1 else 0, a);
    }
  }

  /** No address of a range that may be exempted is a loopback address. */
  lemma AllowableIsDisjoint(c: Cidr, b: Block, d: Block, a: Address)
    requires b in BLOCKS && b.allowable && Inside(c, b) && d in BLOCKS && !d.allowable
    ensures !(InCidr(a, c) && InBlock(a, d))
  {
    if InCidr(a, c) {
      TableIsDisjoint(b, d, a);
    }
  }

  // ---------------------------------------------------------------- the table as ranges of octets

  /** The number a byte's first `n` bits make. */
  function Top(b: byte, n: nat): int
    requires n <= 8
    decreases 8 - n
  {
    if n == 8 then b else Top(b, n + 1) / 2
  }

  lemma Powers()
    ensures PowerOfTwo(0) == 1 && PowerOfTwo(1) == 2 && PowerOfTwo(2) == 4 && PowerOfTwo(3) == 8
    ensures PowerOfTwo(4) == 16 && PowerOfTwo(5) == 32 && PowerOfTwo(6) == 64 && PowerOfTwo(7) == 128 && PowerOfTwo(8) == 256
  {
    assert PowerOfTwo(2) == 4;
    assert PowerOfTwo(4) == 16;
    assert PowerOfTwo(6) == 64;
  }

  lemma Halves(b: byte)
    ensures b / 256 == (b / 128) / 2 && b / 128 == (b / 64) / 2 && b / 64 == (b / 32) / 2 && b / 32 == (b / 16) / 2
    ensures b / 16 == (b / 8) / 2 && b / 8 == (b / 4) / 2 && b / 4 == (b / 2) / 2
  {
  }

  lemma TopIs(b: byte)
    ensures Top(b, 8) == b && Top(b, 7) == b / 2 && Top(b, 6) == b / 4 && Top(b, 5) == b / 8 && Top(b, 4) == b / 16
    ensures Top(b, 3) == b / 32 && Top(b, 2) == b / 64 && Top(b, 1) == b / 128 && Top(b, 0) == b / 256
  {
    Halves(b);
    assert Top(b, 7) == b / 2;
    assert Top(b, 6) == b / 4;
    assert Top(b, 5) == b / 8;
    assert Top(b, 4) == b / 16;
    assert Top(b, 3) == b / 32;
    assert Top(b, 2) == b / 64;
    assert Top(b, 1) == b / 128;
  }

  lemma BitsAre(b: byte)
    ensures ByteBit(b, 0) == ((b / 128) % 2 == 1) && ByteBit(b, 1) == ((b / 64) % 2 == 1)
    ensures ByteBit(b, 2) == ((b / 32) % 2 == 1) && ByteBit(b, 3) == ((b / 16) % 2 == 1)
    ensures ByteBit(b, 4) == ((b / 8) % 2 == 1) && ByteBit(b, 5) == ((b / 4) % 2 == 1)
    ensures ByteBit(b, 6) == ((b / 2) % 2 == 1) && ByteBit(b, 7) == (b % 2 == 1)
  {
    Powers();
  }

  lemma LowestOfTop(b: byte, n: nat)
    requires n < 8
    ensures ByteBit(b, n) <==> Top(b, n + 1) % 2 == 1
  {
    TopIs(b);
    BitsAre(b);
  }

  lemma TopGrows(x: byte, y: byte, n: nat)
    requires n < 8
    ensures Top(x, n + 1) == Top(y, n + 1) <==> Top(x, n) == Top(y, n) && ByteBit(x, n) == ByteBit(y, n)
  {
    LowestOfTop(x, n);
    LowestOfTop(y, n);
  }

  ghost predicate SameBits(x: byte, y: byte, n: nat)
    requires n <= 8
  {
    forall k :: 0 <= k < n ==> ByteBit(x, k) == ByteBit(y, k)
  }

  lemma SameBitsGrow(x: byte, y: byte, n: nat)
    requires n < 8
    ensures SameBits(x, y, n + 1) <==> SameBits(x, y, n) && ByteBit(x, n) == ByteBit(y, n)
  {
  }

  /** The first `n` bits of two bytes agree exactly when the numbers they make do. */
  lemma {:induction false} TopBits(x: byte, y: byte, n: nat)
    requires n <= 8
    ensures SameBits(x, y, n) <==> Top(x, n) == Top(y, n)
  {
    if n == 0 {
      TopIs(x);
      TopIs(y);
    } else {
      TopBits(x, y, n - 1);
      SameBitsGrow(x, y, n - 1);
      TopGrows(x, y, n - 1);
    }
  }

  lemma BitAt(a: Octets, j: nat, k: nat)
    requires j < 16 && k < 8
    ensures Bit(a, 8 * j + k) == ByteBit(a[j], k)
  {
    assert (8 * j + k) / 8 == j && (8 * j + k) % 8 == k;
  }

  lemma BitsOfByte(a: Octets, b: Octets, j: nat, n: nat)
    requires j < 16 && n <= 8
    ensures (forall i :: 8 * j <= i < 8 * j + n ==> Bit(a, i) == Bit(b, i)) <==> Top(a[j], n) == Top(b[j], n)
  {
    TopBits(a[j], b[j], n);
    if SameBits(a[j], b[j], n) {
      forall i | 8 * j <= i < 8 * j + n ensures Bit(a, i) == Bit(b, i) {
        BitAt(a, j, i - 8 * j);
        BitAt(b, j, i - 8 * j);
      }
    }
    if forall i :: 8 * j <= i < 8 * j + n ==> Bit(a, i) == Bit(b, i) {
      forall k | 0 <= k < n ensures ByteBit(a[j], k) == ByteBit(b[j], k) {
        BitAt(a, j, k);
        BitAt(b, j, k);
      }
    }
  }

  /** Agreement on a prefix is agreement on its whole bytes and on the rest of its last one. */
  lemma {:induction false} PrefixBytes(a: Octets, b: Octets, j: nat, n: nat)
    requires n <= 8 && (if n == 0 then j <= 16 else j < 16)
    ensures LeadingBitsAgree(a, b, 8 * j + n) <==> a[..j] == b[..j] && (n > 0 ==> Top(a[j], n) == Top(b[j], n))
    decreases j, n
  {
    if n > 0 {
      PrefixBytes(a, b, j, 0);
      BitsOfByte(a, b, j, n);
      assert LeadingBitsAgree(a, b, 8 * j + n) <==>
             LeadingBitsAgree(a, b, 8 * j) && forall i :: 8 * j <= i < 8 * j + n ==> Bit(a, i) == Bit(b, i);
    } else if j > 0 {
      PrefixBytes(a, b, j - 1, 8);
      assert a[..j] == a[..j - 1] + [a[j - 1]] && b[..j] == b[..j - 1] + [b[j - 1]];
    }
  }

  /** The address with these octets. */
  function AddressOf(ipv6: bool, octets: Octets): Address {
    NetworkAddress(Cidr(ipv6, octets, 0))
  }

  lemma InBlockIs(ipv6: bool, octets: Octets, b: Block)
    requires b.prefix <= Width(b.ipv6)
    ensures InBlock(AddressOf(ipv6, octets), b) <==> ipv6 == b.ipv6 && LeadingBitsAgree(octets, b.octets, b.prefix)
  {
    if ipv6 == b.ipv6 {
      var a := AddressOf(ipv6, octets);
      assert forall i :: 0 <= i < b.prefix ==> a.bits[i] == Bit(octets, i);
    }
  }

  /** The address is in a block of the table that may be exempted, or in one that may not. */
  ghost predicate InSome(a: Address, allowable: bool) {
    exists b :: b in BLOCKS && b.allowable == allowable && InBlock(a, b)
  }

  lemma InSomeIs(a: Address)
    ensures InSome(a, true) <==> InBlock(a, TEN) || InBlock(a, ONE_SEVEN_TWO) || InBlock(a, ONE_NINE_TWO) || InBlock(a, UNIQUE_LOCAL)
    ensures InSome(a, false) <==> InBlock(a, LOOPBACK_V4) || InBlock(a, LOOPBACK_V6)
  {
    assert BLOCKS[0] == LOOPBACK_V4 && BLOCKS[1] == TEN && BLOCKS[2] == ONE_SEVEN_TWO && BLOCKS[3] == ONE_NINE_TWO;
    assert BLOCKS[4] == LOOPBACK_V6 && BLOCKS[5] == UNIQUE_LOCAL;
  }

  lemma EightBits(o: Octets, n: Octets)
    ensures LeadingBitsAgree(o, n, 8) <==> o[0] == n[0]
  {
    PrefixBytes(o, n, 1, 0);
    assert o[..1] == [o[0]] && n[..1] == [n[0]];
  }

  lemma TwelveBits(o: Octets, n: Octets)
    ensures LeadingBitsAgree(o, n, 12) <==> o[0] == n[0] && o[1] / 16 == n[1] / 16
  {
    PrefixBytes(o, n, 1, 4);
    TopIs(o[1]);
    TopIs(n[1]);
    assert o[..1] == [o[0]] && n[..1] == [n[0]];
  }

  lemma SixteenBits(o: Octets, n: Octets)
    ensures LeadingBitsAgree(o, n, 16) <==> o[0] == n[0] && o[1] == n[1]
  {
    PrefixBytes(o, n, 2, 0);
    assert o[..2] == [o[0], o[1]] && n[..2] == [n[0], n[1]];
  }

  lemma SevenBits(o: Octets, n: Octets)
    ensures LeadingBitsAgree(o, n, 7) <==> o[0] / 2 == n[0] / 2
  {
    PrefixBytes(o, n, 0, 7);
    TopIs(o[0]);
    TopIs(n[0]);
  }

  lemma AllBits(o: Octets, n: Octets)
    ensures LeadingBitsAgree(o, n, 128) <==> o == n
  {
    PrefixBytes(o, n, 16, 0);
    assert o[..16] == o && n[..16] == n;
  }

  /** Which IPv4 blocks of the table hold the address with these octets. */
  lemma BlocksV4(ipv6: bool, o: Octets)
    ensures var a := AddressOf(ipv6, o);
            && (InBlock(a, TEN) <==> !ipv6 && o[0] == 10)
            && (InBlock(a, ONE_SEVEN_TWO) <==> !ipv6 && o[0] == 172 && 16 <= o[1] <= 31)
            && (InBlock(a, ONE_NINE_TWO) <==> !ipv6 && o[0] == 192 && o[1] == 168)
            && (InBlock(a, LOOPBACK_V4) <==> !ipv6 && o[0] == 127)
  {
    HeldByEight(ipv6, o, TEN);
    HeldByTwelve(ipv6, o, ONE_SEVEN_TWO);
    HeldBySixteen(ipv6, o, ONE_NINE_TWO);
    HeldByEight(ipv6, o, LOOPBACK_V4);
  }

  lemma HeldByEight(ipv6: bool, o: Octets, b: Block)
    requires b.prefix == 8
    ensures InBlock(AddressOf(ipv6, o), b) <==> ipv6 == b.ipv6 && o[0] == b.octets[0]
  {
    InBlockIs(ipv6, o, b);
    EightBits(o, b.octets);
  }

  lemma HeldByTwelve(ipv6: bool, o: Octets, b: Block)
    requires b.prefix == 12
    ensures InBlock(AddressOf(ipv6, o), b) <==> ipv6 == b.ipv6 && o[0] == b.octets[0] && o[1] / 16 == b.octets[1] / 16
  {
    InBlockIs(ipv6, o, b);
    TwelveBits(o, b.octets);
  }

  lemma HeldBySixteen(ipv6: bool, o: Octets, b: Block)
    requires b.prefix == 16
    ensures InBlock(AddressOf(ipv6, o), b) <==> ipv6 == b.ipv6 && o[0] == b.octets[0] && o[1] == b.octets[1]
  {
    InBlockIs(ipv6, o, b);
    SixteenBits(o, b.octets);
  }

  lemma HeldBySeven(ipv6: bool, o: Octets, b: Block)
    requires b.prefix == 7
    ensures InBlock(AddressOf(ipv6, o), b) <==> ipv6 == b.ipv6 && o[0] / 2 == b.octets[0] / 2
  {
    InBlockIs(ipv6, o, b);
    SevenBits(o, b.octets);
  }

  lemma HeldByAll(ipv6: bool, o: Octets, b: Block)
    requires b.ipv6 && b.prefix == 128
    ensures InBlock(AddressOf(ipv6, o), b) <==> ipv6 && o == b.octets
  {
    InBlockIs(ipv6, o, b);
    AllBits(o, b.octets);
  }

  lemma BlocksV6(ipv6: bool, o: Octets)
    ensures var a := AddressOf(ipv6, o);
            && (InBlock(a, UNIQUE_LOCAL) <==> ipv6 && 252 <= o[0] <= 253)
            && (InBlock(a, LOOPBACK_V6) <==> ipv6 && o == [0, 0, 0, 0, 0, 0, 0, 0, 0, 0, 0, 0, 0, 0, 0, 1])
  {
    HeldBySeven(ipv6, o, UNIQUE_LOCAL);
    HeldByAll(ipv6, o, LOOPBACK_V6);
  }

  /**
   What may be exempted is 10.0.0.0/8, 172.16.0.0/12, 192.168.0.0/16 and fc00::/7; what may not is 127.0.0.0/8
   and ::1. Said of the octets of an address.
   */
  lemma TableRanges(ipv6: bool, o: Octets)
    ensures InSome(AddressOf(ipv6, o), true) <==>
            if ipv6 then 252 <= o[0] <= 253
            else o[0] == 10 || (o[0] == 172 && 16 <= o[1] <= 31) || (o[0] == 192 && o[1] == 168)
    ensures InSome(AddressOf(ipv6, o), false) <==>
            if ipv6 then o == [0, 0, 0, 0, 0, 0, 0, 0, 0, 0, 0, 0, 0, 0, 0, 1] else o[0] == 127
  {
    InSomeIs(AddressOf(ipv6, o));
    BlocksV4(ipv6, o);
    BlocksV6(ipv6, o);
  }
}
