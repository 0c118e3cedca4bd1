/**
  LoRaWAN NetIDs and device addresses: the bit layout that assigns every NetID a range of addresses and every
  address a NetID. Machine words are naturals, with each shift, mask and truncation written out.
*/
module LoraField {
  import opened Wrappers

  const U32: nat := 0x1_0000_0000

  function Pow2(n: nat): (r: nat)
    ensures 0 < r
  {
    if n == 0 then 1 else 2 * Pow2(n - 1)
  }

  /** Left shift of a 32-bit word: bits pushed over the top are lost. */
  function Shl(x: nat, n: nat): nat {
    (x * Pow2(n)) % U32
  }

  function Quotient(x: nat, d: nat): nat
    requires 0 < d
  {
    x / d
  }

  function Shr(x: nat, n: nat): nat {
    Quotient(x, Pow2(n))
  }

  /** Bitwise or. */
  function Or(x: nat, y: nat): nat {
    if x == 0 then y
    else if y == 0 then x
    else 2 * Or(x / 2, y / 2) + if x % 2 == 1 || y % 2 == 1 then 1 else 0
  }

  /** The `len` bits of `x` from bit `low` upwards: a mask and a right shift. */
  function Bits(x: nat, low: nat, len: nat): nat {
    Shr(x, low) % Pow2(len)
  }

  /** The number of ones before the first zero, from bit `len - 1` downwards. */
  function LeadingOnes(x: nat, len: nat): nat {
    if len == 0 then 0
    else if x < Pow2(len - 1) then 0
    else 1 + LeadingOnes(x - Pow2(len - 1), len - 1)
  }

  // ---------------------------------------------------------------- layout

  datatype InvalidNetId = InvalidNetId(idType: nat)

  /** Width of the network part of an address, by NetID type. */
  function NwkBits(idType: nat): nat {
    match idType case 0 => 6 case 1 => 6 case 2 => 9 case 3 => 11 case 4 => 12 case 5 => 13 case 6 => 15 case _ => 17
  }

  /** Width of the device part of an address, by NetID type. */
  function AddrBits(idType: nat): nat {
    match idType case 0 => 25 case 1 => 24 case 2 => 20 case 3 => 17 case 4 => 15 case 5 => 13 case 6 => 10 case _ => 7
  }

  function NetIdType(netId: nat): nat {
    Shr(netId, 21)
  }

  /** The NetID without its type prefix, as the code cuts it off: one bit more than the type number, after the
      eight bits that a 24-bit NetID leaves free in a 32-bit word. */
  function NwkId(netId: nat): nat {
    var shift := NetIdType(netId) + 1 + 8;
    Shr(Shl(netId, shift), shift)
  }

  function DevAddrTypeBits(idType: nat): Result<nat, InvalidNetId> {
    match idType
    case 0 => Ok(0)
    case 1 => Ok(Shl(2, 30))
    case 2 => Ok(Shl(6, 29))
    case 3 => Ok(Shl(14, 28))
    case 4 => Ok(Shl(30, 27))
    case 5 => Ok(Shl(62, 26))
    case 6 => Ok(Shl(126, 25))
    case 7 => Ok(Shl(254, 24))
    case other => Err(InvalidNetId(other))
  }

  /** The type prefix with the network part beside it. */
  function StartFor(idType: nat, middle: nat): Result<nat, InvalidNetId> {
    match DevAddrTypeBits(idType)
    case Err(e) => Err(e)
    case Ok(left) => Ok(Or(left, middle))
  }

  function RangeStart(netId: nat): Result<nat, InvalidNetId> {
    var idType := NetIdType(netId);
    StartFor(idType, Shl(NwkId(netId), AddrBits(idType)))
  }

  function RangeEnd(netId: nat): Result<nat, InvalidNetId> {
    var idType := NetIdType(netId);
    match DevAddrTypeBits(idType)
    case Err(e) => Err(e)
    case Ok(left) =>
      Ok(Or(Or(left, Shl(NwkId(netId), AddrBits(idType))), Pow2(AddrBits(idType)) - 1))
  }

  predicate InFullRange(netId: nat, addr: nat) {
    RangeStart(netId).Ok? && RangeEnd(netId).Ok? && RangeStart(netId).value <= addr <= RangeEnd(netId).value
  }

  function ToNetId(addr: nat): Result<nat, InvalidNetId>
    requires addr < U32
  {
    var ones := LeadingOnes(addr, 32);
    if ones <= 7 then Ok(Or(Bits(addr, AddrBits(ones), NwkBits(ones)), ones * Pow2(21)))
    else Err(InvalidNetId(ones))
  }

  // ---------------------------------------------------------------- bit arithmetic

  /** Or of two words without a common bit is their sum. */
  lemma {:induction false} OrDisjoint(hi: nat, lo: nat, k: nat)
    requires lo < Pow2(k)
    ensures Or(hi * Pow2(k), lo) == hi * Pow2(k) + lo
    ensures Or(lo, hi * Pow2(k)) == hi * Pow2(k) + lo
    decreases k
  {
    if k == 0 {
    } else if hi == 0 || lo == 0 {
      if hi == 0 { assert hi * Pow2(k) == 0; }
    } else {
      var h := hi * Pow2(k - 1);
      assert hi * Pow2(k) == 2 * h by { DoubleShift(hi, k - 1); }
      OrDisjoint(hi, lo / 2, k - 1);
      assert (2 * h) / 2 == h && (2 * h) % 2 == 0;
    }
  }

  lemma DoubleShift(x: nat, k: nat)
    ensures x * Pow2(k + 1) == 2 * (x * Pow2(k))
  {}

  lemma Pow2Values()
    ensures Pow2(5) == 32 && Pow2(6) == 64 && Pow2(7) == 128 && Pow2(9) == 512 && Pow2(10) == 1024
    ensures Pow2(11) == 2048 && Pow2(12) == 4096 && Pow2(13) == 8192 && Pow2(14) == 16384 && Pow2(15) == 32768
    ensures Pow2(16) == 65536 && Pow2(17) == 131072 && Pow2(20) == 1048576 && Pow2(21) == 2097152
    ensures Pow2(24) == 16777216 && Pow2(25) == 33554432 && Pow2(26) == 67108864 && Pow2(27) == 134217728
    ensures Pow2(28) == 268435456 && Pow2(29) == 536870912 && Pow2(30) == 1073741824 && Pow2(31) == 2147483648
    ensures Pow2(32) == U32
  {}

  /** The addresses with exactly `t` leading ones. */
  lemma {:induction false} LeadingOnesRange(x: nat, len: nat, t: nat)
    requires x < Pow2(len) && t < len
    ensures LeadingOnes(x, len) == t <==> Pow2(len) - Pow2(len - t) <= x < Pow2(len) - Pow2(len - t - 1)
    decreases t
  {
    if t != 0 && Pow2(len - 1) <= x {
      LeadingOnesRange(x - Pow2(len - 1), len - 1, t - 1);
    } else if t != 0 {
      Pow2Monotone(len - t, len - 1);
    }
  }

  lemma {:induction false} Pow2Monotone(a: nat, b: nat)
    requires a <= b
    ensures Pow2(a) <= Pow2(b)
    decreases b - a
  {
    if a < b { Pow2Monotone(a, b - 1); }
  }

  // ---------------------------------------------------------------- ranges

  lemma MulAtLeast(k: nat, d: nat)
    requires 1 <= k
    ensures d <= k * d
  {}

  lemma DivModUnique(m: nat, d: nat, q: nat, r: nat)
    requires r < d && m == q * d + r
    ensures m / d == q && m % d == r
  {
    var q' := m / d;
    assert d * q' + m % d == m;
    assert d * q' == q' * d;
    if q < q' {
      MulAtLeast(q' - q, d);
    } else if q' < q {
      MulAtLeast(q - q', d);
    }
  }

  lemma Distribute(q: nat, b: nat, r: nat, a: nat)
    ensures (q * b + r) * a == q * (a * b) + r * a
  {}

  lemma ScaleBelow(r: nat, b: nat, a: nat)
    requires r < b && a > 0
    ensures r * a < b * a
  {}

  lemma {:induction false} Pow2Sum(a: nat, b: nat)
    ensures Pow2(a + b) == Pow2(a) * Pow2(b)
    decreases a
  {
    if a != 0 {
      Pow2Sum(a - 1, b);
      assert Pow2(a + b) == 2 * (Pow2(a - 1) * Pow2(b));
    }
  }

  lemma ModOfMultiple(x: nat, a: nat, b: nat)
    requires a > 0 && b > 0
    ensures a * b > 0 && (x * a) % (a * b) == (x % b) * a && ((x % b) * a) / a == x % b
  {
    var q, r := x / b, x % b;
    assert x == q * b + r;
    Distribute(q, b, r, a);
    ScaleBelow(r, b, a);
    DivModUnique(x * a, a * b, q, r * a);
    DivModUnique(r * a, a, r, 0);
  }

  /** Shifting left and back right clears the top bits. */
  lemma ShiftBack(x: nat, n: nat)
    requires n <= 32
    ensures Shr(Shl(x, n), n) == x % Pow2(32 - n)
  {
    Pow2Values();
    Pow2Sum(n, 32 - n);
    ModOfMultiple(x, Pow2(n), Pow2(32 - n));
  }

  /** The NetID's number fits the network part that addresses of its type carry; type 7 keeps only 16 bits of it. */
  predicate Fits(netId: nat) {
    var t := netId / 0x20_0000;
    var id := netId % 0x20_0000;
    t <= 7 && id < Width(t) && (t == 7 ==> id < 0x1_0000)
  }

  /** The number of addresses of a NetID of type `t`. */
  function Block(t: nat): nat {
    match t case 0 => 0x200_0000 case 1 => 0x100_0000 case 2 => 0x10_0000 case 3 => 0x2_0000
            case 4 => 0x8000 case 5 => 0x2000 case 6 => 0x400 case _ => 0x80
  }

  /** The number of NetIDs of type `t` that addresses can name. */
  function Width(t: nat): nat {
    match t case 0 => 64 case 1 => 64 case 2 => 512 case 3 => 0x800 case 4 => 0x1000 case 5 => 0x2000
            case 6 => 0x8000 case _ => 0x2_0000
  }

  lemma TablesArePowers(t: nat)
    requires t <= 7
    ensures Block(t) == Pow2(AddrBits(t)) && Width(t) == Pow2(NwkBits(t)) && Width(t) * Block(t) == Pow2(31 - t)
  {
    Pow2Values();
    match t case 0 => case 1 => case 2 => case 3 => case 4 => case 5 => case 6 => case 7 =>
  }

  /** The first address whose leading ones spell type `t`. */
  function TypeBase(t: nat): nat
    requires t <= 7
  {
    match t
    case 0 => 0 case 1 => 0x8000_0000 case 2 => 0xC000_0000 case 3 => 0xE000_0000
    case 4 => 0xF000_0000 case 5 => 0xF800_0000 case 6 => 0xFC00_0000 case 7 => 0xFE00_0000
  }

  /** The start of the range in closed form. */
  function RangeBase(netId: nat): nat
    requires netId < 0x100_0000
  {
    TypeBase(netId / 0x20_0000) + (netId % 0x20_0000) * Block(netId / 0x20_0000)
  }

  /** For a NetID that fits, cutting off the prefix leaves its number (with a stray type bit for type 1). */
  lemma NwkIdOfFitting(netId: nat)
    requires Fits(netId)
    ensures NetIdType(netId) == netId / 0x20_0000
    ensures NwkId(netId) == if netId / 0x20_0000 == 1 then netId else netId % 0x20_0000
  {
    Pow2Values();
    var t, id := netId / 0x20_0000, netId % 0x20_0000;
    assert netId == t * 0x20_0000 + id;
    ShiftBack(netId, t + 9);
    assert Pow2(18) == 262144 && Pow2(19) == 524288 && Pow2(22) == 4194304 && Pow2(23) == 8388608;
    match t
    case 0 => assert NwkId(netId) == netId % 8388608;
    case 1 => assert NwkId(netId) == netId % 4194304;
    case 2 => assert NwkId(netId) == netId % 2097152;
    case 3 => assert NwkId(netId) == netId % 1048576;
    case 4 => assert NwkId(netId) == netId % 524288;
    case 5 => assert NwkId(netId) == netId % 262144;
    case 6 => assert NwkId(netId) == netId % 131072;
    case 7 => assert NwkId(netId) == netId % 65536;
  }

  lemma NwkIdShifted(netId: nat)
    requires Fits(netId)
    ensures Shl(NwkId(netId), AddrBits(NetIdType(netId))) == (netId % 0x20_0000) * Block(netId / 0x20_0000)
  {
    NwkIdOfFitting(netId);
    var t, id := netId / 0x20_0000, netId % 0x20_0000;
    TablesArePowers(t);
    Shifted(t, NwkId(netId), id);
  }

  lemma Shifted(t: nat, nwk: nat, id: nat)
    requires t <= 7 && id < Width(t) && nwk == if t == 1 then 0x20_0000 + id else id
    ensures (nwk * Block(t)) % U32 == id * Block(t)
  {
    match t
    case 1 => DivModUnique(nwk * 0x100_0000, U32, 0x2000, id * 0x100_0000);
    case 0 => case 2 => case 3 => case 4 => case 5 => case 6 => case 7 =>
  }

  lemma TypeBitsAre(t: nat)
    requires t <= 7
    ensures DevAddrTypeBits(t) == Ok(TypeBase(t))
    ensures TypeBase(t) == Pow2(32) - Pow2(32 - t)
  {
    Pow2Values();
    match t case 0 => case 1 => case 2 => case 3 => case 4 => case 5 => case 6 => case 7 =>
  }

  /** The type prefix as a number: ones and a final zero. */
  function Prefix(t: nat): nat {
    match t case 0 => 0 case 1 => 2 case 2 => 6 case 3 => 14 case 4 => 30 case 5 => 62 case 6 => 126 case _ => 254
  }

  lemma TypeBaseIs(t: nat)
    requires t <= 7
    ensures TypeBase(t) == Prefix(t) * Pow2(31 - t)
  {
    Pow2Values();
    match t case 0 => case 1 => case 2 => case 3 => case 4 => case 5 => case 6 => case 7 =>
  }

  lemma TypeBaseOr(t: nat, lo: nat)
    requires t <= 7 && lo < Pow2(31 - t)
    ensures Or(TypeBase(t), lo) == TypeBase(t) + lo
  {
    TypeBaseIs(t);
    OrDisjoint(Prefix(t), lo, 31 - t);
  }

  lemma OrAligned(x: nat, lo: nat, k: nat)
    requires x % Pow2(k) == 0 && lo < Pow2(k)
    ensures Or(x, lo) == x + lo
  {
    assert x == (x / Pow2(k)) * Pow2(k);
    OrDisjoint(x / Pow2(k), lo, k);
  }

  lemma TypeBaseAligned(t: nat)
    requires t <= 7
    ensures TypeBase(t) % Block(t) == 0 && TypeBase(t) % (Width(t) * Block(t)) == 0
  {
    match t case 0 => case 1 => case 2 => case 3 => case 4 => case 5 => case 6 => case 7 =>
  }

  lemma AlignedSum(base: nat, id: nat, block: nat)
    requires 0 < block && base % block == 0
    ensures (base + id * block) % block == 0
  {
    var q := base / block;
    assert base == q * block;
    assert (q + id) * block == q * block + id * block;
    DivModUnique(base + id * block, block, q + id, 0);
  }

  lemma BlockFits(id: nat, width: nat, block: nat)
    requires id < width
    ensures id * block + block <= width * block
  {
    ScaleAtLeast(id + 1, width, block);
  }

  lemma BlocksFit(t: nat, id: nat)
    requires t <= 7 && id < Width(t)
    ensures id * Block(t) + Block(t) <= Width(t) * Block(t)
    ensures (TypeBase(t) + id * Block(t)) % Block(t) == 0
  {
    BlockFits(id, Width(t), Block(t));
    TypeBaseAligned(t);
    AlignedSum(TypeBase(t), id, Block(t));
  }

  lemma BlockBelow(t: nat, id: nat)
    requires t <= 7 && id < Width(t)
    ensures id * Block(t) < Pow2(31 - t)
  {
    TablesArePowers(t);
    BlocksFit(t, id);
  }

  // ---------------------------------------------------------------- the range of a NetID

  lemma StartParts(t: nat, middle: nat)
    requires t <= 7 && middle < Pow2(31 - t)
    ensures StartFor(t, middle) == Ok(TypeBase(t) + middle)
  {
    TypeBitsAre(t);
    TypeBaseOr(t, middle);
  }

  lemma RangeStartOfFitting(netId: nat)
    requires Fits(netId)
    ensures netId < 0x100_0000 && RangeStart(netId) == Ok(RangeBase(netId))
  {
    var t, id := netId / 0x20_0000, netId % 0x20_0000;
    NwkIdOfFitting(netId);
    NwkIdShifted(netId);
    BlockBelow(t, id);
    StartParts(t, id * Block(t));
  }

  /** A NetID that fits owns the power-of-two block that starts at `RangeBase`. */
  lemma FullRangeOfFitting(netId: nat)
    requires Fits(netId)
    ensures netId < 0x100_0000
    ensures RangeStart(netId) == Ok(RangeBase(netId))
    ensures RangeEnd(netId) == Ok(RangeBase(netId) + Block(netId / 0x20_0000) - 1)
    ensures Block(netId / 0x20_0000) == Pow2(AddrBits(netId / 0x20_0000))
    ensures RangeBase(netId) % Block(netId / 0x20_0000) == 0
  {
    var t := netId / 0x20_0000;
    NwkIdOfFitting(netId);
    RangeStartOfFitting(netId);
    RangeBaseAligned(netId);
    EndParts(netId, t, RangeBase(netId));
    OrAligned(RangeBase(netId), Pow2(AddrBits(t)) - 1, AddrBits(t));
  }

  lemma RangeBaseAligned(netId: nat)
    requires Fits(netId)
    ensures var t := netId / 0x20_0000;
            netId < 0x100_0000 && Block(t) == Pow2(AddrBits(t)) && RangeBase(netId) % Block(t) == 0
  {
    TablesArePowers(netId / 0x20_0000);
    BlocksFit(netId / 0x20_0000, netId % 0x20_0000);
  }

  lemma EndParts(netId: nat, t: nat, start: nat)
    requires t <= 7 && NetIdType(netId) == t && RangeStart(netId) == Ok(start)
    ensures RangeEnd(netId) == Ok(Or(start, Pow2(AddrBits(t)) - 1))
  {
    TypeBitsAre(t);
  }

  lemma AddressType(addr: nat, t: nat)
    requires addr < U32 && t <= 7
    ensures LeadingOnes(addr, 32) == t <==> TypeBase(t) <= addr < TypeBase(t) + Width(t) * Block(t)
  {
    Pow2Values();
    TablesArePowers(t);
    LeadingOnesRange(addr, 32, t);
    TypeBitsAre(t);
  }

  /** The block number inside its type of an address with offset `e * block + r`. */
  lemma NetworkField(addr: nat, p: nat, width: nat, block: nat, e: nat, r: nat)
    requires e < width && r < block && addr == p * (width * block) + (e * block + r)
    ensures (addr / block) % width == e
  {
    Split(p, width, e, block);
    DivModUnique(addr, block, p * width + e, r);
    DivModUnique(p * width + e, width, p, e);
  }

  lemma BlockBounds(x: nat, block: nat, id: nat)
    requires 0 < block
    ensures x / block == id <==> id * block <= x < id * block + block
  {
    var e := x / block;
    assert x == e * block + x % block;
    if id < e { ScaleAtLeast(id + 1, e, block); }
    if e < id { ScaleAtLeast(e + 1, id, block); }
  }

  lemma Split(p: nat, width: nat, e: nat, block: nat)
    ensures (p * width + e) * block == p * (width * block) + e * block
  {}

  lemma ScaleAtLeast(a: nat, b: nat, c: nat)
    requires a <= b
    ensures a * c <= b * c
  {}

  /** The network part of an address of type `t` says which block it lies in. */
  lemma NetworkPart(addr: nat, t: nat, id: nat)
    requires t <= 7 && TypeBase(t) <= addr < TypeBase(t) + Width(t) * Block(t) && id < Width(t)
    ensures (addr / Block(t)) % Width(t) == id
            <==> TypeBase(t) + id * Block(t) <= addr < TypeBase(t) + id * Block(t) + Block(t)
  {
    TypeBaseAligned(t);
    PartOf(addr, TypeBase(t), Width(t), Block(t), id);
  }

  lemma PartOf(addr: nat, base: nat, width: nat, block: nat, id: nat)
    requires 0 < width && 0 < block && 0 < width * block && base % (width * block) == 0
    requires base <= addr < base + width * block && id < width
    ensures (addr / block) % width == id <==> base + id * block <= addr < base + id * block + block
  {
    var x, size := addr - base, width * block;
    var e, r, p := x / block, x % block, base / size;
    BlockBounds(x, block, id);
    assert x == e * block + r;
    if width <= e { ScaleAtLeast(width, e, block); }
    assert base == p * size;
    NetworkField(addr, p, width, block, e, r);
  }

  /** What `ToNetId` answers: type and network part, side by side. */
  lemma ToNetIdParts(addr: nat)
    requires addr < U32
    ensures var t := LeadingOnes(addr, 32);
            t <= 7 ==> ToNetId(addr).Ok? && ToNetId(addr).value / 0x20_0000 == t
                       && ToNetId(addr).value % 0x20_0000 == (addr / Block(t)) % Width(t)
    ensures 7 < LeadingOnes(addr, 32) ==> ToNetId(addr).Err?
  {
    Pow2Values();
    var t := LeadingOnes(addr, 32);
    if t <= 7 {
      TablesArePowers(t);
      var part := Bits(addr, AddrBits(t), NwkBits(t));
      Pow2Monotone(NwkBits(t), 21);
      OrDisjoint(t, part, 21);
    }
  }

  lemma MapsBackWhen(netId: nat, addr: nat)
    requires Fits(netId) && addr < U32
    ensures var t := netId / 0x20_0000;
            ToNetId(addr) == Ok(netId) <==>
            TypeBase(t) <= addr < TypeBase(t) + Width(t) * Block(t) && (addr / Block(t)) % Width(t) == netId % 0x20_0000
  {
    ToNetIdParts(addr);
    AddressType(addr, netId / 0x20_0000);
    if ToNetId(addr).Ok? { SameParts(ToNetId(addr).value, netId); }
  }

  lemma SameParts(a: nat, b: nat)
    ensures a == b <==> a / 0x20_0000 == b / 0x20_0000 && a % 0x20_0000 == b % 0x20_0000
  {
    assert a == a / 0x20_0000 * 0x20_0000 + a % 0x20_0000;
    assert b == b / 0x20_0000 * 0x20_0000 + b % 0x20_0000;
  }

  lemma BlockOfRange(netId: nat, addr: nat)
    requires Fits(netId)
    ensures netId < 0x100_0000
    ensures var t := netId / 0x20_0000;
            RangeBase(netId) <= addr < RangeBase(netId) + Block(t) <==>
            TypeBase(t) <= addr < TypeBase(t) + Width(t) * Block(t) && (addr / Block(t)) % Width(t) == netId % 0x20_0000
  {
    var t, id := netId / 0x20_0000, netId % 0x20_0000;
    BlocksFit(t, id);
    if TypeBase(t) <= addr < TypeBase(t) + Width(t) * Block(t) {
      NetworkPart(addr, t, id);
    }
  }

  /** For a NetID that fits, exactly the addresses from `range_start` to `range_end` map back to it. */
  lemma RoundTrip(netId: nat, addr: nat)
    requires Fits(netId) && addr < U32
    ensures InFullRange(netId, addr) <==> ToNetId(addr) == Ok(netId)
  {
    FullRangeOfFitting(netId);
    MapsBackWhen(netId, addr);
    BlockOfRange(netId, addr);
  }

  // ---------------------------------------------------------------- which addresses NetIDs that fit share out

  const FITTING_END: nat := 0xFE80_0000

  lemma TypeOfAddress(addr: nat)
    requires addr < FITTING_END
    ensures LeadingOnes(addr, 32) <= 7
  {
    AddressType(addr, 0);
    AddressType(addr, 1);
    AddressType(addr, 2);
    AddressType(addr, 3);
    AddressType(addr, 4);
    AddressType(addr, 5);
    AddressType(addr, 6);
    AddressType(addr, 7);
  }

  lemma Type7Part(addr: nat)
    requires 0xFE00_0000 <= addr < FITTING_END
    ensures (addr / 0x80) % 0x2_0000 < 0x1_0000
  {
    var x := addr - 0xFE00_0000;
    DivModUnique(addr, 0x80, 0x1FC_0000 + x / 0x80, x % 0x80);
    DivModUnique(0x1FC_0000 + x / 0x80, 0x2_0000, 0xFE, x / 0x80);
  }

  lemma NamedFits(addr: nat)
    requires addr < FITTING_END
    ensures ToNetId(addr).Ok? && Fits(ToNetId(addr).value)
  {
    var t := LeadingOnes(addr, 32);
    TypeOfAddress(addr);
    ToNetIdParts(addr);
    if t == 7 {
      AddressType(addr, 7);
      Type7Part(addr);
    }
  }

  lemma FittingIsBelow(netId: nat, addr: nat)
    requires Fits(netId) && InFullRange(netId, addr)
    ensures addr < FITTING_END
  {
    var t, id := netId / 0x20_0000, netId % 0x20_0000;
    FullRangeOfFitting(netId);
    BlockEndsBelow(t, id);
  }

  lemma BlockEndsBelow(t: nat, id: nat)
    requires t <= 7 && id < Width(t) && (t == 7 ==> id < 0x1_0000)
    ensures TypeBase(t) + id * Block(t) + Block(t) <= FITTING_END
  {
    match t case 0 => case 1 => case 2 => case 3 => case 4 => case 5 => case 6 => case 7 =>
  }

  /** The NetIDs that fit share out exactly the addresses below the half of the type 7 block that none of them reaches. */
  lemma FittingCover(addr: nat)
    requires addr < U32
    ensures (exists netId :: Fits(netId) && InFullRange(netId, addr)) <==> addr < FITTING_END
  {
    if addr < FITTING_END {
      NamedFits(addr);
      RoundTrip(ToNetId(addr).value, addr);
    }
    if netId :| Fits(netId) && InFullRange(netId, addr) { FittingIsBelow(netId, addr); }
  }

  predicate SharesAddress(a: nat, b: nat, addr: nat) {
    InFullRange(a, addr) && InFullRange(b, addr)
  }

  /** A NetID that does not fit shares an address with one that fits if and only if its range starts below that point. */
  lemma MisfitSharesIff(netId: nat)
    requires netId < 0x100_0000 && !Fits(netId)
    ensures RangeStart(netId).Ok?
    ensures (exists other, addr :: Fits(other) && other != netId && SharesAddress(netId, other, addr))
       <==> RangeStart(netId).value < FITTING_END
  {
    RangeIsNotEmpty(netId);
    var start := RangeStart(netId).value;
    FittingCover(start);
    if start < FITTING_END {
      var other :| Fits(other) && InFullRange(other, start);
      assert SharesAddress(netId, other, start);
    }
    if other, addr :| Fits(other) && other != netId && SharesAddress(netId, other, addr) { FittingIsBelow(other, addr); }
  }

  /** A type 7 NetID with bit 16 set gets the range of the NetID without it. */
  lemma Type7Alias(netId: nat)
    requires 0xE1_0000 <= netId < 0xE2_0000
    ensures RangeStart(netId) == RangeStart(netId - 0x1_0000) && RangeEnd(netId) == RangeEnd(netId - 0x1_0000)
  {
    Pow2Values();
    ShiftBack(netId, 16);
    ShiftBack(netId - 0x1_0000, 16);
  }

  lemma {:induction false} OrBounds(x: nat, y: nat, k: nat)
    requires x < Pow2(k) && y < Pow2(k)
    ensures x <= Or(x, y) < Pow2(k)
    decreases k
  {
    if x != 0 && y != 0 {
      OrBounds(x / 2, y / 2, k - 1);
    }
  }

  lemma RangeIsNotEmpty(netId: nat)
    requires netId < 0x100_0000
    ensures RangeStart(netId).Ok? && RangeStart(netId).value < U32 && InFullRange(netId, RangeStart(netId).value)
  {
    Pow2Values();
    var t := NetIdType(netId);
    TypeBitsAre(t);
    var middle := Shl(NwkId(netId), AddrBits(t));
    OrBounds(TypeBase(t), middle, 32);
    Pow2Monotone(AddrBits(t), 32);
    OrBounds(Or(TypeBase(t), middle), Pow2(AddrBits(t)) - 1, 32);
  }

  /** A NetID that does not fit has an address in its range that maps to another NetID. */
  lemma AliasMisfit(netId: nat, addr: nat)
    requires 0xE1_0000 <= netId < 0xE2_0000 && RangeStart(netId) == Ok(addr)
    ensures addr < U32 && ToNetId(addr) == Ok(netId - 0x1_0000)
  {
    Type7Alias(netId);
    AliasFits(netId);
    RangeIsNotEmpty(netId - 0x1_0000);
    RoundTrip(netId - 0x1_0000, addr);
  }

  lemma AliasFits(netId: nat)
    requires 0xE1_0000 <= netId < 0xE2_0000
    ensures Fits(netId - 0x1_0000)
  {}

  lemma WideMisfit(netId: nat, addr: nat)
    requires netId < 0x100_0000 && !Fits(netId) && !(0xE1_0000 <= netId < 0xE2_0000) && addr < U32
    ensures ToNetId(addr) != Ok(netId)
  {
    ToNetIdParts(addr);
  }

  lemma Misfit(netId: nat) returns (addr: nat)
    requires netId < 0x100_0000 && !Fits(netId)
    ensures addr < U32 && InFullRange(netId, addr) && ToNetId(addr) != Ok(netId)
  {
    RangeIsNotEmpty(netId);
    addr := RangeStart(netId).value;
    if 0xE1_0000 <= netId < 0xE2_0000 { AliasMisfit(netId, addr); } else { WideMisfit(netId, addr); }
  }

  /** For every 24-bit NetID, the addresses of its range map back to it exactly when its number fits. */
  lemma RoundTripIff(netId: nat)
    requires netId < 0x100_0000
    ensures Fits(netId) <==> forall addr: nat | addr < U32 :: InFullRange(netId, addr) <==> ToNetId(addr) == Ok(netId)
  {
    if Fits(netId) {
      forall addr: nat | addr < U32 ensures InFullRange(netId, addr) <==> ToNetId(addr) == Ok(netId) {
        RoundTrip(netId, addr);
      }
    } else {
      var witness' := Misfit(netId);
      assert !(InFullRange(netId, witness') <==> ToNetId(witness') == Ok(netId));
    }
  }

  /** NetIDs that fit have disjoint address ranges. */
  lemma RangesAreDisjoint(a: nat, b: nat, addr: nat)
    requires Fits(a) && Fits(b) && addr < U32 && InFullRange(a, addr) && InFullRange(b, addr)
    ensures a == b
  {
    RoundTrip(a, addr);
    RoundTrip(b, addr);
  }

  /** Without that condition they need not be: these two NetIDs get the same 128 addresses. */
  lemma RangesCollide()
    ensures RangeStart(0xE0_0000) == RangeStart(0xE1_0000) == Ok(0xFE00_0000)
    ensures RangeEnd(0xE0_0000) == RangeEnd(0xE1_0000) == Ok(0xFE00_007F)
  {
    Pow2Values();
    Type7Alias(0xE1_0000);
    FullRangeOfFitting(0xE0_0000);
  }
}
