/** Byte order and bit masks of fixed-width words.

    The kernel side is little-endian, so `bpf_ntohl`, `bpf_htonl`, `bpf_ntohs` and `bpf_htons`
    reverse bytes, and a word's bytes lie in memory lowest byte first.
  */
module ByteOrder {
  import opened Words

  // ---------------------------------------------------------------- bytes

  function Byte0(x: u32): byte {
    x % 0x100
  }

  function Byte1(x: u32): byte {
    x / 0x100 % 0x100
  }

  function Byte2(x: u32): byte {
    x / 0x100 / 0x100 % 0x100
  }

  function Byte3(x: u32): byte {
    x / 0x100 / 0x100 / 0x100
  }

  /** The word whose bytes, lowest first, are these. */
  function Word(b0: byte, b1: byte, b2: byte, b3: byte): u32 {
    b0 + 0x100 * b1 + 0x1_0000 * b2 + 0x100_0000 * b3
  }

  /** The bytes of a word in the order they lie in memory. */
  function Memory32(x: u32): (bytes: seq<byte>)
    ensures |bytes| == 4
  {
    [Byte0(x), Byte1(x), Byte2(x), Byte3(x)]
  }

  function Memory16(x: u16): (bytes: seq<byte>)
    ensures |bytes| == 2
  {
    [x % 0x100, x / 0x100]
  }

  function Swap32(x: u32): u32 {
    Word(Byte3(x), Byte2(x), Byte1(x), Byte0(x))
  }

  function Swap16(x: u16): u16 {
    x % 0x100 * 0x100 + x / 0x100
  }

  /** A 16-bit number received as two bytes, high byte first. */
  function NetworkOrder16(high: byte, low: byte): u16 {
    0x100 * high + low
  }

  function Low16(x: u32): u16 {
    x % 0x1_0000
  }

  /** A signed 32-bit integer compared with an unsigned 64-bit one. */
  function SignExtend(x: u32): u64 {
    if x < 0x8000_0000 then x else x + 0xFFFF_FFFF_0000_0000
  }

  lemma WordBytes(b0: byte, b1: byte, b2: byte, b3: byte)
    ensures var x := Word(b0, b1, b2, b3);
            Byte0(x) == b0 && Byte1(x) == b1 && Byte2(x) == b2 && Byte3(x) == b3
  {
    var x := Word(b0, b1, b2, b3);
    assert x / 0x100 == b1 + 0x100 * b2 + 0x1_0000 * b3;
    assert x / 0x100 / 0x100 == b2 + 0x100 * b3;
    assert x / 0x100 / 0x100 / 0x100 == b3;
  }

  lemma BytesWord(x: u32)
    ensures Word(Byte0(x), Byte1(x), Byte2(x), Byte3(x)) == x
  {
  }

  lemma SwapTwice(x: u32)
    ensures Swap32(Swap32(x)) == x
  {
    WordBytes(Byte3(x), Byte2(x), Byte1(x), Byte0(x));
    BytesWord(x);
  }

  lemma SwapWord(b0: byte, b1: byte, b2: byte, b3: byte)
    ensures Swap32(Word(b0, b1, b2, b3)) == Word(b3, b2, b1, b0)
  {
    WordBytes(b0, b1, b2, b3);
  }

  lemma Swap16Twice(x: u16)
    ensures Swap16(Swap16(x)) == x
  {
    assert Swap16(x) / 0x100 == x % 0x100 && Swap16(x) % 0x100 == x / 0x100;
  }

  lemma SwappedPort(port: u16)
    ensures NetworkOrder16(Memory16(Swap16(port))[0], Memory16(Swap16(port))[1]) == port
  {
  }

  /** A port kept in network order in a 32-bit context field: what `bpf_ntohl(field) >> 16` reads. */
  lemma PortField(field: u32)
    ensures Swap32(field) / 0x1_0000 == NetworkOrder16(Byte0(field), Byte1(field))
  {
  }

  /** And what storing `bpf_htonl(port << 16)` leaves there. */
  lemma StoredPort(port: u16)
    ensures var field := Swap32(port * 0x1_0000); NetworkOrder16(Byte0(field), Byte1(field)) == port
  {
    SwapTwice(port * 0x1_0000);
    PortField(Swap32(port * 0x1_0000));
  }

  // ---------------------------------------------------------------- masks

  function Pow2(n: nat): (p: nat)
    ensures p > 0
  {
    if n == 0 then 1 else 2 * Pow2(n - 1)
  }

  /** Bitwise and. */
  function And(x: nat, y: nat): nat {
    if x == 0 then 0
    else 2 * And(x / 2, y / 2) + (if x % 2 == 1 && y % 2 == 1 then 1 else 0)
  }

  lemma {:induction false} AndSelf(x: nat)
    ensures And(x, x) == x
  {
    if x != 0 {
      AndSelf(x / 2);
    }
  }

  lemma {:induction false} AndZero(x: nat)
    ensures And(x, 0) == 0
  {
    if x != 0 {
      AndZero(x / 2);
    }
  }

  lemma AndEven(x: nat, y: nat)
    ensures And(x, 2 * y) == 2 * And(x / 2, y)
  {
  }

  lemma AndOdd(x: nat, y: nat)
    ensures And(x, 2 * y + 1) == 2 * And(x / 2, y) + x % 2
  {
    assert (2 * y + 1) / 2 == y;
  }

  lemma {:induction false} AndAllOnes(x: nat, n: nat)
    requires x < Pow2(n)
    ensures And(x, Pow2(n) - 1) == x
  {
    if n > 0 {
      AndAllOnes(x / 2, n - 1);
      AndOdd(x, Pow2(n - 1) - 1);
    }
  }

  /** And with ones in bits k..n-1 clears the low k bits. */
  lemma {:induction false} AndHighMask(x: nat, n: nat, k: nat)
    requires k <= n && x < Pow2(n)
    ensures Pow2(k) <= Pow2(n)
    ensures And(x, Pow2(n) - Pow2(k)) == x - x % Pow2(k)
    decreases n
  {
    if k == 0 {
      AndAllOnes(x, n);
    } else {
      AndHighMask(x / 2, n - 1, k - 1);
      AndEven(x, Pow2(n - 1) - Pow2(k - 1));
      RemainderByDouble(x, Pow2(k - 1));
    }
  }

  lemma RemainderIs(x: int, m: nat, q: int, r: int)
    requires m > 0 && x == q * m + r && 0 <= r < m
    ensures x % m == r
  {
    var d: int := x / m - q;
    assert d * m == r - x % m by {
      assert x == (x / m) * m + x % m;
    }
    if d != 0 {
      MultipleIsFar(d, m);
    }
  }

  lemma MultipleIsFar(d: int, m: nat)
    requires d != 0
    ensures d * m >= m || d * m <= -(m as int)
  {
  }

  lemma RemainderByDouble(x: nat, m: nat)
    requires m > 0
    ensures x % (2 * m) == 2 * (x / 2 % m) + x % 2
  {
    var h := x / 2;
    assert h == h / m * m + h % m;
    RemainderIs(x, 2 * m, h / m, 2 * (h % m) + x % 2);
  }

  /** `(-1) << k` as an unsigned 32-bit word. */
  function ShiftedOnes(k: nat): u32 {
    0xFFFF_FFFF * Pow2(k) % 0x1_0000_0000
  }

  lemma Pow2Of32()
    ensures Pow2(32) == 0x1_0000_0000
  {
    assert Pow2(8) == 0x100;
    assert Pow2(16) == 0x1_0000;
    assert Pow2(24) == 0x100_0000;
  }

  /** And with `(-1) << k` clears the low k bits of a 32-bit word. */
  lemma AndShiftedOnes(x: u32, k: nat)
    requires k <= 32
    ensures And(x, ShiftedOnes(k)) == x - x % Pow2(k)
  {
    Pow2Of32();
    AndHighMask(x, 32, k);
    var p := Pow2(k);
    assert 0xFFFF_FFFF * p == (p - 1) * 0x1_0000_0000 + (0x1_0000_0000 - p);
    RemainderIs(0xFFFF_FFFF * p, 0x1_0000_0000, p - 1, 0x1_0000_0000 - p);
  }

  /** Clearing the offset part of an address yields `base` exactly when `base` is aligned and
      the address lies in its block. */
  lemma ClearedIsBlock(x: nat, base: nat, size: nat)
    requires size > 0
    ensures x - x % size == base <==> base % size == 0 && base <= x < base + size
  {
    if x - x % size == base {
      RemainderIs(base, size, x / size, 0);
    }
    if base % size == 0 && base <= x < base + size {
      RemainderIs(x, size, base / size, x - base);
    }
  }
}
