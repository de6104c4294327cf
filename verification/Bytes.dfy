// Bytes, fixed-width stores and loads on a little-endian host, and htonl/ntohl.
module Bytes {
  import opened Slots

  type byte = x: int | 0 <= x < 0x100
  type uint32 = x: int | 0 <= x < 0x1_0000_0000
  type uint64 = x: int | 0 <= x < 0x1_0000_0000_0000_0000

  const TWO_32: int := 0x1_0000_0000

  /** The n bytes of x in memory, lowest first. */
  function ToBytes(x: nat, n: nat): (b: seq<byte>)
    ensures |b| == n
  {
    if n == 0 then [] else [x % 0x100] + ToBytes(x / 0x100, n - 1)
  }

  function FromBytes(b: seq<byte>): (x: nat) {
    if b == [] then 0 else b[0] + 0x100 * FromBytes(b[1..])
  }

  /** How many values n bytes can hold. */
  function Capacity(n: nat): (c: nat) {
    if n == 0 then 1 else 0x100 * Capacity(n - 1)
  }

  lemma {:induction false} LoadOfStore(x: nat, n: nat)
    requires x < Capacity(n)
    ensures FromBytes(ToBytes(x, n)) == x
  {
    if n > 0 {
      LoadOfStore(x / 0x100, n - 1);
      assert ToBytes(x, n)[1..] == ToBytes(x / 0x100, n - 1);
    }
  }

  lemma {:induction false} StoreOfLoad(b: seq<byte>)
    ensures ToBytes(FromBytes(b), |b|) == b
    ensures FromBytes(b) < Capacity(|b|)
  {
    if b != [] {
      StoreOfLoad(b[1..]);
      LowestDigit(b[0], FromBytes(b[1..]), Capacity(|b| - 1));
      assert b == [b[0]] + b[1..];
    }
  }

  lemma LowestDigit(digit: byte, rest: nat, capacity: nat)
    ensures (digit + 0x100 * rest) % 0x100 == digit && (digit + 0x100 * rest) / 0x100 == rest
    ensures rest < capacity ==> digit + 0x100 * rest < 0x100 * capacity
  {
  }

  function Reverse(b: seq<byte>): (r: seq<byte>)
    ensures |r| == |b|
  {
    if b == [] then [] else Reverse(b[1..]) + [b[0]]
  }

  lemma {:induction false} ReverseAppend(b: seq<byte>, last: byte)
    ensures Reverse(b + [last]) == [last] + Reverse(b)
  {
    if b == [] {
      assert b + [last] == [last];
    } else {
      ReverseAppend(b[1..], last);
      assert (b + [last])[1..] == b[1..] + [last];
    }
  }

  lemma {:induction false} ReverseReverse(b: seq<byte>)
    ensures Reverse(Reverse(b)) == b
  {
    if b != [] {
      ReverseReverse(b[1..]);
      ReverseAppend(Reverse(b[1..]), b[0]);
    }
  }

  lemma FourBytes()
    ensures Capacity(4) == TWO_32
  {
    assert Capacity(2) == 0x1_0000;
  }

  function Store32(x: uint32): (b: seq<byte>)
    ensures |b| == 4
  {
    ToBytes(x, 4)
  }

  function Load32(b: seq<byte>): (x: uint32)
    requires |b| == 4
  {
    FourBytes();
    StoreOfLoad(b);
    FromBytes(b)
  }

  function Store64(x: uint64): (b: seq<byte>)
    ensures |b| == 8
  {
    Store32(x % TWO_32) + Store32(x / TWO_32)
  }

  function Load64(b: seq<byte>): (x: uint64)
    requires |b| == 8
  {
    Load32(b[..4]) + TWO_32 * Load32(b[4..])
  }

  /** htonl and ntohl: the argument is narrowed to 32 bits, then its bytes are reversed. */
  function SwapBytes(x: uint64): (y: uint32) {
    Load32(Reverse(Store32(x % TWO_32)))
  }

  lemma StoreLow(x: uint32)
    ensures Store64(x)[..4] == Store32(x)
  {
    assert x % TWO_32 == x;
  }

  lemma LoadStore32(x: uint32)
    ensures Load32(Store32(x)) == x
  {
    FourBytes();
    LoadOfStore(x, 4);
  }

  lemma StoreLoad32(b: seq<byte>)
    requires |b| == 4
    ensures Store32(Load32(b)) == b
  {
    StoreOfLoad(b);
  }

  lemma Narrowed(x: uint32)
    ensures x % TWO_32 == x
  {
  }

  /** Two swaps give back the value modulo 2^32: the round trip every field makes. */
  lemma SwapTwice(x: uint64)
    ensures SwapBytes(SwapBytes(x)) == x % TWO_32
  {
    hide Load32, Store32;
    var low: uint32 := x % TWO_32;
    var b := Reverse(Store32(low));
    StoreLoad32(b);
    ReverseReverse(Store32(low));
    LoadStore32(low);
    Narrowed(Load32(b));
  }

  // ----- network order, byte by byte -----

  /** The four bytes of x, highest first: what x is on the wire. */
  predicate BigEndian(b: seq<byte>, x: nat) {
    && |b| == 4
    && b[0] == x / 0x100_0000 % 0x100
    && b[1] == x / 0x1_0000 % 0x100
    && b[2] == x / 0x100 % 0x100
    && b[3] == x % 0x100
  }

  lemma FourDigits(x: uint32)
    ensures Store32(x) == [x % 0x100, x / 0x100 % 0x100, x / 0x1_0000 % 0x100, x / 0x100_0000]
  {
    var x1, x2, x3 := x / 0x100, x / 0x1_0000, x / 0x100_0000;
    assert x1 / 0x100 == x2 && x2 / 0x100 == x3 && x3 / 0x100 == 0;
    assert ToBytes(x3, 1) == [x3];
    assert ToBytes(x2, 2) == [x2 % 0x100] + ToBytes(x3, 1) == [x2 % 0x100, x3];
    assert ToBytes(x1, 3) == [x1 % 0x100] + ToBytes(x2, 2) == [x1 % 0x100, x2 % 0x100, x3];
    assert ToBytes(x, 4) == [x % 0x100] + ToBytes(x1, 3);
  }

  lemma ReverseFour(b0: byte, b1: byte, b2: byte, b3: byte)
    ensures Reverse([b0, b1, b2, b3]) == [b3, b2, b1, b0]
  {
    ReverseAppend([b0, b1, b2], b3);
    ReverseAppend([b0, b1], b2);
    ReverseAppend([b0], b1);
    assert [b0, b1, b2] + [b3] == [b0, b1, b2, b3] && [b0, b1] + [b2] == [b0, b1, b2] && [b0] + [b1] == [b0, b1];
    assert Reverse([b0]) == [b0];
  }

  lemma LowDigit(low: nat, high: nat, digit: nat, place: nat)
    requires place > 0 && digit > 0
    ensures (low + place * digit * high) / place == low / place + digit * high
  {
    var x, q, r := low + place * digit * high, low / place, low % place;
    assert x == place * (q + digit * high) + r;
    QuotientUnique(place, q + digit * high, r, x / place, x % place);
    QuotientUnique(place, x / place, x % place, q + digit * high, r);
  }

  lemma SameDigit(x: nat, high: nat)
    ensures (x + 0x100 * high) % 0x100 == x % 0x100
  {
  }

  /** The digits of x below 2^32 are those of x narrowed to 32 bits. */
  lemma LowDigits(x: nat)
    ensures var low := x % TWO_32;
      && low % 0x100 == x % 0x100 && low / 0x100 % 0x100 == x / 0x100 % 0x100
      && low / 0x1_0000 % 0x100 == x / 0x1_0000 % 0x100 && low / 0x100_0000 == x / 0x100_0000 % 0x100
  {
    var high, low := x / TWO_32, x % TWO_32;
    LowDigit(low, high, 0x100_0000, 0x100);
    LowDigit(low, high, 0x1_0000, 0x1_0000);
    LowDigit(low, high, 0x100, 0x100_0000);
    SameDigit(low, 0x100_0000 * high);
    SameDigit(low / 0x100, 0x1_0000 * high);
    SameDigit(low / 0x1_0000, 0x100 * high);
    SameDigit(low / 0x100_0000, high);
  }

  /** What htonl yields is stored highest byte first: whatever the argument's upper half, byte j on
      the wire is its digit 3 - j to the base 0x100. */
  lemma NetworkOrder(x: uint64)
    ensures BigEndian(Store32(SwapBytes(x)), x)
  {
    hide Load32, Reverse, Store32;
    var low: uint32 := x % TWO_32;
    StoreLoad32(Reverse(Store32(low)));
    FourDigits(low);
    ReverseFour(low % 0x100, low / 0x100 % 0x100, low / 0x1_0000 % 0x100, low / 0x100_0000);
    LowDigits(x);
  }

  /** An eight-byte store of a swapped value: network order, then four zeros. */
  lemma WideNetworkOrder(x: uint64)
    ensures BigEndian(Store64(SwapBytes(x))[..4], x)
    ensures Store64(SwapBytes(x))[4..] == [0, 0, 0, 0]
  {
    hide SwapBytes, Store32, Store64;
    NetworkOrder(x);
    StoreLow(SwapBytes(x));
    UpperHalf(SwapBytes(x));
  }

  lemma UpperHalf(x: uint32)
    ensures Store64(x)[4..] == [0, 0, 0, 0]
  {
    assert x / TWO_32 == 0;
    FourDigits(0);
  }

  /** Only the first four bytes of an eight-byte field survive the narrowing in ntohl. */
  lemma SwapLoad64(b: seq<byte>)
    requires |b| == 8
    ensures SwapBytes(Load64(b)) == SwapBytes(Load32(b[..4]))
  {
    hide Load32, Store32;
    LowHalf(Load32(b[..4]), Load32(b[4..]));
    Narrowed(Load32(b[..4]));
  }

  lemma LowHalf(lo: uint32, hi: uint32)
    ensures (lo + TWO_32 * hi) % TWO_32 == lo
  {
  }

  /** A field that starts with a swapped value reads back as that value modulo 2^32,
      whatever its upper four bytes are. */
  lemma FieldRoundTrip(field: seq<byte>, x: uint64)
    requires |field| == 8 && field[..4] == Store32(SwapBytes(x))
    ensures SwapBytes(Load64(field)) == x % TWO_32
  {
    hide SwapBytes, Load64, Store32, Load32;
    SwapLoad64(field);
    LoadStore32(SwapBytes(x));
    SwapTwice(x);
  }

  /** The swap of a one-byte value moves it to the top byte. */
  lemma SwappedSmall(x: uint32)
    requires x < 0x100
    ensures SwapBytes(x) == 0x100_0000 * x
  {
    hide Load32, Store32, Reverse;
    Narrowed(x);
    FourDigits(x);
    ReverseFour(x, 0, 0, 0);
    FourDigits(0x100_0000 * x);
    LoadStore32(0x100_0000 * x);
  }

  /** memcpy of `b` to position `at`. */
  function Overwrite(s: seq<byte>, at: nat, b: seq<byte>): (r: seq<byte>)
    requires at + |b| <= |s|
    ensures |r| == |s|
    ensures forall p :: 0 <= p < |r| ==> r[p] == if at <= p < at + |b| then b[p - at] else s[p]
  {
    s[..at] + b + s[at + |b|..]
  }

  method Memcpy(dst: array<byte>, at: nat, b: seq<byte>)
    requires at + |b| <= dst.Length
    modifies dst
    ensures dst[..] == Overwrite(old(dst[..]), at, b)
  {
    var i := 0;
    while i < |b|
      invariant 0 <= i <= |b|
      invariant forall p :: 0 <= p < dst.Length ==>
        dst[p] == if at <= p < at + i then b[p - at] else old(dst[p])
    {
      dst[at + i] := b[i];
      i := i + 1;
    }
  }
}
