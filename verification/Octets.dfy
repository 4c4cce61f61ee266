/** Bytes, fixed-width integers and big-endian numbers: what the packet code's
    shifts and ors compute. */
module Octets {

  type Byte = b: int | 0 <= b < 0x100
  type UInt16 = n: int | 0 <= n < 0x1_0000
  type UInt32 = n: int | 0 <= n < 0x1_0000_0000

  // size_t on a 64-bit target.  Every operation on it is checked to stay in range.
  newtype SizeT = n: int | 0 <= n < 0x1_0000_0000_0000_0000

  // No object is larger than this (PTRDIFF_MAX).
  const MAX_OBJECT: int := 0x7FFF_FFFF_FFFF_FFFF

  datatype Option<+T> = None | Some(value: T)

  function Pow256(k: nat): (p: nat)
    ensures p >= 1
  {
    if k == 0 then 1 else 256 * Pow256(k - 1)
  }

  /** The unsigned number whose base-256 digits are s, most significant first. */
  function BigEndian(s: seq<Byte>): nat {
    if s == [] then 0 else BigEndian(s[..|s| - 1]) * 256 + s[|s| - 1]
  }

  /** The low k base-256 digits of n, most significant first. */
  function Digits(n: nat, k: nat): (s: seq<Byte>)
    ensures |s| == k
  {
    if k == 0 then [] else Digits(n / 256, k - 1) + [n % 256]
  }

  /** The two's-complement number an INTEGER's contents denote (section 8.3.3 of X.690). */
  function Signed(s: seq<Byte>): int {
    if s != [] && s[0] >= 128 then BigEndian(s) - Pow256(|s|) else BigEndian(s)
  }

  lemma {:induction false} BigEndianPush(s: seq<Byte>, b: Byte)
    ensures BigEndian(s + [b]) == BigEndian(s) * 256 + b
  {
    assert (s + [b])[..|s|] == s;
  }

  lemma {:induction false} BigEndianBound(s: seq<Byte>)
    ensures BigEndian(s) < Pow256(|s|)
  {
    if s != [] {
      BigEndianBound(s[..|s| - 1]);
    }
  }

  lemma {:induction false} DigitsValue(n: nat, k: nat)
    requires n < Pow256(k)
    ensures BigEndian(Digits(n, k)) == n
  {
    if k > 0 {
      DigitsValue(n / 256, k - 1);
      BigEndianPush(Digits(n / 256, k - 1), n % 256);
    }
  }

  lemma {:induction false} DigitsOfValue(s: seq<Byte>)
    ensures Digits(BigEndian(s), |s|) == s
  {
    if s != [] {
      DigitsOfValue(s[..|s| - 1]);
    }
  }

  // A field of the packet object: uint8_t or uint32_t.
  datatype Width = W8 | W32

  /** What a register of width w keeps of n. */
  function Truncate(n: nat, w: Width): nat {
    match w
    case W8 => n % 0x100
    case W32 => n % 0x1_0000_0000
  }

  lemma Wrap8(n: nat, k: nat)
    ensures (n + 0x100 * k) % 0x100 == n % 0x100
  {
    assert n + 0x100 * k == 0x100 * (n / 0x100 + k) + n % 0x100;
  }

  lemma Wrap32(n: nat, k: nat)
    ensures (n + 0x1_0000_0000 * k) % 0x1_0000_0000 == n % 0x1_0000_0000
  {
    assert n + 0x1_0000_0000 * k == 0x1_0000_0000 * (n / 0x1_0000_0000 + k) + n % 0x1_0000_0000;
  }

  /** `x = (x << 8) | byte` in a register holding the low part of s's number leaves the
      low part of the number of s and the byte. */
  lemma FoldStep(s: seq<Byte>, b: Byte, w: Width)
    ensures Truncate(BigEndian([]), w) == 0
    ensures Truncate(Truncate(BigEndian(s), w) * 256 + b, w) == Truncate(BigEndian(s + [b]), w)
  {
    BigEndianPush(s, b);
    var n := BigEndian(s);
    match w
    case W8 => Wrap8(n % 0x100 * 256 + b, n / 0x100 * 256);
    case W32 => Wrap32(n % 0x1_0000_0000 * 256 + b, n / 0x1_0000_0000 * 256);
  }

  /** The printer's shifts and masks of a 32-bit number are its four digits. */
  lemma FourDigits(n: UInt32)
    ensures Digits(n, 4) == [n / 0x100_0000 % 0x100, n / 0x1_0000 % 0x100, n / 0x100 % 0x100, n % 0x100]
  {
    assert n / 0x100 / 0x100 == n / 0x1_0000;
    assert n / 0x1_0000 / 0x100 == n / 0x100_0000;
    assert Digits(n, 4) == Digits(n / 0x100, 3) + [n % 0x100];
    assert Digits(n / 0x100, 3) == Digits(n / 0x1_0000, 2) + [n / 0x100 % 0x100];
    assert Digits(n / 0x1_0000, 2) == Digits(n / 0x100_0000, 1) + [n / 0x1_0000 % 0x100];
    assert Digits(n / 0x100_0000, 1) == [] + [n / 0x100_0000 % 0x100];
  }

  lemma FourOctets()
    ensures Pow256(4) == 0x1_0000_0000
    ensures forall k: nat :: k <= 4 ==> Pow256(k) <= 0x1_0000_0000
  {
    assert Pow256(2) == 256 * Pow256(1) && Pow256(1) == 256 * Pow256(0);
    assert Pow256(4) == 256 * Pow256(3) && Pow256(3) == 256 * Pow256(2);
    forall k: nat | k <= 4
      ensures Pow256(k) <= 0x1_0000_0000
    {
      assert k == 0 || k == 1 || k == 2 || k == 3 || k == 4;
    }
  }

  /** One more octet of a length of at most four. */
  lemma LengthStep(s: seq<Byte>, b: Byte)
    requires |s| < 4
    ensures BigEndian([]) == 0
    ensures BigEndian(s + [b]) == BigEndian(s) * 0x100 + b < 0x1_0000_0000
  {
    FourOctets();
    BigEndianPush(s, b);
    BigEndianBound(s + [b]);
  }
}
