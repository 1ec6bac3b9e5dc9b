/** Byte strings as the capture reader slices and unpacks them. */
module Bytes {
  newtype Byte = b: int | 0 <= b < 256
  type ByteString = seq<Byte>

  /** Python's `s[lo:hi]` for `0 <= lo <= hi`: both bounds are clamped to the length. */
  function Slice(s: ByteString, lo: nat, hi: nat): (r: ByteString)
    requires lo <= hi
    ensures |r| == if |s| <= lo then 0 else if |s| <= hi then |s| - lo else hi - lo
    ensures forall i :: 0 <= i < |r| ==> r[i] == s[lo + i]
  {
    var n := if |s| <= lo then 0 else if |s| <= hi then |s| - lo else hi - lo;
    seq(n, i requires 0 <= i < n => s[lo + i])
  }

  /** The number whose big-endian digits are the first `n` bytes of `b`. */
  function BigEndian(b: ByteString, n: nat): nat
    requires n <= |b|
  {
    if n == 0 then 0 else BigEndian(b, n - 1) * 256 + b[n - 1] as nat
  }

  /** `struct.unpack(">I", b)`. */
  function ReadBE32(b: ByteString): nat
    requires |b| == 4
  {
    BigEndian(b, 4)
  }

  /** `struct.pack(">I", n)`, the low 32 bits of `n`. */
  function WriteBE32(n: nat): (b: ByteString)
    ensures |b| == 4
    ensures n < 0x1_0000_0000 ==> ReadBE32(b) == n
  {
    var b := [(n / 256 / 256 / 256 % 256) as Byte, (n / 256 / 256 % 256) as Byte, (n / 256 % 256) as Byte,
              (n % 256) as Byte];
    assert n < 0x1_0000_0000 ==> BigEndian(b, 1) == n / 256 / 256 / 256;
    assert n < 0x1_0000_0000 ==> BigEndian(b, 2) == n / 256 / 256;
    assert n < 0x1_0000_0000 ==> BigEndian(b, 3) == n / 256;
    b
  }

  function Zeros(n: nat): (z: ByteString)
    ensures |z| == n && forall i :: 0 <= i < n ==> z[i] == 0
  {
    seq(n, _ => 0)
  }

  /** Addition and subtraction modulo 256. */
  function Plus(a: Byte, b: Byte): Byte {
    ((a as int + b as int) % 256) as Byte
  }

  function Minus(a: Byte, b: Byte): (d: Byte)
    ensures Plus(d, b) == a
  {
    ((a as int - b as int) % 256) as Byte
  }

  lemma MinusPlus(a: Byte, b: Byte)
    ensures Minus(Plus(a, b), b) == a
  {
  }
}
