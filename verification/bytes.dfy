/** Small optional-value wrapper used for every decoder that can fail. */
module Wrappers {

  datatype Option<T> = None | Some(value: T)
}

/**
 Octets and the byte-level primitives the protocol rests on: unsigned
 big-endian integers (the `!` byte order of Python's `struct`) and
 `pad_string`, which fits a name into a fixed-width field.
 */
module Bytes {

  /** One octet of a Python `bytes` value, and the ranges of struct's 'H' and 'I'. */
  type byte = x: int | 0 <= x < 0x100
  type u16 = x: int | 0 <= x < 0x1_0000
  type u32 = x: int | 0 <= x < 0x1_0000_0000

  /** struct's 'H' in network byte order: high byte first. */
  function FromBigEndian16(b: seq<byte>): (x: u16)
    requires |b| == 2
  {
    b[0] as int * 0x100 + b[1] as int
  }

  function BigEndian16(x: u16): (r: seq<byte>)
    ensures |r| == 2
    ensures FromBigEndian16(r) == x
  {
    [x / 0x100, x % 0x100]
  }

  /** Two bytes are the big-endian form of exactly one value. */
  lemma BigEndian16Unique(b: seq<byte>)
    requires |b| == 2
    ensures BigEndian16(FromBigEndian16(b)) == b
  {
  }

  /** struct's 'I' in network byte order: most significant byte first. */
  function FromBigEndian32(b: seq<byte>): (x: u32)
    requires |b| == 4
  {
    b[0] as int * 0x100_0000 + b[1] as int * 0x1_0000 + b[2] as int * 0x100 + b[3] as int
  }

  function BigEndian32(x: u32): (r: seq<byte>)
    ensures |r| == 4
    ensures FromBigEndian32(r) == x
  {
    var x1 := x / 0x100;
    var x2 := x1 / 0x100;
    assert x == x1 * 0x100 + x % 0x100;
    assert x1 == x2 * 0x100 + x1 % 0x100;
    assert x2 == x2 / 0x100 * 0x100 + x2 % 0x100;
    [x2 / 0x100, x2 % 0x100, x1 % 0x100, x % 0x100]
  }

  /** Four bytes are the big-endian form of exactly one value. */
  lemma BigEndian32Unique(b: seq<byte>)
    requires |b| == 4
    ensures BigEndian32(FromBigEndian32(b)) == b
  {
    var x := FromBigEndian32(b);
    DivModUnique(x, 0x100_0000, b[0], b[1] as int * 0x1_0000 + b[2] as int * 0x100 + b[3] as int);
    DivModUnique(x, 0x1_0000, b[0] as int * 0x100 + b[1] as int, b[2] as int * 0x100 + b[3] as int);
    DivModUnique(x / 0x1_0000, 0x100, b[0], b[1]);
    DivModUnique(x, 0x100, b[0] as int * 0x1_0000 + b[1] as int * 0x100 + b[2] as int, b[3]);
    DivModUnique(x / 0x100, 0x100, b[0] as int * 0x100 + b[1] as int, b[2]);
  }

  /** Euclidean division is unique: q and r are x's quotient and remainder by d. */
  lemma DivModUnique(x: int, d: int, q: int, r: int)
    requires d > 0 && 0 <= r < d && x == q * d + r
    ensures x / d == q && x % d == r
  {
    var q', r' := x / d, x % d;
    assert (q - q') * d == r' - r;
    if q > q' {
      MulMonotone(q - q', d);
    } else if q < q' {
      MulMonotone(q' - q, d);
    }
  }

  lemma MulMonotone(a: int, d: int)
    requires a >= 1 && d > 0
    ensures a * d >= d
  {
  }

  /**
   pad_string (protocol.py): the first `length` bytes of text, followed by
   zero bytes up to exactly `length` bytes.
   */
  function PadString(text: seq<byte>, length: nat): (r: seq<byte>)
    ensures |r| == length
    ensures |text| <= length ==> r[..|text|] == text
    ensures |text| <= length ==> forall i | |text| <= i < length :: r[i] == 0
    ensures |text| > length ==> r == text[..length]
  {
    if |text| >= length then text[..length]
    else text + seq(length - |text|, _ => 0)
  }

  /** Padding an already padded field changes nothing, so pad_string is idempotent. */
  lemma PadStringIdempotent(text: seq<byte>, length: nat)
    ensures PadString(PadString(text, length), length) == PadString(text, length)
  {
  }

  /** Whatever the input length, the field keeps the input's first bytes. */
  lemma PadStringKeepsPrefix(text: seq<byte>, length: nat, k: nat)
    requires k <= |text| && k <= length
    ensures PadString(text, length)[..k] == text[..k]
  {
  }
}
