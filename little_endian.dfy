/**
  * Little-endian byte encodings and 32-bit two's complement, as used by
  * `binary.Write` / `binary.Read` with `binary.LittleEndian` on `int32` values
  * and by Go's conversions to `int32`.
  */
module LittleEndian {

  type byte = x: int | 0 <= x < 0x100

  type int32 = x: int | -0x8000_0000 <= x < 0x8000_0000

  const MinInt32: int32 := -0x8000_0000
  const MaxInt32: int32 := 0x7FFF_FFFF
  const Two32: int := 0x1_0000_0000

  /** 256 to the power k: the number of values k bytes can hold. */
  function Pow256(k: nat): (p: nat)
    ensures p >= 1
  {
    if k == 0 then 1 else 256 * Pow256(k - 1)
  }

  lemma Pow256Four()
    ensures Pow256(4) == Two32
  {
  }

  /** The k low-order bytes of u, least significant first. */
  function ToLE(u: nat, k: nat): (b: seq<byte>)
    ensures |b| == k
  {
    if k == 0 then [] else [u % 256] + ToLE(u / 256, k - 1)
  }

  /** The unsigned number whose little-endian bytes are b. */
  function FromLE(b: seq<byte>): (u: nat)
    ensures u < Pow256(|b|)
  {
    if b == [] then 0 else b[0] + 256 * FromLE(b[1..])
  }

  /** Decoding the k-byte encoding of a number that fits in k bytes gives it back. */
  lemma {:induction false} FromLEOfToLE(u: nat, k: nat)
    requires u < Pow256(k)
    ensures FromLE(ToLE(u, k)) == u
  {
    if k > 0 {
      var b := ToLE(u, k);
      assert b[1..] == ToLE(u / 256, k - 1);
      FromLEOfToLE(u / 256, k - 1);
    }
  }

  /** Encoding the value of a byte sequence in as many bytes gives the sequence back. */
  lemma {:induction false} ToLEOfFromLE(b: seq<byte>)
    ensures ToLE(FromLE(b), |b|) == b
  {
    if b != [] {
      var u := FromLE(b);
      var hi := FromLE(b[1..]);
      assert u % 256 == b[0] && u / 256 == hi;
      ToLEOfFromLE(b[1..]);
      assert ToLE(u, |b|) == [b[0]] + b[1..];
    }
  }

  /** The bit pattern of x, read as an unsigned 32-bit number. */
  function ToUnsigned(x: int32): (u: nat)
    ensures u < Two32
    ensures x >= 0 <==> u <= MaxInt32
  {
    if x < 0 then x + Two32 else x
  }

  /** The int32 whose bit pattern is the unsigned 32-bit number u. */
  function ToSigned(u: nat): (x: int32)
    requires u < Two32
    ensures ToUnsigned(x) == u
  {
    if u <= MaxInt32 then u else u - Two32
  }

  /**
    * Go's conversion `int32(n)`: keeps the low 32 bits of n and reads them as
    * two's complement. Also the result of int32 arithmetic that overflows.
    */
  function Wrap32(n: int): (r: int32)
    ensures ToUnsigned(r) == n % Two32
    ensures MinInt32 <= n <= MaxInt32 ==> r == n
  {
    ToSigned(n % Two32)
  }

  /** `binary.Write(w, binary.LittleEndian, x)` for an int32 x. */
  function EncodeInt32(x: int32): (b: seq<byte>)
    ensures |b| == 4
    ensures FromLE(b) == ToUnsigned(x)
  {
    Pow256Four();
    FromLEOfToLE(ToUnsigned(x), 4);
    ToLE(ToUnsigned(x), 4)
  }

  /** `binary.Read(r, binary.LittleEndian, &x)` for an int32 x, given its 4 bytes. */
  function DecodeInt32(b: seq<byte>): (x: int32)
    requires |b| == 4
    ensures EncodeInt32(x) == b
  {
    Pow256Four();
    ToLEOfFromLE(b);
    ToSigned(FromLE(b))
  }

  /** Every int32, negative ones included, survives encoding then decoding. */
  lemma DecodeEncodeInt32(x: int32)
    ensures DecodeInt32(EncodeInt32(x)) == x
  {
    var b := EncodeInt32(x);
    assert FromLE(b) == ToUnsigned(x);
  }

  /** -1 is written as four 0xFF bytes, and small non-negative values as themselves then zeros. */
  lemma EncodeInt32Examples()
    ensures EncodeInt32(-1) == [0xFF, 0xFF, 0xFF, 0xFF]
    ensures EncodeInt32(14) == [0x0E, 0x00, 0x00, 0x00]
  {
  }
}
