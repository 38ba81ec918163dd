/**
 Scalar fields: the casts pb_enc_varint, pb_enc_uvarint, pb_enc_svarint and their decoders do
 between a variable of 1, 2, 4 or 8 bytes and the 64-bit number on the wire.
 */
module Scalars {
  import opened Wire
  import opened Descriptor

  /** The 64-bit number written for a variable holding d; None when its size is not supported. */
  function EncNumber(ltype: LType, d: seq<byte>): (r: Option<nat>)
    requires ltype.Varint? || ltype.Uvarint? || ltype.Svarint?
    ensures r.Some? ==> r.value < TWO_64
    ensures r.Some? <==> WordSize(|d|)
  {
    if !WordSize(|d|) then None
    else
      Pow256Values();
      LEBound(d);
      UnsignedSigned(LE(d), |d|);
      match ltype
      case Varint => Some(Unsigned(Signed(LE(d), |d|), 8))
      case Uvarint => Some(LE(d))
      case Svarint => Some(ZigZag(Signed(LE(d), |d|)))
  }

  /** What the decoder leaves in a variable of `size` bytes for the number v; None when v does not
      survive the cast. A signed varint narrower than 64 bits is cut to 32 bits first. */
  function DecNumber(ltype: LType, size: nat, v: nat): (r: Option<seq<byte>>)
    requires ltype.Varint? || ltype.Uvarint? || ltype.Svarint?
    requires v < TWO_64
    ensures r.Some? ==> WordSize(size) && |r.value| == size
  {
    if !WordSize(size) then None
    else if ltype.Uvarint? then
      if v % Pow(256, size) != v then None else Some(ToLE(v, size))
    else
      var value := if ltype.Svarint? then UnZigZag(v)
                   else if size == 8 then Signed(v, 8)
                   else Signed(v % TWO_32, 4);
      if Signed(Unsigned(value, size), size) != value then None
      else Some(ToLE(Unsigned(value, size), size))
  }

  /** A variable of any supported size, of any value, comes back unchanged. */
  lemma NumberRoundTrip(ltype: LType, d: seq<byte>)
    requires ltype.Varint? || ltype.Uvarint? || ltype.Svarint?
    requires WordSize(|d|)
    ensures DecNumber(ltype, |d|, EncNumber(ltype, d).value) == Some(d)
  {
    hide Pow, LE, ToLE;
    LEBound(d);
    ToLELE(d);
    Pow256Values();
    var n, u := |d|, LE(d);
    UnsignedSigned(u, n);
    SignedUnsigned(Signed(u, n), n);
    match ltype
    case Uvarint =>
    case Svarint => ZigZagBijection(Signed(u, n), 0);
    case Varint => SignExtension(u, n);
  }

  /** Casting to 64 bits and cutting back to 32 does not lose a narrower value. */
  lemma SignExtension(u: nat, n: nat)
    requires WordSize(n) && u < Pow(256, n)
    ensures n == 8 ==> Signed(Unsigned(Signed(u, n), 8), 8) == Signed(u, n)
    ensures n < 8 ==> Signed(Unsigned(Signed(u, n), 8) % TWO_32, 4) == Signed(u, n)
  {
    Pow256Values();
  }

  /** The value a decoder sees in the number v. */
  function Received(ltype: LType, size: nat, v: nat): int
    requires v < TWO_64
  {
    match ltype
    case Svarint => UnZigZag(v)
    case Varint => if size == 8 then Signed(v, 8) else Signed(v % TWO_32, 4)
    case _ => v
  }

  lemma FitsUnchanged(v: nat, p: nat)
    requires p > 0
    ensures v < p <==> v % p == v
  {
  }

  /** The decoder accepts a number exactly when the value it sees is in the range of the variable;
      then the variable holds that value. */
  lemma DecNumberExact(ltype: LType, size: nat, v: nat)
    requires ltype.Varint? || ltype.Uvarint? || ltype.Svarint?
    requires WordSize(size) && v < TWO_64
    ensures DecNumber(ltype, size, v).Some? <==>
            if ltype.Uvarint? then v < Pow(256, size) else InRange(Received(ltype, size, v), size)
    ensures DecNumber(ltype, size, v).Some? ==>
              var u := LE(DecNumber(ltype, size, v).value);
              Received(ltype, size, v) == if ltype.Uvarint? then u else Signed(u, size)
  {
    hide Pow, LE, ToLE, Signed, UnZigZag;
    PowPositive(256, size);
    if ltype.Uvarint? {
      FitsUnchanged(v, Pow(256, size));
      if v < Pow(256, size) {
        LEToLE(v, size);
      }
    } else {
      var value := Received(ltype, size, v);
      SignedUnsigned(value, size);
      LEToLE(Unsigned(value, size), size);
    }
  }

  // ---------------------------------------------------------------- what the number means

  /** The value of a variable holding d. */
  function ValueOf(ltype: LType, d: seq<byte>): int {
    if ltype.Uvarint? then LE(d) else Signed(LE(d), |d|)
  }

  /** The value a number on the wire stands for to a reader with 64 bits. */
  function WireValue(ltype: LType, n: nat): int
    requires n < TWO_64
  {
    match ltype
    case Varint => Signed(n, 8)
    case Svarint => UnZigZag(n)
    case _ => n
  }

  lemma InRangeWider(v: int, n: nat, size: nat)
    requires WordSize(n) && WordSize(size) && n <= size && InRange(v, n)
    ensures InRange(v, size)
  {
    Pow256Values();
  }

  /** The number written for a variable of any width stands for its value: int fields are
      sign-extended to 64 bits. */
  lemma NumberMeaning(ltype: LType, d: seq<byte>)
    requires ltype.Varint? || ltype.Uvarint? || ltype.Svarint?
    requires WordSize(|d|)
    ensures WireValue(ltype, EncNumber(ltype, d).value) == ValueOf(ltype, d)
  {
    hide Pow, LE, Signed, Unsigned, InRange, UnZigZag, ZigZag;
    LEBound(d);
    UnsignedSigned(LE(d), |d|);
    InRangeWider(Signed(LE(d), |d|), |d|, 8);
    SignedUnsigned(Signed(LE(d), |d|), 8);
    if ltype.Svarint? {
      ZigZagBijection(Signed(LE(d), |d|), 0);
    }
  }

  /** A negative int variable of any width takes ten bytes. */
  lemma NegativeTakesTen(d: seq<byte>)
    requires WordSize(|d|) && Signed(LE(d), |d|) < 0
    ensures |EncVarint(EncNumber(Varint, d).value)| == 10
  {
    hide LE, EncVarint;
    var n := EncNumber(Varint, d).value;
    NumberMeaning(Varint, d);
    Pow256Values();
    Pow128Values();
    assert n >= 0x8000_0000_0000_0000;
    EncVarintLength(n);
    VarintRoundTrip(n, []);
    assert Pow(128, 10) == 128 * Pow(128, 9);
    if |EncVarint(n)| < 10 {
      PowMonotone(128, |EncVarint(n)|, 9);
    }
  }

  /** A reader with a variable at least as wide gets the same value. */
  lemma WiderReader(ltype: LType, d: seq<byte>, size: nat)
    requires ltype.Varint? || ltype.Uvarint? || ltype.Svarint?
    requires WordSize(|d|) && WordSize(size) && |d| <= size
    ensures var r := DecNumber(ltype, size, EncNumber(ltype, d).value);
            r.Some? && ValueOf(ltype, r.value) == ValueOf(ltype, d)
  {
    hide Pow, LE, ToLE, Signed, Unsigned, InRange, UnZigZag, ZigZag, DecNumber;
    var n := EncNumber(ltype, d).value;
    LEBound(d);
    UnsignedSigned(LE(d), |d|);
    InRangeWider(Signed(LE(d), |d|), |d|, size);
    NumberMeaning(ltype, d);
    DecNumberExact(ltype, size, n);
    if ltype.Uvarint? {
      PowMonotone(256, |d|, size);
    } else if ltype.Varint? && size < 8 {
      SignExtension(LE(d), |d|);
    }
  }

  /** An int variable narrower than 64 bits takes the value x exactly from the numbers that agree
      with x in their low 32 bits, so from -1 in five bytes as well as in ten. */
  lemma NarrowReader(size: nat, v: nat, x: int)
    requires WordSize(size) && size < 8 && v < TWO_64 && InRange(x, size)
    ensures DecNumber(Varint, size, v) == Some(ToLE(Unsigned(x, size), size)) <==> (v - x) % TWO_32 == 0
  {
    hide LE, ToLE, DecNumber;
    DecNumberExact(Varint, size, v);
    SignedUnsigned(x, size);
    LEToLE(Unsigned(x, size), size);
    Pow256Values();
    InRangeWider(x, size, 4);
    SameLowBits(v, x);
    var w := Received(Varint, size, v);
    assert w == x <==> (v - x) % TWO_32 == 0;
    if w == x {
      var r := DecNumber(Varint, size, v).value;
      LEBound(r);
      ToLELE(r);
      UnsignedSigned(LE(r), size);
    }
  }

  lemma SameLowBits(v: nat, x: int)
    requires InRange(x, 4)
    ensures Signed(v % TWO_32, 4) == x <==> (v - x) % TWO_32 == 0
  {
    Pow256Values();
  }
}
