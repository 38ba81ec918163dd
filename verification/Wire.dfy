/**
 Numbers on the wire and in memory: base-128 varints, zig-zag, little-endian words and the
 narrowing done by the scalar field encoders and decoders.
 */
module Wire {

  type byte = x: int | 0 <= x < 256

  datatype Option<+T> = None | Some(value: T) {
    predicate IsFailure() {
      None?
    }

    function PropagateFailure<U>(): Option<U>
      requires None?
    {
      None
    }

    function Extract(): T
      requires Some?
    {
      value
    }
  }

  const TWO_32: nat := 0x1_0000_0000
  const TWO_64: nat := 0x1_0000_0000_0000_0000

  function Pow(base: nat, n: nat): nat {
    if n == 0 then 1 else base * Pow(base, n - 1)
  }

  lemma {:induction false} PowPositive(base: nat, n: nat)
    requires base > 0
    ensures Pow(base, n) > 0
  {
    if n > 0 {
      PowPositive(base, n - 1);
    }
  }

  lemma {:induction false} PowAdd(base: nat, m: nat, n: nat)
    ensures Pow(base, m + n) == Pow(base, m) * Pow(base, n)
  {
    if m > 0 {
      PowAdd(base, m - 1, n);
      assert base * (Pow(base, m - 1) * Pow(base, n)) == base * Pow(base, m - 1) * Pow(base, n);
    }
  }

  lemma {:induction false} PowMonotone(base: nat, m: nat, n: nat)
    requires base > 0 && m <= n
    ensures Pow(base, m) <= Pow(base, n)
  {
    if m < n {
      PowMonotone(base, m, n - 1);
      assert base * Pow(base, n - 1) >= 1 * Pow(base, n - 1);
    }
  }

  lemma MulBound(m: int, d: int)
    requires m > 0
    ensures d >= 1 ==> m * d >= m
    ensures d <= -1 ==> m * d <= -m
  {
  }

  // ---------------------------------------------------------------- varints

  /** The bytes written for an unsigned value: seven bits a byte, lowest first, top bit = "more". */
  function EncVarint(v: nat): (s: seq<byte>)
    ensures |s| >= 1
    decreases v
  {
    if v < 128 then [v] else [128 + v % 128] + EncVarint(v / 128)
  }

  /** Reads at most `limit` bytes of a varint; the value is not yet cut to a machine width. */
  function RawVarint(s: seq<byte>, limit: nat): (r: Option<(nat, seq<byte>)>)
    ensures r.Some? ==> |r.value.1| < |s| && r.value.1 == s[|s| - |r.value.1|..]
    decreases limit
  {
    if limit == 0 || s == [] then None
    else if s[0] < 128 then Some((s[0], s[1..]))
    else
      var (v, rest) :- RawVarint(s[1..], limit - 1);
      assert rest == s[|s| - |rest|..];
      Some((s[0] - 128 + 128 * v, rest))
  }

  function DecVarint(s: seq<byte>): Option<(nat, seq<byte>)> {
    var (v, rest) :- RawVarint(s, 10);
    Some((v % TWO_64, rest))
  }

  function DecVarint32(s: seq<byte>): Option<(nat, seq<byte>)> {
    var (v, rest) :- RawVarint(s, 5);
    Some((v % TWO_32, rest))
  }

  /** How many bytes the varint of `v` takes: the least k >= 1 with v < 128^k. */
  lemma {:induction false} EncVarintLength(v: nat)
    ensures v < Pow(128, |EncVarint(v)|)
    ensures |EncVarint(v)| > 1 ==> v >= Pow(128, |EncVarint(v)| - 1)
    decreases v
  {
    if v >= 128 {
      EncVarintLength(v / 128);
      var n := |EncVarint(v / 128)|;
      assert |EncVarint(v)| == n + 1;
      assert Pow(128, n + 1) == 128 * Pow(128, n);
      if n > 1 {
        assert Pow(128, n) == 128 * Pow(128, n - 1);
      } else {
        assert Pow(128, 1) == 128 * Pow(128, 0);
      }
    } else {
      assert Pow(128, 1) == 128 * Pow(128, 0);
    }
  }

  /** A value below 128^limit fits into `limit` bytes. */
  lemma EncVarintFits(v: nat, limit: nat)
    requires limit > 0 && v < Pow(128, limit)
    ensures |EncVarint(v)| <= limit
  {
    EncVarintLength(v);
    if |EncVarint(v)| > limit {
      PowMonotone(128, limit, |EncVarint(v)| - 1);
    }
  }

  lemma EncVarintStep(v: nat)
    ensures EncVarint(v) == if v < 128 then [v] else [128 + v % 128] + EncVarint(v / 128)
    ensures v >= 128 ==> |EncVarint(v)| == 1 + |EncVarint(v / 128)| && v / 128 < v
    ensures v % 128 + 128 * (v / 128) == v
  {
  }

  lemma RawVarintStep(b: byte, tail: seq<byte>, limit: nat)
    requires limit > 0
    ensures RawVarint([b] + tail, limit) ==
            if b < 128 then Some((b, tail))
            else
              var r := RawVarint(tail, limit - 1);
              if r.None? then None else Some((b - 128 + 128 * r.value.0, r.value.1))
  {
    assert ([b] + tail)[1..] == tail;
  }

  lemma {:induction false} RawVarintReads(v: nat, limit: nat, t: seq<byte>)
    requires |EncVarint(v)| <= limit
    ensures RawVarint(EncVarint(v) + t, limit) == Some((v, t))
    decreases v
  {
    hide RawVarint, EncVarint;
    EncVarintStep(v);
    if v < 128 {
      RawVarintStep(v, t, limit);
    } else {
      var low: byte, tail := 128 + v % 128, EncVarint(v / 128) + t;
      RawVarintReads(v / 128, limit - 1, t);
      assert EncVarint(v) + t == [low] + tail;
      RawVarintStep(low, tail, limit);
    }
  }

  /** Whatever follows a varint does not change how it is read. */
  lemma {:induction false} RawVarintPrefix(s: seq<byte>, limit: nat, t: seq<byte>)
    requires RawVarint(s, limit).Some?
    ensures RawVarint(s + t, limit) == Some((RawVarint(s, limit).value.0, RawVarint(s, limit).value.1 + t))
    decreases limit
  {
    assert (s + t)[1..] == s[1..] + t;
    if s[0] >= 128 {
      RawVarintPrefix(s[1..], limit - 1, t);
    }
  }

  /** Any varint that ends within `limit` bytes is read the same by a more generous reader. */
  lemma {:induction false} RawVarintLimit(s: seq<byte>, limit: nat, more: nat)
    requires limit <= more && RawVarint(s, limit).Some?
    ensures RawVarint(s, more) == RawVarint(s, limit)
    ensures RawVarint(s, limit).value.0 < Pow(128, limit)
    ensures |s| - |RawVarint(s, limit).value.1| <= limit
    decreases limit
  {
    PowPositive(128, limit - 1);
    if s[0] >= 128 {
      RawVarintLimit(s[1..], limit - 1, more - 1);
    }
  }

  /** The number a string of seven-bit groups stands for, lowest group first. */
  function Groups(s: seq<byte>): nat {
    if s == [] then 0 else s[0] % 128 + 128 * Groups(s[1..])
  }

  /** The first k bytes of s are one varint: only the last of them has a clear top bit. */
  ghost predicate VarintEnds(s: seq<byte>, k: nat) {
    0 < k <= |s| && s[k - 1] < 128 && forall j :: 0 <= j < k - 1 ==> s[j] >= 128
  }

  /** A varint is read exactly when it ends within the limit; its value is that of its groups. */
  lemma {:induction false} RawVarintMeaning(s: seq<byte>, limit: nat)
    ensures RawVarint(s, limit).Some? ==>
              var (v, rest) := RawVarint(s, limit).value;
              var k := |s| - |rest|;
              k <= limit && VarintEnds(s, k) && v == Groups(s[..k])
    ensures RawVarint(s, limit).None? ==> forall k :: 0 < k <= limit ==> !VarintEnds(s, k)
    decreases limit
  {
    if limit > 0 && s != [] {
      if s[0] < 128 {
        assert s[..1][1..] == [];
      } else {
        RawVarintMeaning(s[1..], limit - 1);
        forall k | 0 < k <= limit && VarintEnds(s, k)
          ensures k > 1 && VarintEnds(s[1..], k - 1)
        {
        }
        if RawVarint(s[1..], limit - 1).Some? {
          var k := |s| - |RawVarint(s, limit).value.1|;
          assert s[..k][1..] == s[1..][..k - 1];
        }
      }
    }
  }

  /** Both readers, without reference to how they read: ten or five bytes at most, the value of the
      groups modulo the machine word, and nothing consumed but the varint. */
  lemma VarintsRead(s: seq<byte>, k: nat)
    requires VarintEnds(s, k)
    ensures DecVarint(s) == if k <= 10 then Some((Groups(s[..k]) % TWO_64, s[k..])) else None
    ensures DecVarint32(s) == if k <= 5 then Some((Groups(s[..k]) % TWO_32, s[k..])) else None
  {
    hide Groups, RawVarint;
    RawVarintMeaning(s, 10);
    RawVarintMeaning(s, 5);
    EndUnique(s, k);
  }

  lemma EndUnique(s: seq<byte>, k: nat)
    requires VarintEnds(s, k)
    ensures forall j: nat :: VarintEnds(s, j) ==> j == k
    ensures forall limit :: RawVarint(s, limit).Some? ==> RawVarint(s, limit).value.1 == s[k..]
  {
    hide Groups, RawVarint;
    forall limit | RawVarint(s, limit).Some?
      ensures RawVarint(s, limit).value.1 == s[k..]
    {
      RawVarintMeaning(s, limit);
      RawVarintSuffix(s, limit);
    }
  }

  lemma RawVarintSuffix(s: seq<byte>, limit: nat)
    requires RawVarint(s, limit).Some?
    ensures var rest := RawVarint(s, limit).value.1;
            |rest| < |s| && rest == s[|s| - |rest|..]
  {
  }

  lemma VarintRoundTrip(v: nat, t: seq<byte>)
    requires v < TWO_64
    ensures |EncVarint(v)| <= 10
    ensures DecVarint(EncVarint(v) + t) == Some((v, t))
  {
    hide Pow, EncVarint, RawVarint;
    Pow128Values();
    EncVarintFits(v, 10);
    RawVarintReads(v, 10, t);
  }

  lemma Varint32RoundTrip(v: nat, t: seq<byte>)
    requires v < TWO_32
    ensures |EncVarint(v)| <= 5
    ensures RawVarint(EncVarint(v) + t, 5) == Some((v, t))
    ensures DecVarint32(EncVarint(v) + t) == Some((v, t))
  {
    hide Pow, EncVarint, RawVarint;
    Pow128Values();
    EncVarintFits(v, 5);
    RawVarintReads(v, 5, t);
  }

  lemma Pow128Values()
    ensures Pow(128, 5) == 0x8_0000_0000
    ensures Pow(128, 10) == 0x40_0000_0000_0000_0000
  {
    assert Pow(128, 2) == 128 * Pow(128, 1);
    assert Pow(128, 3) == 128 * Pow(128, 2);
    assert Pow(128, 4) == 128 * Pow(128, 3);
    assert Pow(128, 5) == 128 * Pow(128, 4);
    PowAdd(128, 5, 5);
  }

  /** The 32-bit reader accepts exactly the varints that end within five bytes, consumes what the
      64-bit reader consumes, and returns its value modulo 2^32. */
  lemma Varint32Refines64(s: seq<byte>)
    ensures DecVarint32(s).Some? <==>
            DecVarint(s).Some? && |s| - |DecVarint(s).value.1| <= 5
    ensures DecVarint32(s).Some? ==>
            DecVarint32(s).value == (DecVarint(s).value.0 % TWO_32, DecVarint(s).value.1)
  {
    Pow128Values();
    if RawVarint(s, 5).Some? {
      RawVarintLimit(s, 5, 10);
    } else if RawVarint(s, 10).Some? && |s| - |RawVarint(s, 10).value.1| <= 5 {
      RawVarintWithin(s, 5, 10);
    }
  }

  lemma {:induction false} RawVarintWithin(s: seq<byte>, limit: nat, more: nat)
    requires limit <= more && RawVarint(s, more).Some?
    requires |s| - |RawVarint(s, more).value.1| <= limit
    ensures RawVarint(s, limit).Some?
    decreases limit
  {
    if s[0] >= 128 {
      RawVarintWithin(s[1..], limit - 1, more - 1);
    }
  }

  /** A tag word: the field number above three bits of wire type. */
  function EncTag(wireType: nat, tag: nat): (s: seq<byte>)
    ensures |s| >= 1
  {
    EncVarint(tag * 8 + wireType)
  }

  // ---------------------------------------------------------------- words

  /** The number a little-endian byte string stands for. */
  function LE(s: seq<byte>): nat {
    if s == [] then 0 else s[0] + 256 * LE(s[1..])
  }

  /** The low n bytes of v, lowest first. */
  function ToLE(v: nat, n: nat): (s: seq<byte>)
    ensures |s| == n
  {
    if n == 0 then [] else [v % 256] + ToLE(v / 256, n - 1)
  }

  lemma {:induction false} LEBound(s: seq<byte>)
    ensures LE(s) < Pow(256, |s|)
  {
    if s != [] {
      LEBound(s[1..]);
    }
  }

  lemma {:induction false} LEToLE(v: nat, n: nat)
    requires v < Pow(256, n)
    ensures LE(ToLE(v, n)) == v
  {
    if n > 0 {
      assert v / 256 < Pow(256, n - 1);
      LEToLE(v / 256, n - 1);
      assert ToLE(v, n)[1..] == ToLE(v / 256, n - 1);
    }
  }

  lemma {:induction false} ToLELE(s: seq<byte>)
    ensures ToLE(LE(s), |s|) == s
  {
    if s != [] {
      ToLELE(s[1..]);
      assert LE(s) / 256 == LE(s[1..]);
      assert s == [s[0]] + s[1..];
    }
  }

  function Zeros(n: nat): (s: seq<byte>)
    ensures |s| == n
    ensures forall i :: 0 <= i < n ==> s[i] == 0
  {
    seq(n, i => 0)
  }

  lemma {:induction false} LEZeros(s: seq<byte>)
    requires forall i :: 0 <= i < |s| ==> s[i] == 0
    ensures LE(s) == 0
  {
    if s != [] {
      LEZeros(s[1..]);
    }
  }

  // ---------------------------------------------------------------- signed values

  /** Reading u, an n-byte pattern, as a two's complement integer. */
  function Signed(u: nat, n: nat): int {
    if 2 * u >= Pow(256, n) then u - Pow(256, n) else u
  }

  /** Casting v to an n-byte unsigned type. */
  function Unsigned(v: int, n: nat): (u: nat)
    ensures u < Pow(256, n)
  {
    PowPositive(256, n);
    v % Pow(256, n)
  }

  predicate InRange(v: int, n: nat) {
    -(Pow(256, n) as int) <= 2 * v < Pow(256, n)
  }

  predicate WordSize(n: nat) {
    n == 1 || n == 2 || n == 4 || n == 8
  }

  lemma Pow256Values()
    ensures Pow(256, 1) == 0x100
    ensures Pow(256, 2) == 0x1_0000
    ensures Pow(256, 4) == TWO_32
    ensures Pow(256, 8) == TWO_64
  {
    assert Pow(256, 2) == 256 * Pow(256, 1);
    PowAdd(256, 2, 2);
    PowAdd(256, 4, 4);
  }

  lemma SignedUnsigned(v: int, n: nat)
    requires WordSize(n)
    ensures InRange(Signed(Unsigned(v, n), n), n)
    ensures InRange(v, n) <==> Signed(Unsigned(v, n), n) == v
  {
    Pow256Values();
  }

  lemma UnsignedSigned(u: nat, n: nat)
    requires WordSize(n) && u < Pow(256, n)
    ensures InRange(Signed(u, n), n)
    ensures Unsigned(Signed(u, n), n) == u
  {
    Pow256Values();
  }

  /** pb_encode_svarint: a negative value becomes the complement of its doubled bit pattern. */
  function ZigZag(v: int): (z: nat)
    requires InRange(v, 8)
    ensures z < TWO_64
  {
    Pow256Values();
    if v < 0 then TWO_64 - 1 - (Unsigned(v, 8) * 2) % TWO_64 else (v * 2) % TWO_64
  }

  /** pb_decode_svarint: an odd value is the complement of its halved bit pattern. */
  function UnZigZag(z: nat): (v: int)
    requires z < TWO_64
  {
    if z % 2 == 1 then Signed(TWO_64 - 1 - z / 2, 8) else Signed(z / 2, 8)
  }

  lemma ZigZagBijection(v: int, z: nat)
    requires InRange(v, 8) && z < TWO_64
    ensures UnZigZag(ZigZag(v)) == v
    ensures InRange(UnZigZag(z), 8) && ZigZag(UnZigZag(z)) == z
    ensures ZigZag(v) == if v < 0 then -2 * v - 1 else 2 * v
  {
    hide Pow;
    Pow256Values();
    ZigZagValue(v);
    ZigZagValue(UnZigZag(z));
  }

  lemma ZigZagValue(v: int)
    requires InRange(v, 8)
    ensures ZigZag(v) == if v < 0 then -2 * v - 1 else 2 * v
  {
    hide Pow;
    Pow256Values();
  }
}
