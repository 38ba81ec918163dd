/**
 Input streams over a memory buffer (pb_istream_t) and the readers of the wire format.
 */
module InputStreams {
  import opened Wire
  import opened DecodeSpec
  import opened DecodeLaws
  import opened Memory
  import State

  // ---------------------------------------------------------------- varint loops

  /** After k bytes of the varint at `start`, acc holds their bits and s is what follows. */
  ghost predicate ReadSoFar(start: seq<byte>, limit: nat, acc: nat, k: nat, s: seq<byte>) {
    var r := RawVarint(start, limit);
    && k <= limit && acc < Pow(128, k)
    && var r' := RawVarint(s, limit - k);
       && (r.Some? <==> r'.Some?)
       && (r.Some? ==> r.value.1 == r'.value.1 && r.value.0 == acc + r'.value.0 * Pow(128, k))
  }

  /** The bits of the next byte land above those read before. */
  ghost function NextAcc(acc: nat, k: nat, b: byte): nat {
    acc + (b % 128) * Pow(128, k)
  }

  lemma ReadNext(start: seq<byte>, limit: nat, acc: nat, k: nat, s: seq<byte>)
    requires ReadSoFar(start, limit, acc, k, s) && k < limit && s != []
    ensures s[0] >= 128 ==> ReadSoFar(start, limit, NextAcc(acc, k, s[0]), k + 1, s[1..])
    ensures s[0] < 128 ==> RawVarint(start, limit) == Some((NextAcc(acc, k, s[0]), s[1..]))
  {
    hide Pow;
    AccBound(acc, k, s[0]);
    if s[0] < 128 {
      AccSplit(acc, k, s[0], 0);
    } else if RawVarint(s[1..], limit - k - 1).Some? {
      AccSplit(acc, k, s[0], RawVarint(s[1..], limit - k - 1).value.0);
    }
  }

  lemma AccBound(acc: nat, k: nat, b: byte)
    requires acc < Pow(128, k)
    ensures NextAcc(acc, k, b) < Pow(128, k + 1)
  {
    var p := Pow(128, k);
    assert Pow(128, k + 1) == 128 * p;
    AtMost127(b % 128, p);
  }

  lemma AtMost127(x: nat, p: nat)
    requires x <= 127
    ensures x * p <= 127 * p
  {
    assert (127 - x) * p >= 0;
  }

  lemma AccSplit(acc: nat, k: nat, b: byte, v: nat)
    ensures acc + (b % 128 + 128 * v) * Pow(128, k) == NextAcc(acc, k, b) + v * Pow(128, k + 1)
  {
    var p := Pow(128, k);
    assert Pow(128, k + 1) == 128 * p;
    assert (b % 128 + 128 * v) * p == (b % 128) * p + v * (128 * p);
  }

  /** v << n */
  function Shl(v: nat, n: nat): nat {
    v * Pow(2, n)
  }

  /** `result |= bits << position` in a machine word: the bits do not overlap, so it is a sum. */
  lemma ShiftIn(acc: nat, k: nat, b: byte)
    ensures (acc % TWO_64 + Shl(b % 128, 7 * k)) % TWO_64 == NextAcc(acc, k, b) % TWO_64
    ensures (acc % TWO_32 + Shl(b % 128, 7 * k)) % TWO_32 == NextAcc(acc, k, b) % TWO_32
    ensures acc < Pow(128, k) ==> acc < Pow(2, 7 * k)
  {
    hide Pow;
    BitPosition(k);
    SumInWord(acc, Shl(b % 128, 7 * k));
  }

  lemma SumInWord(a: nat, x: nat)
    ensures (a % TWO_64 + x) % TWO_64 == (a + x) % TWO_64
    ensures (a % TWO_32 + x) % TWO_32 == (a + x) % TWO_32
  {
    SumMod(a, x, TWO_64);
    SumMod(a, x, TWO_32);
  }

  lemma SumMod(a: nat, x: nat, m: nat)
    requires m > 0
    ensures (a % m + x) % m == (a + x) % m
  {
    var y := a % m + x;
    assert a == m * (a / m) + a % m && y == m * (y / m) + y % m;
    assert m * (a / m) + m * (y / m) == m * (a / m + y / m);
    ModUnique(a + x, m, a / m + y / m, y % m);
  }

  lemma ModUnique(n: nat, m: nat, q: nat, r: nat)
    requires m > 0 && n == m * q + r && r < m
    ensures n % m == r
  {
    var d := q - n / m;
    assert n == m * (n / m) + n % m;
    assert m * q - m * (n / m) == m * d;
    MulBound(m, d);
  }

  lemma FirstBits(b: byte)
    ensures NextAcc(0, 0, b) == b % 128
  {
    PowZero();
  }

  lemma ReadStart(start: seq<byte>, limit: nat)
    ensures ReadSoFar(start, limit, 0, 0, start)
  {
  }

  lemma PowZero()
    ensures Pow(128, 0) == 1
  {
  }

  lemma ReadStuck(start: seq<byte>, limit: nat, acc: nat, k: nat, s: seq<byte>)
    requires ReadSoFar(start, limit, acc, k, s) && (k == limit || s == [])
    ensures RawVarint(start, limit).None?
  {
  }

  /** 2^(7k) is 128^k: bit positions that advance by seven. */
  lemma {:induction false} BitPosition(k: nat)
    ensures Pow(2, 7 * k) == Pow(128, k)
  {
    if k > 0 {
      BitPosition(k - 1);
      PowAdd(2, 7, 7 * (k - 1));
      assert Pow(2, 7) == 128 by {
        PowAdd(2, 3, 4);
        assert Pow(2, 3) == 8;
        PowAdd(2, 2, 2);
        assert Pow(2, 2) == 4;
      }
    }
  }

  // ---------------------------------------------------------------- streams

  class IStream {
    const source: seq<byte>
    var state: nat
    var bytesLeft: nat

    ghost predicate Valid()
      reads this
    {
      state + bytesLeft <= |source|
    }

    /** The bytes this stream may still hand out. */
    ghost function Remaining(): (s: seq<byte>)
      requires Valid()
      reads this
      ensures |s| == bytesLeft
    {
      source[state..state + bytesLeft]
    }

    /** Position plus bytes left: what the ledger keeps. */
    ghost function Limit(): nat
      reads this
    {
      state + bytesLeft
    }

    constructor FromBuffer(buf: seq<byte>, size: nat)
      requires size <= |buf|
      ensures Valid() && Remaining() == buf[..size] && source == buf && state == 0
    {
      source := buf;
      state, bytesLeft := 0, size;
    }

    constructor Copy(stream: IStream)
      requires stream.Valid()
      ensures Valid() && source == stream.source && state == stream.state && bytesLeft == stream.bytesLeft
    {
      source := stream.source;
      state, bytesLeft := stream.state, stream.bytesLeft;
    }

    /** pb_read without a destination: skip bytes. */
    method Skip(count: nat) returns (ok: bool)
      requires Valid()
      modifies this
      ensures Valid()
      ensures ok <==> count <= old(bytesLeft)
      ensures Limit() == old(Limit())
      ensures ok ==> Remaining() == old(Remaining())[count..]
      ensures !ok ==> state == old(state) && bytesLeft == old(bytesLeft)
    {
      if bytesLeft < count {
        return false;
      }
      state := state + count;
      bytesLeft := bytesLeft - count;
      return true;
    }

    /** pb_read into memory. */
    method Read(mem: array<byte>, at: int, count: nat) returns (ok: bool)
      requires Valid() && 0 <= at && at + count <= mem.Length
      modifies this, mem
      ensures Valid()
      ensures ok <==> count <= old(bytesLeft)
      ensures Limit() == old(Limit())
      ensures ok ==> Remaining() == old(Remaining())[count..]
      ensures ok ==> mem[at..at + count] == old(Remaining())[..count]
      ensures Only(old(mem[..]), mem[..], at, count)
      ensures !ok ==> mem[..] == old(mem[..]) && state == old(state) && bytesLeft == old(bytesLeft)
    {
      if bytesLeft < count {
        return false;
      }
      assert Remaining()[..count] == source[state..state + count];
      Fill(mem, at, source[state..state + count]);
      state := state + count;
      bytesLeft := bytesLeft - count;
      return true;
    }

    method ReadByte() returns (ok: bool, b: byte)
      requires Valid()
      modifies this
      ensures Valid()
      ensures ok <==> old(bytesLeft) > 0
      ensures Limit() == old(Limit())
      ensures ok ==> b == old(Remaining())[0] && Remaining() == old(Remaining())[1..]
      ensures !ok ==> state == old(state) && bytesLeft == old(bytesLeft)
    {
      if bytesLeft == 0 {
        return false, 0;
      }
      b := source[state];
      state := state + 1;
      bytesLeft := bytesLeft - 1;
      return true, b;
    }

    /** pb_decode_varint. The bits of a byte land above those read before, so `|=` is an addition. */
    method DecodeVarint() returns (ok: bool, dest: nat)
      requires Valid()
      modifies this
      ensures Valid()
      ensures Limit() == old(Limit())
      ensures ok <==> DecVarint(old(Remaining())).Some?
      ensures ok ==> DecVarint(old(Remaining())) == Some((dest, Remaining()))
      ensures dest < TWO_64
    {
      hide Pow, Shl, RawVarint, ReadSoFar, NextAcc;
      ghost var start := Remaining();
      ghost var acc: nat, k: nat := 0, 0;
      ReadStart(start, 10);
      var bitpos, result: nat := 0, 0;
      while true
        invariant Valid() && Limit() == old(Limit())
        invariant bitpos == 7 * k && k <= 10
        invariant result == acc % TWO_64
        invariant ReadSoFar(start, 10, acc, k, Remaining())
        decreases bytesLeft
      {
        if bitpos >= 64 {
          ReadStuck(start, 10, acc, k, Remaining());
          return false, 0;
        }
        ghost var s := Remaining();
        var more, b := ReadByte();
        if !more {
          ReadStuck(start, 10, acc, k, s);
          return false, 0;
        }
        ShiftIn(acc, k, b);
        ReadNext(start, 10, acc, k, s);
        result := (result + Shl(b % 128, bitpos)) % TWO_64;
        acc, k := NextAcc(acc, k, b), k + 1;
        bitpos := bitpos + 7;
        if b < 128 {
          return true, result;
        }
      }
    }

    /** pb_decode_varint32. A failure at the very end of the stream is told apart by bytesLeft. */
    method DecodeVarint32() returns (ok: bool, dest: nat)
      requires Valid()
      modifies this
      ensures Valid()
      ensures Limit() == old(Limit())
      ensures ok <==> DecVarint32(old(Remaining())).Some?
      ensures ok ==> DecVarint32(old(Remaining())) == Some((dest, Remaining()))
      ensures !ok ==> (bytesLeft == 0 <==> old(bytesLeft) <= 5)
      ensures dest < TWO_32
    {
      hide Pow, Shl, RawVarint, ReadSoFar, NextAcc;
      ghost var start := Remaining();
      ReadStart(start, 5);
      var b: byte;
      ok, b := ReadByte();
      if !ok {
        ReadStuck(start, 5, 0, 0, start);
        return false, 0;
      }
      FirstBits(b);
      ReadNext(start, 5, 0, 0, start);
      ghost var acc: nat, k: nat := NextAcc(0, 0, b), 1;
      var bitpos, result: nat := 7, b % 128;
      if b < 128 {
        return true, b;
      }
      while true
        invariant Valid() && Limit() == old(Limit())
        invariant bitpos == 7 * k && 1 <= k <= 5
        invariant old(bytesLeft) == bytesLeft + k
        invariant result == acc % TWO_32
        invariant ReadSoFar(start, 5, acc, k, Remaining())
        decreases bytesLeft
      {
        if bitpos >= 32 {
          ReadStuck(start, 5, acc, k, Remaining());
          return false, 0;
        }
        ghost var s := Remaining();
        ok, b := ReadByte();
        if !ok {
          ReadStuck(start, 5, acc, k, s);
          return false, 0;
        }
        ShiftIn(acc, k, b);
        ReadNext(start, 5, acc, k, s);
        result := (result + Shl(b % 128, bitpos)) % TWO_32;
        acc, k := NextAcc(acc, k, b), k + 1;
        bitpos := bitpos + 7;
        if b < 128 {
          return true, result;
        }
      }
    }

    /** pb_decode_svarint */
    method DecodeSvarint() returns (ok: bool, dest: int)
      requires Valid()
      modifies this
      ensures Valid()
      ensures ok <==> DecVarint(old(Remaining())).Some?
      ensures Limit() == old(Limit())
      ensures ok ==> DecVarint(old(Remaining())).value.1 == Remaining()
      ensures ok ==> dest == UnZigZag(DecVarint(old(Remaining())).value.0)
    {
      var value;
      ok, value := DecodeVarint();
      if !ok {
        return false, 0;
      }
      Pow256Values();
      if value % 2 == 1 {
        dest := ToSigned(TWO_64 - 1 - value / 2, 8);
      } else {
        dest := ToSigned(value / 2, 8);
      }
    }

    method SkipVarint() returns (ok: bool)
      requires Valid()
      modifies this
      ensures Valid()
      ensures ok <==> DecodeSpec.SkipVarint(old(Remaining())).Some?
      ensures Limit() == old(Limit())
      ensures ok ==> DecodeSpec.SkipVarint(old(Remaining())) == Some(Remaining())
    {
      ghost var start := Remaining();
      while true
        invariant Valid() && Limit() == old(Limit())
        invariant DecodeSpec.SkipVarint(Remaining()) == DecodeSpec.SkipVarint(start)
        decreases bytesLeft
      {
        var more, b := ReadByte();
        if !more {
          return false;
        }
        if b < 128 {
          return true;
        }
      }
    }

    method SkipString() returns (ok: bool)
      requires Valid()
      modifies this
      ensures Valid()
      ensures ok <==> TakeChunk(old(Remaining())).Some?
      ensures Limit() == old(Limit())
      ensures ok ==> TakeChunk(old(Remaining())).value.1 == Remaining()
    {
      var length;
      ok, length := DecodeVarint32();
      if !ok {
        return false;
      }
      ok := Skip(length);
    }

    /** pb_decode_tag */
    method DecodeTag() returns (ok: bool, wireType: nat, tag: nat, eof: bool)
      requires Valid()
      modifies this
      ensures Valid()
      ensures Limit() == old(Limit())
      ensures match DecodeSpec.DecodeTag(old(Remaining()))
              case Tag(t, w, rest) => ok && tag == t && wireType == w && Remaining() == rest
              case TagEnd(rest) => !ok && eof && Remaining() == rest
              case TagError => !ok && !eof
    {
      eof, wireType, tag := false, 0, 0;
      var word;
      ok, word := DecodeVarint32();
      if !ok {
        if bytesLeft == 0 {
          eof := true;
        }
        return;
      }
      if word == 0 {
        return false, 0, 0, true;
      }
      tag, wireType := word / 8, word % 8;
    }

    /** pb_skip_field */
    method SkipField(wireType: nat) returns (ok: bool)
      requires Valid()
      modifies this
      ensures Valid()
      ensures ok <==> UnknownFraming(wireType).Some? && Frame(UnknownFraming(wireType).value, old(Remaining())).Some?
      ensures Limit() == old(Limit())
      ensures ok ==> Frame(UnknownFraming(wireType).value, old(Remaining())).value.1 == Remaining()
      ensures ok ==> bytesLeft <= old(bytesLeft) && PayloadTakes(wireType, old(Remaining()), old(bytesLeft) - bytesLeft)
      ensures !ok ==> forall k: nat :: !PayloadTakes(wireType, old(Remaining()), k)
    {
      hide PayloadTakes, DecodeSpec.SkipVarint, TakeChunk, DecVarint32;
      SkipUndeclaredExact(wireType, Remaining());
      if wireType == WT_VARINT {
        ok := SkipVarint();
      } else if wireType == WT_64BIT {
        ok := Skip(8);
      } else if wireType == WT_STRING {
        ok := SkipString();
      } else if wireType == WT_32BIT {
        ok := Skip(4);
      } else {
        ok := false;
      }
    }

    /** pb_make_string_substream. While the substream is open its slice is booked out of this
        stream, but this stream's position still stands at the slice. */
    method MakeStringSubstream() returns (ok: bool, substream: IStream?)
      requires Valid()
      modifies this
      ensures Valid()
      ensures Limit() <= old(Limit())
      ensures ok <==> TakeChunk(old(Remaining())).Some?
      ensures ok ==>
                && substream != null && fresh(substream) && substream.Valid() && substream.source == source
                && substream.Remaining() == TakeChunk(old(Remaining())).value.0
                && substream.state == state && substream.Limit() + bytesLeft == old(Limit())
                && source[substream.Limit()..old(Limit())] == TakeChunk(old(Remaining())).value.1
    {
      hide DecVarint32;
      var size;
      ok, size := DecodeVarint32();
      if !ok {
        return false, null;
      }
      ghost var rest := Remaining();
      substream := new IStream.Copy(this);
      if substream.bytesLeft < size {
        return false, substream;
      }
      substream.bytesLeft := size;
      bytesLeft := bytesLeft - size;
      State.SubSlice(source, state, |rest|, 0, size);
      State.SubSlice(source, state, |rest|, size, bytesLeft);
      assert rest[0..size] == rest[..size] && rest[size..size + bytesLeft] == rest[size..];
    }

    /** pb_close_string_substream. What the substream has left is skipped, and this stream goes on
        behind the slice. */
    method CloseStringSubstream(substream: IStream) returns (ok: bool)
      requires Valid() && substream.Valid() && substream != this && substream.source == source
      requires substream.Limit() + bytesLeft <= |source|
      modifies this, substream
      ensures Valid() && ok
      ensures state == old(substream.Limit()) && bytesLeft == old(bytesLeft)
    {
      if substream.bytesLeft != 0 {
        var skipped := substream.Skip(substream.bytesLeft);
        if !skipped {
          assert false;
        }
      }
      state := substream.state;
      ok := true;
    }
  }

  /** The cast of an n-byte pattern to the signed type of that size. */
  method ToSigned(u: nat, n: nat) returns (v: int)
    ensures v == Signed(u, n)
  {
    var range: int := Pow(256, n);
    v := if 2 * u >= range then u - range else u;
  }

  /** The cast to the n-byte unsigned type. */
  method ToUnsigned(v: int, n: nat) returns (u: nat)
    ensures u == Unsigned(v, n)
  {
    PowPositive(256, n);
    u := v % Pow(256, n);
  }
}
