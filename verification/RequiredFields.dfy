/**
 The two 32-bit words in which the decoder keeps the required fields it has seen.
 */
module RequiredFields {
  import opened Wire
  import opened Descriptor
  import opened DecodeSpec

  // ---------------------------------------------------------------- bits of a word

  function Halved(w: nat, k: nat): nat {
    if k == 0 then w else Halved(w / 2, k - 1)
  }

  /** (w >> k) & 1 */
  predicate Bit(w: nat, k: nat) {
    Halved(w, k) % 2 == 1
  }

  /** w | (1 << k) */
  function OrBit(w: nat, k: nat): nat {
    if k == 0 then (if w % 2 == 1 then w else w + 1) else w % 2 + 2 * OrBit(w / 2, k - 1)
  }

  lemma {:induction false} OrBitSets(w: nat, k: nat, j: nat)
    ensures Bit(OrBit(w, k), j) <==> Bit(w, j) || j == k
  {
    if k == 0 {
      assert OrBit(w, k) / 2 == w / 2;
    } else {
      assert OrBit(w, k) / 2 == OrBit(w / 2, k - 1) && OrBit(w, k) % 2 == w % 2;
      if j > 0 {
        OrBitSets(w / 2, k - 1, j - 1);
      }
    }
  }

  lemma {:induction false} OrBitBound(w: nat, k: nat, width: nat)
    requires k < width && w < Pow(2, width)
    ensures OrBit(w, k) < Pow(2, width)
  {
    assert Pow(2, width) == 2 * Pow(2, width - 1);
    if k > 0 {
      OrBitBound(w / 2, k - 1, width - 1);
      assert OrBit(w, k) == w % 2 + 2 * OrBit(w / 2, k - 1);
    } else {
      assert OrBit(w, 0) == if w % 2 == 1 then w else w + 1;
    }
  }

  lemma {:induction false} LowBitsSet(n: nat, k: nat)
    ensures Pow(2, n) > 0 && (Bit(Pow(2, n) - 1, k) <==> k < n)
  {
    PowPositive(2, n);
    if n == 0 {
      NoBits(k);
    } else {
      PowPositive(2, n - 1);
      assert (Pow(2, n) - 1) / 2 == Pow(2, n - 1) - 1;
      if k > 0 {
        LowBitsSet(n - 1, k - 1);
      }
    }
  }

  lemma {:induction false} NoBits(k: nat)
    ensures !Bit(0, k)
  {
    if k > 0 {
      NoBits(k - 1);
    }
  }

  /** A word is determined by its bits. */
  lemma {:induction false} SameBits(w: nat, v: nat, width: nat)
    requires w < Pow(2, width) && v < Pow(2, width)
    requires forall k :: 0 <= k < width ==> (Bit(w, k) <==> Bit(v, k))
    ensures w == v
    decreases width
  {
    if width > 0 {
      forall k | 0 <= k < width - 1
        ensures Bit(w / 2, k) <==> Bit(v / 2, k)
      {
        assert Bit(w, k + 1) <==> Bit(v, k + 1);
      }
      SameBits(w / 2, v / 2, width - 1);
      assert Bit(w, 0) <==> Bit(v, 0);
    }
  }

  /** A word has exactly its low n bits set when it is 2^n - 1. */
  lemma LowBits(w: nat, n: nat, width: nat)
    requires n <= width && w < Pow(2, width)
    ensures w == Pow(2, n) - 1 <==> forall k :: 0 <= k < width ==> (Bit(w, k) <==> k < n)
  {
    hide Pow;
    PowPositive(2, n);
    PowMonotone(2, n, width);
    var v: nat := Pow(2, n) - 1;
    forall k | 0 <= k < width
      ensures Bit(v, k) <==> k < n
    {
      LowBitsSet(n, k);
    }
    if forall k :: 0 <= k < width ==> (Bit(w, k) <==> k < n) {
      SameBits(w, v, width);
    }
  }

  // ---------------------------------------------------------------- the words and the set

  const ALL_BITS: nat := 0xFFFF_FFFF

  /** The words hold the ordinals in s. */
  ghost predicate Holds(words: seq<nat>, s: set<nat>) {
    && |words| == 2 && words[0] <= ALL_BITS && words[1] <= ALL_BITS
    && forall o :: 0 <= o < 64 ==> (Bit(words[o / 32], o % 32) <==> o in s)
  }

  /** fields_seen[o >> 5] |= 1 << (o & 31) */
  lemma HoldsMore(words: seq<nat>, s: set<nat>, o: nat)
    requires Holds(words, s) && o < 64
    ensures Holds(words[o / 32 := OrBit(words[o / 32], o % 32)], s + {o})
  {
    hide Bit, OrBit;
    Pow32();
    var words' := words[o / 32 := OrBit(words[o / 32], o % 32)];
    OrBitBound(words[o / 32], o % 32, 32);
    forall q | 0 <= q < 64
      ensures Bit(words'[q / 32], q % 32) <==> q in s + {o}
    {
      OrBitSets(words[o / 32], o % 32, q % 32);
      assert q / 32 == o / 32 && q % 32 == o % 32 ==> q == o;
    }
  }

  lemma Pow32()
    ensures Pow(2, 32) == TWO_32
  {
    assert Pow(2, 2) == 2 * Pow(2, 1);
    PowAdd(2, 2, 2);
    PowAdd(2, 4, 4);
    PowAdd(2, 8, 8);
    PowAdd(2, 16, 16);
  }

  /** allbits >> (32 - n) */
  lemma MaskValue(n: nat)
    requires n <= 32
    ensures Pow(2, 32 - n) > 0 && ALL_BITS / Pow(2, 32 - n) == Pow(2, n) - 1
  {
    hide Pow;
    Pow32();
    PowPositive(2, 32 - n);
    PowPositive(2, n);
    PowAdd(2, n, 32 - n);
    var a, b := Pow(2, n), Pow(2, 32 - n);
    assert (a - 1) * b == a * b - b;
    DivUnique(ALL_BITS, b, a - 1, b - 1);
  }

  lemma DivUnique(n: nat, m: nat, q: nat, r: nat)
    requires m > 0 && n == q * m + r && r < m
    ensures n / m == q
  {
    var d := q - n / m;
    assert n == m * (n / m) + n % m;
    assert q * m - m * (n / m) == m * d;
    MulBound(m, d);
  }

  /** The final test on the words, for r required fields. */
  ghost predicate WordsComplete(words: seq<nat>, r: nat)
    requires |words| == 2 && r < 64
  {
    r > 0 ==>
      && (forall i :: 0 <= i < r / 32 ==> words[i] == ALL_BITS)
      && words[r / 32] == Pow(2, r % 32) - 1
  }

  /** It passes exactly when every one of the r ordinals was seen. */
  lemma WordsCompleteExact(words: seq<nat>, s: set<nat>, r: nat)
    requires Holds(words, s) && (r == 0 || (r < 64 && r % 32 != 0))
    requires forall o :: o in s ==> o < r
    ensures WordsComplete(words, r) <==> forall o :: 0 <= o < r ==> o in s
  {
    hide Bit, Pow;
    Pow32();
    LowBits(words[0], 32, 32);
    LowBits(words[r / 32], r % 32, 32);
    forall k | 0 <= k < 32
      ensures Bit(words[0], k) <==> k in s
      ensures Bit(words[1], k) <==> 32 + k in s
    {
      assert k / 32 == 0 && k % 32 == k;
      assert (32 + k) / 32 == 1 && (32 + k) % 32 == k;
    }
    var q, n := r / 32, r % 32;
    assert r == 32 * q + n && (q == 0 || q == 1);
    if WordsComplete(words, r) && r > 0 {
      assert q == 1 ==> words[0] == ALL_BITS;
      forall o | 0 <= o < r
        ensures o in s
      {
        if o < 32 {
          assert Bit(words[0], o);
        } else {
          assert Bit(words[1], o - 32);
        }
      }
    }
    if r > 0 && forall o :: 0 <= o < r ==> o in s {
      forall k | 0 <= k < 32
        ensures Bit(words[q], k) <==> k < n
      {
        assert Bit(words[q], k) <==> 32 * q + k in s;
      }
      assert q == 1 ==> forall k :: 0 <= k < 32 ==> (Bit(words[0], k) <==> k < 32);
    }
  }

  // ---------------------------------------------------------------- ordinals and fields

  /** The ordinals, among the required fields, of the entries in `seen`. */
  ghost function Ordinals(fields: seq<Field>, seen: set<nat>): set<nat>
    requires forall i :: i in seen ==> i < |fields|
  {
    set i | i in seen :: RequiredBefore(fields, i)
  }

  lemma {:induction false} RequiredBeforeMonotone(fields: seq<Field>, i: nat, j: nat)
    requires i < j <= |fields|
    ensures RequiredBefore(fields, i) <= RequiredBefore(fields, j)
    ensures fields[i].htype.Required? ==> RequiredBefore(fields, i) < RequiredBefore(fields, j)
    decreases j - i
  {
    if i + 1 < j {
      RequiredBeforeMonotone(fields, i + 1, j);
    }
  }

  /** Every ordinal below the count belongs to a required entry. */
  lemma {:induction false} OrdinalHasEntry(fields: seq<Field>, n: nat, o: nat) returns (i: nat)
    requires n <= |fields| && o < RequiredBefore(fields, n)
    ensures i < n && fields[i].htype.Required? && RequiredBefore(fields, i) == o
  {
    if o < RequiredBefore(fields, n - 1) {
      i := OrdinalHasEntry(fields, n - 1, o);
    } else {
      i := n - 1;
    }
  }

  ghost predicate OnlyRequired(fields: seq<Field>, seen: set<nat>) {
    forall i :: i in seen ==> i < |fields| && fields[i].htype.Required?
  }

  lemma OrdinalsComplete(fields: seq<Field>, seen: set<nat>)
    requires OnlyRequired(fields, seen)
    ensures var r := RequiredBefore(fields, |fields|);
            && (forall o :: o in Ordinals(fields, seen) ==> o < r)
            && (AllRequired(fields, seen) <==> forall o :: 0 <= o < r ==> o in Ordinals(fields, seen))
  {
    hide RequiredBefore;
    var r, s := RequiredBefore(fields, |fields|), Ordinals(fields, seen);
    forall o | o in s
      ensures o < r
    {
      var i :| i in seen && RequiredBefore(fields, i) == o;
      RequiredBeforeMonotone(fields, i, |fields|);
    }
    if AllRequired(fields, seen) {
      forall o | 0 <= o < r
        ensures o in s
      {
        var i := OrdinalHasEntry(fields, |fields|, o);
        assert i in seen;
      }
    }
    if forall o :: 0 <= o < r ==> o in s {
      forall i | 0 <= i < |fields| && fields[i].htype.Required?
        ensures i in seen
      {
        RequiredBeforeMonotone(fields, i, |fields|);
        assert RequiredBefore(fields, i) in s;
        var j :| j in seen && RequiredBefore(fields, j) == RequiredBefore(fields, i);
        OrdinalInjective(fields, i, j);
      }
    }
  }

  lemma OrdinalInjective(fields: seq<Field>, i: nat, j: nat)
    requires i < |fields| && j < |fields| && fields[i].htype.Required? && fields[j].htype.Required?
    requires RequiredBefore(fields, i) == RequiredBefore(fields, j)
    ensures i == j
  {
    hide RequiredBefore;
    if i < j {
      RequiredBeforeMonotone(fields, i, j);
    } else if j < i {
      RequiredBeforeMonotone(fields, j, i);
    }
  }

  /** The bitmask refines the set: the final test passes exactly when every required field of the
      descriptor was seen. */
  lemma BitmaskRefinesSet(fields: seq<Field>, words: seq<nat>, seen: set<nat>)
    requires OnlyRequired(fields, seen) && RequiredCountOk(fields)
    requires Holds(words, Ordinals(fields, seen))
    ensures WordsComplete(words, RequiredBefore(fields, |fields|)) <==> AllRequired(fields, seen)
  {
    hide RequiredBefore, Holds, WordsComplete, AllRequired, Ordinals;
    OrdinalsComplete(fields, seen);
    WordsCompleteExact(words, Ordinals(fields, seen), RequiredBefore(fields, |fields|));
  }

  lemma OrdinalsAdd(fields: seq<Field>, seen: set<nat>, i: nat)
    requires OnlyRequired(fields, seen) && i < |fields|
    ensures Ordinals(fields, seen + {i}) == Ordinals(fields, seen) + {RequiredBefore(fields, i)}
  {
    hide RequiredBefore;
  }

  /** A required entry has an ordinal the two words can hold. */
  lemma OrdinalFits(fields: seq<Field>, i: nat)
    requires RequiredCountOk(fields) && i < |fields| && fields[i].htype.Required?
    ensures RequiredBefore(fields, i) < 64
  {
    hide RequiredBefore;
    RequiredBeforeMonotone(fields, i, |fields|);
  }
}
