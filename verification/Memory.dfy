/**
 Variables in memory, little-endian, at byte addresses.
 */
module Memory {
  import opened Wire
  import opened State

  /** M' is M with new bytes in [at, at + n) and nothing else changed. */
  ghost predicate Only(M: seq<byte>, M': seq<byte>, at: int, n: nat) {
    DiffersOnlyIn(M, M', at, n, at, 0)
  }

  method Load(mem: array<byte>, at: int, n: nat) returns (v: nat)
    requires 0 <= at && at + n <= mem.Length
    ensures v == LE(mem[at..at + n])
  {
    v := 0;
    var i := n;
    assert mem[at + n..at + n] == [];
    while i > 0
      invariant 0 <= i <= n
      invariant v == LE(mem[at + i..at + n])
    {
      i := i - 1;
      v := mem[at + i] + 256 * v;
      assert mem[at + i..at + n][1..] == mem[at + i + 1..at + n];
    }
  }

  method Store(mem: array<byte>, at: int, n: nat, value: nat)
    requires 0 <= at && at + n <= mem.Length
    modifies mem
    ensures mem[at..at + n] == ToLE(value, n)
    ensures Only(old(mem[..]), mem[..], at, n)
  {
    var v, i := value, 0;
    while i < n
      invariant 0 <= i <= n
      invariant mem[at..at + i] + ToLE(v, n - i) == ToLE(value, n)
      invariant Only(old(mem[..]), mem[..], at, n)
    {
      ghost var before := mem[at..at + i];
      mem[at + i] := v % 256;
      assert mem[at..at + i + 1] == before + [v % 256];
      assert ToLE(v, n - i) == [v % 256] + ToLE(v / 256, n - i - 1);
      v, i := v / 256, i + 1;
    }
  }

  method Fill(mem: array<byte>, at: int, bytes: seq<byte>)
    requires 0 <= at && at + |bytes| <= mem.Length
    modifies mem
    ensures mem[at..at + |bytes|] == bytes
    ensures Only(old(mem[..]), mem[..], at, |bytes|)
  {
    for i := 0 to |bytes|
      invariant mem[at..at + i] == bytes[..i]
      invariant Only(old(mem[..]), mem[..], at, |bytes|)
    {
      mem[at + i] := bytes[i];
      assert mem[at..at + i + 1] == mem[at..at + i] + [bytes[i]];
    }
  }
}
