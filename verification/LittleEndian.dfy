/** Little-endian integers in a byte string, read at any offset, and what a byte string holds where. */
module LittleEndian {
  import opened Wrappers
  import opened Text

  type Bytes = seq<Byte>

  function Value(bytes: Bytes): nat {
    if bytes == [] then 0 else bytes[0] + 256 * Value(bytes[1..])
  }

  /** The integer in the `n` bytes at `at`; nothing when they are not all there. */
  function Le(bytes: Bytes, at: nat, n: nat): Option<nat> {
    if at + n <= |bytes| then Some(Value(bytes[at..at + n])) else None
  }

  function Or(read: Option<nat>, otherwise: nat): nat {
    if read.Some? then read.value else otherwise
  }

  function Power(n: nat): nat {
    if n == 0 then 1 else 256 * Power(n - 1)
  }

  function ToLe(v: nat, n: nat): (r: Bytes)
    ensures |r| == n
  {
    if n == 0 then [] else [v % 256] + ToLe(v / 256, n - 1)
  }

  lemma {:induction false} LeRoundTrip(v: nat, n: nat)
    requires v < Power(n)
    ensures Value(ToLe(v, n)) == v
  {
    if n > 0 {
      LeRoundTrip(v / 256, n - 1);
      assert ToLe(v, n)[1..] == ToLe(v / 256, n - 1);
    }
  }

  lemma Powers()
    ensures Power(2) == 0x1_0000 && Power(4) == 0x1_0000_0000 && Power(8) == 0x1_0000_0000_0000_0000
  {
    assert Power(1) == 256 * Power(0);
    assert Power(3) == 256 * Power(2);
    assert Power(5) == 256 * Power(4);
    assert Power(7) == 256 * Power(6);
  }

  lemma LeOf(bytes: Bytes, at: nat, v: nat, n: nat)
    requires at + n <= |bytes| && bytes[at..at + n] == ToLe(v, n) && v < Power(n)
    ensures Le(bytes, at, n) == Some(v)
  {
    LeRoundTrip(v, n);
  }

  /** Whether the bytes hold `part` from offset `at` on. */
  predicate Holds(data: Bytes, at: nat, part: Bytes) {
    at + |part| <= |data| && data[at..at + |part|] == part
  }

  lemma Embedded(data: Bytes, at: nat, part: Bytes, i: nat, j: nat)
    requires Holds(data, at, part) && i <= j <= |part|
    ensures data[at + i..at + j] == part[i..j]
  {
    forall k | 0 <= k < j - i
      ensures data[at + i..at + j][k] == part[i..j][k]
    {
      assert data[at..at + |part|][i + k] == part[i + k];
    }
  }

  lemma HoldsBoth(data: Bytes, at: nat, a: Bytes, b: Bytes)
    requires Holds(data, at, a + b)
    ensures Holds(data, at, a) && Holds(data, at + |a|, b)
  {
    Embedded(data, at, a + b, 0, |a|);
    Embedded(data, at, a + b, |a|, |a| + |b|);
    assert (a + b)[0..|a|] == a && (a + b)[|a|..|a| + |b|] == b;
  }

  lemma HoldsLast(a: Bytes, b: Bytes)
    ensures Holds(a + b, |a|, b)
  {
  }

  lemma HoldsIsInside(data: Bytes, at: nat, part: Bytes)
    requires Holds(data, at, part)
    ensures at + |part| <= |data|
  {
  }
}
