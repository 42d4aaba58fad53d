/** The allocator's bitmap as it lies in memory: eight bits to a byte, lowest first. */
module Bitmap {
  import opened Words
  import opened Align

  /** The lowest `n` bits of `x`. */
  function BitsOf(x: nat, n: nat): (s: seq<bool>)
    ensures |s| == n
  {
    if n == 0 then [] else [x % 2 == 1] + BitsOf(x / 2, n - 1)
  }

  function Value(s: seq<bool>): (x: nat)
    ensures x < Pow2(|s|)
  {
    if s == [] then 0 else (if s[0] then 1 else 0) + 2 * Value(s[1..])
  }

  lemma {:induction false} ValueOfBits(x: nat, n: nat)
    requires x < Pow2(n)
    ensures Value(BitsOf(x, n)) == x
  {
    if n > 0 {
      ValueOfBits(x / 2, n - 1);
    }
  }

  lemma {:induction false} BitsOfValue(s: seq<bool>)
    ensures BitsOf(Value(s), |s|) == s
  {
    if s != [] {
      BitsOfValue(s[1..]);
      assert s == [s[0]] + s[1..];
    }
  }

  function Octet(b: byte): (s: seq<bool>)
    ensures |s| == 8
  {
    BitsOf(b, 8)
  }

  function ByteOf(s: seq<bool>): byte
    requires |s| == 8
  {
    assert Pow2(4) == 16;
    assert Pow2(8) == 256;
    Value(s)
  }

  lemma ByteOfOctet(b: byte)
    ensures ByteOf(Octet(b)) == b
  {
    assert Pow2(4) == 16;
    ValueOfBits(b, 8);
  }

  lemma OctetOfByte(s: seq<bool>)
    requires |s| == 8
    ensures Octet(ByteOf(s)) == s
  {
    BitsOfValue(s);
  }

  /** Bit `k` of a byte has weight 2^k. */
  lemma {:induction false} BitWeight(x: nat, n: nat, k: nat)
    requires k < n
    ensures Pow2(k) > 0 && BitsOf(x, n)[k] == (x / Pow2(k) % 2 == 1)
  {
    if k > 0 {
      BitWeight(x / 2, n - 1, k - 1);
      assert x / (2 * Pow2(k - 1)) == x / 2 / Pow2(k - 1) by { DivTwice(x, Pow2(k - 1)); }
    }
  }

  lemma DivTwice(x: nat, d: nat)
    requires d > 0
    ensures x / (2 * d) == x / 2 / d
  {
    var q, r := x / 2 / d, x / 2 % d;
    assert x / 2 == q * d + r;
    assert x == q * (2 * d) + (2 * r + x % 2);
    DivUnique(x, 2 * d, q, 2 * r + x % 2);
  }

  lemma OctetOfZero()
    ensures Octet(0) == [false, false, false, false, false, false, false, false]
  {
    assert BitsOf(0, 4) == [false, false, false, false];
  }

  lemma OctetOfOnes()
    ensures Octet(0xFF) == [true, true, true, true, true, true, true, true]
  {
    assert BitsOf(0xF, 4) == [true, true, true, true];
  }

  /** The eight bits that byte `j` of the bitmap holds. */
  function OctetAt(bits: seq<bool>, j: nat): (s: seq<bool>)
    requires |bits| % 8 == 0 && j < |bits| / 8
    ensures |s| == 8
  {
    bits[8 * j..8 * j + 8]
  }

  /** Byte `b` of memory with these bits from address `at` on. */
  function ByteIn(memory: seq<byte>, at: nat, bits: seq<bool>, b: nat): byte
    requires |bits| % 8 == 0 && b < |memory|
  {
    if at <= b < at + |bits| / 8 then ByteOf(OctetAt(bits, b - at)) else memory[b]
  }

  /** Memory with these bits from address `at` on. */
  function Store(memory: seq<byte>, at: nat, bits: seq<bool>): (m: seq<byte>)
    requires |bits| % 8 == 0 && at + |bits| / 8 <= |memory|
    ensures |m| == |memory|
    decreases |bits|
  {
    if bits == [] then memory else
      var last := |bits| / 8 - 1;
      Store(memory, at, bits[..8 * last])[at + last := ByteOf(OctetAt(bits, last))]
  }

  lemma {:induction false} StoreAt(memory: seq<byte>, at: nat, bits: seq<bool>, b: nat)
    requires |bits| % 8 == 0 && at + |bits| / 8 <= |memory| && b < |memory|
    ensures Store(memory, at, bits)[b] == ByteIn(memory, at, bits, b)
    decreases |bits|
  {
    if bits != [] {
      var last := |bits| / 8 - 1;
      StoreAt(memory, at, bits[..8 * last], b);
      if at <= b < at + last {
        assert OctetAt(bits[..8 * last], b - at) == OctetAt(bits, b - at);
      }
    }
  }

  /** Byte by byte, memory from `at` on holds these bits. */
  ghost predicate Encoded(memory: seq<byte>, at: nat, bits: seq<bool>) {
    && |bits| % 8 == 0 && at + |bits| / 8 <= |memory|
    && forall j {:trigger OctetAt(bits, j)} :: 0 <= j < |bits| / 8 ==> OctetAt(bits, j) == Octet(memory[at + j])
  }

  /** What is stored is there. */
  lemma StoreEncodes(memory: seq<byte>, at: nat, bits: seq<bool>)
    requires |bits| % 8 == 0 && at + |bits| / 8 <= |memory|
    ensures Encoded(Store(memory, at, bits), at, bits)
  {
    var m := Store(memory, at, bits);
    forall j | 0 <= j < |bits| / 8 ensures OctetAt(bits, j) == Octet(m[at + j]) {
      StoreAt(memory, at, bits, at + j);
      OctetOfByte(OctetAt(bits, j));
    }
  }

  /** Memory is determined by the bits that it holds from `at` on and the bytes elsewhere. */
  lemma StoreUnique(memory: seq<byte>, m: seq<byte>, at: nat, bits: seq<bool>)
    requires |m| == |memory| && Encoded(m, at, bits)
    requires forall b :: 0 <= b < |m| && !(at <= b < at + |bits| / 8) ==> m[b] == memory[b]
    ensures m == Store(memory, at, bits)
  {
    forall b | 0 <= b < |m| ensures m[b] == Store(memory, at, bits)[b] {
      StoreAt(memory, at, bits, b);
      if at <= b < at + |bits| / 8 {
        assert OctetAt(bits, b - at) == Octet(m[b]);
        ByteOfOctet(m[b]);
      }
    }
  }

  lemma OnesEncoded(memory: seq<byte>, at: nat, bytes: nat)
    requires at + bytes <= |memory| && forall b :: at <= b < at + bytes ==> memory[b] == 0xFF
    ensures Encoded(memory, at, seq(8 * bytes, _ => true))
  {
    OctetOfOnes();
  }

  lemma EncodedAt(memory: seq<byte>, at: nat, bits: seq<bool>, i: nat)
    requires Encoded(memory, at, bits) && i < |bits|
    ensures bits[i] == Octet(memory[at + i / 8])[i % 8]
  {
    assert OctetAt(bits, i / 8)[i % 8] == bits[i];
  }

  /** `bts` or `btr` on bit `i`: one byte of memory changes. */
  lemma EncodedUpdate(memory: seq<byte>, at: nat, bits: seq<bool>, i: nat, value: bool)
    requires Encoded(memory, at, bits) && i < |bits|
    ensures var b := at + i / 8;
            Encoded(memory[b := ByteOf(Octet(memory[b])[i % 8 := value])], at, bits[i := value])
  {
    var b := at + i / 8;
    var m, updated := memory[b := ByteOf(Octet(memory[b])[i % 8 := value])], bits[i := value];
    OctetOfByte(Octet(memory[b])[i % 8 := value]);
    forall j {:trigger OctetAt(updated, j)} | 0 <= j < |bits| / 8 ensures OctetAt(updated, j) == Octet(m[at + j]) {
      assert OctetAt(bits, j) == Octet(memory[at + j]);
      if j == i / 8 {
        assert OctetAt(updated, j) == OctetAt(bits, j)[i % 8 := value];
      } else {
        assert OctetAt(updated, j) == OctetAt(bits, j);
      }
    }
  }

  /** Storing bits changes no byte elsewhere. */
  lemma StoreElsewhere(memory: seq<byte>, at: nat, bits: seq<bool>)
    requires |bits| % 8 == 0 && at + |bits| / 8 <= |memory|
    ensures forall b :: 0 <= b < |memory| && !(at <= b < at + |bits| / 8) ==> Store(memory, at, bits)[b] == memory[b]
  {
    forall b | 0 <= b < |memory| && !(at <= b < at + |bits| / 8) ensures Store(memory, at, bits)[b] == memory[b] {
      StoreAt(memory, at, bits, b);
    }
  }

  /** `memset(base, 0, len)`. */
  function Zeroed(memory: seq<byte>, base: nat, len: nat): (m: seq<byte>)
    ensures |m| == |memory|
  {
    seq<byte>(|memory|, b requires 0 <= b < |memory| => if base <= b < base + len then 0 else memory[b])
  }

  /** The bits at `at` once these bytes are cleared: those in cleared bytes are clear. */
  function Wiped(bits: seq<bool>, at: nat, base: nat, len: nat): (r: seq<bool>)
    ensures |r| == |bits|
  {
    seq(|bits|, i requires 0 <= i < |bits| => bits[i] && !(base <= at + i / 8 < base + len))
  }

  lemma ZeroedWipes(memory: seq<byte>, at: nat, bits: seq<bool>, base: nat, len: nat)
    requires Encoded(memory, at, bits)
    ensures Encoded(Zeroed(memory, base, len), at, Wiped(bits, at, base, len))
  {
    var m, wiped := Zeroed(memory, base, len), Wiped(bits, at, base, len);
    OctetOfZero();
    forall j {:trigger OctetAt(wiped, j)} | 0 <= j < |bits| / 8 ensures OctetAt(wiped, j) == Octet(m[at + j]) {
      assert OctetAt(bits, j) == Octet(memory[at + j]);
    }
  }
}
