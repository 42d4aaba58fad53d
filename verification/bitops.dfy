/**
 * The bitmap scan.  `find_first_zero_bit` compares one 32-bit word only: its `repe:` is a
 * label, not a prefix, and its word offset is added to a register that is not returned.
 */
module Bitops {
  import opened Words
  import opened Bitmap

  /** Bit `i` of a bitmap, or of whatever memory lies beyond it. */
  predicate Bit(bits: seq<bool>, beyond: nat -> bool, i: nat) {
    if i < |bits| then bits[i] else beyond(i)
  }

  /** The first clear bit in [from, to), or `to`. */
  function FirstClear(bits: seq<bool>, beyond: nat -> bool, from: nat, to: nat): (k: nat)
    requires from <= to
    ensures from <= k <= to
    ensures forall i :: from <= i < k ==> Bit(bits, beyond, i)
    ensures k < to ==> !Bit(bits, beyond, k)
    decreases if from <= to then to - from else 0
  {
    if from == to || !Bit(bits, beyond, from) then from else FirstClear(bits, beyond, from + 1, to)
  }

  /** What find_first_zero_bit computes for the words from `word` on. */
  function FirstZeroBit(bits: seq<bool>, beyond: nat -> bool, word: nat, size: u32): nat {
    var k := FirstClear(bits, beyond, 32 * word, 32 * word + 32) - 32 * word;
    if size == 0 || k == 32 then 0 else k
  }

  /** What it is meant to compute: the first clear bit below `size`, or something no smaller. */
  ghost predicate IsFirstZero(bits: seq<bool>, beyond: nat -> bool, word: nat, size: u32, res: nat) {
    && (forall i :: 32 * word <= i < 32 * word + size && i < 32 * word + res ==> Bit(bits, beyond, i))
    && (res < size ==> !Bit(bits, beyond, 32 * word + res))
  }

  /** The meaning is met exactly when the first word has a clear bit (or nothing is asked). */
  lemma FirstZeroBitIff(bits: seq<bool>, beyond: nat -> bool, word: nat, size: u32)
    ensures IsFirstZero(bits, beyond, word, size, FirstZeroBit(bits, beyond, word, size))
            <==> size == 0 || exists i :: 32 * word <= i < 32 * word + 32 && !Bit(bits, beyond, i)
  {
  }

  /** The scan's value: the place of the first clear bit of the word, or 0 for a word of ones. */
  lemma FirstZeroBitExact(bits: seq<bool>, beyond: nat -> bool, word: nat, size: u32)
    ensures var res := FirstZeroBit(bits, beyond, word, size);
            if size > 0 && exists i :: 32 * word <= i < 32 * word + 32 && !Bit(bits, beyond, i)
            then res < 32 && !Bit(bits, beyond, 32 * word + res)
                 && forall i :: 32 * word <= i < 32 * word + res ==> Bit(bits, beyond, i)
            else res == 0
  {
  }

  /** The first word that find_next_zero_bit looks at as a whole. */
  function WholeWord(offset: nat): nat { (offset + 31) / 32 }

  /** What find_next_zero_bit computes: first the rest of a started word, then one whole word. */
  function NextZeroBit(bits: seq<bool>, beyond: nat -> bool, size: nat, offset: nat): nat {
    var k := FirstClear(bits, beyond, offset, 32 * WholeWord(offset));
    if k < 32 * WholeWord(offset) then k
    else 32 * WholeWord(offset) + FirstZeroBit(bits, beyond, WholeWord(offset), U32(size - 32 * WholeWord(offset)))
  }

  /**
   * What the allocator may rely on: the result is at or above `offset` and no clear bit is
   * skipped.  The bit at the result itself may be set.
   */
  lemma NextNeverSkips(bits: seq<bool>, beyond: nat -> bool, size: nat, offset: nat)
    ensures var next := NextZeroBit(bits, beyond, size, offset);
            next >= offset && forall i :: offset <= i < next ==> Bit(bits, beyond, i)
  {
  }

  /**
   * The result is the next clear bit, or past the end, exactly when a clear bit is found
   * before the end of the one whole word looked at, or that word is past the end already.
   */
  lemma NextZeroBitIff(bits: seq<bool>, beyond: nat -> bool, size: nat, offset: nat)
    requires offset < size < TWO_31
    ensures var next := NextZeroBit(bits, beyond, size, offset);
            (next < size ==> !Bit(bits, beyond, next))
            <==> 32 * WholeWord(offset) >= size
                 || exists i :: offset <= i < 32 * WholeWord(offset) + 32 && !Bit(bits, beyond, i)
  {
  }

  /**
   * The first clear bit of the started word or the next one; if there is none, or the next one
   * starts at the very end, the start of the next one.
   */
  lemma NextZeroBitExact(bits: seq<bool>, beyond: nat -> bool, size: nat, offset: nat)
    requires offset < size < TWO_31
    ensures var next, whole := NextZeroBit(bits, beyond, size, offset), 32 * WholeWord(offset);
            var end := if whole == size then whole else whole + 32;
            if exists i :: offset <= i < end && !Bit(bits, beyond, i)
            then offset <= next < end && !Bit(bits, beyond, next)
                 && forall i :: offset <= i < next ==> Bit(bits, beyond, i)
            else next == 32 * WholeWord(offset)
  {
    FirstZeroBitExact(bits, beyond, WholeWord(offset), U32(size - 32 * WholeWord(offset)));
  }

  /** Bit `i` of the bitmap in memory; behind its last byte the bit is whatever is there. */
  method TestBit(memory: array<byte>, at: nat, ghost bits: seq<bool>, bytes: nat, beyond: nat -> bool, i: nat)
    returns (bit: bool)
    requires Encoded(memory[..], at, bits) && |bits| == 8 * bytes
    ensures bit == Bit(bits, beyond, i)
  {
    if i < 8 * bytes {
      EncodedAt(memory[..], at, bits, i);
      bit := Octet(memory[at + i / 8])[i % 8];
    } else {
      bit := beyond(i);
    }
  }

  /** The scan of one word, bit by bit, as `bsfl` on its complement. */
  method ScanWord(memory: array<byte>, at: nat, ghost bits: seq<bool>, bytes: nat, beyond: nat -> bool,
                  from: nat, to: nat)
    returns (k: nat)
    requires Encoded(memory[..], at, bits) && |bits| == 8 * bytes && from <= to
    ensures k == FirstClear(bits, beyond, from, to)
  {
    k := from;
    while k < to
      invariant from <= k <= to
      invariant FirstClear(bits, beyond, from, to) == FirstClear(bits, beyond, k, to)
    {
      var bit := TestBit(memory, at, bits, bytes, beyond, k);
      if !bit {
        return;
      }
      k := k + 1;
    }
  }

  method FindFirstZeroBit(memory: array<byte>, at: nat, ghost bits: seq<bool>, bytes: nat, beyond: nat -> bool,
                          word: nat, size: u32)
    returns (res: nat)
    requires Encoded(memory[..], at, bits) && |bits| == 8 * bytes
    ensures res == FirstZeroBit(bits, beyond, word, size)
  {
    if size == 0 {
      return 0;
    }
    var k := ScanWord(memory, at, bits, bytes, beyond, 32 * word, 32 * word + 32);
    if k == 32 * word + 32 {
      return 0;
    }
    return k - 32 * word;
  }

  method FindNextZeroBit(memory: array<byte>, at: nat, ghost bits: seq<bool>, bytes: nat, beyond: nat -> bool,
                         size: nat, offset: nat)
    returns (next: nat)
    requires Encoded(memory[..], at, bits) && |bits| == 8 * bytes
    ensures next == NextZeroBit(bits, beyond, size, offset)
  {
    var ahead, bit := 0, offset % 32;
    var word := offset / 32;
    if bit != 0 {
      assert WholeWord(offset) == word + 1;
      var k := ScanWord(memory, at, bits, bytes, beyond, offset, offset + 32 - bit);
      ahead := k - offset;
      if ahead < 32 - bit {
        return ahead + offset;
      }
      word := word + 1;
    }
    assert word == WholeWord(offset) && offset + ahead == 32 * word;
    var res := FindFirstZeroBit(memory, at, bits, bytes, beyond, word, U32(size - 32 * word));
    return offset + ahead + res;
  }
}
