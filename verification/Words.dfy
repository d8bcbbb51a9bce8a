/** Bytes, parse results and the unsigned-word arithmetic the codec is written in. */
module Words {

  type byte = x: int | 0 <= x < 0x100
  type bytes = seq<byte>

  const WORD32: nat := 0x1_0000_0000
  const WORD64: nat := 0x1_0000_0000_0000_0000

  datatype Option<+T> = None | Some(value: T) {
    predicate IsFailure() { None? }
    function PropagateFailure<U>(): Option<U> requires None? { None }
    function Extract(): T requires Some? { value }
  }

  /** The outcome of reading from the front of a stream: failure, or a value and the unread bytes. */
  datatype Parse<+T> = Bad | Got(value: T, rest: bytes) {
    predicate IsFailure() { Bad? }
    function PropagateFailure<U>(): Parse<U> requires Bad? { Bad }
    function Extract(): (T, bytes) requires Got? { (value, rest) }
  }

  function Pow2(k: nat): (p: nat)
    ensures p > 0
  {
    if k == 0 then 1 else 2 * Pow2(k - 1)
  }

  lemma {:induction false} Pow2Sum(a: nat, b: nat)
    ensures Pow2(a + b) == Pow2(a) * Pow2(b)
  {
    if b != 0 {
      Pow2Sum(a, b - 1);
      calc {
        Pow2(a + b);
        2 * Pow2(a + (b - 1));
        2 * (Pow2(a) * Pow2(b - 1));
        Pow2(a) * (2 * Pow2(b - 1));
        Pow2(a) * Pow2(b);
      }
    }
  }

  lemma {:induction false} MulMono(a: nat, b: nat, p: nat)
    requires a <= b
    ensures a * p <= b * p
  {
    assert (b - a) * p >= 0;
  }

  lemma MulSplit(low: nat, high: nat, p: nat)
    ensures (low + 0x80 * high) * p == low * p + high * (0x80 * p)
  {
  }

  lemma Pow2Words()
    ensures Pow2(7) == 128 && Pow2(28) == 0x1000_0000 && Pow2(31) == 0x8000_0000
    ensures Pow2(32) == WORD32 && Pow2(63) == 0x8000_0000_0000_0000 && Pow2(64) == WORD64
  {
    Pow2Sum(7, 7);
    Pow2Sum(14, 14);
    Pow2Sum(28, 3);
    Pow2Sum(28, 4);
    Pow2Sum(32, 31);
    Pow2Sum(32, 32);
  }

  /** Bitwise "or" of two unsigned words. */
  function BitOr(x: nat, y: nat): nat
    decreases x + y
  {
    if x == 0 && y == 0 then 0
    else (if x % 2 == 1 || y % 2 == 1 then 1 else 0) + 2 * BitOr(x / 2, y / 2)
  }

  lemma {:induction false} BitOrZero(y: nat)
    ensures BitOr(0, y) == y
  {
    if y != 0 {
      BitOrZero(y / 2);
    }
  }

  /** Or-ing a value shifted above every set bit is addition. */
  lemma {:induction false} BitOrShifted(x: nat, m: nat, k: nat)
    requires x < Pow2(k)
    ensures BitOr(x, m * Pow2(k)) == x + m * Pow2(k)
  {
    if k == 0 {
      BitOrZero(m);
    } else {
      var y := m * Pow2(k - 1);
      assert m * Pow2(k) == 2 * y;
      assert (2 * y) % 2 == 0 && (2 * y) / 2 == y;
      BitOrShifted(x / 2, m, k - 1);
    }
  }

  lemma {:induction false} BitOrBound(x: nat, y: nat, k: nat)
    requires x < Pow2(k) && y < Pow2(k)
    ensures BitOr(x, y) < Pow2(k)
  {
    if k != 0 {
      BitOrBound(x / 2, y / 2, k - 1);
    }
  }

  /** `acc |= (word)group << bitpos`, on words of the given size. */
  function OrAt(acc: nat, group: nat, bitpos: nat, word: nat): nat
    requires word > 0
  {
    BitOr(acc, group * Pow2(bitpos) % word)
  }

  /** `kept` is what remains of the group once it is shifted and cut to the word. */
  lemma OrAtKeeps(acc: nat, group: nat, kept: nat, bitpos: nat, word: nat)
    requires word > 0 && acc < Pow2(bitpos) && group * Pow2(bitpos) % word == kept * Pow2(bitpos)
    ensures OrAt(acc, group, bitpos, word) == acc + kept * Pow2(bitpos)
  {
    BitOrShifted(acc, kept, bitpos);
  }

  lemma OrAtAdds(acc: nat, group: nat, bitpos: nat, word: nat)
    requires acc < Pow2(bitpos) && group * Pow2(bitpos) < word
    ensures OrAt(acc, group, bitpos, word) == acc + group * Pow2(bitpos)
  {
    hide OrAt;
    SmallMod(group * Pow2(bitpos), word);
    OrAtKeeps(acc, group, group, bitpos, word);
  }

  lemma SmallMod(x: nat, word: nat)
    requires x < word
    ensures x % word == x
  {
  }
}
