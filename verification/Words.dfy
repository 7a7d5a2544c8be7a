/**
  C integers: bytes, `<<` and `|` on unsigned operands, and the bits of a word. Words are natural
  numbers; a width shows as an explicit modulus where the C code truncates.
 */
module Words {
  type byte = b: int | 0 <= b < 256
  type bytes = seq<byte>

  const TWO7 := 0x80
  const TWO31 := 0x8000_0000
  const TWO32 := 0x1_0000_0000
  const TWO63 := 0x8000_0000_0000_0000
  const TWO64 := 0x1_0000_0000_0000_0000

  datatype Option<+T> = None | Some(value: T) {
    predicate IsFailure() { None? }
    function PropagateFailure<U>(): Option<U> requires None? { None }
    function Extract(): T requires Some? { value }
  }

  // ---------------------------------------------------------------- C integer arithmetic

  /** The C operator `<<` before it is truncated to a width. */
  function Shl(x: nat, n: nat): (r: nat)
    ensures x <= r
  {
    if n == 0 then x else 2 * Shl(x, n - 1)
  }

  lemma {:induction false} ShlAdd(a: nat, b: nat, n: nat)
    ensures Shl(a + b, n) == Shl(a, n) + Shl(b, n)
  {
    if n > 0 { ShlAdd(a, b, n - 1); }
  }

  lemma {:induction false} ShlMono(a: nat, b: nat, n: nat)
    requires a <= b
    ensures Shl(a, n) <= Shl(b, n)
  {
    if n > 0 { ShlMono(a, b, n - 1); }
  }

  lemma {:induction false} ShlLonger(m: nat, n: nat)
    requires m <= n
    ensures Shl(1, m) <= Shl(1, n)
  {
    if m < n { ShlLonger(m, n - 1); }
  }

  /** One group further: seven more places. */
  lemma {:induction false} ShlGroup(x: nat, n: nat)
    ensures Shl(x, n + 7) == 128 * Shl(x, n) == Shl(128 * x, n)
  {
    assert Shl(x, n + 7) == 2 * Shl(x, n + 6) && Shl(x, n + 6) == 2 * Shl(x, n + 5);
    assert Shl(x, n + 5) == 2 * Shl(x, n + 4) && Shl(x, n + 4) == 2 * Shl(x, n + 3);
    assert Shl(x, n + 3) == 2 * Shl(x, n + 2) && Shl(x, n + 2) == 2 * Shl(x, n + 1);
    ShlScale(x, n);
  }

  lemma {:induction false} ShlScale(x: nat, n: nat)
    ensures Shl(128 * x, n) == 128 * Shl(x, n)
  {
    if n > 0 { ShlScale(x, n - 1); }
  }

  lemma {:induction false} ShlZero(x: nat)
    ensures Shl(x, 0) == x
  {}

  /** The shifts at the edges of the two registers. */
  lemma {:induction false} ShlAt(x: nat)
    ensures Shl(x, 7) == 0x80 * x && Shl(x, 28) == 0x1000_0000 * x
    ensures Shl(x, 35) == 0x8_0000_0000 * x && Shl(x, 42) == 0x400_0000_0000 * x
    ensures Shl(x, 49) == 0x2_0000_0000_0000 * x && Shl(x, 56) == 0x100_0000_0000_0000 * x
    ensures Shl(x, 63) == TWO63 * x
  {
    hide Shl;
    assert Shl(x, 0) == x by { ShlZero(x); }
    ShlGroup(x, 0); ShlGroup(x, 7); ShlGroup(x, 14); ShlGroup(x, 21); ShlGroup(x, 28);
    ShlGroup(x, 35); ShlGroup(x, 42); ShlGroup(x, 49); ShlGroup(x, 56);
  }

  /** A group of seven bits stays below the next position. */
  lemma {:induction false} GroupBelow(g: nat, n: nat)
    requires g < 128
    ensures Shl(g, n) + Shl(1, n) <= Shl(1, n + 7)
  {
    ShlMono(g + 1, 128, n);
    ShlAdd(g, 1, n);
    ShlGroup(1, n);
  }

  lemma {:induction false} SmallMod(x: nat, m: nat)
    requires x < m
    ensures x % m == x
  {}

  /** The C operator `|` on unsigned operands. */
  function BitOr(a: nat, b: nat): (r: nat)
    decreases a + b
  {
    if a == 0 then b else if b == 0 then a
    else 2 * BitOr(a / 2, b / 2) + (if a % 2 == 1 || b % 2 == 1 then 1 else 0)
  }

  lemma {:induction false} ShlZeros(n: nat)
    ensures Shl(0, n) == 0
  {
    if n > 0 { ShlZeros(n - 1); }
  }

  /** `|` adds when the right operand starts above every bit of the left one. */
  lemma {:induction false} BitOrDisjoint(a: nat, c: nat, k: nat)
    requires a < Shl(1, k)
    ensures BitOr(a, Shl(c, k)) == a + Shl(c, k)
    decreases k
  {
    if c == 0 { ShlZeros(k); }
    if k != 0 && a != 0 && c != 0 {
      BitOrDisjoint(a / 2, c, k - 1);
      assert Shl(c, k) / 2 == Shl(c, k - 1) && Shl(c, k) % 2 == 0;
    }
  }

  lemma {:induction false} BitOrZero(a: nat)
    ensures BitOr(0, a) == a == BitOr(a, 0)
  {}

  lemma {:induction false} BitOrBound(a: nat, b: nat, k: nat)
    requires a < Shl(1, k) && b < Shl(1, k)
    ensures BitOr(a, b) < Shl(1, k)
    decreases k
  {
    if a != 0 && b != 0 && k != 0 { BitOrBound(a / 2, b / 2, k - 1); }
  }

  lemma {:induction false} ShlNext(x: nat, n: nat)
    ensures Shl(x, n + 1) == 2 * Shl(x, n)
  {}

  lemma {:induction false} Shl32()
    ensures Shl(1, 32) == TWO32 && Shl(1, 64) == TWO64
  {
    hide Shl;
    ShlAt(1);
    ShlNext(1, 28); ShlNext(1, 29); ShlNext(1, 30); ShlNext(1, 31); ShlNext(1, 63);
  }

  // ---------------------------------------------------------------- the bits of a word

  /** Bit k of a word. */
  predicate BitAt(w: nat, k: nat)
  {
    if k == 0 then w % 2 == 1 else BitAt(w / 2, k - 1)
  }

  /** `w |= 1 << k` sets bit k and leaves the others. */
  lemma {:induction false} SetBit(w: nat, k: nat, j: nat)
    ensures BitAt(BitOr(w, Shl(1, k)), j) <==> BitAt(w, j) || j == k
    decreases k + j
  {
    var b := BitOr(w, Shl(1, k));
    if w == 0 {
      ZeroBits(j);
      PowerBits(k, j);
    } else if k == 0 {
      assert b == 2 * (w / 2) + 1 by { OrOne(w); }
    } else {
      OrEven(w, Shl(1, k - 1));
      if j > 0 { SetBit(w / 2, k - 1, j - 1); }
    }
  }

  lemma {:induction false} OrOne(w: nat)
    requires w > 0
    ensures BitOr(w, 1) == 2 * (w / 2) + 1 && Shl(1, 0) == 1
  {}

  lemma {:induction false} OrEven(w: nat, h: nat)
    requires w > 0 && h > 0
    ensures BitOr(w, 2 * h) == 2 * BitOr(w / 2, h) + w % 2
  {}

  lemma {:induction false} ZeroBits(j: nat)
    ensures !BitAt(0, j)
  {
    if j > 0 { ZeroBits(j - 1); }
  }

  lemma {:induction false} PowerBits(k: nat, j: nat)
    ensures BitAt(Shl(1, k), j) <==> j == k
  {
    if k == 0 {
      if j > 0 { ZeroBits(j - 1); }
    } else if j > 0 {
      PowerBits(k - 1, j - 1);
    }
  }

  predicate Bit(w: nat, k: nat) { BitAt(w, k) }

  lemma {:induction false} BitHalf(w: nat, k: nat)
    ensures Bit(w / 2, k) == Bit(w, k + 1)
    ensures Bit(w, 0) <==> w % 2 == 1
  {}

  /** A word without bits from n on is 2^n - 1 exactly if its low n bits are all set. */
  lemma {:induction false} AllOnes(w: nat, n: nat)
    requires forall k :: n <= k ==> !Bit(w, k)
    ensures w == Shl(1, n) - 1 <==> forall k :: 0 <= k < n ==> Bit(w, k)
    decreases n
  {
    hide Bit;
    if n == 0 {
      NoBits(w);
    } else {
      forall k: nat ensures Bit(w / 2, k) == Bit(w, k + 1) { BitHalf(w, k); }
      BitHalf(w, 0);
      AllOnes(w / 2, n - 1);
      assert (forall k :: 0 <= k < n ==> Bit(w, k)) <==> Bit(w, 0) && forall k :: 0 <= k < n - 1 ==> Bit(w / 2, k) by {
        assert forall k :: 0 < k < n ==> Bit(w, k) == Bit(w / 2, k - 1);
      }
    }
  }

  lemma {:induction false} NoBits(w: nat)
    requires forall k: nat :: !Bit(w, k)
    ensures w == 0
  {
    if w != 0 {
      BitHalf(w, 0);
      forall k: nat ensures !Bit(w / 2, k) { BitHalf(w, k); }
      NoBits(w / 2);
    }
  }

  function Mark(word: nat, q: nat): nat { BitOr(word, Shl(1, q)) }

  lemma {:induction false} MarkSets(word: nat, q: nat, j: nat)
    ensures Bit(Mark(word, q), j) <==> Bit(word, j) || j == q
  {
    SetBit(word, q, j);
  }

  /** `|` is the union of the bits. */
  lemma {:induction false} OrBits(a: nat, b: nat, j: nat)
    ensures Bit(BitOr(a, b), j) <==> Bit(a, j) || Bit(b, j)
    decreases j
  {
    if a == 0 || b == 0 {
      ZeroBits(j);
    } else if j > 0 {
      OrBits(a / 2, b / 2, j - 1);
    }
  }

  /** The bits of 2^e - 2^s. */
  lemma {:induction false} RangeBits(s: nat, e: nat, j: nat)
    requires s <= e
    ensures Shl(1, s) <= Shl(1, e)
    ensures Bit(Shl(1, e) - Shl(1, s), j) <==> s <= j < e
    decreases e
  {
    ShlLonger(s, e);
    if s == e {
      ZeroBits(j);
    } else if j > 0 {
      if s > 0 {
        RangeBits(s - 1, e - 1, j - 1);
      } else {
        assert (Shl(1, e) - 1) / 2 == Shl(1, e - 1) - 1;
        RangeBits(0, e - 1, j - 1);
      }
    }
  }

  /** A word has no bits at or above its size. */
  lemma {:induction false} SmallBits(w: nat, n: nat, j: nat)
    requires w < Shl(1, n) && n <= j
    ensures !Bit(w, j)
    decreases n
  {
    if n == 0 { ZeroBits(j); } else { SmallBits(w / 2, n - 1, j - 1); }
  }

  lemma {:induction false} BitOrCommutes(a: nat, b: nat)
    ensures BitOr(a, b) == BitOr(b, a)
    decreases a + b
  {
    if a != 0 && b != 0 { BitOrCommutes(a / 2, b / 2); }
  }

  /** `<<` moves every bit up. */
  lemma {:induction false} ShlBits(x: nat, n: nat, j: nat)
    ensures Bit(Shl(x, n), j) <==> n <= j && Bit(x, j - n)
    decreases n
  {
    if n > 0 && j > 0 { ShlBits(x, n - 1, j - 1); }
  }

  /** Truncation to w bits. */
  function Low(x: nat, w: nat): (r: nat)
    ensures r < Shl(1, w)
  {
    if w == 0 then 0 else 2 * Low(x / 2, w - 1) + x % 2
  }

  lemma {:induction false} LowBits(x: nat, w: nat, j: nat)
    ensures Bit(Low(x, w), j) <==> j < w && Bit(x, j)
    decreases w
  {
    if w == 0 { ZeroBits(j); } else if j > 0 { LowBits(x / 2, w - 1, j - 1); }
  }

  /** A word that fits is not changed by truncation. */
  lemma {:induction false} LowFits(x: nat, w: nat)
    requires x < Shl(1, w)
    ensures Low(x, w) == x
    decreases w
  {
    if w > 0 { LowFits(x / 2, w - 1); }
  }

  // ---------------------------------------------------------------- big-endian counters

  function BigEndian(b: bytes): nat
  {
    if b == [] then 0 else 0x100 * BigEndian(b[..|b| - 1]) + b[|b| - 1]
  }

  /** 2^(8n): the number of values of n bytes. */
  function Values(n: nat): (r: nat)
    ensures r > 0
  {
    if n == 0 then 1 else 0x100 * Values(n - 1)
  }

  lemma {:induction false} BigEndianBound(b: bytes)
    ensures BigEndian(b) < Values(|b|)
  {
    if b != [] { BigEndianBound(b[..|b| - 1]); }
  }

  lemma {:induction false} BigEndianSplit(a: bytes, b: bytes)
    ensures BigEndian(a + b) == BigEndian(a) * Values(|b|) + BigEndian(b)
    decreases |b|
  {
    if b == [] {
      assert a + b == a;
    } else {
      var c := b[..|b| - 1];
      assert (a + b)[..|a + b| - 1] == a + c;
      BigEndianSplit(a, c);
      assert 0x100 * (BigEndian(a) * Values(|c|)) == BigEndian(a) * Values(|b|);
    }
  }

  // ---------------------------------------------------------------- memory

  /** memcpy into an array. */
  method CopyInto(data: array<byte>, at: nat, body: bytes)
    requires at + |body| <= data.Length
    modifies data
    ensures forall p :: 0 <= p < data.Length ==> data[p] == if at <= p < at + |body| then body[p - at] else old(data[p])
  {
    for i := 0 to |body|
      invariant forall p :: 0 <= p < data.Length ==> data[p] == if at <= p < at + i then body[p - at] else old(data[p])
    {
      data[at + i] := body[i];
    }
  }
}
