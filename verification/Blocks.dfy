/** Disk blocks as bytes, and the little-endian 32-bit words that the log header and the
    indirect blocks keep in them (fs.h, log.c). */
module Blocks {

  const BSIZE := 512
  const WORDS := 128 // BSIZE / sizeof(uint)

  type Byte = x: int | 0 <= x < 256
  type Uint = x: int | 0 <= x < 0x1_0000_0000
  type Block = b: seq<Byte> | |b| == BSIZE witness seq(BSIZE, _ => 0)

  /** Addition of 32-bit unsigned integers. */
  function AddUint(a: Uint, b: Uint): Uint {
    (a + b) % 0x1_0000_0000
  }

  function ZeroBlock(): (b: Block)
    ensures forall i :: 0 <= i < BSIZE ==> b[i] == 0
  {
    seq(BSIZE, _ => 0)
  }

  function Word(b: Block, i: nat): (w: Uint)
    requires i < WORDS
  {
    var b0: int, b1: int, b2: int, b3: int := b[4 * i], b[4 * i + 1], b[4 * i + 2], b[4 * i + 3];
    b0 + 0x100 * b1 + 0x1_0000 * b2 + 0x100_0000 * b3
  }

  function PutWord(b: Block, i: nat, w: Uint): Block
    requires i < WORDS
  {
    b[4 * i := w % 0x100][4 * i + 1 := w / 0x100 % 0x100]
    [4 * i + 2 := w / 0x1_0000 % 0x100][4 * i + 3 := w / 0x100_0000]
  }

  /** The four bytes of a word. */
  lemma {:induction false} BytesOfWord(w: Uint)
    ensures w == w % 0x100 + 0x100 * (w / 0x100 % 0x100) + 0x1_0000 * (w / 0x1_0000 % 0x100)
                 + 0x100_0000 * (w / 0x100_0000)
  {
    var w1, w2, w3 := w / 0x100, w / 0x1_0000, w / 0x100_0000;
    assert w == 0x100 * w1 + w % 0x100;
    assert w1 == 0x100 * w2 + w1 % 0x100;
    assert w2 == 0x100 * w3 + w2 % 0x100;
  }

  /** Storing a word and loading it back: the word round-trips, every other word is untouched. */
  lemma {:induction false} WordOfPutWord(b: Block, i: nat, w: Uint, j: nat)
    requires i < WORDS && j < WORDS
    ensures Word(PutWord(b, i, w), j) == if j == i then w else Word(b, j)
  {
    if j == i {
      BytesOfWord(w);
    }
  }

  /** Word i is bytes 4 * i to 4 * i + 3, the least significant first. */
  lemma {:induction false} WordBytes(b: Block, i: nat)
    requires i < WORDS
    ensures var w: int := Word(b, i);
            && b[4 * i] == w % 0x100 && b[4 * i + 1] == w / 0x100 % 0x100
            && b[4 * i + 2] == w / 0x1_0000 % 0x100 && b[4 * i + 3] == w / 0x100_0000
  {
    var b0: int, b1: int, b2: int, b3: int := b[4 * i], b[4 * i + 1], b[4 * i + 2], b[4 * i + 3];
    var w: int := Word(b, i);
    assert w / 0x100 == b1 + 0x100 * b2 + 0x1_0000 * b3;
    assert w / 0x1_0000 == b2 + 0x100 * b3;
  }

  /** An all-zero block holds only zero words. */
  lemma {:induction false} WordOfZero(j: nat)
    requires j < WORDS
    ensures Word(ZeroBlock(), j) == 0
  {
  }

  /** Consecutive words stored from index `at` on, as by a loop or a memmove of an array of uint. */
  function PutWords(b: Block, at: nat, ws: seq<Uint>): Block
    requires at + |ws| <= WORDS
  {
    if ws == [] then b
    else PutWord(PutWords(b, at, ws[..|ws| - 1]), at + |ws| - 1, ws[|ws| - 1])
  }

  function GetWords(b: Block, at: nat, n: nat): (ws: seq<Uint>)
    requires at + n <= WORDS
    ensures |ws| == n && forall t :: 0 <= t < n ==> ws[t] == Word(b, at + t)
  {
    if n == 0 then [] else GetWords(b, at, n - 1) + [Word(b, at + n - 1)]
  }

  lemma {:induction false} WordOfPutWords(b: Block, at: nat, ws: seq<Uint>, j: nat)
    requires at + |ws| <= WORDS && j < WORDS
    ensures Word(PutWords(b, at, ws), j) == if at <= j < at + |ws| then ws[j - at] else Word(b, j)
  {
    if ws != [] {
      WordOfPutWords(b, at, ws[..|ws| - 1], j);
      WordOfPutWord(PutWords(b, at, ws[..|ws| - 1]), at + |ws| - 1, ws[|ws| - 1], j);
    }
  }

  // ---------- the bits of a bitmap block ----------

  /** x & (1 << k) */
  predicate TestBit(x: nat, k: nat) {
    if k == 0 then x % 2 == 1 else TestBit(x / 2, k - 1)
  }

  /** x | (1 << k), or x & ~(1 << k) */
  function WithBit(x: nat, k: nat, on: bool): nat {
    if k == 0 then x / 2 * 2 + (if on then 1 else 0) else 2 * WithBit(x / 2, k - 1, on) + x % 2
  }

  function Pow2(n: nat): nat {
    if n == 0 then 1 else 2 * Pow2(n - 1)
  }

  lemma {:induction false} WithBitRange(x: nat, k: nat, on: bool, n: nat)
    requires k < n && x < Pow2(n)
    ensures WithBit(x, k, on) < Pow2(n)
  {
    if k > 0 {
      WithBitRange(x / 2, k - 1, on, n - 1);
    }
  }

  lemma {:induction false} TestWithBit(x: nat, k: nat, on: bool, j: nat)
    ensures TestBit(WithBit(x, k, on), j) <==> if j == k then on else TestBit(x, j)
  {
    if k > 0 {
      assert WithBit(x, k, on) / 2 == WithBit(x / 2, k - 1, on);
      if j > 0 {
        TestWithBit(x / 2, k - 1, on, j - 1);
      }
    } else {
      assert WithBit(x, k, on) / 2 == x / 2;
    }
  }

  /** data[i/8] & (1 << (i % 8)) */
  predicate Bit(b: Block, i: nat)
    requires i < 8 * BSIZE
  {
    TestBit(b[i / 8], i % 8)
  }

  /** data[i/8] |= m, or data[i/8] &= ~m */
  function PutBit(b: Block, i: nat, on: bool): Block
    requires i < 8 * BSIZE
  {
    assert Pow2(8) == 256 by { assert Pow2(4) == 16; }
    WithBitRange(b[i / 8], i % 8, on, 8);
    b[i / 8 := WithBit(b[i / 8], i % 8, on)]
  }

  lemma {:induction false} BitOfPutBit(b: Block, i: nat, on: bool, j: nat)
    requires i < 8 * BSIZE && j < 8 * BSIZE
    ensures Bit(PutBit(b, i, on), j) <==> if j == i then on else Bit(b, j)
  {
    TestWithBit(b[i / 8], i % 8, on, j % 8);
  }

  lemma {:induction false} WithBitAdds(x: nat, k: nat, on: bool)
    ensures WithBit(x, k, on)
            == if TestBit(x, k) == on then x else if on then x + Pow2(k) else x - Pow2(k)
  {
    if k > 0 {
      WithBitAdds(x / 2, k - 1, on);
    }
  }

  /** Bit i is worth 2^(i % 8) in byte i / 8 of the block. */
  lemma {:induction false} BitAt(b: Block, i: nat, on: bool, k: nat)
    requires i < 8 * BSIZE && k < BSIZE
    ensures var c: int, d: int := b[k], PutBit(b, i, on)[k];
            d == if k != i / 8 || Bit(b, i) == on then c else if on then c + Pow2(i % 8) else c - Pow2(i % 8)
  {
    WithBitAdds(b[i / 8], i % 8, on);
  }

  lemma {:induction false} SubsetSize(a: set<nat>, b: set<nat>)
    requires a <= b
    ensures |a| <= |b|
  {
    assert b == a + (b - a);
  }

  datatype Option<+T> = None | Some(value: T)
}
