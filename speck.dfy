/**
 * The keyless Speck32 round of src/algorythms/speck.py (Beaulieu et al.,
 * "The SIMON and SPECK Families of Lightweight Block Ciphers", section 4):
 * the 32-bit block is split into a high word x and a low word y of 16 bits;
 * x' = (x >>> 7) + y mod 2^16, y' = (y <<< 2) xor x', block' = x' . y'.
 */
module Speck {
  import opened Bits
  import opened Wrappers

  const WordSize: nat := 16
  const ModMask: nat := 0xFFFF
  const AlphaShift: nat := 7
  const BetaShift: nat := 2

  lemma ModMaskIsLowMask()
    ensures ModMask == Pow2(WordSize) - 1 && Pow2(WordSize) == 0x10000
  {
    assert Pow2(4) == 16;
    assert Pow2(8) == 256 by { Pow2Add(4, 4); }
    Pow2Add(8, 8);
  }

  // ---------------------------------------------------------------------
  // Reference rotations of a w-bit word

  /** x rotated right by k within w bits: the low k bits move to the top. */
  function RotateRight(x: nat, k: nat, w: nat): nat
    requires k <= w
  {
    (x % Pow2(k)) * Pow2(w - k) + Shr(x, k)
  }

  /** y rotated left by k within w bits: the top k bits move to the bottom. */
  function RotateLeft(y: nat, k: nat, w: nat): nat
    requires k <= w
  {
    (y % Pow2(w - k)) * Pow2(k) + Shr(y, w - k)
  }

  /** Rotating a w-bit word left by k undoes rotating it right by k. */
  lemma RotateLeftRight(x: nat, k: nat, w: nat)
    requires k <= w && x < Pow2(w)
    ensures RotateRight(x, k, w) < Pow2(w)
    ensures RotateLeft(RotateRight(x, k, w), k, w) == x
  {
    var d: nat := w - k;
    var bigP, bigQ := Pow2(k), Pow2(d);
    var lo, hi := x % bigP, Shr(x, k);
    ShrMod(x, k);
    ShrBelow(x, k, d);
    Pow2Add(d, k);
    var z := RotateRight(x, k, w);
    assert z == hi + lo * bigQ;
    JoinBelow(hi, lo, bigQ, bigP);
    SplitJoin(hi, lo, d);
  }

  /** Division by 2^k and the remainder recompose x. */
  lemma ShrMod(x: nat, k: nat)
    ensures x == Shr(x, k) * Pow2(k) + x % Pow2(k)
  {
    var d := Pow2(k);
    assert Shr(x, k) == x / d;
  }

  lemma JoinBelow(lo: nat, v: nat, bigP: nat, bigR: nat)
    requires lo < bigP && v < bigR
    ensures lo + v * bigP < bigP * bigR
  {
    MulLe(v, bigR - 1, bigP);
  }

  // ---------------------------------------------------------------------
  // The source's expressions

  /** rs_x: `((x << (16 - 7)) + (x >> 7)) & mod_mask`. */
  function RsX(x: nat): nat
  {
    And(Shl(x, WordSize - AlphaShift) + Shr(x, AlphaShift), ModMask)
  }

  /** ls_y: `((y >> (16 - 2)) + (y << 2)) & mod_mask`. */
  function LsY(y: nat): nat
  {
    And(Shr(y, WordSize - BetaShift) + Shl(y, BetaShift), ModMask)
  }

  /**
   * rs_x is the 16-bit rotation right by 7, and its `+` never carries:
   * the two shifted parts share no bit, so `+` is `|`.
   */
  lemma RsXIsRotation(x: nat)
    requires x < Pow2(WordSize)
    ensures Shl(x, 9) + Shr(x, 7) == Or(Shr(x, 7), Shl(x, 9))
    ensures RsX(x) == RotateRight(x, AlphaShift, WordSize)
  {
    ModMaskIsLowMask();
    ShiftsRotate(x, AlphaShift, WordSize - AlphaShift);
  }

  /**
   * ls_y is the 16-bit rotation left by 2, and its `+` never carries.
   */
  lemma LsYIsRotation(y: nat)
    requires y < Pow2(WordSize)
    ensures Shr(y, 14) + Shl(y, 2) == Or(Shr(y, 14), Shl(y, 2))
    ensures LsY(y) == RotateLeft(y, BetaShift, WordSize)
  {
    ModMaskIsLowMask();
    ShiftsRotate(y, WordSize - BetaShift, BetaShift);
    RotateLeftIsRight(y, BetaShift, WordSize);
  }

  /**
   * For an (a+b)-bit x, `(x << b) + (x >> a)` masked to a+b bits is the
   * rotation right by a, and the two parts share no bit.
   */
  lemma ShiftsRotate(x: nat, a: nat, b: nat)
    requires x < Pow2(a + b)
    ensures Shl(x, b) + Shr(x, a) == Or(Shr(x, a), Shl(x, b))
    ensures And(Shl(x, b) + Shr(x, a), Pow2(a + b) - 1) == RotateRight(x, a, a + b)
  {
    ShrBelow(x, a, b);
    OrDisjoint(Shr(x, a), x, b);
    AndLowMask(Shl(x, b) + Shr(x, a), a + b);
    WordJoin(x, a, b);
  }

  /** (x << b) + (x >> a) modulo 2^(a+b) keeps the low a bits of x on top of the high ones. */
  lemma WordJoin(x: nat, a: nat, b: nat)
    requires x < Pow2(a + b)
    ensures (Shl(x, b) + Shr(x, a)) % Pow2(a + b) == (x % Pow2(a)) * Pow2(b) + Shr(x, a)
  {
    var lo, hi := x % Pow2(a), Shr(x, a);
    Pow2Add(a, b);
    ShrBelow(x, a, b);
    ShrMod(x, a);
    JoinAbove(x, hi, lo, Pow2(a), Pow2(b));
  }

  lemma JoinAbove(x: nat, hi: nat, lo: nat, bigA: nat, bigB: nat)
    requires x == hi * bigA + lo && lo < bigA && hi < bigB
    ensures (x * bigB + hi) % (bigA * bigB) == lo * bigB + hi
  {
    var c := bigA * bigB;
    var rest := lo * bigB + hi;
    assert x * bigB + hi == rest + hi * c by { JoinExpand(x, hi, lo, bigA, bigB); }
    assert rest < c by { JoinBelow(hi, lo, bigB, bigA); }
    DivModAddMultiple(rest, hi, c);
    ModOfSmall(rest, c);
  }

  lemma JoinExpand(x: nat, hi: nat, lo: nat, bigA: nat, bigB: nat)
    requires x == hi * bigA + lo
    ensures x * bigB + hi == (lo * bigB + hi) + hi * (bigA * bigB)
  {
    assert x * bigB == (hi * bigA) * bigB + lo * bigB;
  }

  // ---------------------------------------------------------------------
  // Words of a 32-bit block and the reference round

  /** The high word `(p >> 16) & mod_mask`. */
  function HighWord(p: nat): nat
  {
    And(Shr(p, WordSize), ModMask)
  }

  /** The low word `p & mod_mask`. */
  function LowWord(p: nat): nat
  {
    And(p, ModMask)
  }

  /** The words are the two 16-bit halves of the low 32 bits of p. */
  lemma Words(p: nat)
    ensures HighWord(p) == Shr(p, WordSize) % Pow2(WordSize) && HighWord(p) < Pow2(WordSize)
    ensures LowWord(p) == p % Pow2(WordSize) && LowWord(p) < Pow2(WordSize)
    ensures p % Pow2(2 * WordSize) == HighWord(p) * Pow2(WordSize) + LowWord(p)
  {
    ModMaskIsLowMask();
    AndLowMask(Shr(p, WordSize), WordSize);
    AndLowMask(p, WordSize);
    Pow2Add(WordSize, WordSize);
    ModMul(p, Pow2(WordSize), Pow2(WordSize));
  }

  /** A block made of a high and a low 16-bit word. */
  function Block(x: nat, y: nat): nat
  {
    x * Pow2(WordSize) + y
  }

  lemma BlockWords(x: nat, y: nat)
    requires x < Pow2(WordSize) && y < Pow2(WordSize)
    ensures Block(x, y) < Pow2(2 * WordSize)
    ensures HighWord(Block(x, y)) == x && LowWord(Block(x, y)) == y
  {
    JoinSplit(x, y, WordSize);
    Words(Block(x, y));
  }

  /** Two w-bit words side by side make a 2w-bit number that splits back into them. */
  lemma JoinSplit(x: nat, y: nat, w: nat)
    requires x < Pow2(w) && y < Pow2(w)
    ensures x * Pow2(w) + y < Pow2(w + w)
    ensures Shr(x * Pow2(w) + y, w) % Pow2(w) == x && (x * Pow2(w) + y) % Pow2(w) == y
  {
    var bigM := Pow2(w);
    var b := x * bigM + y;
    assert b == y + x * bigM;
    assert b < Pow2(w + w) by {
      Pow2Add(w, w);
      JoinBelow(y, x, bigM, bigM);
    }
    SplitJoin(y, x, w);
    ModOfSmall(x, bigM);
  }

  /**
   * One Speck32 round on the words (x, y) with round key k, as the Speck
   * paper writes it: x' = ((x >>> 7) + y mod 2^16) xor k, y' = (y <<< 2) xor x'.
   */
  function SpeckRound(x: nat, y: nat, k: nat): (w: (nat, nat))
  {
    var x' := Xor(k, (RotateRight(x, AlphaShift, WordSize) + y) % Pow2(WordSize));
    (x', Xor(x', RotateLeft(y, BetaShift, WordSize)))
  }

  // ---------------------------------------------------------------------
  // The two functions of the source

  /** The body of the loop of `enc_SPECK32_wt_key`: one keyless round. */
  function Round(p: nat): nat
  {
    var x := HighWord(p);
    var y := LowWord(p);
    var newX := And(RsX(x) + y, ModMask);
    var newY := Xor(newX, LsY(y));
    Shl(newX, WordSize) + newY
  }

  /** `one_round_SPECK_32(plaintext, k)`: one round with the subkey k. */
  function OneRound(plaintext: nat, k: nat): nat
  {
    var x := HighWord(plaintext);
    var y := LowWord(plaintext);
    var addSxy := And(RsX(x) + y, ModMask);
    var newX := Xor(k, addSxy);
    var newY := Xor(newX, LsY(y));
    Shl(newX, WordSize) + newY
  }

  /**
   * `one_round_SPECK_32` is the Speck32 round: its high word is
   * k xor ((x >>> 7) + y mod 2^16), its low word that xor (y <<< 2), and with
   * a 16-bit key the block stays within 32 bits.
   */
  lemma OneRoundIsSpeckRound(p: nat, k: nat)
    requires k < Pow2(WordSize)
    ensures var w := SpeckRound(HighWord(p), LowWord(p), k);
      OneRound(p, k) == Block(w.0, w.1) && OneRound(p, k) < Pow2(2 * WordSize) &&
      HighWord(OneRound(p, k)) == w.0 && LowWord(OneRound(p, k)) == w.1
  {
    var x, y := HighWord(p), LowWord(p);
    var w := SpeckRound(x, y, k);
    OneRoundBlock(p, k);
    assert w.0 < Pow2(WordSize) && w.1 < Pow2(WordSize) by {
      Words(p);
      WordsOfSpeckRound(x, y, k);
    }
    BlockWords(w.0, w.1);
  }

  /** `one_round_SPECK_32` assembles the two words of the Speck round. */
  lemma OneRoundBlock(p: nat, k: nat)
    ensures var w := SpeckRound(HighWord(p), LowWord(p), k); OneRound(p, k) == Block(w.0, w.1)
  {
    var x, y := HighWord(p), LowWord(p);
    var a, l := And(RsX(x) + y, ModMask), LsY(y);
    assert x < Pow2(WordSize) && y < Pow2(WordSize) by { Words(p); }
    SourceExpressions(x, y);
    SpeckRoundOf(x, y, k, a, l);
    OneRoundOfWords(p, k);
  }

  /** The Speck round written with its sum modulo 2^16 and its rotated y given by name. */
  lemma SpeckRoundOf(x: nat, y: nat, k: nat, a: nat, l: nat)
    requires a == (RotateRight(x, AlphaShift, WordSize) + y) % Pow2(WordSize)
    requires l == RotateLeft(y, BetaShift, WordSize)
    ensures SpeckRound(x, y, k) == (Xor(k, a), Xor(Xor(k, a), l))
  {
  }

  /** `one_round_SPECK_32` spelled out on the two words of the block. */
  lemma OneRoundOfWords(p: nat, k: nat)
    ensures var x, y := HighWord(p), LowWord(p);
      var newX := Xor(k, And(RsX(x) + y, ModMask));
      OneRound(p, k) == Block(newX, Xor(newX, LsY(y)))
  {
  }

  /** On 16-bit words the source's rs_x, its masked sum and ls_y are the rotations and the sum modulo 2^16. */
  lemma SourceExpressions(x: nat, y: nat)
    requires x < Pow2(WordSize) && y < Pow2(WordSize)
    ensures And(RsX(x) + y, ModMask) == (RotateRight(x, AlphaShift, WordSize) + y) % Pow2(WordSize)
    ensures LsY(y) == RotateLeft(y, BetaShift, WordSize)
  {
    RsXIsRotation(x);
    MaskedSum(RsX(x), y);
    LsYIsRotation(y);
  }

  /** `(a + y) & mod_mask` is the sum modulo 2^16. */
  lemma MaskedSum(a: nat, y: nat)
    ensures And(a + y, ModMask) == (a + y) % Pow2(WordSize)
  {
    ModMaskIsLowMask();
    AndLowMask(a + y, WordSize);
  }

  /** Both words of a Speck round on 16-bit words with a 16-bit key are 16-bit words. */
  lemma WordsOfSpeckRound(x: nat, y: nat, k: nat)
    requires x < Pow2(WordSize) && y < Pow2(WordSize) && k < Pow2(WordSize)
    ensures SpeckRound(x, y, k).0 < Pow2(WordSize) && SpeckRound(x, y, k).1 < Pow2(WordSize)
  {
    RoundWordsBelow(x, y, k, AlphaShift, BetaShift, WordSize);
  }

  /** The round on w-bit words, rotating by a and b, gives w-bit words. */
  lemma RoundWordsBelow(x: nat, y: nat, k: nat, a: nat, b: nat, w: nat)
    requires a <= w && b <= w && x < Pow2(w) && y < Pow2(w) && k < Pow2(w)
    ensures var x' := Xor(k, (RotateRight(x, a, w) + y) % Pow2(w));
      x' < Pow2(w) && Xor(x', RotateLeft(y, b, w)) < Pow2(w)
  {
    var ly := RotateLeft(y, b, w);
    assert ly < Pow2(w) by {
      RotateLeftIsRight(y, b, w);
      RotateLeftRight(y, w - b, w);
    }
    var add := (RotateRight(x, a, w) + y) % Pow2(w);
    XorBelow(k, add, w);
    XorBelow(Xor(k, add), ly, w);
  }

  /** Rotating left by k is rotating right by w - k. */
  lemma RotateLeftIsRight(y: nat, k: nat, w: nat)
    requires k <= w
    ensures RotateLeft(y, k, w) == RotateRight(y, w - k, w)
  {
  }

  /** With the key 0, `one_round_SPECK_32` is one round of `enc_SPECK32_wt_key`. */
  lemma OneRoundKeyZero(p: nat)
    ensures OneRound(p, 0) == Round(p) == Rounds(p, 1)
  {
  }

  /** The round only reads the low 32 bits of the block and yields a 32-bit block. */
  lemma RoundLow(p: nat)
    ensures Round(p) == Round(p % Pow2(2 * WordSize))
    ensures Round(p) < Pow2(2 * WordSize)
  {
    var q := p % Pow2(2 * WordSize);
    assert q == Block(HighWord(p), LowWord(p)) by { Words(p); }
    assert HighWord(q) == HighWord(p) && LowWord(q) == LowWord(p) by {
      Words(p);
      BlockWords(HighWord(p), LowWord(p));
    }
    RoundOfWords(p, q);
    assert Round(p) < Pow2(2 * WordSize) by {
      OneRoundKeyZero(p);
      OneRoundIsSpeckRound(p, 0);
    }
  }

  /** The round depends on the two words only. */
  lemma RoundOfWords(p: nat, q: nat)
    requires HighWord(p) == HighWord(q) && LowWord(p) == LowWord(q)
    ensures Round(p) == Round(q)
  {
  }

  // ---------------------------------------------------------------------
  // r rounds

  /** r keyless rounds applied to p. */
  function Rounds(p: nat, r: nat): nat
    decreases r
  {
    if r == 0 then p else Rounds(Round(p), r - 1)
  }

  /** Rounds compose: r + 1 rounds are one round after r rounds. */
  lemma {:induction false} RoundsCompose(p: nat, r: nat)
    ensures Rounds(p, r + 1) == Round(Rounds(p, r)) == Rounds(Rounds(p, r), 1)
    decreases r
  {
    if r > 0 {
      RoundsCompose(Round(p), r - 1);
    }
  }

  /** After at least one round the block is below 2^32 and depends on the low 32 bits only. */
  lemma RoundsLow(p: nat, r: nat)
    requires r >= 1
    ensures Rounds(p, r) < Pow2(2 * WordSize)
    ensures Rounds(p, r) == Rounds(p % Pow2(2 * WordSize), r)
  {
    var m := Pow2(2 * WordSize);
    assert Rounds(p, r) == Round(Rounds(p, r - 1)) by { RoundsCompose(p, r - 1); }
    assert Round(Rounds(p, r - 1)) < m by { RoundLow(Rounds(p, r - 1)); }
    assert Round(p) == Round(p % m) by { RoundLow(p); }
    assert Rounds(p, r) == Rounds(Round(p), r - 1);
    assert Rounds(p % m, r) == Rounds(Round(p % m), r - 1);
  }

  datatype SpeckError = RoundCountBelowOne

  /**
   * `enc_SPECK32_wt_key(plaintext, r)`: fails when r < 1, otherwise applies
   * the keyless round r times.
   */
  method EncSpeck32WtKey(plaintext: nat, r: int) returns (res: Result<nat, SpeckError>)
    ensures r < 1 <==> res.Failure?
    ensures r >= 1 ==> res == Success(Rounds(plaintext, r))
  {
    if r < 1 {
      return Failure(RoundCountBelowOne);
    }
    var processtext := plaintext;
    var i := 0;
    while i < r
      invariant 0 <= i <= r
      invariant Rounds(processtext, r - i) == Rounds(plaintext, r)
    {
      processtext := Round(processtext);
      i := i + 1;
    }
    return Success(processtext);
  }

  // ---------------------------------------------------------------------
  // The round is a permutation of 32-bit blocks

  /** The inverse of the keyless round: y = (x' xor y') >>> 2, x = ((x' - y) mod 2^16) <<< 7. */
  function InverseRound(c: nat): nat
  {
    var x', y' := HighWord(c), LowWord(c);
    var y := RotateRight(Xor(x', y'), BetaShift, WordSize);
    var x := RotateLeft((x' + Pow2(WordSize) - y) % Pow2(WordSize), AlphaShift, WordSize);
    Block(x, y)
  }

  /** Undoing a round gives back the low 32 bits of the block. */
  lemma InverseRoundOfRound(p: nat)
    ensures InverseRound(Round(p)) == p % Pow2(2 * WordSize)
  {
    var x, y := HighWord(p), LowWord(p);
    assert x < Pow2(WordSize) && y < Pow2(WordSize) && p % Pow2(2 * WordSize) == Block(x, y) by { Words(p); }
    var w := SpeckRound(x, y, 0);
    assert Round(p) == Block(w.0, w.1) by {
      OneRoundKeyZero(p);
      OneRoundIsSpeckRound(p, 0);
    }
    InverseOfSpeckRound(x, y);
  }

  /** On 16-bit words the inverse undoes the keyless Speck round. */
  lemma InverseOfSpeckRound(x: nat, y: nat)
    requires x < Pow2(WordSize) && y < Pow2(WordSize)
    ensures var w := SpeckRound(x, y, 0); InverseRound(Block(w.0, w.1)) == Block(x, y)
  {
    var bigM := Pow2(WordSize);
    var rx := RotateRight(x, AlphaShift, WordSize);
    var ly := RotateLeft(y, BetaShift, WordSize);
    var x' := (rx + y) % bigM;
    assert Xor(0, x') == x';
    var y' := Xor(x', ly);
    assert SpeckRound(x, y, 0) == (x', y');
    assert HighWord(Block(x', y')) == x' && LowWord(Block(x', y')) == y' by {
      WordsOfSpeckRound(x, y, 0);
      BlockWords(x', y');
    }
    assert RotateRight(Xor(x', y'), BetaShift, WordSize) == y by {
      XorCancel(x', ly);
      RotateLeftIsRight(y, BetaShift, WordSize);
      RotateLeftRight(y, WordSize - BetaShift, WordSize);
      RotateLeftIsRight(ly, WordSize - BetaShift, WordSize);
    }
    assert RotateLeft((x' + bigM - y) % bigM, AlphaShift, WordSize) == x by {
      RotateLeftRight(x, AlphaShift, WordSize);
      AddSubMod(rx, y, bigM);
    }
  }

  /** Xor with the same word twice cancels. */
  lemma XorCancel(a: nat, b: nat)
    ensures Xor(a, Xor(a, b)) == b
  {
    forall i: nat ensures Bit(Xor(a, Xor(a, b)), i) == Bit(b, i) {
      BitXor(a, Xor(a, b), i);
      BitXor(a, b, i);
    }
    BitsEqual(Xor(a, Xor(a, b)), b);
  }

  /** Subtracting b modulo m undoes adding it. */
  lemma AddSubMod(a: nat, b: nat, m: nat)
    requires a < m && b < m
    ensures ((a + b) % m + m - b) % m == a
  {
    if a + b < m {
      ModOfSmall(a + b, m);
      DivModUnique(a + m, m, 1, a);
    } else {
      DivModUnique(a + b, m, 1, a + b - m);
      ModOfSmall(a, m);
    }
  }
}
