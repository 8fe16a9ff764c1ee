/** One's complement arithmetic on 16-bit words (section 1 of RFC 1071). */
module OnesComplement {
  import opened Base

  /** Add the carries above bit 15 back in until none is left. */
  function Fold(x: nat): (f: U16) {
    if x < 0x1_0000 then x
    else assert x / 0x1_0000 + x % 0x1_0000 < x; Fold(x / 0x1_0000 + x % 0x1_0000)
  }

  function Not16(w: U16): U16 { 0xffff - w }

  /** The two bytes of a word exchanged. */
  function Swap16(w: U16): U16 { w % 0x100 * 0x100 + w / 0x100 }

  lemma {:induction false} FoldStep(x: nat)
    ensures (x / 0x1_0000 + x % 0x1_0000) % 0xffff == x % 0xffff
    ensures x / 0x1_0000 + x % 0x1_0000 == 0 <==> x == 0
  {
    var q := x / 0x1_0000;
    var r := x % 0x1_0000;
    assert x == q * 0xffff + (q + r);
    AddMultiple(q + r, q);
  }

  lemma {:induction false} AddMultiple(x: int, k: int)
    ensures (x + k * 0xffff) % 0xffff == x % 0xffff
  {
    var q := (x + k * 0xffff) / 0xffff;
    assert x + k * 0xffff == q * 0xffff + (x + k * 0xffff) % 0xffff;
    assert x == (q - k) * 0xffff + (x + k * 0xffff) % 0xffff;
    Residue(x, q - k, (x + k * 0xffff) % 0xffff, 0xffff);
  }

  /** Folding keeps the value modulo 65535 and reaches zero from zero only. */
  lemma {:induction false} FoldValue(x: nat)
    ensures Fold(x) % 0xffff == x % 0xffff
    ensures Fold(x) == 0 <==> x == 0
  {
    if x >= 0x1_0000 {
      FoldStep(x);
      assert x / 0x1_0000 + x % 0x1_0000 < x;
      FoldValue(x / 0x1_0000 + x % 0x1_0000);
    }
  }

  /** Two words that agree modulo 65535 and on being zero are one word. */
  lemma SameWord(a: U16, b: U16)
    requires a % 0xffff == b % 0xffff && (a == 0 <==> b == 0)
    ensures a == b
  {}

  /** Congruence modulo 65535, stated with a multiple so that it composes linearly. */
  lemma Congruent(x: int, y: int, k: int)
    requires x == y + k * 0xffff
    ensures x % 0xffff == y % 0xffff
  {
    AddMultiple(y, k);
  }

  /** A word and its complement add up to all ones. */
  lemma FoldComplement(x: nat)
    ensures Fold(x + Not16(Fold(x))) == 0xffff
  {
    FoldValue(x);
    var y: nat := x + Not16(Fold(x));
    var k := x / 0xffff - Fold(x) / 0xffff + 1;
    assert x == x / 0xffff * 0xffff + x % 0xffff && Fold(x) == Fold(x) / 0xffff * 0xffff + x % 0xffff;
    assert y == 0 + k * 0xffff;
    Congruent(y, 0, k);
    FoldValue(y);
    FoldValue(0xffff);
    SameWord(Fold(y), 0xffff);
  }

  // ---- congruence modulo 65535, one step at a time ----

  function Mod(x: int): int { x % 0xffff }

  lemma FoldMod(x: nat)
    ensures Mod(Fold(x)) == Mod(x)
    ensures Fold(x) == 0 <==> x == 0
  {
    FoldValue(x);
  }

  lemma ModShift(x: int, y: int, c: int)
    requires Mod(x) == Mod(y)
    ensures Mod(x + c) == Mod(y + c)
  {
    var k := x / 0xffff - y / 0xffff;
    assert x + c == (y + c) + k * 0xffff;
    Congruent(x + c, y + c, k);
  }

  lemma ModMinus(x: int, y: int, c: int)
    requires Mod(x) == Mod(y)
    ensures Mod(c - x) == Mod(c - y)
  {
    var k := y / 0xffff - x / 0xffff;
    assert c - x == (c - y) + k * 0xffff;
    Congruent(c - x, c - y, k);
  }

  lemma ModAround(x: int, k: int)
    ensures Mod(x + k * 0xffff) == Mod(x)
  {
    AddMultiple(x, k);
  }

  lemma ModWord(a: U16, b: U16)
    requires Mod(a) == Mod(b)
    requires (a == 0 <==> b == 0) || (a == 0xffff <==> b == 0xffff)
    ensures a == b
  {}
}
