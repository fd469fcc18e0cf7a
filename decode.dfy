/** Field extraction of `interpret`: a 16-bit instruction word split into the opcode,
    the A, B and C register nibbles and the 8-bit immediate. */
module Isa {
  import opened Words
  import opened Bits

  datatype Fields = Fields(op: nat, a: nat, b: nat, c: nat)

  predicate FieldsInRange(f: Fields) {
    f.op < 16 && f.a < 16 && f.b < 16 && f.c < 16
  }

  /** `(instruction >> k) & 0xF` for k = 12, 8, 4, 0. The word is promoted to a
      signed `int` and shifted arithmetically, which is Dafny's Euclidean division by
      a power of two; masking with 0xF is Euclidean remainder by 16. The result is
      the opcode in bits 15-12, A in bits 11-8, B in bits 7-4 and C in bits 3-0. */
  function Decode(w: word): (f: Fields)
    ensures FieldsInRange(f)
    ensures Unsigned(w) == f.op * 0x1000 + f.a * 0x100 + f.b * 0x10 + f.c
  {
    NibblesOfUnsigned(w, Unsigned(w));
    NibblesRebuild(Unsigned(w));
    Fields((w / 0x1000) % 0x10, (w / 0x100) % 0x10, (w / 0x10) % 0x10, w % 0x10)
  }

  /** The arithmetic shift of the signed word and the logical shift of its unsigned
      view agree once masked to a nibble. */
  lemma NibblesOfUnsigned(w: word, u: uword)
    requires u == Unsigned(w)
    ensures (w / 0x1000) % 0x10 == u / 0x1000
    ensures (w / 0x100) % 0x10 == (u / 0x100) % 0x10
    ensures (w / 0x10) % 0x10 == (u / 0x10) % 0x10
    ensures w % 0x10 == u % 0x10
  {
    assert u == w % 0x1_0000;
    ShiftedNibble(w, u, 0x1000);
    ShiftedNibble(w, u, 0x100);
    ShiftedNibble(w, u, 0x10);
    ShiftedNibble(w, u, 1);
  }

  /** A negative word differs from its unsigned view by 2^16, a multiple of 16 * d,
      so both give the same nibble at position d. */
  lemma ShiftedNibble(w: int, u: int, d: int)
    requires -0x8000 <= w < 0x8000 && u == w % 0x1_0000
    requires d == 0x1000 || d == 0x100 || d == 0x10 || d == 1
    ensures (w / d) % 0x10 == (u / d) % 0x10
  {
    if w < 0 {
      assert u == w + 0x1_0000;
      var k := if d == 0x1000 then 0x10 else if d == 0x100 then 0x100 else if d == 0x10 then 0x1000 else 0x1_0000;
      assert k * d == 0x1_0000;
      DivShift(w, d, k);
      ModShift(w / d, k / 0x10);
    }
  }

  lemma DivShift(w: int, d: int, k: int)
    requires d >= 1
    ensures (w + k * d) / d == w / d + k
  {
    var q, r := w / d, w % d;
    assert w == q * d + r;
    assert w + k * d == (q + k) * d + r;
    DivUnique(w + k * d, d, q + k, r);
  }

  lemma ModShift(x: int, m: int)
    ensures (x + m * 0x10) % 0x10 == x % 0x10
  {
    DivShift(x, 0x10, m);
  }

  lemma NibblesRebuild(u: uword)
    ensures u == (u / 0x1000) * 0x1000 + ((u / 0x100) % 0x10) * 0x100 + ((u / 0x10) % 0x10) * 0x10 + u % 0x10
  {
    var q1 := u / 0x10;
    var q2 := q1 / 0x10;
    var q3 := q2 / 0x10;
    assert u == q1 * 0x10 + u % 0x10;
    assert q1 == q2 * 0x10 + q1 % 0x10;
    assert q2 == q3 * 0x10 + q2 % 0x10;
    DivUnique(u, 0x100, q2, (q1 % 0x10) * 0x10 + u % 0x10);
    DivUnique(u, 0x1000, q3, (q2 % 0x10) * 0x100 + (q1 % 0x10) * 0x10 + u % 0x10);
  }

  /** `(instruction >> 8) & 0x00FF`: bits 15-8 of the word. These overlap the opcode
      and A nibbles, so the immediate is always `op * 16 + a`, never the low byte. */
  function Imm(w: word): (imm: nat)
    ensures imm < 0x100
    ensures imm == Decode(w).op * 0x10 + Decode(w).a
    ensures imm == Unsigned(w) / 0x100
  {
    var f := Decode(w);
    DivUnique(Unsigned(w), 0x100, f.op * 0x10 + f.a, f.b * 0x10 + f.c);
    HighByte(w, Unsigned(w));
    (w / 0x100) % 0x100
  }

  /** The arithmetic shift by 8 of the signed word, masked to a byte, is the high
      byte of its unsigned view. */
  lemma HighByte(w: int, u: int)
    requires -0x8000 <= w < 0x8000 && u == w % 0x1_0000
    ensures (w / 0x100) % 0x100 == u / 0x100
  {
    if w < 0 {
      assert u == w + 0x100 * 0x100;
      DivShift(w, 0x100, 0x100);
      var q := w / 0x100;
      assert w == q * 0x100 + w % 0x100;
      assert -0x80 <= q < 0;
      DivUnique(q, 0x100, -1, q + 0x100);
    }
  }

  /** `op << 12 | a << 8 | b << 4 | c`, written as a sum: the four nibbles occupy
      disjoint bits, so the OR is their sum (`PackIsOr`). */
  function Pack(f: Fields): (u: uword)
    requires FieldsInRange(f)
  {
    f.op * 0x1000 + f.a * 0x100 + f.b * 0x10 + f.c
  }

  /** Packing by OR-ing the shifted nibbles gives the same word as adding them. */
  lemma PackIsOr(f: Fields)
    requires FieldsInRange(f)
    ensures Pack(f) == Or(Or(Or(f.op * 0x1000, f.a * 0x100, 16), f.b * 0x10, 16), f.c, 16)
  {
    Pow2Facts();
    var x1 := Or(f.op * 0x1000, f.a * 0x100, 16);
    OrNibble(f.op, f.a, 12);
    assert x1 == f.op * 0x1000 + f.a * 0x100;
    var x2 := Or(x1, f.b * 0x10, 16);
    OrNibble(f.op * 0x10 + f.a, f.b, 8);
    assert x2 == x1 + f.b * 0x10;
    OrNibble(f.op * 0x100 + f.a * 0x10 + f.b, f.c, 4);
    assert Or(x2, f.c, 16) == x2 + f.c;
  }

  /** OR-ing a nibble into the clear nibble at bit k of a 16-bit word is adding it. */
  lemma OrNibble(high: nat, nibble: nat, k: nat)
    requires k == 4 || k == 8 || k == 12
    requires nibble < 0x10 && high * Pow2(k) < 0x1_0000
    ensures Or(high * Pow2(k), nibble * Pow2(k - 4), 16) == high * Pow2(k) + nibble * Pow2(k - 4)
  {
    Pow2Facts();
    MultipleMod(high, Pow2(k));
    OrDisjoint(high * Pow2(k), nibble * Pow2(k - 4), 16, k);
  }

  lemma MultipleMod(k: nat, d: nat)
    requires d >= 1
    ensures (k * d) % d == 0
  {
    DivUnique(k * d, d, k, 0);
  }

  /** Repacking the decoded fields rebuilds the original bit pattern. */
  lemma PackDecode(w: word)
    ensures Pack(Decode(w)) == Unsigned(w)
  {
  }

  /** Decoding a packed word gives back the fields: the field layout loses nothing. */
  lemma DecodePack(f: Fields)
    requires FieldsInRange(f)
    ensures Decode(Signed(Pack(f))) == f
  {
    var u := Pack(f);
    var g := Decode(Signed(u));
    assert Unsigned(Signed(u)) == u;
    assert g.op * 0x1000 + g.a * 0x100 + g.b * 0x10 + g.c == f.op * 0x1000 + f.a * 0x100 + f.b * 0x10 + f.c;
  }

  /** `add $t0, $s0, $s1` is the word 0xCCAB: opcode 12, A = 12, B = 10, C = 11. */
  lemma DecodeAddExample()
    ensures Decode(Signed(0xCCAB)) == Fields(12, 12, 10, 11)
    ensures Imm(Signed(0xCCAB)) == 0xCC
  {
    DecodePack(Fields(12, 12, 10, 11));
  }

  /** The low byte of a word never reaches the immediate. */
  lemma ImmIgnoresLowByte(w1: word, w2: word)
    requires Unsigned(w1) / 0x100 == Unsigned(w2) / 0x100
    ensures Imm(w1) == Imm(w2)
  {
  }
}
