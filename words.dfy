/** The machine word of both tools: C's `int16_t` (`word`) and `uint16_t` (`uword`),
    with the two's-complement views between them written out explicitly. */
module Words {

  const Modulus: int := 0x1_0000

  /** `typedef int16_t word` */
  type word = x: int | -0x8000 <= x < 0x8000

  /** `typedef uint16_t uword` */
  type uword = x: int | 0 <= x < 0x1_0000

  predicate InWordRange(x: int) {
    -0x8000 <= x < 0x8000
  }

  /** The cast `(uword)w`: the same 16 bits read as unsigned. */
  function Unsigned(w: word): (u: uword)
    ensures w >= 0 ==> u == w
    ensures w < 0 ==> u == w + Modulus
  {
    w % Modulus
  }

  /** The cast `(word)u` of a 16-bit pattern: the same bits read as signed. */
  function Signed(u: uword): (w: word)
    ensures Unsigned(w) == u
  {
    if u < 0x8000 then u else u - Modulus
  }

  /** Narrowing an `int` result to `int16_t` (two's-complement wrap-around, as the
      C compilers the source targets do it). */
  function Wrap(x: int): (w: word)
    ensures (w - x) % Modulus == 0
    ensures InWordRange(x) ==> w == x
  {
    Signed(x % Modulus)
  }

  lemma UnsignedWrap(x: int)
    ensures Unsigned(Wrap(x)) == x % Modulus
  {
  }

  /** Wrapping twice is wrapping once: `x += 1` on a `word` keeps composing mod 2^16. */
  lemma WrapAdd(x: int, y: int)
    ensures Wrap(Wrap(x) + y) == Wrap(x + y)
  {
    var w := Wrap(x);
    assert (w + y - (x + y)) % Modulus == 0;
    assert (w + y) % Modulus == (x + y) % Modulus;
  }

  function Abs(x: int): nat {
    if x < 0 then -x else x
  }

  /** C's integer division `/`, which truncates toward zero (Dafny's `/` is Euclidean). */
  function TruncDiv(x: int, y: int): (q: int)
    requires y != 0
    ensures Abs(x - q * y) < Abs(y)
    ensures x - q * y == 0 || (x - q * y < 0 <==> x < 0)
    ensures Abs(q) * Abs(y) <= Abs(x)
  {
    var q := Abs(x) / Abs(y);
    var s := if (x < 0) == (y < 0) then q else -q;
    TruncDivRemainder(x, y, q, s);
    s
  }

  lemma TruncDivRemainder(x: int, y: int, q: int, s: int)
    requires y != 0 && q == Abs(x) / Abs(y)
    requires s == if (x < 0) == (y < 0) then q else -q
    ensures x - s * y == (if x < 0 then -(Abs(x) % Abs(y)) else Abs(x) % Abs(y))
    ensures Abs(s) * Abs(y) <= Abs(x)
  {
    var ax, ay, r := Abs(x), Abs(y), Abs(x) % Abs(y);
    assert ax == q * ay + r && 0 <= r < ay;
    assert q >= 0 && Abs(s) == q;
    var p := q * ay;
    if y < 0 {
      assert s * y == (-s) * ay;
    } else {
      assert s * y == s * ay;
    }
    if (x < 0) == (y < 0) {
      assert s * ay == p;
    } else {
      assert s * ay == -p;
    }
  }
}
