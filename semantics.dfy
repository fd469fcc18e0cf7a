/** The emulator's machine semantics as functions on values: what each of the fifteen
    handlers does to the registers, the memory and the output flag, what one call of
    `interpret` does, and what the `emulate` loop does over `mem[0..progLen)`. */
module Semantics {
  import opened Words
  import opened Bits
  import opened EmuDefs
  import opened Isa

  /** The global state of gemu.c: `registers[16]`, `mem[memLen]` (65536 words here),
      and the two interrupt flags `newCharIn` and `newCharOut`. */
  datatype State = State(regs: seq<word>, mem: seq<word>, charIn: bool, charOut: bool)

  predicate WellFormed(s: State) {
    |s.regs| == RegCount && |s.mem| == MemLen
  }

  /** Operations whose effect C leaves undefined; the model stops instead of guessing. */
  datatype Fault = DivideByZero | ShiftOutOfRange

  datatype Outcome = Executed(state: State) | Faulted(fault: Fault)

  /** As `memLen` is written, `mem` has 18 words, and the initial `$pc`, `$sp` and
      `$gp` all hold addresses beyond it: a `lw` or `sw` through any of them would
      index outside the array. */
  lemma InitialPointersBeyondMemLenAsWritten()
    ensures Unsigned(InitialRegisters()[Pc]) >= MemLenAsWritten()
    ensures Unsigned(InitialRegisters()[Sp]) >= MemLenAsWritten()
    ensures Unsigned(InitialRegisters()[Gp]) >= MemLenAsWritten()
  {
  }

  /** With the intended 65536 words, the unsigned value of every register is an
      index into memory: no `lw` or `sw` address is out of range. */
  lemma RegisterAddressesInMemory(s: State)
    requires WellFormed(s)
    ensures forall j :: 0 <= j < RegCount ==> Unsigned(s.regs[j]) < |s.mem|
  {
  }

  /** The registers after `main`'s initialisation: all 0 except `$pc`, `$sp` and
      `$gp`. The initial values do not fit an `int16_t`, so the stored words are
      negative, with the intended bit patterns. */
  function InitialRegisters(): (r: seq<word>)
    ensures |r| == RegCount
    ensures Unsigned(r[Pc]) == PcInit && Unsigned(r[Sp]) == SpInit && Unsigned(r[Gp]) == GpInit
    ensures forall j :: 0 <= j < RegCount && j != Pc && j != Sp && j != Gp ==> r[j] == 0
  {
    UnsignedWrap(PcInit);
    UnsignedWrap(SpInit);
    UnsignedWrap(GpInit);
    [0, 0, Wrap(PcInit), 0, Wrap(SpInit), Wrap(GpInit), 0, 0, 0, 0, 0, 0, 0, 0, 0, 0]
  }

  // ---------------------------------------------------------------------------
  // Values computed by the handlers

  /** `lui`: `((word)imm << 8) & 0xFF00`, narrowed to `word`. */
  function LuiValue(imm: nat): (r: word)
    requires imm < 0x100
    ensures Unsigned(r) / 0x100 == imm
    ensures Unsigned(r) % 0x100 == 0
  {
    Wrap(imm * 0x100)
  }

  /** `ori`: `registers[reg] | (word)imm`. The immediate has no bit above bit 7, so the
      high byte is kept and each low bit becomes the OR of the two. */
  function OriValue(x: word, imm: nat): (r: word)
    requires imm < 0x100
    ensures Unsigned(r) / 0x100 == Unsigned(x) / 0x100
    ensures forall i :: 0 <= i < 8 ==> (Bit(Unsigned(r), i) <==> Bit(Unsigned(x), i) || Bit(imm, i))
    ensures forall i :: 8 <= i < 16 ==> (Bit(Unsigned(r), i) <==> Bit(Unsigned(x), i))
  {
    var u := Or(Unsigned(x), imm, 16);
    Pow2Facts();
    OrKeepsHighPart(Unsigned(x), imm, 16, 8);
    forall i | 0 <= i < 16 ensures Bit(u, i) <==> Bit(Unsigned(x), i) || Bit(imm, i) {
      OrBit(Unsigned(x), imm, 16, i);
    }
    forall i | 8 <= i < 16 ensures !Bit(imm, i) {
      BitBelowPow2(imm, 8, i);
    }
    Signed(u)
  }

  /** `nand`: `~(registers[b] & registers[c])`; every bit is the NAND of the two. */
  function NandValue(x: word, y: word): (r: word)
    ensures forall i :: 0 <= i < 16 ==> (Bit(Unsigned(r), i) <==> !(Bit(Unsigned(x), i) && Bit(Unsigned(y), i)))
  {
    var conj := And(Unsigned(x), Unsigned(y), 16);
    Pow2Facts();
    forall i | 0 <= i < 16 ensures Bit(conj, i) <==> Bit(Unsigned(x), i) && Bit(Unsigned(y), i) {
      AndBit(Unsigned(x), Unsigned(y), 16, i);
    }
    Signed(Complement(conj, 16))
  }

  /** `(uword)x << (uword)n` is evaluated in 32-bit `int`: defined only when the count
      is below 32 and the shifted value still fits in an `int`. */
  predicate SllDefined(x: word, n: word) {
    Unsigned(n) < 32 && Unsigned(x) * Pow2(Unsigned(n)) < 0x8000_0000
  }

  /** `sll`: logical left shift of the unsigned value, truncated to 16 bits: bit i of
      the result is bit i - n of the operand, and the n lowest bits are 0. */
  function SllValue(x: word, n: word): (r: word)
    requires SllDefined(x, n)
    ensures forall i :: 0 <= i < 16 ==> (Bit(Unsigned(r), i) <==> Unsigned(n) <= i && Bit(Unsigned(x), i - Unsigned(n)))
  {
    var v := Unsigned(x) * Pow2(Unsigned(n));
    ShiftLeftBits(Unsigned(x), Unsigned(n));
    Wrap(v)
  }

  lemma ShiftLeftBits(u: nat, n: nat)
    ensures forall i :: 0 <= i < 16 ==> (Bit((u * Pow2(n)) % Modulus, i) <==> n <= i && Bit(u, i - n))
  {
    Pow2Facts();
    forall i | 0 <= i < 16 ensures Bit((u * Pow2(n)) % Modulus, i) <==> n <= i && Bit(u, i - n) {
      BitOfMod(u * Pow2(n), 16, i);
      BitOfShiftLeft(u, n, i);
    }
  }

  /** `(uword)x >> (uword)n` is defined for counts below 32. */
  predicate SrlDefined(n: word) {
    Unsigned(n) < 32
  }

  /** `srl`: logical right shift of the unsigned value: bit i of the result is bit
      i + n of the operand, so nothing comes in from above. */
  function SrlValue(x: word, n: word): (r: word)
    requires SrlDefined(n)
    ensures forall i :: 0 <= i < 16 ==> (Bit(Unsigned(r), i) <==> Bit(Unsigned(x), i + Unsigned(n)))
  {
    var v := ShiftRight(Unsigned(x), Unsigned(n));
    forall i | 0 <= i < 16 ensures Bit(v, i) <==> Bit(Unsigned(x), i + Unsigned(n)) {
      BitOfShiftRight(Unsigned(x), Unsigned(n), i);
    }
    Signed(v)
  }

  /** `divide`: C's truncating `/` on the promoted operands, narrowed to `word`. */
  function DivValue(x: word, y: word): (r: word)
    requires y != 0
    ensures !(x == -0x8000 && y == -1) ==> r == TruncDiv(x, y)
    ensures x == -0x8000 && y == -1 ==> r == -0x8000
  {
    var q := TruncDiv(x, y);
    TruncDivFits(x, y);
    Wrap(q)
  }

  lemma TruncDivFits(x: word, y: word)
    requires y != 0
    ensures !(x == -0x8000 && y == -1) ==> InWordRange(TruncDiv(x, y))
    ensures x == -0x8000 && y == -1 ==> TruncDiv(x, y) == 0x8000
  {
    var q := TruncDiv(x, y);
    var aq, ax, ay := Abs(q), Abs(x), Abs(y);
    assert aq * ay <= ax && ax <= 0x8000 && ay >= 1;
    NoLargerThanProduct(aq, ay);
    if aq == 0x8000 {
      NoLargerThanProduct(ay, aq);
      assert ay == 1 && ax == 0x8000;
    }
    if x == -0x8000 && y == -1 {
      assert q == 0x8000;
    }
  }

  lemma NoLargerThanProduct(a: nat, b: nat)
    requires b >= 1
    ensures a <= a * b
  {
    if a > 0 {
      assert a * b == a * (b - 1) + a;
    }
  }

  // ---------------------------------------------------------------------------
  // One instruction

  function SetReg(s: State, r: nat, v: word): Outcome
    requires WellFormed(s) && r < RegCount
  {
    Executed(s.(regs := s.regs[r := v]))
  }

  /** `interpret(instruction)`: decode the word, then dispatch on the opcode. Fetch and
      the program counter play no part: only `beq`/`bne` (or a register-writing opcode
      whose A field is 2) change `registers[pc]`. */
  function Step(s: State, w: word): (o: Outcome)
    requires WellFormed(s)
    ensures o.Executed? ==> WellFormed(o.state)
  {
    var f := Decode(w);
    var r := s.regs;
    match f.op
    case 1 => // lw a, b
      SetReg(s, f.a, s.mem[Unsigned(r[f.b])])
    case 2 => // sw a, b: `registers[loc] > vidMem` compares the signed value
      Executed(s.(mem := s.mem[Unsigned(r[f.b]) := r[f.a]],
                  charOut := s.charOut || r[f.b] > VidMem))
    case 3 => // beq a, b, c
      Executed(if r[f.a] == r[f.b] then s.(regs := r[Pc := Wrap(r[Pc] as int + r[f.c])]) else s)
    case 4 => // bne a, b, c
      Executed(if r[f.a] != r[f.b] then s.(regs := r[Pc := Wrap(r[Pc] as int + r[f.c])]) else s)
    case 5 => SetReg(s, f.a, LuiValue(Imm(w)))
    case 6 => SetReg(s, f.a, OriValue(r[f.a], Imm(w)))
    case 7 => SetReg(s, f.a, if r[f.b] > r[f.c] then 1 else 0)
    case 8 => SetReg(s, f.a, if r[f.b] == r[f.c] then 1 else 0)
    case 9 => SetReg(s, f.a, NandValue(r[f.b], r[f.c]))
    case 10 =>
      if SllDefined(r[f.b], r[f.c]) then SetReg(s, f.a, SllValue(r[f.b], r[f.c]))
      else Faulted(ShiftOutOfRange)
    case 11 =>
      if SrlDefined(r[f.c]) then SetReg(s, f.a, SrlValue(r[f.b], r[f.c]))
      else Faulted(ShiftOutOfRange)
    case 12 => SetReg(s, f.a, Wrap(r[f.b] as int + r[f.c]))
    case 13 => SetReg(s, f.a, Wrap(r[f.b] as int - r[f.c]))
    case 14 => SetReg(s, f.a, Wrap(r[f.b] as int * r[f.c]))
    case 15 =>
      if r[f.c] == 0 then Faulted(DivideByZero)
      else SetReg(s, f.a, DivValue(r[f.b], r[f.c]))
    case _ => // nop
      Executed(s)
  }

  // ---------------------------------------------------------------------------
  // The emulate loop

  /** What one iteration does after `interpret`: `dispUpdate` clears `newCharOut`
      (after rendering, which the model leaves out) and `newCharIn` takes the sampled
      `_kbhit()` value. */
  function AfterCycle(s: State, key: bool): (t: State)
    ensures t.regs == s.regs && t.mem == s.mem && !t.charOut && t.charIn == key
  {
    s.(charOut := false, charIn := key)
  }

  datatype Stop = Completed | FaultAt(fault: Fault)

  datatype RunResult = RunResult(state: State, executed: nat, stop: Stop)

  /** `for(i = 0; i < progLen; i++) interpret(mem[i]); ...` from iteration `i` on: the
      word executed at iteration i is `mem[i]` of the CURRENT memory, after the stores
      of the earlier iterations; `keys[i]` is the keyboard sample of iteration i. */
  function Run(s: State, i: nat, progLen: nat, keys: seq<bool>): (r: RunResult)
    requires WellFormed(s) && progLen <= MemLen && |keys| >= progLen
    ensures WellFormed(r.state)
    ensures i <= progLen ==> i <= r.executed <= progLen
    ensures r.stop == Completed ==> r.executed == (if i <= progLen then progLen else i)
    decreases progLen - i
  {
    if i >= progLen then RunResult(s, i, Completed)
    else
      match Step(s, s.mem[i])
      case Faulted(f) => RunResult(s, i, FaultAt(f))
      case Executed(t) => Run(AfterCycle(t, keys[i]), i + 1, progLen, keys)
  }

  // ---------------------------------------------------------------------------
  // Properties of one instruction

  /** Opcode 0, the `default` branch, changes neither registers nor memory. */
  lemma NopChangesNothing(s: State, w: word)
    requires WellFormed(s) && Decode(w).op == OpNop
    ensures Step(s, w) == Executed(s)
  {
  }

  /** `lw` and opcodes 5-15 write `registers[a]` and nothing else: memory, the flags
      and every other register keep their values. */
  lemma WritesOnlyRegisterA(s: State, w: word)
    requires WellFormed(s)
    requires Decode(w).op == OpLw || Decode(w).op >= OpLui
    requires Step(s, w).Executed?
    ensures var t := Step(s, w).state;
      t.mem == s.mem && t.charIn == s.charIn && t.charOut == s.charOut &&
      forall j :: 0 <= j < RegCount && j != Decode(w).a ==> t.regs[j] == s.regs[j]
  {
  }

  /** `sw a, b` writes `registers[a]` to the address held IN register b, read as
      unsigned; it changes that one memory word and no register. Its video check
      compares the signed register with 0xF69F, which no `int16_t` exceeds, so it never
      raises `newCharOut`. */
  lemma StoreWritesOneWord(s: State, w: word)
    requires WellFormed(s) && Decode(w).op == OpSw
    ensures var f := Decode(w);
      Step(s, w) == Executed(s.(mem := s.mem[Unsigned(s.regs[f.b]) := s.regs[f.a]]))
  {
  }

  /** A `lw` right after a `sw` through a register holding the same address reads
      back the stored value. */
  lemma LoadAfterStore(s: State, store: word, load: word)
    requires WellFormed(s)
    requires Decode(store).op == OpSw && Decode(load).op == OpLw
    requires s.regs[Decode(load).b] == s.regs[Decode(store).b]
    ensures Step(s, store).Executed?
    ensures var t := Step(s, store).state;
      Step(t, load).Executed? && Step(t, load).state.regs[Decode(load).a] == s.regs[Decode(store).a]
  {
    StoreWritesOneWord(s, store);
  }

  /** `beq` takes its branch when A and B hold equal values, `bne` when they differ. */
  predicate BranchTaken(s: State, w: word)
    requires WellFormed(s)
  {
    var f := Decode(w);
    (f.op == OpBeq && s.regs[f.a] == s.regs[f.b]) || (f.op == OpBne && s.regs[f.a] != s.regs[f.b])
  }

  /** A taken branch adds the value of register C to `registers[pc]` modulo 2^16; an
      untaken one changes nothing; neither touches memory or any other register. */
  lemma BranchAddsOffset(s: State, w: word)
    requires WellFormed(s) && (Decode(w).op == OpBeq || Decode(w).op == OpBne)
    ensures Step(s, w).Executed?
    ensures var t := Step(s, w).state; var f := Decode(w);
      t.mem == s.mem && t.charIn == s.charIn && t.charOut == s.charOut &&
      (forall j :: 0 <= j < RegCount && j != Pc ==> t.regs[j] == s.regs[j]) &&
      (BranchTaken(s, w) ==> Unsigned(t.regs[Pc]) == (Unsigned(s.regs[Pc]) + Unsigned(s.regs[f.c])) % Modulus) &&
      (!BranchTaken(s, w) ==> t == s)
  {
    var f := Decode(w);
    if BranchTaken(s, w) {
      var sum := s.regs[Pc] as int + s.regs[f.c];
      var r := Wrap(sum);
      assert Unsigned(r) == (Unsigned(s.regs[Pc]) + Unsigned(s.regs[f.c])) % Modulus by {
        assert (r - sum) % Modulus == 0;
      }
    }
  }

  /** For the same A and B, exactly one of `beq` and `bne` takes its branch. */
  lemma BranchesComplementary(s: State, beq: word, bne: word)
    requires WellFormed(s)
    requires Decode(beq).op == OpBeq && Decode(bne).op == OpBne
    requires Decode(beq).a == Decode(bne).a && Decode(beq).b == Decode(bne).b
    ensures BranchTaken(s, beq) != BranchTaken(s, bne)
  {
  }

  /** `sgt`/`seq` write exactly 1 or 0 to register A: 1 exactly when B > C as signed
      16-bit values (respectively B == C). */
  lemma CompareWritesFlag(s: State, w: word)
    requires WellFormed(s) && (Decode(w).op == OpSgt || Decode(w).op == OpSeq)
    ensures Step(s, w).Executed?
    ensures var t := Step(s, w).state; var f := Decode(w);
      (t.regs[f.a] == 0 || t.regs[f.a] == 1) &&
      (t.regs[f.a] == 1 <==>
        if f.op == OpSgt then s.regs[f.b] > s.regs[f.c] else s.regs[f.b] == s.regs[f.c])
  {
  }

  /** The comparison is signed: 0xFFFF (-1) is not greater than 1. */
  lemma SgtComparesSigned(s: State, w: word)
    requires WellFormed(s) && Decode(w).op == OpSgt
    requires Unsigned(s.regs[Decode(w).b]) == 0xFFFF && s.regs[Decode(w).c] == 1
    ensures Step(s, w).Executed? && Step(s, w).state.regs[Decode(w).a] == 0
  {
  }

  /** `lui`: register A gets the immediate as its high byte and 0 as its low byte.
      Because the immediate is bits 15-8 of the word, it is always 0x50 + A. */
  lemma LuiLoadsHighByte(s: State, w: word)
    requires WellFormed(s) && Decode(w).op == OpLui
    ensures Step(s, w).Executed?
    ensures var t := Step(s, w).state; var a := Decode(w).a;
      Unsigned(t.regs[a]) / 0x100 == Imm(w) == 0x50 + a &&
      Unsigned(t.regs[a]) % 0x100 == 0
  {
  }

  /** `ori`: the high byte of register A is kept and each low bit is ORed with the
      immediate's, which is always 0x60 + A. */
  lemma OriMergesLowByte(s: State, w: word)
    requires WellFormed(s) && Decode(w).op == OpOri
    ensures Step(s, w).Executed?
    ensures var t := Step(s, w).state; var a := Decode(w).a;
      Imm(w) == 0x60 + a &&
      Unsigned(t.regs[a]) / 0x100 == Unsigned(s.regs[a]) / 0x100 &&
      forall i :: 0 <= i < 8 ==> (Bit(Unsigned(t.regs[a]), i) <==> Bit(Unsigned(s.regs[a]), i) || Bit(Imm(w), i))
  {
  }

  /** The `lui`/`ori` pair on one register loads the high byte and then ORs in the
      low byte. As written both immediates come from the opcode and A nibbles, so
      the pair always builds (0x50 + A) * 256 + 0x60 + A, whatever low bytes the two
      words carry: it cannot materialise an arbitrary 16-bit address. */
  lemma LuiThenOri(s: State, lui: word, ori: word)
    requires WellFormed(s) && Decode(lui).op == OpLui && Decode(ori).op == OpOri
    requires Decode(lui).a == Decode(ori).a
    ensures Step(s, lui).Executed? && Step(Step(s, lui).state, ori).Executed?
    ensures var a := Decode(lui).a;
      Unsigned(Step(Step(s, lui).state, ori).state.regs[a]) == (0x50 + a) * 0x100 + 0x60 + a
  {
    var a := Decode(lui).a;
    var t := Step(s, lui).state;
    var high := Unsigned(t.regs[a]);
    assert high == (0x50 + a) * 0x100;
    Pow2Facts();
    OrDisjoint(high, Imm(ori), 16, 8);
  }

  /** `srl` by n undoes `sll` by n when no set bit is shifted out. */
  lemma SrlUndoesSll(x: word, n: word)
    requires Unsigned(n) < 16 && Unsigned(x) < Pow2(16 - Unsigned(n))
    ensures SllDefined(x, n) && SrlDefined(n)
    ensures SrlValue(SllValue(x, n), n) == x
  {
    var u, k := Unsigned(x), Unsigned(n);
    Pow2Facts();
    Pow2Add(16 - k, k);
    MulBelow(u, Pow2(16 - k), Pow2(k));
    var r := SllValue(x, n);
    var t := SrlValue(r, n);
    forall i | 0 <= i < 16 ensures Bit(Unsigned(t), i) <==> Bit(u, i) {
      if i + k < 16 {
        assert Bit(Unsigned(r), i + k) <==> Bit(u, i);
      } else {
        BitBelowPow2(Unsigned(r), 16, i + k);
        BitBelowPow2(u, 16 - k, i);
      }
    }
    BitsDetermine(Unsigned(t), u, 16);
  }

  lemma MulBelow(u: nat, p: nat, q: nat)
    requires u < p && q >= 1
    ensures u * q < p * q
  {
    assert p * q == u * q + (p - u) * q;
    NoLargerThanProduct(p - u, q);
  }

  /** `nand` writes the bitwise NAND of registers B and C. */
  lemma NandIsBitwise(s: State, w: word)
    requires WellFormed(s) && Decode(w).op == OpNand
    ensures Step(s, w).Executed?
    ensures var t := Step(s, w).state; var f := Decode(w);
      forall i :: 0 <= i < 16 ==>
        (Bit(Unsigned(t.regs[f.a]), i) <==> !(Bit(Unsigned(s.regs[f.b]), i) && Bit(Unsigned(s.regs[f.c]), i)))
  {
  }

  /** `add`/`sub`/`mul` store the exact result reduced modulo 2^16: the exact result
      itself whenever it fits in an `int16_t`. */
  lemma ArithmeticWraps(s: State, w: word)
    requires WellFormed(s) && OpAdd <= Decode(w).op <= OpMul
    ensures Step(s, w).Executed?
    ensures var t := Step(s, w).state; var f := Decode(w);
      var x, y := s.regs[f.b] as int, s.regs[f.c] as int;
      var exact := if f.op == OpAdd then x + y else if f.op == OpSub then x - y else x * y;
      (t.regs[f.a] - exact) % Modulus == 0 && (InWordRange(exact) ==> t.regs[f.a] == exact)
  {
  }

  /** `divide` faults on a zero divisor; otherwise it stores the quotient truncated
      toward zero, except that -32768 / -1 wraps back to -32768. */
  lemma DivideTruncates(s: State, w: word)
    requires WellFormed(s) && Decode(w).op == OpDiv
    ensures var f := Decode(w);
      (s.regs[f.c] == 0 <==> Step(s, w) == Faulted(DivideByZero)) &&
      (s.regs[f.c] != 0 ==>
        (Step(s, w).Executed? &&
         var x, y := s.regs[f.b], s.regs[f.c];
         Step(s, w).state.regs[f.a] == if x == -0x8000 && y == -1 then -0x8000 else TruncDiv(x, y)))
  {
  }

  /** `sll`/`srl` shift the unsigned value of register B by the unsigned value of
      register C, filling with zeros. */
  lemma ShiftsAreLogical(s: State, w: word)
    requires WellFormed(s) && (Decode(w).op == OpSll || Decode(w).op == OpSrl)
    requires Step(s, w).Executed?
    ensures var t := Step(s, w).state; var f := Decode(w);
      var u, n := Unsigned(s.regs[f.b]), Unsigned(s.regs[f.c]);
      forall i :: 0 <= i < 16 ==>
        (Bit(Unsigned(t.regs[f.a]), i) <==>
          if f.op == OpSll then n <= i && Bit(u, i - n) else Bit(u, i + n))
  {
  }

  /** The only instructions whose effect C leaves undefined: division by zero, and
      shifts whose count or result does not fit a 32-bit `int`. */
  lemma FaultsExactly(s: State, w: word)
    requires WellFormed(s)
    ensures var f := Decode(w); var r := s.regs;
      Step(s, w).Faulted? <==>
        (f.op == OpSll && !SllDefined(r[f.b], r[f.c])) ||
        (f.op == OpSrl && !SrlDefined(r[f.c])) ||
        (f.op == OpDiv && r[f.c] == 0)
  {
  }

  // ---------------------------------------------------------------------------
  // Properties of the emulate loop

  /** An instruction that is not `sw`, `beq` or `bne` and whose destination A is
      not register 2 (`$pc`); it may still read `$pc` as B or C. */
  predicate PcNeutral(w: word) {
    var f := Decode(w);
    f.op == OpNop || (f.op != OpSw && f.op != OpBeq && f.op != OpBne && f.a != Pc)
  }

  /** The loop fetches by its own counter and nothing advances `$pc`: after any
      number of `$pc`-neutral instructions (no `sw`, `beq` or `bne`, and no
      destination A = 2), `registers[pc]` and the memory are exactly as before. */
  lemma {:induction false} PcNeverAdvances(s: State, i: nat, progLen: nat, keys: seq<bool>)
    requires WellFormed(s) && progLen <= MemLen && |keys| >= progLen
    requires forall j :: i <= j < progLen ==> PcNeutral(s.mem[j])
    ensures Run(s, i, progLen, keys).state.regs[Pc] == s.regs[Pc]
    ensures Run(s, i, progLen, keys).state.mem == s.mem
    decreases progLen - i
  {
    if i < progLen {
      var w := s.mem[i];
      match Step(s, w)
      case Faulted(_) =>
      case Executed(t) =>
        PcNeutralStep(s, w);
        PcNeverAdvances(AfterCycle(t, keys[i]), i + 1, progLen, keys);
    }
  }

  /** One `$pc`-neutral instruction leaves `$pc` and the memory as they were. */
  lemma PcNeutralStep(s: State, w: word)
    requires WellFormed(s) && PcNeutral(w) && Step(s, w).Executed?
    ensures Step(s, w).state.regs[Pc] == s.regs[Pc] && Step(s, w).state.mem == s.mem
  {
    if Decode(w).op != OpNop {
      WritesOnlyRegisterA(s, w);
    }
  }

  /** A branch redirects nothing: taken or not, it leaves the memory as it was and
      the next iteration executes `mem[i + 1]`, whatever `$pc` now holds. */
  lemma BranchDoesNotRedirectFetch(s: State, i: nat, progLen: nat, keys: seq<bool>)
    requires WellFormed(s) && progLen <= MemLen && |keys| >= progLen && i < progLen
    requires Decode(s.mem[i]).op == OpBeq || Decode(s.mem[i]).op == OpBne
    ensures Step(s, s.mem[i]).Executed?
    ensures var t := AfterCycle(Step(s, s.mem[i]).state, keys[i]);
      t.mem == s.mem && Run(s, i, progLen, keys) == Run(t, i + 1, progLen, keys)
  {
    BranchAddsOffset(s, s.mem[i]);
  }

  /** Each iteration fetches from the current memory: when the word at i stores
      register A's value at address i + 1, the next iteration executes that value. */
  lemma StoreThenFetch(s: State, i: nat, progLen: nat, keys: seq<bool>)
    requires WellFormed(s) && progLen <= MemLen && |keys| >= progLen
    requires i + 1 < progLen
    requires Decode(s.mem[i]).op == OpSw && Unsigned(s.regs[Decode(s.mem[i]).b]) == i + 1
    ensures var v := s.regs[Decode(s.mem[i]).a];
      var t := AfterCycle(s.(mem := s.mem[i + 1 := v]), keys[i]);
      t.mem[i + 1] == v && Run(s, i, progLen, keys) == Run(t, i + 1, progLen, keys)
  {
    StoreWritesOneWord(s, s.mem[i]);
  }

  /** A fault ends the loop on the spot: the state is the one before the faulting
      word, and the count of completed iterations is its index. */
  lemma FaultStopsRun(s: State, i: nat, progLen: nat, keys: seq<bool>)
    requires WellFormed(s) && progLen <= MemLen && |keys| >= progLen
    requires i < progLen && Step(s, s.mem[i]).Faulted?
    ensures Run(s, i, progLen, keys) == RunResult(s, i, FaultAt(Step(s, s.mem[i]).fault))
  {
  }
}
