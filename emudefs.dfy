/** The constants of the emulator (gemu.c): the memory map, the register indices
    and the opcode numbers its dispatch switches on. */
module EmuDefs {

  /** Video character memory base (grows upward). */
  const VidMem: int := 0xF69F
  /** Memory-mapped keyboard character register. */
  const Keyboard: int := 0xF69E
  /** Global data pointer initial value (grows upward). */
  const GpInit: int := 0xD69E
  /** Program counter initial value (program region). */
  const PcInit: int := 0xB69E
  /** Stack pointer initial value (grows downward). */
  const SpInit: int := 0xB69D
  /** Number of video memory addresses, 80 columns by 30 rows. */
  const VidLen: int := 80 * 30

  /** The memory size the model uses: 2^16 words, one per 16-bit address, as the
      comment on `memLen` says. */
  const MemLen: nat := 0x1_0000

  /** `memLen` as the C preprocessor expands it: `(2^16)` is bitwise XOR in C. */
  function MemLenAsWritten(): (n: nat)
    ensures n == 18
  {
    ((2 as bv8) ^ (16 as bv8)) as nat
  }

  // Register indices (`int zero = 0; ... int t3 = 15;`)
  const Zero: nat := 0
  const At: nat := 1
  const Pc: nat := 2
  const Ra: nat := 3
  const Sp: nat := 4
  const Gp: nat := 5
  const V0: nat := 6
  const V1: nat := 7
  const A0: nat := 8
  const A1: nat := 9
  const S0: nat := 10
  const S1: nat := 11
  const T0: nat := 12
  const T1: nat := 13
  const T2: nat := 14
  const T3: nat := 15

  const RegCount: nat := 16

  // Opcode numbers: the case labels of the dispatch switch; 0 is the default (nop).
  const OpNop: nat := 0
  const OpLw: nat := 1
  const OpSw: nat := 2
  const OpBeq: nat := 3
  const OpBne: nat := 4
  const OpLui: nat := 5
  const OpOri: nat := 6
  const OpSgt: nat := 7
  const OpSeq: nat := 8
  const OpNand: nat := 9
  const OpSll: nat := 10
  const OpSrl: nat := 11
  const OpAdd: nat := 12
  const OpSub: nat := 13
  const OpMul: nat := 14
  const OpDiv: nat := 15
}
