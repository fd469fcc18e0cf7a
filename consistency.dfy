/** The assembler's tables and constants agree with what the emulator decodes and
    dispatches on. */
module Consistency {
  import opened Words
  import EmuDefs
  import opened Assembler

  /** Both tools use the same memory map; its regions are ordered stack, program,
      globals, keyboard, video. The vidLen video words end at 0xFFFE, one below the
      last address. */
  lemma MemoryMapsAgree()
    ensures Assembler.VidMem == EmuDefs.VidMem && Assembler.Keyboard == EmuDefs.Keyboard
    ensures Assembler.GpInit == EmuDefs.GpInit && Assembler.PcInit == EmuDefs.PcInit
    ensures Assembler.SpInit == EmuDefs.SpInit && Assembler.VidLen == EmuDefs.VidLen
    ensures SpInit < PcInit < GpInit < Keyboard < VidMem
    ensures SpInit == PcInit - 1 && Keyboard == VidMem - 1
    ensures VidMem + VidLen == 0xFFFF
  {
  }

  /** Each register name stands at the index the emulator uses for that register
      (and, by `Assembler.RegisterLookupIsInverse`, looking the name up gives it). */
  lemma RegisterNamesMatchEmulator()
    ensures RegisterNames[EmuDefs.Zero] == "$zero"
    ensures RegisterNames[EmuDefs.At] == "$at"
    ensures RegisterNames[EmuDefs.Pc] == "$pc"
    ensures RegisterNames[EmuDefs.Ra] == "$ra"
    ensures RegisterNames[EmuDefs.Sp] == "$sp"
    ensures RegisterNames[EmuDefs.Gp] == "$gp"
    ensures RegisterNames[EmuDefs.V0] == "$v0"
    ensures RegisterNames[EmuDefs.V1] == "$v1"
    ensures RegisterNames[EmuDefs.A0] == "$a0"
    ensures RegisterNames[EmuDefs.A1] == "$a1"
    ensures RegisterNames[EmuDefs.S0] == "$s0"
    ensures RegisterNames[EmuDefs.S1] == "$s1"
    ensures RegisterNames[EmuDefs.T0] == "$t0"
    ensures RegisterNames[EmuDefs.T1] == "$t1"
    ensures RegisterNames[EmuDefs.T2] == "$t2"
    ensures RegisterNames[EmuDefs.T3] == "$t3"
  {
  }

  /** Each mnemonic stands at the opcode the emulator's switch dispatches for that
      operation ("nop" is 0, which falls to the `default` branch); by
      `Assembler.CommandLookupIsInverse`, looking the mnemonic up gives the opcode. */
  lemma CommandsMatchDispatch()
    ensures Commands[EmuDefs.OpNop] == "nop"
    ensures Commands[EmuDefs.OpLw] == "lw"
    ensures Commands[EmuDefs.OpSw] == "sw"
    ensures Commands[EmuDefs.OpBeq] == "beq"
    ensures Commands[EmuDefs.OpBne] == "bne"
    ensures Commands[EmuDefs.OpLui] == "lui"
    ensures Commands[EmuDefs.OpOri] == "ori"
    ensures Commands[EmuDefs.OpSgt] == "sgt"
    ensures Commands[EmuDefs.OpSeq] == "seq"
    ensures Commands[EmuDefs.OpNand] == "nand"
    ensures Commands[EmuDefs.OpSll] == "sll"
    ensures Commands[EmuDefs.OpSrl] == "srl"
    ensures Commands[EmuDefs.OpAdd] == "add"
    ensures Commands[EmuDefs.OpSub] == "sub"
    ensures Commands[EmuDefs.OpMul] == "mul"
    ensures Commands[EmuDefs.OpDiv] == "div"
  {
  }
}
