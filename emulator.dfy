/** The emulator of gemu.c as an object: the global arrays `registers[16]` and
    `mem[]`, the flags `newCharIn`/`newCharOut`, the fifteen handlers that update them
    in place, `interpret` and the `emulate` loop. Each method is proved against the
    functions of module Semantics. */
module Emulator {
  import opened Words
  import opened EmuDefs
  import opened Isa
  import opened Semantics

  class Machine {
    var registers: array<word>
    var mem: array<word>
    var newCharIn: bool
    var newCharOut: bool

    ghost predicate Valid()
      reads this
    {
      registers.Length == RegCount && mem.Length == MemLen && registers != mem
    }

    /** The machine state as a value. */
    ghost function Snapshot(): (s: State)
      reads this, registers, mem
      requires Valid()
      ensures WellFormed(s)
    {
      State(registers[..], mem[..], newCharIn, newCharOut)
    }

    /** `main`'s register initialisation (all 0, then `$pc`, `$sp`, `$gp`). The memory
        contents, which `main` reads from files, are given as `image`. */
    constructor (image: seq<word>)
      requires |image| == MemLen
      ensures Valid() && fresh(registers) && fresh(mem)
      ensures Snapshot() == State(InitialRegisters(), image, false, false)
    {
      registers := new word[RegCount];
      mem := new word[MemLen](i requires 0 <= i < MemLen => image[i]);
      newCharIn, newCharOut := false, false;
      new;
      for i := 0 to RegCount
        modifies registers
        invariant forall j :: 0 <= j < i ==> registers[j] == 0
        invariant mem[..] == image
      {
        registers[i] := 0;
      }
      registers[Pc] := Wrap(PcInit);
      registers[Sp] := Wrap(SpInit);
      registers[Gp] := Wrap(GpInit);
      assert registers[..] == InitialRegisters();
    }

    method Lw(reg: nat, loc: nat)
      requires Valid() && reg < RegCount && loc < RegCount
      modifies registers
      ensures registers[..] == old(registers[..])[reg := old(mem[Unsigned(registers[loc])])]
    {
      registers[reg] := mem[Unsigned(registers[loc])];
    }

    method Sw(reg: nat, loc: nat)
      requires Valid() && reg < RegCount && loc < RegCount
      modifies mem, this`newCharOut
      ensures mem[..] == old(mem[..])[Unsigned(registers[loc]) := registers[reg]]
      ensures newCharOut == (old(newCharOut) || registers[loc] > VidMem)
    {
      mem[Unsigned(registers[loc])] := registers[reg];
      // `if(registers[loc] > vidMem) newCharOut = 1;`
      newCharOut := newCharOut || registers[loc] > VidMem;
    }

    method Beq(a: nat, b: nat, dest: nat)
      requires Valid() && a < RegCount && b < RegCount && dest < RegCount
      modifies registers
      ensures registers[..] == if old(registers[a] == registers[b])
        then old(registers[..])[Pc := Wrap(old(registers[Pc] as int + registers[dest]))]
        else old(registers[..])
    {
      if registers[a] == registers[b] {
        registers[Pc] := Wrap(registers[Pc] as int + registers[dest]);
      }
    }

    method Bne(a: nat, b: nat, dest: nat)
      requires Valid() && a < RegCount && b < RegCount && dest < RegCount
      modifies registers
      ensures registers[..] == if old(registers[a] != registers[b])
        then old(registers[..])[Pc := Wrap(old(registers[Pc] as int + registers[dest]))]
        else old(registers[..])
    {
      if registers[a] != registers[b] {
        registers[Pc] := Wrap(registers[Pc] as int + registers[dest]);
      }
    }

    method Lui(reg: nat, imm: nat)
      requires Valid() && reg < RegCount && imm < 0x100
      modifies registers
      ensures registers[..] == old(registers[..])[reg := LuiValue(imm)]
    {
      registers[reg] := LuiValue(imm);
    }

    method Ori(reg: nat, imm: nat)
      requires Valid() && reg < RegCount && imm < 0x100
      modifies registers
      ensures registers[..] == old(registers[..])[reg := OriValue(old(registers[reg]), imm)]
    {
      registers[reg] := OriValue(registers[reg], imm);
    }

    method Sgt(a: nat, b: nat, c: nat)
      requires Valid() && a < RegCount && b < RegCount && c < RegCount
      modifies registers
      ensures registers[..] == old(registers[..])[a := if old(registers[b] > registers[c]) then 1 else 0]
    {
      if registers[b] > registers[c] {
        registers[a] := 1;
      } else {
        registers[a] := 0;
      }
    }

    method Seq(a: nat, b: nat, c: nat)
      requires Valid() && a < RegCount && b < RegCount && c < RegCount
      modifies registers
      ensures registers[..] == old(registers[..])[a := if old(registers[b] == registers[c]) then 1 else 0]
    {
      if registers[b] == registers[c] {
        registers[a] := 1;
      } else {
        registers[a] := 0;
      }
    }

    method Nand(a: nat, b: nat, c: nat)
      requires Valid() && a < RegCount && b < RegCount && c < RegCount
      modifies registers
      ensures registers[..] == old(registers[..])[a := NandValue(old(registers[b]), old(registers[c]))]
    {
      registers[a] := NandValue(registers[b], registers[c]);
    }

    method Sll(a: nat, b: nat, c: nat)
      requires Valid() && a < RegCount && b < RegCount && c < RegCount
      requires SllDefined(registers[b], registers[c])
      modifies registers
      ensures registers[..] == old(registers[..])[a := SllValue(old(registers[b]), old(registers[c]))]
    {
      registers[a] := SllValue(registers[b], registers[c]);
    }

    method Srl(a: nat, b: nat, c: nat)
      requires Valid() && a < RegCount && b < RegCount && c < RegCount
      requires SrlDefined(registers[c])
      modifies registers
      ensures registers[..] == old(registers[..])[a := SrlValue(old(registers[b]), old(registers[c]))]
    {
      registers[a] := SrlValue(registers[b], registers[c]);
    }

    method Add(a: nat, b: nat, c: nat)
      requires Valid() && a < RegCount && b < RegCount && c < RegCount
      modifies registers
      ensures registers[..] == old(registers[..])[a := Wrap(old(registers[b] as int + registers[c]))]
    {
      registers[a] := Wrap(registers[b] as int + registers[c]);
    }

    method Sub(a: nat, b: nat, c: nat)
      requires Valid() && a < RegCount && b < RegCount && c < RegCount
      modifies registers
      ensures registers[..] == old(registers[..])[a := Wrap(old(registers[b] as int - registers[c]))]
    {
      registers[a] := Wrap(registers[b] as int - registers[c]);
    }

    method Mul(a: nat, b: nat, c: nat)
      requires Valid() && a < RegCount && b < RegCount && c < RegCount
      modifies registers
      ensures registers[..] == old(registers[..])[a := Wrap(old(registers[b] as int * registers[c]))]
    {
      registers[a] := Wrap(registers[b] as int * registers[c]);
    }

    method Divide(a: nat, b: nat, c: nat)
      requires Valid() && a < RegCount && b < RegCount && c < RegCount
      requires registers[c] != 0
      modifies registers
      ensures registers[..] == old(registers[..])[a := DivValue(old(registers[b]), old(registers[c]))]
    {
      registers[a] := DivValue(registers[b], registers[c]);
    }

    /** `interpret(instruction)`: decode, then dispatch to the handler. An instruction
        whose C effect is undefined changes nothing and is reported as a fault. The
        switch is split in three by opcode range to keep each proof small. */
    method Interpret(instruction: word) returns (stop: Stop)
      requires Valid()
      modifies registers, mem, this`newCharOut
      ensures Valid()
      ensures var o := Step(old(Snapshot()), instruction);
        if o.Executed? then stop == Completed && Snapshot() == o.state
        else stop == FaultAt(o.fault) && Snapshot() == old(Snapshot())
    {
      var op := Decode(instruction).op;
      if op == OpNop {
        stop := Completed;
      } else if op <= OpBne {
        stop := InterpretMemoryBranch(instruction);
      } else if op <= OpNand {
        stop := InterpretImmediateLogic(instruction);
      } else {
        stop := InterpretShiftArith(instruction);
      }
    }

    /** Opcodes 1-4: `lw`, `sw`, `beq`, `bne`. */
    method InterpretMemoryBranch(instruction: word) returns (stop: Stop)
      requires Valid() && OpLw <= Decode(instruction).op <= OpBne
      modifies registers, mem, this`newCharOut
      ensures Valid()
      ensures stop == Completed && Snapshot() == Step(old(Snapshot()), instruction).state
    {
      var f := Decode(instruction);
      stop := Completed;
      if f.op == OpLw {
        Lw(f.a, f.b);
      } else if f.op == OpSw {
        Sw(f.a, f.b);
      } else if f.op == OpBeq {
        Beq(f.a, f.b, f.c);
      } else {
        Bne(f.a, f.b, f.c);
      }
    }

    /** Opcodes 5-9: `lui`, `ori`, `sgt`, `seq`, `nand`. */
    method InterpretImmediateLogic(instruction: word) returns (stop: Stop)
      requires Valid() && OpLui <= Decode(instruction).op <= OpNand
      modifies registers
      ensures stop == Completed && Snapshot() == Step(old(Snapshot()), instruction).state
    {
      var f := Decode(instruction);
      var imm := Imm(instruction);
      stop := Completed;
      if f.op == OpLui {
        Lui(f.a, imm);
      } else if f.op == OpOri {
        Ori(f.a, imm);
      } else if f.op == OpSgt {
        Sgt(f.a, f.b, f.c);
      } else if f.op == OpSeq {
        Seq(f.a, f.b, f.c);
      } else {
        Nand(f.a, f.b, f.c);
      }
    }

    /** Opcodes 10-15: `sll`, `srl`, `add`, `sub`, `mul`, `div`. */
    method InterpretShiftArith(instruction: word) returns (stop: Stop)
      requires Valid() && OpSll <= Decode(instruction).op
      modifies registers
      ensures var o := Step(old(Snapshot()), instruction);
        if o.Executed? then stop == Completed && Snapshot() == o.state
        else stop == FaultAt(o.fault) && Snapshot() == old(Snapshot())
    {
      var f := Decode(instruction);
      stop := Completed;
      if f.op == OpSll {
        if SllDefined(registers[f.b], registers[f.c]) {
          Sll(f.a, f.b, f.c);
        } else {
          stop := FaultAt(ShiftOutOfRange);
        }
      } else if f.op == OpSrl {
        if SrlDefined(registers[f.c]) {
          Srl(f.a, f.b, f.c);
        } else {
          stop := FaultAt(ShiftOutOfRange);
        }
      } else if f.op == OpAdd {
        Add(f.a, f.b, f.c);
      } else if f.op == OpSub {
        Sub(f.a, f.b, f.c);
      } else if f.op == OpMul {
        Mul(f.a, f.b, f.c);
      } else if registers[f.c] == 0 {
        stop := FaultAt(DivideByZero);
      } else {
        Divide(f.a, f.b, f.c);
      }
    }

    /** `dispUpdate`: when `newCharOut` is set, the video region is rendered (left out
        of the model) and the flag is cleared. */
    method DispUpdate()
      modifies this`newCharOut
      ensures !newCharOut
    {
      if newCharOut {
        newCharOut := false;
      }
    }

    /** `emulate(progLen)`: run `interpret(mem[i])` for i = 0 .. progLen - 1 in order,
        with `dispUpdate` and a keyboard sample (`keys[i]`, the value `_kbhit()`
        returns) after each. The loop stops early at an instruction whose effect C
        leaves undefined. */
    method Emulate(progLen: nat, keys: seq<bool>) returns (executed: nat, stop: Stop)
      requires Valid() && progLen <= MemLen && |keys| >= progLen
      modifies this, registers, mem
      ensures Valid() && registers == old(registers) && mem == old(mem)
      ensures var r := Run(old(Snapshot()), 0, progLen, keys);
        Snapshot() == r.state && executed == r.executed && stop == r.stop
    {
      var i := 0;
      while i < progLen
        invariant Valid() && registers == old(registers) && mem == old(mem)
        invariant i <= progLen
        invariant Run(old(Snapshot()), 0, progLen, keys) == Run(Snapshot(), i, progLen, keys)
      {
        var status := Interpret(mem[i]);
        if status != Completed {
          executed, stop := i, status;
          return;
        }
        DispUpdate();
        newCharIn := keys[i];
        i := i + 1;
      }
      executed, stop := i, Completed;
    }
  }
}
