/** The implemented part of the assembler (gasm.c): its memory-map constants, the
    register-name and mnemonic translation tables, and the address counter of
    `populateTags`. */
module Assembler {
  import opened Words

  // Memory constants (the same `#define`s as the emulator's).
  const VidMem: int := 0xF69F
  const Keyboard: int := 0xF69E
  const GpInit: int := 0xD69E
  const PcInit: int := 0xB69E
  const SpInit: int := 0xB69D
  const VidLen: int := 80 * 30

  /** Characters per source line; the line buffer holds `lineLen + 1`. */
  const LineLen: nat := 80

  /** `registers[]`: register names by index. */
  const RegisterNames: seq<string> := [
    "$zero", "$at", "$pc", "$ra", "$sp", "$gp", "$v0", "$v1",
    "$a0", "$a1", "$s0", "$s1", "$t0", "$t1", "$t2", "$t3"]

  /** `commands[]`: mnemonics by opcode. */
  const Commands: seq<string> := [
    "nop", "lw", "sw", "beq", "bne", "lui", "ori", "sgt",
    "seq", "nand", "sll", "srl", "add", "sub", "mul", "div"]

  datatype Lookup = Found(index: nat) | Missing

  /** The first index at which `name` stands in `table`. */
  function IndexOf(table: seq<string>, name: string): (r: Lookup)
    ensures r.Found? ==>
      (r.index < |table| && table[r.index] == name &&
       forall j :: 0 <= j < r.index ==> table[j] != name)
    ensures r.Missing? <==> name !in table
  {
    if |table| == 0 then Missing
    else if table[0] == name then Found(0)
    else match IndexOf(table[1..], name)
      case Found(k) => Found(k + 1)
      case Missing => Missing
  }

  predicate Distinct(table: seq<string>) {
    forall i, j :: 0 <= i < j < |table| ==> table[i] != table[j]
  }

  /** In a table without repeated entries, looking an entry up gives back its index:
      the lookup is the inverse of the table. */
  lemma LookupInvertsTable(table: seq<string>, i: nat)
    requires Distinct(table) && i < |table|
    ensures IndexOf(table, table[i]) == Found(i)
  {
    assert IndexOf(table, table[i]).Found?;
  }

  lemma RegisterNamesDistinct()
    ensures |RegisterNames| == 16 && Distinct(RegisterNames)
  {
  }

  lemma CommandsDistinct()
    ensures |Commands| == 16 && Distinct(Commands)
  {
  }

  /** The name-to-index lookup `regNum` is declared for is well defined: every
      register name maps back to its own index, and any other string to nothing. */
  lemma RegisterLookupIsInverse(name: string)
    ensures forall i :: 0 <= i < |RegisterNames| ==> IndexOf(RegisterNames, RegisterNames[i]) == Found(i)
    ensures name !in RegisterNames ==> IndexOf(RegisterNames, name) == Missing
  {
    RegisterNamesDistinct();
    forall i | 0 <= i < |RegisterNames| ensures IndexOf(RegisterNames, RegisterNames[i]) == Found(i) {
      LookupInvertsTable(RegisterNames, i);
    }
  }

  /** Likewise for the mnemonic lookup `opNum` is declared for. */
  lemma CommandLookupIsInverse(name: string)
    ensures forall i :: 0 <= i < |Commands| ==> IndexOf(Commands, Commands[i]) == Found(i)
    ensures name !in Commands ==> IndexOf(Commands, name) == Missing
  {
    CommandsDistinct();
    forall i | 0 <= i < |Commands| ensures IndexOf(Commands, Commands[i]) == Found(i) {
      LookupInvertsTable(Commands, i);
    }
  }

  // ---------------------------------------------------------------------------
  // populateTags

  /** `struct tag { char title[lineLen]; word address; }` */
  datatype Tag = Tag(title: string, address: word)

  /** One `fgets(line, room + 1, input)` on the unread text `rest`: it reads at most
      `room` characters and stops after the first newline. It returns how many characters it
      consumed and whether it ran into the end of the file, which sets the stream's
      end-of-file indicator. */
  function Fgets(rest: seq<char>, room: nat): (r: (nat, bool))
    ensures r.0 <= |rest| && r.0 <= room
    ensures r.1 ==> r.0 == |rest|
    ensures !r.1 && room > 0 ==> r.0 >= 1
    ensures !r.1 && r.0 < room ==> r.0 >= 1 && rest[r.0 - 1] == '\n'
    ensures r.0 >= 1 ==> '\n' !in rest[..r.0 - 1]
    ensures r.1 <==> |rest| < room && '\n' !in rest
  {
    if room == 0 then (0, false)
    else if |rest| == 0 then (0, true)
    else if rest[0] == '\n' then (1, false)
    else
      var (k, eof) := Fgets(rest[1..], room - 1);
      (k + 1, eof)
  }

  /** How often `while(!feof(input)) { fgets(line, sizeof(line), input); ... }` runs
      its body on the text `rest`: until one `fgets` hits the end of the file. */
  function FgetsCalls(rest: seq<char>): (n: nat)
    ensures n >= 1
    decreases |rest|
  {
    var (k, eof) := Fgets(rest, LineLen);
    if eof then 1 else 1 + FgetsCalls(rest[k..])
  }

  /** One iteration of the `feof` loop on the unread text, then the rest. */
  lemma CallsAfterRead(rest: seq<char>, k: nat, eof: bool)
    requires (k, eof) == Fgets(rest, LineLen)
    ensures eof || 1 <= k <= |rest|
    ensures FgetsCalls(rest) == 1 + (if eof then 0 else FgetsCalls(rest[k..]))
  {
  }

  /** `populateTags(input, dict)`: after `rewind`, count one address per loop
      iteration, starting from `pcInit`, with `word` wrap-around. The counter is a
      local of the C function; it is returned here so that its final value can be
      stated. `dict` is never written, which the absence of a `modifies` clause
      states. */
  method PopulateTags(input: seq<char>, dict: array<Tag>) returns (pc: word)
    ensures pc == Wrap(PcInit + FgetsCalls(input))
  {
    var rest := input;
    var eof := false;
    pc := Wrap(PcInit);
    ghost var iterations := 0;
    while !eof
      invariant pc == Wrap(PcInit + iterations)
      invariant FgetsCalls(input) == iterations + (if eof then 0 else FgetsCalls(rest))
      decreases |rest|, if eof then 0 else 1
    {
      var (k, hitEnd) := Fgets(rest, LineLen);
      CallsAfterRead(rest, k, hitEnd);
      rest, eof := rest[k..], hitEnd;
      WrapAdd(PcInit + iterations, 1);
      pc := Wrap(pc as int + 1);
      iterations := iterations + 1;
    }
  }

  /** A file of lines ending in newlines, each short enough for the buffer. */
  predicate ShortLine(line: string) {
    |line| < LineLen && '\n' !in line
  }

  function Text(lines: seq<string>): string {
    if lines == [] then "" else lines[0] + "\n" + Text(lines[1..])
  }

  lemma {:induction false} FgetsReadsLine(line: string, rest: string, room: nat)
    requires |line| < room && '\n' !in line
    ensures Fgets(line + "\n" + rest, room) == (|line| + 1, false)
  {
    if |line| > 0 {
      assert (line + "\n" + rest)[1..] == line[1..] + "\n" + rest;
      FgetsReadsLine(line[1..], rest, room - 1);
    }
  }

  /** On a file of n short newline-terminated lines the loop body runs n + 1 times:
      `feof` only turns true after the read that finds nothing, so the counter ends
      one past the address after the last line. */
  lemma {:induction false} CallsOnLines(lines: seq<string>)
    requires forall i :: 0 <= i < |lines| ==> ShortLine(lines[i])
    ensures FgetsCalls(Text(lines)) == |lines| + 1
  {
    if lines != [] {
      FgetsReadsLine(lines[0], Text(lines[1..]), LineLen);
      var t := Text(lines);
      assert t[|lines[0]| + 1..] == Text(lines[1..]);
      CallsOnLines(lines[1..]);
    }
  }
}
