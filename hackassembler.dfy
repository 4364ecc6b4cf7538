/**
 * The `Assembler` object: it holds the classified program, the two address
 * counters, the symbol table and the words emitted so far, and `Assemble` runs the
 * two passes over them in place.
 */
module HackAssembler {
  import opened Wrappers
  import opened Numerals
  import opened Lexer
  import opened HackTables
  import opened Parser
  import opened Encoder
  import opened Passes

  /** `a_cmd2bin(f'@{n}')`: an address written out in decimal encodes as the word of that address. */
  lemma AddressWord(n: nat)
    ensures ACmdToBin("@" + DecimalString(n)) == Ok(AWord(n))
  {
    var d := DecimalString(n);
    assert ("@" + d)[1..] == d;
  }

  /** `a_cmd2bin(cmd)` for an A-command whose symbol is a decimal literal. */
  lemma LiteralWord(cmd: string)
    requires CommandType(cmd) == ACommand && IsDecimal(Symbol(cmd).value)
    ensures ACmdToBin(cmd) == Ok(AWord(DecimalValue(Symbol(cmd).value)))
  {
    SymbolRestores(cmd);
    assert cmd[1..] == Symbol(cmd).value;
  }

  /** Pass 1 of a freshly constructed `Assembler`: ROM from 0, the predefined symbols. */
  function FirstPass(cmds: seq<Command>): LabelState
  {
    LabelPass(cmds, LabelState(0, Predefined))
  }

  /** Pass 2 of a freshly constructed `Assembler`: variables from 16, no words yet. */
  function SecondPass(cmds: seq<Command>): EmitState
  {
    EmitPass(CCmdToBin, cmds, EmitState(16, FirstPass(cmds).symbols, [], None))
  }

  /**
   * A fresh assembly succeeds exactly when every C-command encodes, and then emits
   * one word per A- or C-command, each the word of its command under the final
   * symbol table.
   */
  lemma FreshAssembly(cmds: seq<Command>)
    ensures SecondPass(cmds).failure.None? <==> AllComputesEncode(CCmdToBin, cmds)
    ensures SecondPass(cmds).failure.None? ==>
              && Resolved(CCmdToBin, cmds, SecondPass(cmds).symbols)
              && SecondPass(cmds).codes == Words(CCmdToBin, cmds, SecondPass(cmds).symbols)
              && |SecondPass(cmds).codes| == RomCount(cmds)
  {
    var start := EmitState(16, FirstPass(cmds).symbols, [], None);
    EmitPassFails(CCmdToBin, cmds, start);
    if SecondPass(cmds).failure.None? {
      EmitPassWords(CCmdToBin, cmds, start);
    }
  }

  /** The word that a fresh assembly emits for the A- or C-command at index `i`. */
  function WordAt(cmds: seq<Command>, i: nat): string
    requires SecondPass(cmds).failure.None?
    requires i < |cmds| && cmds[i].1 != LCommand
  {
    FreshAssembly(cmds);
    WordsAt(CCmdToBin, cmds, SecondPass(cmds).symbols, i);
    SecondPass(cmds).codes[RomCount(cmds[..i])]
  }

  /** `@x` for a label `x` is the address of the first instruction after its last definition. */
  lemma LabelReference(cmds: seq<Command>, i: nat, j: nat, x: string)
    requires SecondPass(cmds).failure.None?
    requires i < |cmds| && cmds[i].1 == ACommand && SymbolOf(cmds[i]) == x && !IsDecimal(x)
    requires LastLabelAt(cmds, j, x)
    ensures WordAt(cmds, i) == AWord(RomCount(cmds[..j]))
  {
    FreshAssembly(cmds);
    WordsAt(CCmdToBin, cmds, SecondPass(cmds).symbols, i);
    LabelPassBinds(cmds, LabelState(0, Predefined));
    EmitPassKeeps(CCmdToBin, cmds, EmitState(16, FirstPass(cmds).symbols, [], None));
  }

  /** `@R0` .. `@KBD` give the predefined address unless the program defines that name as a label. */
  lemma PredefinedReference(cmds: seq<Command>, i: nat, x: string)
    requires SecondPass(cmds).failure.None?
    requires i < |cmds| && cmds[i].1 == ACommand && SymbolOf(cmds[i]) == x
    requires x in Predefined && !DefinesLabel(cmds, x)
    ensures WordAt(cmds, i) == AWord(Predefined[x])
  {
    FreshAssembly(cmds);
    WordsAt(CCmdToBin, cmds, SecondPass(cmds).symbols, i);
    LabelPassBinds(cmds, LabelState(0, Predefined));
    EmitPassKeeps(CCmdToBin, cmds, EmitState(16, FirstPass(cmds).symbols, [], None));
    PredefinedNames();
  }

  /**
   * `@x` for any other name gives RAM address 16 plus the number of distinct new
   * names used before `x` first appears, at every occurrence of `x`.
   */
  lemma VariableReference(cmds: seq<Command>, i: nat, x: string)
    requires SecondPass(cmds).failure.None?
    requires i < |cmds| && cmds[i].1 == ACommand && SymbolOf(cmds[i]) == x
    requires !IsDecimal(x) && x !in Predefined && !DefinesLabel(cmds, x)
    ensures var vs := FreshSymbols(cmds, FirstPass(cmds).symbols.Keys);
            exists k :: 0 <= k < |vs| && vs[k] == x && WordAt(cmds, i) == AWord(16 + k)
    ensures exists i0 :: && 0 <= i0 <= i && FirstUseAt(cmds, i0, x)
                         && WordAt(cmds, i) == AWord(16 + |FreshSymbols(cmds[..i0], FirstPass(cmds).symbols.Keys)|)
  {
    var labelled := FirstPass(cmds);
    var start := EmitState(16, labelled.symbols, [], None);
    var r := SecondPass(cmds);
    LabelPassBinds(cmds, LabelState(0, Predefined));
    assert x !in labelled.symbols;
    var vs := FreshSymbols(cmds, labelled.symbols.Keys);
    assert UsesSymbol(cmds[i], x);
    FirstUseExists(cmds, i, x);
    var i0 :| 0 <= i0 <= i && FirstUseAt(cmds, i0, x);
    var k := |FreshSymbols(cmds[..i0], labelled.symbols.Keys)|;
    FreshSymbolsFirstUse(cmds, labelled.symbols.Keys, i0, x);
    assert k < |vs| && vs[k] == x;
    EmitPassAllocates(CCmdToBin, cmds, start);
    assert r.symbols[x] == 16 + k;
    FreshAssembly(cmds);
    WordsAt(CCmdToBin, cmds, r.symbols, i);
    assert WordAt(cmds, i) == AWord(16 + k);
  }

  /** `@n` for a decimal literal is the word of `n`. */
  lemma LiteralReference(cmds: seq<Command>, i: nat)
    requires SecondPass(cmds).failure.None?
    requires i < |cmds| && cmds[i].1 == ACommand && IsDecimal(SymbolOf(cmds[i]))
    ensures WordAt(cmds, i) == AWord(DecimalValue(SymbolOf(cmds[i])))
  {
    FreshAssembly(cmds);
    WordsAt(CCmdToBin, cmds, SecondPass(cmds).symbols, i);
  }

  /**
   * How `@x` resolves, case by case as the second loop of `assemble` tries them: a
   * decimal literal is its own address; otherwise the last definition of label `x`;
   * otherwise the predefined address of `x`; otherwise a variable, numbered from 16
   * in order of first use. Every A-command falls in exactly one case.
   */
  lemma AddressResolution(cmds: seq<Command>, i: nat)
    requires SecondPass(cmds).failure.None?
    requires i < |cmds| && cmds[i].1 == ACommand
    ensures var x := SymbolOf(cmds[i]);
            IsDecimal(x) ==> WordAt(cmds, i) == AWord(DecimalValue(x))
    ensures var x := SymbolOf(cmds[i]);
            !IsDecimal(x) && DefinesLabel(cmds, x) ==>
              exists j :: LastLabelAt(cmds, j, x) && WordAt(cmds, i) == AWord(RomCount(cmds[..j]))
    ensures var x := SymbolOf(cmds[i]);
            !IsDecimal(x) && !DefinesLabel(cmds, x) && x in Predefined ==>
              WordAt(cmds, i) == AWord(Predefined[x])
    ensures var x := SymbolOf(cmds[i]);
            !IsDecimal(x) && !DefinesLabel(cmds, x) && x !in Predefined ==>
              exists i0 :: && 0 <= i0 <= i && FirstUseAt(cmds, i0, x)
                           && WordAt(cmds, i) == AWord(16 + |FreshSymbols(cmds[..i0], FirstPass(cmds).symbols.Keys)|)
  {
    var x := SymbolOf(cmds[i]);
    if IsDecimal(x) {
      LiteralReference(cmds, i);
    } else if DefinesLabel(cmds, x) {
      LastLabelExists(cmds, x);
      var j :| LastLabelAt(cmds, j, x);
      LabelReference(cmds, i, j, x);
    } else if x in Predefined {
      PredefinedReference(cmds, i, x);
    } else {
      VariableReference(cmds, i, x);
    }
  }

  /** A C-command is emitted as `c_cmd2bin` of its text. */
  lemma ComputeReference(cmds: seq<Command>, i: nat)
    requires SecondPass(cmds).failure.None?
    requires i < |cmds| && cmds[i].1 == CCommand
    ensures CCmdToBin(cmds[i].0).Ok? && WordAt(cmds, i) == CCmdToBin(cmds[i].0).value
  {
    FreshAssembly(cmds);
    WordsAt(CCmdToBin, cmds, SecondPass(cmds).symbols, i);
  }

  class Assembler {
    var cmds: seq<Command>
    var currentRomAddr: nat
    var currentVarAddr: nat
    var binCodes: seq<string>
    var symbols: map<string, nat>

    /** Every command carries the kind `command_type` gives it. */
    ghost predicate Valid()
      reads this
    {
      WellClassified(cmds)
    }

    /** `Assembler(path)`, given the lines of the file at `path`. */
    constructor(lines: seq<string>)
      ensures Valid()
      ensures cmds == Classify(Tokenize(lines))
      ensures currentRomAddr == 0 && currentVarAddr == 16
      ensures binCodes == [] && symbols == Predefined
    {
      cmds := Classify(Tokenize(lines));
      currentRomAddr := 0;
      currentVarAddr := 16;
      binCodes := [];
      symbols := Predefined;
    }

    /**
     * `assemble()`: pass 1 binds the labels, pass 2 emits the words and allocates
     * variables. The new state is what the two passes compute from the old one; the
     * result is the text of all words, or the error of the first C-command that does
     * not encode, with the state as it was when that command was reached.
     */
    method Assemble() returns (r: Result<string, EncodeError>)
      requires Valid()
      modifies this
      ensures Valid() && cmds == old(cmds)
      ensures var labelled := LabelPass(cmds, LabelState(old(currentRomAddr), old(symbols)));
              var emitted := EmitPass(CCmdToBin, cmds, EmitState(old(currentVarAddr), labelled.symbols, old(binCodes), None));
              && currentRomAddr == labelled.rom
              && currentVarAddr == emitted.varAddr
              && symbols == emitted.symbols
              && binCodes == emitted.codes
              && r == (if emitted.failure.Some? then Err(emitted.failure.value) else Ok(JoinLines(binCodes)))
    {
      ghost var first := LabelState(currentRomAddr, symbols);
      for i := 0 to |cmds|
        invariant cmds == old(cmds) && currentVarAddr == old(currentVarAddr) && binCodes == old(binCodes)
        invariant LabelPass(cmds[..i], first) == LabelState(currentRomAddr, symbols)
      {
        var (cmd, kind) := cmds[i];
        assert cmds[..i + 1][..i] == cmds[..i];
        if kind == ACommand || kind == CCommand {
          currentRomAddr := currentRomAddr + 1;
        } else {
          symbols := symbols[Symbol(cmd).value := currentRomAddr];
        }
      }
      assert cmds[..|cmds|] == cmds;
      var failure := EmitCodes();
      if failure.Some? {
        return Err(failure.value);
      }
      r := Ok(JoinLines(binCodes));
    }

    /**
     * The second loop of `assemble`; `failure` is the error of the C-command that
     * stopped it, if one did.
     */
    method EmitCodes() returns (failure: Option<EncodeError>)
      requires Valid()
      modifies this
      ensures Valid() && cmds == old(cmds) && currentRomAddr == old(currentRomAddr)
      ensures EmitPass(CCmdToBin, cmds, EmitState(old(currentVarAddr), old(symbols), old(binCodes), None))
              == EmitState(currentVarAddr, symbols, binCodes, failure)
    {
      ghost var second := EmitState(currentVarAddr, symbols, binCodes, None);
      for i := 0 to |cmds|
        invariant cmds == old(cmds) && currentRomAddr == old(currentRomAddr)
        invariant EmitPass(CCmdToBin, cmds[..i], second) == EmitState(currentVarAddr, symbols, binCodes, None)
      {
        EmitPassExtend(CCmdToBin, cmds, i, second);
        failure := EmitCommand(cmds[i]);
        if failure.Some? {
          EmitPassStops(CCmdToBin, cmds, i + 1, second);
          return;
        }
      }
      assert cmds[..|cmds|] == cmds;
      failure := None;
    }

    /** One iteration of the second loop: dispatch on the kind of the command. */
    method EmitCommand(c: Command) returns (failure: Option<EncodeError>)
      requires c.1 == CommandType(c.0)
      modifies this
      ensures cmds == old(cmds) && currentRomAddr == old(currentRomAddr)
      ensures EmitStep(CCmdToBin, EmitState(old(currentVarAddr), old(symbols), old(binCodes), None), c)
              == EmitState(currentVarAddr, symbols, binCodes, failure)
    {
      var (cmd, kind) := c;
      failure := None;
      if kind == ACommand {
        EmitAddress(cmd);
      } else if kind == CCommand {
        failure := EmitCompute(cmd);
      }
    }

    /** The C-command case: append `c_cmd2bin` of the command, or report why it failed. */
    method EmitCompute(cmd: string) returns (failure: Option<EncodeError>)
      modifies this
      ensures cmds == old(cmds) && currentRomAddr == old(currentRomAddr)
      ensures currentVarAddr == old(currentVarAddr) && symbols == old(symbols)
      ensures CCmdToBin(cmd).Ok? ==> failure.None? && binCodes == old(binCodes) + [CCmdToBin(cmd).value]
      ensures CCmdToBin(cmd).Err? ==> failure == Some(CCmdToBin(cmd).error) && binCodes == old(binCodes)
    {
      var word := CCmdToBin(cmd);
      if word.Err? {
        return Some(word.error);
      }
      binCodes := binCodes + [word.value];
      failure := None;
    }

    /** The A-command case: a literal, a known symbol, or a new variable. */
    method EmitAddress(cmd: string)
      requires CommandType(cmd) == ACommand
      modifies this
      ensures cmds == old(cmds) && currentRomAddr == old(currentRomAddr)
      ensures AddressStep(EmitState(old(currentVarAddr), old(symbols), old(binCodes), None), Symbol(cmd).value)
              == EmitState(currentVarAddr, symbols, binCodes, None)
    {
      var currentSymbol := Symbol(cmd).value;
      if IsDecimal(currentSymbol) {
        LiteralWord(cmd);
        binCodes := binCodes + [ACmdToBin(cmd).value];
      } else if currentSymbol in symbols {
        AddressWord(symbols[currentSymbol]);
        binCodes := binCodes + [ACmdToBin("@" + DecimalString(symbols[currentSymbol])).value];
      } else {
        symbols := symbols[currentSymbol := currentVarAddr];
        currentVarAddr := currentVarAddr + 1;
        AddressWord(symbols[currentSymbol]);
        binCodes := binCodes + [ACmdToBin("@" + DecimalString(symbols[currentSymbol])).value];
      }
    }
  }

  /**
   * `Assembler(path).assemble()` on a fresh object: the text of the program's
   * words, one per A- or C-command and each resolved under the final symbol table,
   * or the error of the first C-command that does not encode.
   */
  method AssembleLines(lines: seq<string>) returns (r: Result<string, EncodeError>)
    ensures var cmds := Classify(Tokenize(lines));
            && (r.Ok? <==> AllComputesEncode(CCmdToBin, cmds))
            && (r.Ok? ==> && Resolved(CCmdToBin, cmds, SecondPass(cmds).symbols)
                          && r.value == JoinLines(Words(CCmdToBin, cmds, SecondPass(cmds).symbols)))
            && (r.Err? ==> exists i :: && 0 <= i < |cmds| && cmds[i].1 == CCommand
                                      && CCmdToBin(cmds[i].0) == Err(r.error)
                                      && AllComputesEncode(CCmdToBin, cmds[..i]))
  {
    var assembler := new Assembler(lines);
    ghost var cmds := assembler.cmds;
    r := assembler.Assemble();
    FreshAssembly(cmds);
    EmitPassFails(CCmdToBin, cmds, EmitState(16, FirstPass(cmds).symbols, [], None));
  }
}
