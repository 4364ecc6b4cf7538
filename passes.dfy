/**
 * What the two passes of `Assembler.assemble` compute, as left folds over the
 * classified program, and the properties of that computation: label addresses,
 * dense variable allocation, one word per instruction, and failure exactly on an
 * unknown C-command field.
 */
module Passes {
  import opened Wrappers
  import opened Numerals
  import opened Parser
  import opened Encoder

  /** One entry of `Assembler.cmds`: a cleaned line and its kind. */
  type Command = (string, CommandKind)

  predicate WellClassified(cmds: seq<Command>) {
    forall i :: 0 <= i < |cmds| ==> cmds[i].1 == CommandType(cmds[i].0)
  }

  /** `[(cmd, command_type(cmd)) for cmd in ...]`. */
  function Classify(lines: seq<string>): (cmds: seq<Command>)
    ensures |cmds| == |lines| && WellClassified(cmds)
    ensures forall i :: 0 <= i < |lines| ==> cmds[i].0 == lines[i]
  {
    seq(|lines|, i requires 0 <= i < |lines| => (lines[i], CommandType(lines[i])))
  }

  /** The number of A- and C-commands: the ROM addresses the program occupies. */
  function RomCount(cmds: seq<Command>): nat {
    if cmds == [] then 0
    else RomCount(cmds[..|cmds| - 1]) + (if cmds[|cmds| - 1].1 == LCommand then 0 else 1)
  }

  /**
   * `symbol(cmd)`: the name an A- or label command carries. Every command of a
   * well-classified program whose kind is A or L has one; the empty fallback only
   * keeps the passes total.
   */
  function SymbolOf(c: Command): string {
    match Symbol(c.0)
    case Some(x) => x
    case None => ""
  }

  predicate IsLabelOf(c: Command, x: string) {
    c.1 == LCommand && SymbolOf(c) == x
  }

  /** `cmds[i]` is the last definition of label `x`. */
  predicate LastLabelAt(cmds: seq<Command>, i: int, x: string) {
    && 0 <= i < |cmds|
    && IsLabelOf(cmds[i], x)
    && forall j :: i < j < |cmds| ==> !IsLabelOf(cmds[j], x)
  }

  predicate DefinesLabel(cmds: seq<Command>, x: string) {
    exists i :: 0 <= i < |cmds| && IsLabelOf(cmds[i], x)
  }

  /** A label defined at all has one last definition, and only one. */
  lemma {:induction false} LastLabelExists(cmds: seq<Command>, x: string)
    requires DefinesLabel(cmds, x)
    ensures exists j :: LastLabelAt(cmds, j, x)
    ensures forall j, k :: LastLabelAt(cmds, j, x) && LastLabelAt(cmds, k, x) ==> j == k
  {
    var n := |cmds| - 1;
    if !IsLabelOf(cmds[n], x) {
      var i :| 0 <= i < |cmds| && IsLabelOf(cmds[i], x);
      var p := cmds[..n];
      assert p[i] == cmds[i];
      LastLabelExists(p, x);
      var j :| LastLabelAt(p, j, x);
      assert LastLabelAt(cmds, j, x);
    } else {
      assert LastLabelAt(cmds, n, x);
    }
  }

  // ---------------------------------------------------------------- pass 1

  datatype LabelState = LabelState(rom: nat, symbols: map<string, nat>)

  /** The first loop of `assemble`: count ROM addresses, bind each label to the current count. */
  function LabelPass(cmds: seq<Command>, start: LabelState): LabelState
  {
    if cmds == [] then start
    else
      var st := LabelPass(cmds[..|cmds| - 1], start);
      var c := cmds[|cmds| - 1];
      if c.1 == ACommand || c.1 == CCommand then st.(rom := st.rom + 1)
      else st.(symbols := st.symbols[SymbolOf(c) := st.rom])
  }

  /**
   * After pass 1 the counter has moved once per A- or C-command; a label is bound
   * to the number of A- and C-commands before its last definition (a later
   * definition overwrites an earlier one and a predefined symbol alike); every other
   * symbol is untouched.
   */
  lemma {:induction false} LabelPassBinds(cmds: seq<Command>, start: LabelState)
    ensures LabelPass(cmds, start).rom == start.rom + RomCount(cmds)
    ensures forall i, x :: LastLabelAt(cmds, i, x) ==>
              x in LabelPass(cmds, start).symbols && LabelPass(cmds, start).symbols[x] == start.rom + RomCount(cmds[..i])
    ensures forall x :: !DefinesLabel(cmds, x) ==>
              (x in LabelPass(cmds, start).symbols <==> x in start.symbols)
              && (x in start.symbols ==> LabelPass(cmds, start).symbols[x] == start.symbols[x])
  {
    if cmds != [] {
      var n := |cmds| - 1;
      var p := cmds[..n];
      var c := cmds[n];
      LabelPassBinds(p, start);
      var st := LabelPass(p, start);
      var r := LabelPass(cmds, start);
      forall i, x | LastLabelAt(cmds, i, x)
        ensures x in r.symbols && r.symbols[x] == start.rom + RomCount(cmds[..i])
      {
        if i == n {
          assert cmds[..i] == p;
        } else {
          assert cmds[..i] == p[..i];
          assert LastLabelAt(p, i, x);
        }
      }
      forall x | !DefinesLabel(cmds, x)
        ensures (x in r.symbols <==> x in start.symbols)
        ensures x in start.symbols ==> r.symbols[x] == start.symbols[x]
      {
        assert !IsLabelOf(c, x);
      }
    }
  }

  /** Label lines take no ROM address: dropping or inserting one shifts nothing. */
  lemma {:induction false} RomCountAppend(xs: seq<Command>, ys: seq<Command>)
    ensures RomCount(xs + ys) == RomCount(xs) + RomCount(ys)
    decreases |ys|
  {
    if ys == [] {
      assert xs + ys == xs;
    } else {
      assert (xs + ys)[..|xs + ys| - 1] == xs + ys[..|ys| - 1];
      RomCountAppend(xs, ys[..|ys| - 1]);
    }
  }

  lemma LabelTakesNoAddress(xs: seq<Command>, labelLine: Command, ys: seq<Command>)
    requires labelLine.1 == LCommand
    ensures RomCount(xs + [labelLine] + ys) == RomCount(xs + ys)
  {
    RomCountAppend(xs + [labelLine], ys);
    RomCountAppend(xs, [labelLine]);
    RomCountAppend(xs, ys);
    assert [labelLine][..0] == [];
  }

  // ---------------------------------------------------------------- pass 2

  /**
   * How a C-command becomes a word. `assemble` uses `c_cmd2bin` (`Encoder.CCmdToBin`);
   * the facts below hold for any such encoder.
   */
  type CEncoder = string -> Result<string, EncodeError>

  datatype EmitState = EmitState(varAddr: nat, symbols: map<string, nat>, codes: seq<string>, failure: Option<EncodeError>)

  /**
   * The A-command case of the second loop of `assemble`, for symbol `s`. An
   * address is written as the A-instruction word of its number (`a_cmd2bin` of `@`
   * and the number, see `HackAssembler`).
   */
  function AddressStep(st: EmitState, s: string): EmitState {
    if IsDecimal(s) then st.(codes := st.codes + [AWord(DecimalValue(s))])
    else if s in st.symbols then st.(codes := st.codes + [AWord(st.symbols[s])])
    else EmitState(st.varAddr + 1, st.symbols[s := st.varAddr], st.codes + [AWord(st.varAddr)], st.failure)
  }

  /** One iteration of the second loop of `assemble`; a C-command that fails to encode stops the pass. */
  function EmitStep(enc: CEncoder, st: EmitState, c: Command): EmitState
    requires st.failure.None?
  {
    match c.1
    case ACommand => AddressStep(st, SymbolOf(c))
    case CCommand =>
      (match enc(c.0)
       case Ok(w) => st.(codes := st.codes + [w])
       case Err(e) => st.(failure := Some(e)))
    case LCommand => st
  }

  /** The second loop of `assemble`, stopping at the first command that raises. */
  function EmitPass(enc: CEncoder, cmds: seq<Command>, start: EmitState): EmitState
    requires start.failure.None?
  {
    if cmds == [] then start
    else
      var st := EmitPass(enc, cmds[..|cmds| - 1], start);
      if st.failure.Some? then st else EmitStep(enc, st, cmds[|cmds| - 1])
  }

  /** Pass 2 over one more command: one more step, unless it has already failed. */
  lemma EmitPassExtend(enc: CEncoder, cmds: seq<Command>, i: nat, start: EmitState)
    requires start.failure.None? && i < |cmds|
    ensures var st := EmitPass(enc, cmds[..i], start);
            EmitPass(enc, cmds[..i + 1], start) == if st.failure.Some? then st else EmitStep(enc, st, cmds[i])
  {
    assert cmds[..i + 1][..i] == cmds[..i];
  }

  /** A failure is kept by every later step. */
  lemma EmitPassSticky(enc: CEncoder, cmds: seq<Command>, start: EmitState)
    requires start.failure.None? && cmds != []
    requires EmitPass(enc, cmds[..|cmds| - 1], start).failure.Some?
    ensures EmitPass(enc, cmds, start) == EmitPass(enc, cmds[..|cmds| - 1], start)
  {
  }

  /** Once a command has failed, the rest of the program changes nothing. */
  lemma {:induction false} EmitPassStops(enc: CEncoder, cmds: seq<Command>, k: nat, start: EmitState)
    requires start.failure.None? && k <= |cmds|
    requires EmitPass(enc, cmds[..k], start).failure.Some?
    ensures EmitPass(enc, cmds, start) == EmitPass(enc, cmds[..k], start)
    decreases |cmds| - k
  {
    if k < |cmds| {
      var n := |cmds| - 1;
      assert cmds[..n][..k] == cmds[..k];
      EmitPassStops(enc, cmds[..n], k, start);
      EmitPassSticky(enc, cmds, start);
    } else {
      assert cmds[..k] == cmds;
    }
  }

  /** Pass 2 never changes an entry already in the table and only appends words. */
  lemma {:induction false} EmitPassKeeps(enc: CEncoder, cmds: seq<Command>, start: EmitState)
    requires start.failure.None?
    ensures forall k :: k in start.symbols ==>
              k in EmitPass(enc, cmds, start).symbols && EmitPass(enc, cmds, start).symbols[k] == start.symbols[k]
    ensures EmitPass(enc, cmds, start).varAddr >= start.varAddr
    ensures |EmitPass(enc, cmds, start).codes| >= |start.codes|
    ensures EmitPass(enc, cmds, start).codes[..|start.codes|] == start.codes
  {
    if cmds != [] {
      EmitPassKeeps(enc, cmds[..|cmds| - 1], start);
    }
  }

  /** Every C-command encodes. */
  predicate AllComputesEncode(enc: CEncoder, cmds: seq<Command>) {
    forall i :: 0 <= i < |cmds| && cmds[i].1 == CCommand ==> enc(cmds[i].0).Ok?
  }

  /**
   * Pass 2 fails exactly when some C-command does not encode, and the error it
   * reports is that of the first such command.
   */
  lemma {:induction false} EmitPassFails(enc: CEncoder, cmds: seq<Command>, start: EmitState)
    requires start.failure.None?
    ensures EmitPass(enc, cmds, start).failure.None? <==> AllComputesEncode(enc, cmds)
    ensures EmitPass(enc, cmds, start).failure.Some? ==>
              exists i :: && 0 <= i < |cmds| && cmds[i].1 == CCommand
                          && enc(cmds[i].0) == Err(EmitPass(enc, cmds, start).failure.value)
                          && AllComputesEncode(enc, cmds[..i])
  {
    if cmds != [] {
      var n := |cmds| - 1;
      var p := cmds[..n];
      EmitPassFails(enc, p, start);
      var st := EmitPass(enc, p, start);
      if st.failure.Some? {
        var i :| 0 <= i < n && p[i].1 == CCommand && enc(p[i].0) == Err(st.failure.value) && AllComputesEncode(enc, p[..i]);
        assert p[..i] == cmds[..i];
        assert cmds[i] == p[i];
      } else if cmds[n].1 == CCommand && enc(cmds[n].0).Err? {
        assert cmds[..n] == p;
      } else {
        assert AllComputesEncode(enc, cmds) <==> AllComputesEncode(enc, p) by {
          forall i | 0 <= i < n ensures cmds[i] == p[i] { }
        }
      }
    }
  }

  /**
   * The variables pass 2 allocates: symbols of A-commands that are not decimal
   * literals and not already known, each once, in the order of their first use.
   */
  function FreshSymbols(cmds: seq<Command>, known: set<string>): (vs: seq<string>)
    ensures forall i, j :: 0 <= i < j < |vs| ==> vs[i] != vs[j]
    ensures forall v :: v in vs ==> v !in known && !IsDecimal(v)
    ensures forall v :: v in vs ==> exists i :: 0 <= i < |cmds| && UsesSymbol(cmds[i], v)
    ensures forall i :: 0 <= i < |cmds| && cmds[i].1 == ACommand ==>
              IsDecimal(SymbolOf(cmds[i])) || SymbolOf(cmds[i]) in known || SymbolOf(cmds[i]) in vs
  {
    if cmds == [] then []
    else
      var p := cmds[..|cmds| - 1];
      var vs := FreshSymbols(p, known);
      var c := cmds[|cmds| - 1];
      assert forall i :: 0 <= i < |p| ==> cmds[i] == p[i];
      if c.1 == ACommand && !IsDecimal(SymbolOf(c)) && SymbolOf(c) !in known && SymbolOf(c) !in vs
      then
        assert UsesSymbol(cmds[|cmds| - 1], SymbolOf(c));
        vs + [SymbolOf(c)]
      else vs
  }

  /** The variables of a program are those of all but its last command, plus that command's name when it is new. */
  lemma FreshSymbolsDropLast(cmds: seq<Command>, known: set<string>)
    requires cmds != []
    ensures var vp := FreshSymbols(cmds[..|cmds| - 1], known);
            var c := cmds[|cmds| - 1];
            FreshSymbols(cmds, known)
              == if c.1 == ACommand && !IsDecimal(SymbolOf(c)) && SymbolOf(c) !in known && SymbolOf(c) !in vp
                 then vp + [SymbolOf(c)] else vp
  {
  }

  /** `cmds[i]` is an A-command naming `x`. */
  predicate UsesSymbol(c: Command, x: string) {
    c.1 == ACommand && SymbolOf(c) == x
  }

  /** `cmds[i]` is the first A-command naming `x`. */
  predicate FirstUseAt(cmds: seq<Command>, i: int, x: string) {
    && 0 <= i < |cmds|
    && UsesSymbol(cmds[i], x)
    && forall j :: 0 <= j < i ==> !UsesSymbol(cmds[j], x)
  }

  /** A name that is used at all has a first use, at or before any of its uses. */
  lemma {:induction false} FirstUseExists(cmds: seq<Command>, i: nat, x: string)
    requires i < |cmds| && UsesSymbol(cmds[i], x)
    ensures exists i0 :: 0 <= i0 <= i && FirstUseAt(cmds, i0, x)
  {
    if exists j :: 0 <= j < i && UsesSymbol(cmds[j], x) {
      var j :| 0 <= j < i && UsesSymbol(cmds[j], x);
      FirstUseExists(cmds, j, x);
    } else {
      assert FirstUseAt(cmds, i, x);
    }
  }

  /** Reading more of the program only appends new variables: earlier ones keep their positions. */
  lemma {:induction false} FreshSymbolsPrefix(cmds: seq<Command>, known: set<string>, k: nat)
    requires k <= |cmds|
    ensures FreshSymbols(cmds[..k], known) <= FreshSymbols(cmds, known)
    decreases |cmds|
  {
    if k < |cmds| {
      var p := cmds[..|cmds| - 1];
      assert p[..k] == cmds[..k];
      FreshSymbolsPrefix(p, known, k);
    } else {
      assert cmds[..k] == cmds;
    }
  }

  /**
   * First-use order: a new name sits in the variable list right after the new names
   * used before its first use, so its position is how many of them there are.
   */
  lemma {:induction false} FreshSymbolsFirstUse(cmds: seq<Command>, known: set<string>, i0: nat, x: string)
    requires FirstUseAt(cmds, i0, x) && !IsDecimal(x) && x !in known
    ensures var before := FreshSymbols(cmds[..i0], known);
            |before| < |FreshSymbols(cmds, known)| && FreshSymbols(cmds, known)[|before|] == x
  {
    var before := FreshSymbols(cmds[..i0], known);
    var p := cmds[..i0 + 1];
    assert p[..|p| - 1] == cmds[..i0] && p[|p| - 1] == cmds[i0];
    assert forall j :: 0 <= j < i0 ==> cmds[..i0][j] == cmds[j];
    assert x !in before;
    assert FreshSymbols(p, known) == before + [x];
    FreshSymbolsPrefix(cmds, known, i0 + 1);
  }

  /** One step of pass 2 allocates a variable exactly for an A-command naming an unknown, non-decimal symbol. */
  lemma EmitStepAllocates(enc: CEncoder, st: EmitState, c: Command)
    requires st.failure.None?
    ensures var r := EmitStep(enc, st, c);
            if c.1 == ACommand && !IsDecimal(SymbolOf(c)) && SymbolOf(c) !in st.symbols
            then r.varAddr == st.varAddr + 1 && r.symbols == st.symbols[SymbolOf(c) := st.varAddr]
            else r.varAddr == st.varAddr && r.symbols == st.symbols
  {
  }

  /** Binding one more new name to the next address keeps the allocation dense and in order. */
  lemma AllocateNext(keys: set<string>, syms: map<string, nat>, vp: seq<string>, x: string, base: nat)
    requires syms.Keys == keys + (set v | v in vp)
    requires forall i :: 0 <= i < |vp| ==> syms[vp[i]] == base + i
    requires x !in syms
    ensures var after := syms[x := base + |vp|];
            && after.Keys == keys + (set v | v in vp + [x])
            && forall i :: 0 <= i < |vp + [x]| ==> after[(vp + [x])[i]] == base + i
  {
    var vs := vp + [x];
    assert (set v | v in vs) == (set v | v in vp) + {x};
    forall i | 0 <= i < |vs| ensures syms[x := base + |vp|][vs[i]] == base + i {
      if i < |vp| {
        assert vs[i] == vp[i] && vp[i] != x;
      }
    }
  }

  /**
   * Variables get consecutive addresses from the counter's start, one per new
   * symbol in first-use order, with no gaps; the counter ends just past the last.
   */
  lemma {:induction false} EmitPassAllocates(enc: CEncoder, cmds: seq<Command>, start: EmitState)
    requires start.failure.None?
    requires EmitPass(enc, cmds, start).failure.None?
    ensures var vs := FreshSymbols(cmds, start.symbols.Keys);
            var r := EmitPass(enc, cmds, start);
            && r.varAddr == start.varAddr + |vs|
            && r.symbols.Keys == start.symbols.Keys + (set v | v in vs)
            && forall i :: 0 <= i < |vs| ==> r.symbols[vs[i]] == start.varAddr + i
  {
    if cmds != [] {
      var n := |cmds| - 1;
      var p := cmds[..n];
      var c := cmds[n];
      var st := EmitPass(enc, p, start);
      assert st.failure.None?;
      EmitPassAllocates(enc, p, start);
      var r := EmitStep(enc, st, c);
      assert r == EmitPass(enc, cmds, start);
      EmitStepAllocates(enc, st, c);
      FreshSymbolsDropLast(cmds, start.symbols.Keys);
      var vp := FreshSymbols(p, start.symbols.Keys);
      var vs := FreshSymbols(cmds, start.symbols.Keys);
      if c.1 == ACommand && !IsDecimal(SymbolOf(c)) && SymbolOf(c) !in st.symbols {
        var x := SymbolOf(c);
        assert x !in start.symbols.Keys && x !in vp;
        assert vs == vp + [x];
        AllocateNext(start.symbols.Keys, st.symbols, vp, x, start.varAddr);
      } else {
        assert vs == vp;
        assert r.symbols == st.symbols;
      }
    }
  }

  // ---------------------------------------------------------------- the words

  /** Every symbol the program uses has an address in `syms`, and every C-command encodes. */
  predicate Resolved(enc: CEncoder, cmds: seq<Command>, syms: map<string, nat>) {
    && AllComputesEncode(enc, cmds)
    && forall i :: 0 <= i < |cmds| && cmds[i].1 == ACommand ==>
         IsDecimal(SymbolOf(cmds[i])) || SymbolOf(cmds[i]) in syms
  }

  /** The word of an A- or C-command once every symbol has its final address. */
  function Word(enc: CEncoder, c: Command, syms: map<string, nat>): string
    requires c.1 != LCommand
    requires c.1 == ACommand ==> IsDecimal(SymbolOf(c)) || SymbolOf(c) in syms
    requires c.1 == CCommand ==> enc(c.0).Ok?
  {
    if c.1 == ACommand then
      var s := SymbolOf(c);
      AWord(if IsDecimal(s) then DecimalValue(s) else syms[s])
    else enc(c.0).value
  }

  /** The words of a program, one per A- or C-command, in order. */
  function Words(enc: CEncoder, cmds: seq<Command>, syms: map<string, nat>): (ws: seq<string>)
    requires Resolved(enc, cmds, syms)
    ensures |ws| == RomCount(cmds)
  {
    if cmds == [] then []
    else
      var c := cmds[|cmds| - 1];
      Words(enc, cmds[..|cmds| - 1], syms) + (if c.1 == LCommand then [] else [Word(enc, c, syms)])
  }

  /** The words of a program are those of all but its last command, then the last one's. */
  lemma WordsDropLast(enc: CEncoder, cmds: seq<Command>, syms: map<string, nat>)
    requires Resolved(enc, cmds, syms) && cmds != []
    ensures Resolved(enc, cmds[..|cmds| - 1], syms)
    ensures var c := cmds[|cmds| - 1];
            Words(enc, cmds, syms) == Words(enc, cmds[..|cmds| - 1], syms) + (if c.1 == LCommand then [] else [Word(enc, c, syms)])
  {
    var p := cmds[..|cmds| - 1];
    assert forall k :: 0 <= k < |p| ==> p[k] == cmds[k];
  }

  /** The word of command `i` sits at index "number of A- and C-commands before `i`". */
  lemma {:induction false} WordsAt(enc: CEncoder, cmds: seq<Command>, syms: map<string, nat>, i: nat)
    requires Resolved(enc, cmds, syms) && i < |cmds| && cmds[i].1 != LCommand
    ensures RomCount(cmds[..i]) < |Words(enc, cmds, syms)|
    ensures Words(enc, cmds, syms)[RomCount(cmds[..i])] == Word(enc, cmds[i], syms)
  {
    var n := |cmds| - 1;
    var p := cmds[..n];
    WordsDropLast(enc, cmds, syms);
    if i == n {
      assert cmds[..i] == p;
    } else {
      assert p[..i] == cmds[..i];
      WordsAt(enc, p, syms, i);
    }
  }

  /** Words depend only on the addresses of the symbols the program uses. */
  lemma {:induction false} WordsExtend(enc: CEncoder, cmds: seq<Command>, m1: map<string, nat>, m2: map<string, nat>)
    requires Resolved(enc, cmds, m1)
    requires forall k :: k in m1 ==> k in m2 && m2[k] == m1[k]
    ensures Resolved(enc, cmds, m2) && Words(enc, cmds, m1) == Words(enc, cmds, m2)
  {
    if cmds != [] {
      WordsExtend(enc, cmds[..|cmds| - 1], m1, m2);
    }
  }

  /** One step of pass 2 that does not fail appends the word of its command, if any. */
  lemma EmitStepWord(enc: CEncoder, st: EmitState, c: Command)
    requires st.failure.None?
    requires EmitStep(enc, st, c).failure.None?
    ensures forall k :: k in st.symbols ==> k in EmitStep(enc, st, c).symbols && EmitStep(enc, st, c).symbols[k] == st.symbols[k]
    ensures c.1 == LCommand ==> EmitStep(enc, st, c).codes == st.codes
    ensures c.1 == CCommand ==> enc(c.0).Ok?
    ensures c.1 == ACommand ==> IsDecimal(SymbolOf(c)) || SymbolOf(c) in EmitStep(enc, st, c).symbols
    ensures c.1 != LCommand ==> EmitStep(enc, st, c).codes == st.codes + [Word(enc, c, EmitStep(enc, st, c).symbols)]
  {
  }

  /**
   * Pass 2 emits, after what was already there, exactly the words of the program
   * under the final symbol table: allocating variables on the fly gives the same
   * words as resolving every symbol afterwards.
   */
  lemma {:induction false} EmitPassWords(enc: CEncoder, cmds: seq<Command>, start: EmitState)
    requires start.failure.None?
    requires EmitPass(enc, cmds, start).failure.None?
    ensures Resolved(enc, cmds, EmitPass(enc, cmds, start).symbols)
    ensures EmitPass(enc, cmds, start).codes == start.codes + Words(enc, cmds, EmitPass(enc, cmds, start).symbols)
  {
    if cmds != [] {
      var n := |cmds| - 1;
      var p := cmds[..n];
      var c := cmds[n];
      var st := EmitPass(enc, p, start);
      assert st.failure.None?;
      EmitPassWords(enc, p, start);
      var r := EmitStep(enc, st, c);
      assert r == EmitPass(enc, cmds, start);
      EmitStepWord(enc, st, c);
      WordsExtend(enc, p, st.symbols, r.symbols);
      assert Resolved(enc, cmds, r.symbols) by {
        forall i | 0 <= i < n ensures cmds[i] == p[i] { }
      }
      WordsDropLast(enc, cmds, r.symbols);
    }
  }

  // ---------------------------------------------------------------- the text

  /** `'\n'.join(ws)`. */
  function Join(ws: seq<string>): string {
    if |ws| == 0 then ""
    else if |ws| == 1 then ws[0]
    else Join(ws[..|ws| - 1]) + "\n" + ws[|ws| - 1]
  }

  /** The text `assemble` returns: the joined words and one more newline. */
  function JoinLines(ws: seq<string>): string {
    Join(ws) + "\n"
  }

  /** Every word followed by its own newline. */
  function Terminated(ws: seq<string>): string {
    if ws == [] then "" else Terminated(ws[..|ws| - 1]) + ws[|ws| - 1] + "\n"
  }

  /**
   * The output is each word on its own newline-terminated line, except that an empty
   * program gives a single newline, not the empty text.
   */
  lemma {:induction false} JoinLinesTerminated(ws: seq<string>)
    ensures JoinLines(ws) == if ws == [] then "\n" else Terminated(ws)
  {
    if |ws| > 1 {
      JoinLinesTerminated(ws[..|ws| - 1]);
    } else if |ws| == 1 {
      assert ws[..0] == [];
    }
  }

  /** With 16-bit words, the output is 17 characters per word. */
  lemma {:induction false} TerminatedLength(ws: seq<string>)
    requires forall k :: 0 <= k < |ws| ==> |ws[k]| == 16
    ensures |Terminated(ws)| == 17 * |ws|
  {
    if ws != [] {
      TerminatedLength(ws[..|ws| - 1]);
    }
  }
}
