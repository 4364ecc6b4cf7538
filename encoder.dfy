/**
 * The encoders: `a_cmd2bin`, `c_cmd2bin` and the dispatching `cmd2bin`.
 * Python's `KeyError` and `ValueError` become `Err` results.
 */
module Encoder {
  import opened Wrappers
  import opened Numerals
  import opened HackTables
  import opened Parser

  datatype EncodeError =
    | BadLiteral(literal: string)
    | UnknownComp(comp: string)
    | UnknownDest(dest: string)
    | UnknownJump(jump: string)

  /** `f'0{n:015b}'`: the A-instruction word for address `n`. */
  function AWord(n: nat): string {
    "0" + Binary15(n)
  }

  /**
   * The word is `0` and then binary digits denoting `n`: sixteen characters exactly
   * when `n` fits in 15 bits; otherwise `0` and the plain binary digits of `n`.
   */
  lemma AWordSpec(n: nat)
    ensures |AWord(n)| >= 16 && AWord(n)[0] == '0' && IsBits(AWord(n))
    ensures BitsValue(AWord(n)) == n
    ensures n < Pow2(15) <==> |AWord(n)| == 16
    ensures n >= Pow2(15) ==> AWord(n) == "0" + Binary(n)
  {
    Binary15Spec(n);
    assert "0" == Zeros(1);
    LeadingZerosValue(1, Binary15(n));
  }

  /**
   * `a_cmd2bin`: `0` followed by the literal after `@` in 15 zero-padded binary
   * digits. The literal must be decimal digits; otherwise `int` fails.
   */
  function ACmdToBin(cmd: string): Result<string, EncodeError>
    requires StartsWith(cmd, '@')
  {
    var literal := cmd[1..];
    if IsDecimal(literal) then Ok(AWord(DecimalValue(literal))) else Err(BadLiteral(literal))
  }

  /**
   * `a_cmd2bin` succeeds exactly on a decimal literal, and then gives `0` and binary
   * digits denoting it: sixteen characters exactly when it fits in 15 bits, and
   * otherwise `0` and its plain binary digits.
   */
  lemma ACmdToBinSpec(cmd: string)
    requires StartsWith(cmd, '@')
    ensures ACmdToBin(cmd).Ok? <==> IsDecimal(cmd[1..])
    ensures ACmdToBin(cmd).Err? ==> ACmdToBin(cmd).error == BadLiteral(cmd[1..])
    ensures var r := ACmdToBin(cmd);
            r.Ok? ==> && |r.value| >= 16 && r.value[0] == '0' && IsBits(r.value)
                      && BitsValue(r.value) == DecimalValue(cmd[1..])
                      && (DecimalValue(cmd[1..]) < Pow2(15) <==> |r.value| == 16)
                      && (DecimalValue(cmd[1..]) >= Pow2(15) ==> r.value == "0" + Binary(DecimalValue(cmd[1..])))
  {
    if IsDecimal(cmd[1..]) {
      AWordSpec(DecimalValue(cmd[1..]));
    }
  }

  /** `s.partition(sep)` without the separator: the text before the first `sep` and after it. */
  function Partition(s: string, sep: char): (string, string) {
    if s == [] then ([], [])
    else if s[0] == sep then ([], s[1..])
    else
      var (head, tail) := Partition(s[1..], sep);
      ([s[0]] + head, tail)
  }

  /** The head holds no separator; with one, head, separator and tail make up `s`. */
  lemma {:induction false} PartitionSpec(s: string, sep: char)
    ensures sep !in Partition(s, sep).0
    ensures sep in s ==> s == Partition(s, sep).0 + [sep] + Partition(s, sep).1
    ensures sep !in s ==> Partition(s, sep) == (s, [])
  {
    if s != [] && s[0] != sep {
      PartitionSpec(s[1..], sep);
      assert s == [s[0]] + s[1..];
    }
  }

  /** The three fields of a C-command's text. */
  datatype CFields = CFields(dest: string, comp: string, jump: string)

  /** `rest` is `comp` alone, or `comp;jump` split at its first `;`. */
  predicate SplitsAtSemicolon(rest: string, comp: string, jump: string) {
    && ';' !in comp
    && if ';' in rest then rest == comp + ";" + jump else rest == comp && jump == []
  }

  /** The fields `c_cmd2bin` looks up, cut out of the command text. */
  function SplitC(cmd: string): CFields {
    if '=' in cmd then
      var (dest, tail) := Partition(cmd, '=');
      var (comp, jump) := Partition(tail, ';');
      CFields(dest, comp, jump)
    else
      var (comp, jump) := Partition(cmd, ';');
      CFields([], comp, jump)
  }

  /**
   * `dest` is the text before the first `=` (empty without one), and the rest
   * splits at its first `;` into `comp` and `jump`.
   */
  lemma SplitCSpec(cmd: string)
    ensures '=' !in SplitC(cmd).dest
    ensures var f := SplitC(cmd);
            '=' in cmd ==> |f.dest| < |cmd| && cmd[..|f.dest| + 1] == f.dest + "="
                           && SplitsAtSemicolon(cmd[|f.dest| + 1..], f.comp, f.jump)
    ensures var f := SplitC(cmd);
            '=' !in cmd ==> f.dest == [] && SplitsAtSemicolon(cmd, f.comp, f.jump)
  {
    if '=' in cmd {
      var (dest, tail) := Partition(cmd, '=');
      PartitionSpec(cmd, '=');
      PartitionSpec(tail, ';');
      assert cmd[..|dest| + 1] == dest + "=" && cmd[|dest| + 1..] == tail;
    } else {
      PartitionSpec(cmd, ';');
    }
  }

  /** `c_cmd2bin`: `111`, then the comp, dest and jump codes, looked up in that order. */
  function CCmdToBin(cmd: string): Result<string, EncodeError> {
    var f := SplitC(cmd);
    if f.comp !in CompTable then Err(UnknownComp(f.comp))
    else if f.dest !in DestTable then Err(UnknownDest(f.dest))
    else if f.jump !in JumpTable then Err(UnknownJump(f.jump))
    else Ok("111" + CompTable[f.comp] + DestTable[f.dest] + JumpTable[f.jump])
  }

  /**
   * `c_cmd2bin` fails exactly when a field is not a key of its table, naming the
   * first missing one in the order comp, dest, jump in which the f-string looks
   * them up; otherwise the word is sixteen bits: `111`, the seven comp bits, the
   * three dest bits and the three jump bits.
   */
  lemma CCmdToBinSpec(cmd: string)
    ensures var f := SplitC(cmd);
            CCmdToBin(cmd).Ok? <==> f.comp in CompTable && f.dest in DestTable && f.jump in JumpTable
    ensures var f := SplitC(cmd);
            var r := CCmdToBin(cmd);
            r.Ok? ==> && |r.value| == 16 && IsBits(r.value) && r.value[..3] == "111"
                      && r.value[3..10] == CompTable[f.comp]
                      && r.value[10..13] == DestTable[f.dest]
                      && r.value[13..] == JumpTable[f.jump]
    ensures var f := SplitC(cmd);
            var r := CCmdToBin(cmd);
            r.Err? ==> || (r.error == UnknownComp(f.comp) && f.comp !in CompTable)
                       || (r.error == UnknownDest(f.dest) && f.comp in CompTable && f.dest !in DestTable)
                       || (r.error == UnknownJump(f.jump) && f.comp in CompTable && f.dest in DestTable && f.jump !in JumpTable)
  {
    var f := SplitC(cmd);
    if f.comp in CompTable && f.dest in DestTable && f.jump in JumpTable {
      CompCodeWidths();
      DestCodeWidths();
      JumpCodeWidths();
    }
  }

  /** `cmd2bin`: an A-instruction for a line starting with `@`, a C-instruction for anything else. */
  function CmdToBin(cmd: string): Result<string, EncodeError> {
    if StartsWith(cmd, '@') then ACmdToBin(cmd) else CCmdToBin(cmd)
  }

  /** Every word is at least sixteen bits, and its first bit tells which kind of line produced it. */
  lemma CmdToBinSpec(cmd: string)
    ensures CmdToBin(cmd).Ok? ==> |CmdToBin(cmd).value| >= 16 && IsBits(CmdToBin(cmd).value)
    ensures CmdToBin(cmd).Ok? ==> (CmdToBin(cmd).value[0] == '0' <==> CommandType(cmd) == ACommand)
  {
    if StartsWith(cmd, '@') {
      ACmdToBinSpec(cmd);
    } else {
      CCmdToBinSpec(cmd);
    }
  }

  /** The canonical text of a C-command: `dest=` and `;jump` only when present. */
  function RenderC(f: CFields): string {
    (if f.dest == [] then "" else f.dest + "=") + RenderCompJump(f.comp, f.jump)
  }

  /** Partitioning at the first separator of `head + [sep] + tail` gives `head` and `tail`. */
  lemma {:induction false} PartitionAtFirst(head: string, sep: char, tail: string)
    requires sep !in head
    ensures Partition(head + [sep] + tail, sep) == (head, tail)
  {
    var s := head + [sep] + tail;
    if head != [] {
      assert s[1..] == head[1..] + [sep] + tail;
      PartitionAtFirst(head[1..], sep, tail);
      assert [s[0]] + head[1..] == head;
    } else {
      assert s[1..] == tail;
    }
  }

  /**
   * Splitting the canonical text gives the fields back, as long as no field holds
   * a separator that would end it early.
   */
  lemma SplitRenderC(f: CFields)
    requires '=' !in f.dest && '=' !in f.comp && ';' !in f.comp && '=' !in f.jump
    ensures SplitC(RenderC(f)) == f
  {
    var rest := RenderCompJump(f.comp, f.jump);
    RenderCompJumpSplits(f.comp, f.jump);
    if f.dest != [] {
      assert RenderC(f) == f.dest + ['='] + rest;
      PartitionAtFirst(f.dest, '=', rest);
    } else {
      assert RenderC(f) == rest;
    }
  }

  /** The `comp;jump` part of the canonical text. */
  function RenderCompJump(comp: string, jump: string): string {
    comp + (if jump == [] then "" else ";" + jump)
  }

  lemma RenderCompJumpSplits(comp: string, jump: string)
    requires '=' !in comp && ';' !in comp && '=' !in jump
    ensures '=' !in RenderCompJump(comp, jump)
    ensures Partition(RenderCompJump(comp, jump), ';') == (comp, jump)
  {
    var rest := RenderCompJump(comp, jump);
    if jump != [] {
      assert rest == comp + [';'] + jump;
      PartitionAtFirst(comp, ';', jump);
    } else {
      assert rest == comp;
      PartitionSpec(rest, ';');
    }
  }

  /** Every combination of table mnemonics, written canonically, encodes to its three codes. */
  lemma EncodeRenderC(f: CFields)
    requires f.comp in CompTable && f.dest in DestTable && f.jump in JumpTable
    ensures CCmdToBin(RenderC(f)) == Ok("111" + CompTable[f.comp] + DestTable[f.dest] + JumpTable[f.jump])
  {
    CompMnemonicShapes();
    DestMnemonicShapes();
    JumpMnemonicShapes();
    SplitRenderC(f);
  }

  /** A C-instruction word determines the comp, dest and jump mnemonics of its command. */
  lemma CWordDeterminesFields(a: string, b: string)
    requires CCmdToBin(a).Ok? && CCmdToBin(b).Ok? && CCmdToBin(a).value == CCmdToBin(b).value
    ensures SplitC(a) == SplitC(b)
  {
    CCmdToBinSpec(a);
    CCmdToBinSpec(b);
    var w := CCmdToBin(a).value;
    var fa, fb := SplitC(a), SplitC(b);
    assert CompTable[fa.comp] == w[3..10] == CompTable[fb.comp];
    assert DestTable[fa.dest] == w[10..13] == DestTable[fb.dest];
    assert JumpTable[fa.jump] == w[13..] == JumpTable[fb.jump];
    CompCodesDistinct();
    DestCodesDistinct();
    JumpCodesDistinct();
  }

  /** An A-instruction word gives its address back: no two addresses share a word, however wide. */
  lemma AWordDeterminesAddress(m: nat, n: nat)
    requires AWord(m) == AWord(n)
    ensures m == n
  {
    AWordSpec(m);
    AWordSpec(n);
  }

  /** A label line is never an instruction: `cmd2bin` rejects it with an unknown field. */
  lemma LabelNotEncodable(cmd: string)
    requires CommandType(cmd) == LCommand
    ensures CmdToBin(cmd).Err?
  {
    CompMnemonicShapes();
    DestMnemonicShapes();
    SplitCSpec(cmd);
    var f := SplitC(cmd);
    if '=' in cmd {
      assert cmd[0] != '=';
      assert f.dest != [] && f.dest[0] == '(';
    } else if ';' in cmd {
      assert cmd == f.comp + ";" + f.jump;
      assert f.comp != [] && f.comp[0] == '(';
    } else {
      assert f.comp == cmd;
    }
  }

  /** The worked vector `@12`. */
  lemma AddressExample()
    ensures ACmdToBin("@12") == Ok("0000000000001100")
  {
    assert "@12"[1..] == "12";
    assert DecimalValue("12") == 12 by {
      assert "12"[..1] == "1";
    }
    assert IsDecimal("12");
    assert Binary(12) == "1100";
    assert Zeros(11) == "00000000000";
    assert Binary15(12) == "000000000001100";
    assert AWord(12) == "0000000000001100";
  }

  /** The fields of `D=A`: dest `D`, comp `A`, no jump. */
  lemma SplitAssign()
    ensures SplitC("D=A") == CFields("D", "A", "")
  {
    assert "D=A" == "D" + "=" + "A";
    PartitionAtFirst("D", '=', "A");
    PartitionSpec("A", ';');
  }

  /** `D=A` is looked up as comp `A`, dest `D` and the empty jump. */
  lemma AssignLookups()
    ensures CCmdToBin("D=A") == Ok("111" + CompTable["A"] + DestTable["D"] + JumpTable[""])
  {
    SplitAssign();
  }

  /** The codes of comp `A`, dest `D` and the empty jump. */
  lemma AssignCodes()
    ensures "111" + CompTable["A"] + DestTable["D"] + JumpTable[""] == "1110110000010000"
  {
    assert CompTable["A"] == "0110000" && DestTable["D"] == "010" && JumpTable[""] == "000";
  }

  /** The worked vector `D=A`. */
  lemma AssignExample()
    ensures CCmdToBin("D=A") == Ok("1110110000010000")
  {
    AssignLookups();
    AssignCodes();
  }

  /** The fields of `D=D+1;JGT`: dest `D`, comp `D+1`, jump `JGT`. */
  lemma SplitJump()
    ensures SplitC("D=D+1;JGT") == CFields("D", "D+1", "JGT")
  {
    assert "D=D+1;JGT" == "D" + "=" + "D+1;JGT";
    PartitionAtFirst("D", '=', "D+1;JGT");
    assert "D+1;JGT" == "D+1" + ";" + "JGT";
    PartitionAtFirst("D+1", ';', "JGT");
  }

  /** `D=D+1;JGT` is looked up as comp `D+1`, dest `D` and jump `JGT`. */
  lemma JumpLookups()
    ensures CCmdToBin("D=D+1;JGT") == Ok("111" + CompTable["D+1"] + DestTable["D"] + JumpTable["JGT"])
  {
    SplitJump();
  }

  /** The codes of comp `D+1`, dest `D` and jump `JGT`. */
  lemma JumpCodes()
    ensures "111" + CompTable["D+1"] + DestTable["D"] + JumpTable["JGT"] == "1110011111010001"
  {
    assert CompTable["D+1"] == "0011111" && DestTable["D"] == "010" && JumpTable["JGT"] == "001";
  }

  /** The worked vector `D=D+1;JGT`. */
  lemma JumpExample()
    ensures CCmdToBin("D=D+1;JGT") == Ok("1110011111010001")
  {
    JumpLookups();
    JumpCodes();
  }
}
