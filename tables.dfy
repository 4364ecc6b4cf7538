/**
 * The fixed tables of the Hack assembler: the comp, dest and jump fields of a
 * C-instruction and the predefined symbols.
 */
module HackTables {
  import opened Numerals

  /** `COMP_DICT`: the `a` bit followed by the six ALU control bits. */
  const CompTable: map<string, string> := map[
    "0" := "0101010",
    "1" := "0111111",
    "-1" := "0111010",
    "D" := "0001100",
    "A" := "0110000",
    "M" := "1110000",
    "!D" := "0001101",
    "!A" := "0110001",
    "!M" := "1110001",
    "-D" := "0001111",
    "-A" := "0110011",
    "-M" := "1110011",
    "D+1" := "0011111",
    "A+1" := "0110111",
    "M+1" := "1110111",
    "D-1" := "0001110",
    "A-1" := "0110010",
    "M-1" := "1110010",
    "D+A" := "0000010",
    "D+M" := "1000010",
    "D-A" := "0010011",
    "D-M" := "1010011",
    "A-D" := "0000111",
    "M-D" := "1000111",
    "D&A" := "0000000",
    "D&M" := "1000000",
    "D|A" := "0010101",
    "D|M" := "1010101"
  ]

  /** `DEST_DICT`: one bit each for A, D and M; the empty key means no destination. */
  const DestTable: map<string, string> := map[
    "" := "000",
    "M" := "001",
    "D" := "010",
    "MD" := "011",
    "A" := "100",
    "AM" := "101",
    "AD" := "110",
    "AMD" := "111"
  ]

  /** `JUMP_DICT`: the jump condition; the empty key means no jump. */
  const JumpTable: map<string, string> := map[
    "" := "000",
    "JGT" := "001",
    "JEQ" := "010",
    "JGE" := "011",
    "JLT" := "100",
    "JNE" := "101",
    "JLE" := "110",
    "JMP" := "111"
  ]

  /** `SYMBOLS`: the symbols every program starts with. */
  const Predefined: map<string, nat> := map[
    "SP" := 0,
    "LCL" := 1,
    "ARG" := 2,
    "THIS" := 3,
    "THAT" := 4,
    "R0" := 0,
    "R1" := 1,
    "R2" := 2,
    "R3" := 3,
    "R4" := 4,
    "R5" := 5,
    "R6" := 6,
    "R7" := 7,
    "R8" := 8,
    "R9" := 9,
    "R10" := 10,
    "R11" := 11,
    "R12" := 12,
    "R13" := 13,
    "R14" := 14,
    "R15" := 15,
    "SCREEN" := 0x4000,
    "KBD" := 0x6000
  ]

  /** Every comp code is seven bits. */
  lemma CompCodeWidths()
    ensures forall k :: k in CompTable ==> |CompTable[k]| == 7 && IsBits(CompTable[k])
  {
  }

  /** Every dest code is three bits. */
  lemma DestCodeWidths()
    ensures forall k :: k in DestTable ==> |DestTable[k]| == 3 && IsBits(DestTable[k])
  {
  }

  /** Every jump code is three bits. */
  lemma JumpCodeWidths()
    ensures forall k :: k in JumpTable ==> |JumpTable[k]| == 3 && IsBits(JumpTable[k])
  {
  }

  /** No two comp mnemonics share a code, so a code identifies its mnemonic. */
  lemma CompCodesDistinct()
    ensures forall k1, k2 :: k1 in CompTable && k2 in CompTable && CompTable[k1] == CompTable[k2] ==> k1 == k2
  {
  }

  lemma DestCodesDistinct()
    ensures forall k1, k2 :: k1 in DestTable && k2 in DestTable && DestTable[k1] == DestTable[k2] ==> k1 == k2
  {
  }

  lemma JumpCodesDistinct()
    ensures forall k1, k2 :: k1 in JumpTable && k2 in JumpTable && JumpTable[k1] == JumpTable[k2] ==> k1 == k2
  {
  }

  /** No comp mnemonic is empty, starts with `(` or holds the separators `=` and `;`. */
  lemma CompMnemonicShapes()
    ensures forall k :: k in CompTable ==> k != [] && k[0] != '(' && '=' !in k && ';' !in k
  {
  }

  /** No dest mnemonic starts with `(` or holds `=` or `;`; the empty dest is a key. */
  lemma DestMnemonicShapes()
    ensures forall k :: k in DestTable ==> '=' !in k && ';' !in k && (k != [] ==> k[0] != '(')
    ensures "" in DestTable && DestTable[""] == "000"
  {
  }

  /** No jump mnemonic holds `=` or `;`; the empty jump is a key. */
  lemma JumpMnemonicShapes()
    ensures forall k :: k in JumpTable ==> '=' !in k && ';' !in k
    ensures "" in JumpTable && JumpTable[""] == "000"
  {
  }

  /** Every predefined address fits in 15 bits. */
  lemma PredefinedFit()
    ensures forall k :: k in Predefined ==> Predefined[k] < Pow2(15)
  {
  }

  /** No predefined name reads as a decimal literal, so `@SP` .. `@KBD` are looked up, not parsed. */
  lemma PredefinedNames()
    ensures forall k :: k in Predefined ==> k != [] && !IsDigit(k[0])
  {
  }
}
