/**
 * The classifier: `command_type` tags a cleaned line, and `Assembler.symbol`
 * pulls out the symbol of an A- or L-command.
 */
module Parser {
  import opened Wrappers

  datatype CommandKind = ACommand | LCommand | CCommand

  predicate StartsWith(s: string, c: char) {
    |s| > 0 && s[0] == c
  }

  predicate EndsWith(s: string, c: char) {
    |s| > 0 && s[|s| - 1] == c
  }

  /**
   * `command_type`: `@` first; then a line both opening with `(` and closing
   * with `)`; everything else is a C-command.
   */
  function CommandType(cmd: string): (k: CommandKind)
    ensures k == ACommand <==> StartsWith(cmd, '@')
    ensures k == LCommand <==> !StartsWith(cmd, '@') && StartsWith(cmd, '(') && EndsWith(cmd, ')')
    ensures k == LCommand ==> |cmd| >= 2
  {
    if StartsWith(cmd, '@') then ACommand
    else if StartsWith(cmd, '(') && EndsWith(cmd, ')') then LCommand
    else CCommand
  }

  /**
   * `Assembler.symbol`: the text after `@`, or the text between the parentheses;
   * nothing (`None` in Python) for a C-command.
   */
  function Symbol(cmd: string): (r: Option<string>)
    ensures r.Some? <==> CommandType(cmd) != CCommand
  {
    if StartsWith(cmd, '@') then Some(cmd[1..])
    else if StartsWith(cmd, '(') && EndsWith(cmd, ')') then Some(cmd[1..|cmd| - 1])
    else None
  }

  /** Putting the markers back around the symbol gives the line again. */
  lemma SymbolRestores(cmd: string)
    ensures CommandType(cmd) == ACommand ==> cmd == "@" + Symbol(cmd).value
    ensures CommandType(cmd) == LCommand ==> cmd == "(" + Symbol(cmd).value + ")"
  {
    if CommandType(cmd) == LCommand {
      assert cmd == [cmd[0]] + cmd[1..|cmd| - 1] + [cmd[|cmd| - 1]];
    }
  }

  /** Any text after `@` makes an A-command whose symbol is that text. */
  lemma AddressRoundTrip(s: string)
    ensures CommandType("@" + s) == ACommand && Symbol("@" + s) == Some(s)
  {
    assert ("@" + s)[1..] == s;
  }

  /** Any text in parentheses makes a label named by that text. */
  lemma LabelRoundTrip(s: string)
    ensures CommandType("(" + s + ")") == LCommand && Symbol("(" + s + ")") == Some(s)
  {
    var cmd := "(" + s + ")";
    assert cmd[1..|cmd| - 1] == s;
  }
}
