/**
 * The line cleaner of `tokenize`: each raw line loses everything from the first
 * `//` on and its surrounding whitespace; lines left empty are dropped.
 */
module Lexer {

  /** Python's `str.isspace`, the set of characters `str.strip()` removes. */
  predicate IsSpace(c: char) {
    || '\t' <= c <= '\r'
    || '\U{1C}' <= c <= '\U{1F}'
    || c == ' ' || c == '\U{85}' || c == '\U{A0}' || c == '\U{1680}'
    || '\U{2000}' <= c <= '\U{200A}'
    || c == '\U{2028}' || c == '\U{2029}' || c == '\U{202F}' || c == '\U{205F}' || c == '\U{3000}'
  }

  /** A `//` comment marker starts at index `i` of `s`. */
  predicate CommentAt(s: string, i: int) {
    0 <= i && i + 1 < |s| && s[i] == '/' && s[i + 1] == '/'
  }

  predicate NoComment(s: string) {
    forall i :: 0 <= i < |s| ==> !CommentAt(s, i)
  }

  /** `s.partition('//')[0]`: the text before the first `//`, or all of `s`. */
  function BeforeComment(s: string): (r: string)
    ensures |r| <= |s| && r == s[..|r|]
    ensures forall i :: 0 <= i < |r| ==> !CommentAt(s, i)
    ensures |r| < |s| ==> CommentAt(s, |r|)
  {
    if |s| < 2 then s
    else if s[0] == '/' && s[1] == '/' then []
    else
      var t := BeforeComment(s[1..]);
      var r := [s[0]] + t;
      assert forall i :: 0 <= i < |r| ==> !CommentAt(s, i) by {
        forall i | 0 <= i < |r| ensures !CommentAt(s, i) {
          if i > 0 {
            assert !CommentAt(s[1..], i - 1);
          }
        }
      }
      r
  }

  /** The index of the first non-whitespace character of `s` at or after `i` (or `|s|`). */
  function TextStart(s: string, i: nat): (k: nat)
    requires i <= |s|
    ensures i <= k <= |s|
    ensures forall m :: i <= m < k ==> IsSpace(s[m])
    ensures k < |s| ==> !IsSpace(s[k])
    decreases |s| - i
  {
    if i < |s| && IsSpace(s[i]) then TextStart(s, i + 1) else i
  }

  /** One past the last non-whitespace character of `s[lo..j]` (or `lo`). */
  function TextEnd(s: string, lo: nat, j: nat): (k: nat)
    requires lo <= j <= |s|
    ensures lo <= k <= j
    ensures forall m :: k <= m < j ==> IsSpace(s[m])
    ensures k > lo ==> !IsSpace(s[k - 1])
    decreases j
  {
    if j > lo && IsSpace(s[j - 1]) then TextEnd(s, lo, j - 1) else j
  }

  /** `s.strip()`: `s` without its leading and trailing whitespace. */
  function Strip(s: string): string {
    var i := TextStart(s, 0);
    s[i..TextEnd(s, i, |s|)]
  }

  /** A line as `tokenize` keeps it: `line.partition('//')[0].strip()`. */
  function CleanLine(line: string): string {
    Strip(BeforeComment(line))
  }

  predicate IsClean(t: string) {
    && t != []
    && NoComment(t)
    && !IsSpace(t[0])
    && !IsSpace(t[|t| - 1])
  }

  /** The lines `tokenize` yields, in order. */
  function Tokenize(lines: seq<string>): (ts: seq<string>)
    ensures |ts| <= |lines|
  {
    if lines == [] then []
    else
      var c := CleanLine(lines[0]);
      (if c == [] then [] else [c]) + Tokenize(lines[1..])
  }

  /** A line cleans to nothing exactly when all of it before the first `//` is whitespace. */
  lemma CleanLineEmpty(line: string)
    ensures CleanLine(line) == [] <==> forall k :: 0 <= k < |BeforeComment(line)| ==> IsSpace(BeforeComment(line)[k])
  {
    var b := BeforeComment(line);
    var i := TextStart(b, 0);
    var j := TextEnd(b, i, |b|);
    assert CleanLine(line) == b[i..j];
    if j != i {
      assert CleanLine(line) != [] by {
        assert |b[i..j]| == j - i;
      }
      assert 0 <= j - 1 < |BeforeComment(line)| && !IsSpace(BeforeComment(line)[j - 1]);
    }
  }

  /** What is left of a line holds no `//` and no surrounding whitespace. */
  lemma CleanLineIsClean(line: string)
    requires CleanLine(line) != []
    ensures IsClean(CleanLine(line))
  {
    var b := BeforeComment(line);
    var i := TextStart(b, 0);
    var j := TextEnd(b, i, |b|);
    var r := b[i..j];
    assert CleanLine(line) == r;
    assert i < j <= |b| <= |line|;
    assert r[0] == b[i] && r[|r| - 1] == b[j - 1];
    forall m | 0 <= m < |r| ensures !CommentAt(r, m) {
      if m + 1 < |r| {
        assert r[m] == line[i + m] && r[m + 1] == line[i + m + 1];
        assert !CommentAt(line, i + m);
      }
    }
  }

  /** Cleaning a clean line changes nothing. */
  lemma {:induction false} CleanLineOfClean(t: string)
    requires IsClean(t)
    ensures CleanLine(t) == t
  {
    var b := BeforeComment(t);
    assert !CommentAt(t, |b|);
    assert b == t;
    assert TextStart(t, 0) == 0;
    assert TextEnd(t, 0, |t|) == |t|;
    assert t[0..|t|] == t;
  }

  /** Cleaning is idempotent: tokenizing the tokenizer's output gives it back. */
  lemma {:induction false} TokenizeIdempotent(lines: seq<string>)
    ensures Tokenize(Tokenize(lines)) == Tokenize(lines)
  {
    if lines != [] {
      var c := CleanLine(lines[0]);
      var rest := Tokenize(lines[1..]);
      TokenizeIdempotent(lines[1..]);
      if c != [] {
        CleanLineIsClean(lines[0]);
        CleanLineOfClean(c);
        var ts := [c] + rest;
        assert ts[1..] == rest;
        assert Tokenize(ts) == [c] + Tokenize(rest);
      } else {
        assert Tokenize(lines) == rest;
      }
    }
  }

  /** Every line `tokenize` yields is non-empty, comment-free and trimmed. */
  lemma {:induction false} TokenizeClean(lines: seq<string>)
    ensures forall k :: 0 <= k < |Tokenize(lines)| ==> IsClean(Tokenize(lines)[k])
  {
    if lines != [] {
      TokenizeClean(lines[1..]);
      if CleanLine(lines[0]) != [] {
        CleanLineIsClean(lines[0]);
      }
    }
  }

  /** No reordering: the lines of a concatenation tokenize to the concatenated tokens. */
  lemma {:induction false} TokenizeAppend(xs: seq<string>, ys: seq<string>)
    ensures Tokenize(xs + ys) == Tokenize(xs) + Tokenize(ys)
  {
    if xs != [] {
      var head := if CleanLine(xs[0]) == [] then [] else [CleanLine(xs[0])];
      assert (xs + ys)[0] == xs[0] && (xs + ys)[1..] == xs[1..] + ys;
      assert Tokenize(xs + ys) == head + Tokenize(xs[1..] + ys);
      TokenizeAppend(xs[1..], ys);
    } else {
      assert xs + ys == ys;
    }
  }

  /** A line with something left before its comment contributes exactly its cleaned text. */
  lemma {:induction false} TokenizeSingle(line: string)
    ensures Tokenize([line]) == if CleanLine(line) == [] then [] else [CleanLine(line)]
  {
    assert [line][1..] == [];
  }

  /** An instruction read with its line end comes out without it. */
  lemma CleanLineEndOfLine(t: string)
    requires IsClean(t)
    ensures CleanLine(t + "\n") == t
  {
    var s := t + "\n";
    assert forall i :: 0 <= i < |s| ==> !CommentAt(s, i) by {
      forall i | 0 <= i < |s| ensures !CommentAt(s, i) {
        if i + 1 < |t| {
          assert !CommentAt(t, i);
        }
      }
    }
    assert BeforeComment(s) == s;
    assert TextStart(s, 0) == 0;
    assert TextEnd(s, 0, |t|) == |t|;
    assert s[..|t|] == t;
  }

  /** An instruction followed by a space and a `//` comment comes out alone. */
  lemma CleanLineTrailingComment(t: string, comment: string)
    requires IsClean(t)
    ensures CleanLine(t + " //" + comment) == t
  {
    var s := t + " //" + comment;
    var b := BeforeComment(s);
    assert CommentAt(s, |t| + 1);
    assert forall i :: 0 <= i <= |t| ==> !CommentAt(s, i) by {
      forall i | 0 <= i <= |t| ensures !CommentAt(s, i) {
        if i + 1 < |t| {
          assert !CommentAt(t, i);
        }
      }
    }
    assert |b| == |t| + 1;
    assert b == t + " ";
    assert TextStart(b, 0) == 0;
    assert TextEnd(b, 0, |t|) == |t|;
    assert b[..|t|] == t;
  }

  /** Each instruction on its own line, as a file holds them. */
  function WithLineEnds(ts: seq<string>): (lines: seq<string>)
    ensures |lines| == |ts|
    ensures forall k :: 0 <= k < |ts| ==> lines[k] == ts[k] + "\n"
  {
    seq(|ts|, k requires 0 <= k < |ts| => ts[k] + "\n")
  }

  /** Instructions written one per line are read back as they were. */
  lemma {:induction false} TokenizeWithLineEnds(ts: seq<string>)
    requires forall k :: 0 <= k < |ts| ==> IsClean(ts[k])
    ensures Tokenize(WithLineEnds(ts)) == ts
  {
    if ts != [] {
      CleanLineEndOfLine(ts[0]);
      assert WithLineEnds(ts)[1..] == WithLineEnds(ts[1..]);
      TokenizeWithLineEnds(ts[1..]);
    }
  }

  /** The instructions of a small addition program, `R0 = 2 + 3`. */
  const AddProgram: seq<string> := ["@2", "D=A", "@3", "D=D+A", "@0", "M=D"]

  /** A comment line and a blank line, as a file may start. */
  const AddHeader: seq<string> := ["// Computes R0 = 2 + 3\n", "\n"]

  lemma AddProgramClean()
    ensures forall k :: 0 <= k < |AddProgram| ==> IsClean(AddProgram[k])
  {
    assert IsClean(AddProgram[0]) && IsClean(AddProgram[1]) && IsClean(AddProgram[2]);
    assert IsClean(AddProgram[3]) && IsClean(AddProgram[4]) && IsClean(AddProgram[5]);
  }

  lemma AddHeaderDropped()
    ensures Tokenize(AddHeader) == []
  {
    assert CleanLine(AddHeader[0]) == "" by {
      assert CommentAt(AddHeader[0], 0);
    }
    assert CleanLine(AddHeader[1]) == "" by {
      CleanLineEmpty(AddHeader[1]);
    }
    assert AddHeader[1..] == ["\n"];
    assert AddHeader[1..][1..] == [];
  }

  /** The addition program, after a comment line and a blank line, is read as exactly its six instructions. */
  lemma TokenizeAddExample()
    ensures Tokenize(AddHeader + WithLineEnds(AddProgram)) == AddProgram
  {
    AddProgramClean();
    TokenizeWithLineEnds(AddProgram);
    AddHeaderDropped();
    TokenizeAppend(AddHeader, WithLineEnds(AddProgram));
  }
}
