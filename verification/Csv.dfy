/** CSV output of the shell, and the reader of ".import" (RFC 4180, section 2). */
module Csv {
  import opened Wrappers
  import opened Words

  const QUOTE: Byte := 34
  const CR: Byte := 13
  const LF: Byte := 10
  const EOF := -1

  /** A separator of one 7-bit character. */
  type Separator = b: Byte | 0 < b < 128 witness 44

  /** needCsvQuote: controls, blanks, both kinds of quotes, and everything from 0x7f on. */
  predicate NeedCsvQuote(c: Byte) {
    c <= 32 || c == QUOTE || c == 39 || c >= 127
  }

  predicate MustQuote(z: seq<Byte>, sep: Separator) {
    z == [] || exists i | 0 <= i < |z| :: NeedCsvQuote(z[i]) || z[i] == sep
  }

  /** What "%w" makes of a string. */
  function Doubled(z: seq<Byte>): seq<Byte> {
    if z == [] then [] else (if z[0] == QUOTE then [QUOTE, QUOTE] else [z[0]]) + Doubled(z[1..])
  }

  function Term(z: seq<Byte>, sep: Separator): seq<Byte> {
    if MustQuote(z, sep) then [QUOTE] + Doubled(z) + [QUOTE] else z
  }

  lemma DoubledIsLonger(z: seq<Byte>)
    ensures |Doubled(z)| >= |z|
  {}

  /** output_csv without the separator after the term: bare only if all bytes are graphic, and no quotes. */
  method OutputCsv(z: seq<Byte>, sep: Separator) returns (out: seq<Byte>)
    ensures out == Term(z, sep)
    ensures out == z <==>
      z != [] && forall i | 0 <= i < |z| :: 33 <= z[i] <= 126 && z[i] != 34 && z[i] != 39 && z[i] != sep
    ensures out != z ==> out == [34] + Doubled(z) + [34]
  {
    DoubledIsLonger(z);
    var i := 0;
    while i < |z|
      invariant 0 <= i <= |z|
      invariant forall j | 0 <= j < i :: !NeedCsvQuote(z[j]) && z[j] != sep
    {
      if NeedCsvQuote(z[i]) || z[i] == sep {
        i := 0;
        break;
      }
      i := i + 1;
    }
    out := if i == 0 then [QUOTE] + Doubled(z) + [QUOTE] else z;
  }

  /** The row of MODE_Csv: terms with separators between them and CR LF at the end. */
  function RowText(row: seq<seq<Byte>>, sep: Separator): seq<Byte> {
    if row == [] then []
    else if |row| == 1 then Term(row[0], sep) + [CR, LF]
    else Term(row[0], sep) + [sep] + RowText(row[1..], sep)
  }

  function TableText(rows: seq<seq<seq<Byte>>>, sep: Separator): seq<Byte> {
    if rows == [] then [] else RowText(rows[0], sep) + TableText(rows[1..], sep)
  }

  /** A field as it is returned (None at the end of the file), what is left to read, cTerm and nLine. */
  datatype Field = Field(text: Option<seq<Byte>>, rest: seq<Byte>, cTerm: int, nLine: nat)

  /** z up to its last quote. */
  function CutAtQuote(z: seq<Byte>): seq<Byte>
    requires QUOTE in z
  {
    if z[|z| - 1] == QUOTE then z[..|z| - 1] else CutAtQuote(z[..|z| - 1])
  }

  /** The last two bytes that are remembered are the last two of z, where that matters. */
  ghost predicate Remembered(z: seq<Byte>, pc: int, ppc: int) {
    && (pc == QUOTE ==> z != [] && z[|z| - 1] == QUOTE)
    && (pc == CR && ppc == QUOTE ==> QUOTE in z)
  }

  predicate Closes(c: int, pc: int, ppc: int, sep: Separator) {
    || (c == sep && pc == QUOTE)
    || (c == LF && pc == QUOTE)
    || (c == LF && pc == CR && ppc == QUOTE)
    || (c == EOF && pc == QUOTE)
  }

  /** The loop over a quoted field. */
  function Quoted(rest: seq<Byte>, z: seq<Byte>, pc: int, ppc: int, nLine: nat, sep: Separator): Field
    requires Remembered(z, pc, ppc)
    decreases |rest|
  {
    if rest == [] then Field(Some(if pc == QUOTE then CutAtQuote(z) else z), [], EOF, nLine) else
    var c := rest[0];
    var nLine' := if c == LF then nLine + 1 else nLine;
    if c == QUOTE && pc == QUOTE then Quoted(rest[1..], z, 0, ppc, nLine', sep)
    else if Closes(c, pc, ppc, sep) then Field(Some(CutAtQuote(z)), rest[1..], c, nLine')
    else Quoted(rest[1..], z + [c], c, pc, nLine', sep)
  }

  /** The loop over a field without quotes. */
  function Plain(rest: seq<Byte>, z: seq<Byte>, nLine: nat, sep: Separator): Field
    decreases |rest|
  {
    if rest == [] then Field(Some(z), [], EOF, nLine)
    else if rest[0] == LF then
      Field(Some(if z != [] && z[|z| - 1] == CR then z[..|z| - 1] else z), rest[1..], LF, nLine + 1)
    else if rest[0] == sep then Field(Some(z), rest[1..], sep, nLine)
    else Plain(rest[1..], z + [rest[0]], nLine, sep)
  }

  predicate StartsWithBom(rest: seq<Byte>) {
    |rest| >= 3 && rest[0] == 0xef && rest[1] == 0xbb && rest[2] == 0xbf
  }

  /** csv_read_one_field; `first` says that nothing has been read before. */
  function ReadField(rest: seq<Byte>, first: bool, nLine: nat, sep: Separator): Field {
    if rest == [] then Field(None, [], EOF, nLine)
    else if rest[0] == QUOTE then Quoted(rest[1..], [], 0, 0, nLine, sep)
    else if first && StartsWithBom(rest) then ReadField(rest[3..], false, nLine, sep)
    else Plain(rest, [], nLine, sep)
  }

  class ImportCtx {
    var input: seq<Byte>
    var z: seq<Byte>
    var nLine: nat
    var bNotFirst: bool
    var cTerm: int
    const cColSep: Separator

    constructor (input: seq<Byte>, cColSep: Separator)
      ensures this.input == input && this.cColSep == cColSep && nLine == 1 && !bNotFirst
    {
      this.input, this.cColSep := input, cColSep;
      z, nLine, bNotFirst, cTerm := [], 1, false, 0;
    }

    method Fgetc() returns (c: int)
      modifies this`input
      ensures if old(input) == [] then c == EOF && input == [] else c == old(input)[0] && input == old(input)[1..]
    {
      if input == [] {
        c := EOF;
      } else {
        c := input[0];
        input := input[1..];
      }
    }

    /** The loop that cuts off the closing quote, and with it a CR. */
    method DropQuote()
      requires QUOTE in z
      modifies this`z
      ensures z == CutAtQuote(old(z))
    {
      var n := |z| - 1;
      assert z[..n + 1] == z;
      while z[n] != QUOTE
        invariant 0 <= n < |z| && QUOTE in z[..n + 1]
        invariant CutAtQuote(z[..n + 1]) == CutAtQuote(z)
        decreases n
      {
        assert z[..n + 1][..n] == z[..n];
        n := n - 1;
      }
      assert z[..n + 1][..n] == z[..n];
      z := z[..n];
    }

    method ReadQuoted()
      requires z == []
      modifies this`input, this`z, this`nLine, this`cTerm
      ensures Field(Some(z), input, cTerm, nLine) == Quoted(old(input), [], 0, 0, old(nLine), cColSep)
    {
      var pc, ppc := 0, 0;
      var done := false;
      while !done
        invariant !done ==> Remembered(z, pc, ppc)
        invariant !done ==>
          Quoted(input, z, pc, ppc, nLine, cColSep) == Quoted(old(input), [], 0, 0, old(nLine), cColSep)
        invariant done ==> Field(Some(z), input, cTerm, nLine) == Quoted(old(input), [], 0, 0, old(nLine), cColSep)
        decreases |input|, !done
      {
        var c := Fgetc();
        if c == LF {
          nLine := nLine + 1;
        }
        if c == QUOTE && pc == QUOTE {
          pc := 0;
        } else if Closes(c, pc, ppc, cColSep) {
          DropQuote();
          cTerm := c;
          done := true;
        } else if c == EOF {
          cTerm := c;
          done := true;
        } else {
          z := z + [c];
          ppc := pc;
          pc := c;
        }
      }
    }

    method ReadPlain(first: int)
      requires if first == EOF then input == [] else 0 <= first < 256
      modifies this`input, this`z, this`nLine, this`cTerm
      ensures Field(Some(z), input, cTerm, nLine)
        == Plain((if first == EOF then [] else [first]) + old(input), old(z), old(nLine), cColSep)
    {
      var c := first;
      while c != EOF && c != cColSep && c != LF
        invariant c != EOF ==> 0 <= c < 256
        invariant c == EOF ==> input == []
        invariant nLine == old(nLine)
        invariant Plain((if c == EOF then [] else [c]) + input, z, nLine, cColSep)
          == Plain((if first == EOF then [] else [first]) + old(input), old(z), old(nLine), cColSep)
        decreases |input|, c != EOF
      {
        assert ([c] + input)[1..] == input;
        z := z + [c];
        c := Fgetc();
      }
      if c == LF {
        nLine := nLine + 1;
        if z != [] && z[|z| - 1] == CR {
          z := z[..|z| - 1];
        }
      }
      cTerm := c;
    }

    /** csv_read_one_field; None stands for the NULL it returns at the end of the file. */
    method ReadOneField() returns (r: Option<seq<Byte>>)
      modifies this
      ensures Field(r, input, cTerm, nLine) == ReadField(old(input), !old(bNotFirst), old(nLine), cColSep)
      ensures r.Some? || old(bNotFirst) ==> bNotFirst
      decreases |input|
    {
      hide Quoted, Plain;
      z := [];
      var c := Fgetc();
      if c == EOF {
        cTerm := EOF;
        return None;
      }
      if c == QUOTE {
        ReadQuoted();
      } else {
        assert old(input) == [c] + input;
        if c == 0xef && !bNotFirst {
          z := z + [c];
          assert z == [0xef];
          c := Fgetc();
          if c == 0xbb {
            z := z + [c];
            c := Fgetc();
            if c == 0xbf {
              bNotFirst := true;
              z := [];
              r := ReadOneField();
              return;
            }
            assert old(input)[1..] == [0xbb] + ((if c == EOF then [] else [c]) + input);
            PlainStep(0xbb, (if c == EOF then [] else [c]) + input, [0xef], nLine, cColSep);
          } else {
            assert old(input)[1..] == (if c == EOF then [] else [c]) + input;
          }
          assert old(input) == [0xef] + old(input)[1..];
          PlainStep(0xef, old(input)[1..], [], nLine, cColSep);
        }
        ReadPlain(c);
      }
      bNotFirst := true;
      r := Some(z);
    }
  }

  lemma PlainStep(c: Byte, rest: seq<Byte>, z: seq<Byte>, nLine: nat, sep: Separator)
    requires c != sep && c != LF
    ensures Plain([c] + rest, z, nLine, sep) == Plain(rest, z + [c], nLine, sep)
  {
    assert ([c] + rest)[1..] == rest;
  }
}
