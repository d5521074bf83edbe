/** What ".import" makes of a CSV file, and of the files that the shell writes itself. */
module CsvTable {
  import opened Wrappers
  import opened Words
  import opened Csv

  function Lines(s: seq<Byte>): nat {
    if s == [] then 0 else (if s[0] == LF then 1 else 0) + Lines(s[1..])
  }

  lemma {:induction false} LinesConcat(s: seq<Byte>, t: seq<Byte>)
    ensures Lines(s + t) == Lines(s) + Lines(t)
  {
    if s == [] {
      assert s + t == t;
    } else {
      assert (s + t)[1..] == s[1..] + t;
      LinesConcat(s[1..], t);
    }
  }

  lemma {:induction false} QuotedCounts(rest: seq<Byte>, z: seq<Byte>, pc: int, ppc: int, nLine: nat, sep: Separator)
    requires Remembered(z, pc, ppc)
    ensures var f := Quoted(rest, z, pc, ppc, nLine, sep); nLine + Lines(rest) == f.nLine + Lines(f.rest)
    decreases |rest|
  {
    if rest != [] {
      var c := rest[0];
      var nLine' := if c == LF then nLine + 1 else nLine;
      if c == QUOTE && pc == QUOTE {
        QuotedCounts(rest[1..], z, 0, ppc, nLine', sep);
      } else if !Closes(c, pc, ppc, sep) {
        QuotedCounts(rest[1..], z + [c], c, pc, nLine', sep);
      }
    }
  }

  lemma {:induction false} PlainCounts(rest: seq<Byte>, z: seq<Byte>, nLine: nat, sep: Separator)
    ensures var f := Plain(rest, z, nLine, sep); nLine + Lines(rest) == f.nLine + Lines(f.rest)
    decreases |rest|
  {
    if rest != [] && rest[0] != LF && rest[0] != sep {
      PlainCounts(rest[1..], z + [rest[0]], nLine, sep);
    }
  }

  /** Whatever is read, the line number grows by the line ends that are passed. */
  lemma FieldCounts(rest: seq<Byte>, first: bool, nLine: nat, sep: Separator)
    ensures var f := ReadField(rest, first, nLine, sep); nLine + Lines(rest) == f.nLine + Lines(f.rest)
    decreases |rest|
  {
    hide Quoted, Plain;
    if rest == [] {
    } else if rest[0] == QUOTE {
      QuotedCounts(rest[1..], [], 0, 0, nLine, sep);
    } else if first && StartsWithBom(rest) {
      assert rest == rest[..3] + rest[3..];
      NoLines(rest[..3]);
      LinesConcat(rest[..3], rest[3..]);
      FieldCounts(rest[3..], false, nLine, sep);
    } else {
      PlainCounts(rest, [], nLine, sep);
    }
  }

  lemma {:induction false} QuotedEndsAtEof(rest: seq<Byte>, z: seq<Byte>, pc: int, ppc: int, nLine: nat, sep: Separator)
    requires Remembered(z, pc, ppc)
    ensures var f := Quoted(rest, z, pc, ppc, nLine, sep); f.cTerm == EOF ==> f.rest == []
    decreases |rest|
  {
    if rest != [] {
      var c := rest[0];
      var nLine' := if c == LF then nLine + 1 else nLine;
      if c == QUOTE && pc == QUOTE {
        QuotedEndsAtEof(rest[1..], z, 0, ppc, nLine', sep);
      } else if !Closes(c, pc, ppc, sep) {
        QuotedEndsAtEof(rest[1..], z + [c], c, pc, nLine', sep);
      }
    }
  }

  lemma {:induction false} PlainEndsAtEof(rest: seq<Byte>, z: seq<Byte>, nLine: nat, sep: Separator)
    ensures var f := Plain(rest, z, nLine, sep); f.cTerm == EOF ==> f.rest == []
    decreases |rest|
  {
    if rest != [] && rest[0] != LF && rest[0] != sep {
      PlainEndsAtEof(rest[1..], z + [rest[0]], nLine, sep);
    }
  }

  /** A field that is ended by the end of the file leaves nothing to read. */
  lemma EndsAtEof(rest: seq<Byte>, first: bool, nLine: nat, sep: Separator)
    ensures var f := ReadField(rest, first, nLine, sep); f.cTerm == EOF ==> f.rest == []
    decreases |rest|
  {
    hide Quoted, Plain;
    if rest == [] {
    } else if rest[0] == QUOTE {
      QuotedEndsAtEof(rest[1..], [], 0, 0, nLine, sep);
    } else if first && StartsWithBom(rest) {
      EndsAtEof(rest[3..], false, nLine, sep);
    } else {
      PlainEndsAtEof(rest, [], nLine, sep);
    }
  }

  /** Inside a quoted field the doubled text is read as the text. */
  lemma {:induction false} QuotedReads(z: seq<Byte>, tail: seq<Byte>, pre: seq<Byte>, pc: int, ppc: int, nLine: nat,
                                       sep: Separator)
    returns (pc': int, ppc': int)
    requires pc != QUOTE && ppc != QUOTE
    ensures pc' != QUOTE && ppc' != QUOTE
    ensures Quoted(Doubled(z) + tail, pre, pc, ppc, nLine, sep)
      == Quoted(tail, pre + z, pc', ppc', nLine + Lines(z), sep)
    decreases |z|
  {
    hide Quoted;
    if z == [] {
      assert Doubled(z) + tail == tail && pre + z == pre;
      pc', ppc' := pc, ppc;
    } else {
      var rest := Doubled(z[1..]) + tail;
      assert (pre + [z[0]]) + z[1..] == pre + z;
      if z[0] == QUOTE {
        assert Doubled(z) + tail == [QUOTE, QUOTE] + rest;
        TwoQuotes(rest, pre, pc, ppc, nLine, sep);
        pc', ppc' := QuotedReads(z[1..], tail, pre + [z[0]], 0, pc, nLine, sep);
      } else {
        assert Doubled(z) + tail == [z[0]] + rest;
        OrdinaryByte(z[0], rest, pre, pc, ppc, nLine, sep);
        pc', ppc' := QuotedReads(z[1..], tail, pre + [z[0]], z[0], pc, if z[0] == LF then nLine + 1 else nLine, sep);
      }
    }
  }

  lemma OrdinaryByte(c: Byte, rest: seq<Byte>, pre: seq<Byte>, pc: int, ppc: int, nLine: nat, sep: Separator)
    requires pc != QUOTE && ppc != QUOTE && c != QUOTE
    ensures Quoted([c] + rest, pre, pc, ppc, nLine, sep)
      == Quoted(rest, pre + [c], c, pc, if c == LF then nLine + 1 else nLine, sep)
  {
    assert ([c] + rest)[1..] == rest;
  }

  lemma TwoQuotes(rest: seq<Byte>, pre: seq<Byte>, pc: int, ppc: int, nLine: nat, sep: Separator)
    requires pc != QUOTE && ppc != QUOTE
    ensures Quoted([QUOTE, QUOTE] + rest, pre, pc, ppc, nLine, sep) == Quoted(rest, pre + [QUOTE], 0, pc, nLine, sep)
  {
    assert ([QUOTE, QUOTE] + rest)[1..] == [QUOTE] + rest && ([QUOTE] + rest)[1..] == rest;
  }

  /** What can follow a field. */
  datatype End = AtSeparator | AtLf | AtCrLf | AtEof

  function Ending(end: End, sep: Separator): seq<Byte> {
    match end
    case AtSeparator => [sep]
    case AtLf => [LF]
    case AtCrLf => [CR, LF]
    case AtEof => []
  }

  /** What is returned for a text that is ended so, with the rest of the file. */
  function EndedField(text: seq<Byte>, end: End, more: seq<Byte>, nLine: nat, sep: Separator): Field {
    match end
    case AtSeparator => Field(Some(text), more, sep, nLine)
    case AtEof => Field(Some(text), [], EOF, nLine)
    case _ => Field(Some(text), more, LF, nLine + 1)
  }

  lemma QuotedEnds(z: seq<Byte>, end: End, more: seq<Byte>, pc: int, ppc: int, nLine: nat, sep: Separator)
    requires pc != QUOTE && ppc != QUOTE && sep != QUOTE && sep != CR && sep != LF && (end.AtEof? ==> more == [])
    ensures Quoted([QUOTE] + Ending(end, sep) + more, z, pc, ppc, nLine, sep) == EndedField(z, end, more, nLine, sep)
  {
    var q := z + [QUOTE];
    assert ([QUOTE] + Ending(end, sep) + more)[1..] == Ending(end, sep) + more;
    assert q[..|z|] == z && CutAtQuote(q) == z;
    match end {
      case AtCrLf =>
        assert (Ending(end, sep) + more)[1..] == [LF] + more && ([LF] + more)[1..] == more;
        assert (q + [CR])[..|q|] == q;
        assert Quoted([LF] + more, q + [CR], CR, QUOTE, nLine, sep) == Field(Some(z), more, LF, nLine + 1);
      case AtEof =>
        assert Ending(end, sep) + more == [];
      case _ =>
        assert (Ending(end, sep) + more)[1..] == more;
    }
  }

  lemma PlainEnds(end: End, more: seq<Byte>, z: seq<Byte>, nLine: nat, sep: Separator)
    requires sep != CR && sep != LF && (end.AtEof? ==> more == []) && (end.AtLf? && z != [] ==> z[|z| - 1] != CR)
    ensures Plain(Ending(end, sep) + more, z, nLine, sep) == EndedField(z, end, more, nLine, sep)
  {
    match end {
      case AtCrLf =>
        assert Ending(end, sep) + more == [CR] + ([LF] + more);
        PlainStep(CR, [LF] + more, z, nLine, sep);
        assert ([LF] + more)[1..] == more && (z + [CR])[..|z|] == z;
      case AtEof =>
        assert Ending(end, sep) + more == [];
      case _ =>
        assert (Ending(end, sep) + more)[1..] == more;
    }
  }

  lemma {:induction false} PlainReads(z: seq<Byte>, end: End, more: seq<Byte>, pre: seq<Byte>, nLine: nat,
                                      sep: Separator)
    requires sep != CR && sep != LF && (end.AtEof? ==> more == [])
    requires forall i | 0 <= i < |z| :: z[i] != LF && z[i] != sep
    requires var t := pre + z; end.AtLf? && t != [] ==> t[|t| - 1] != CR
    ensures Plain(z + Ending(end, sep) + more, pre, nLine, sep) == EndedField(pre + z, end, more, nLine, sep)
    decreases |z|
  {
    hide Plain, Ending;
    if z == [] {
      assert z + Ending(end, sep) + more == Ending(end, sep) + more && pre + z == pre;
      PlainEnds(end, more, pre, nLine, sep);
    } else {
      assert z + Ending(end, sep) + more == [z[0]] + (z[1..] + Ending(end, sep) + more);
      PlainStep(z[0], z[1..] + Ending(end, sep) + more, pre, nLine, sep);
      assert (pre + [z[0]]) + z[1..] == pre + z;
      PlainReads(z[1..], end, more, pre + [z[0]], nLine, sep);
    }
  }

  lemma {:induction false} NoLines(z: seq<Byte>)
    requires forall i | 0 <= i < |z| :: z[i] != LF
    ensures Lines(z) == 0
  {
    if z != [] {
      NoLines(z[1..]);
    }
  }

  lemma QuotedTermReads(z: seq<Byte>, end: End, more: seq<Byte>, nLine: nat, sep: Separator)
    requires sep != QUOTE && sep != CR && sep != LF && (end.AtEof? ==> more == [])
    ensures Quoted(Doubled(z) + ([QUOTE] + Ending(end, sep) + more), [], 0, 0, nLine, sep)
      == EndedField(z, end, more, nLine + Lines(z), sep)
  {
    hide Quoted, Ending, Doubled;
    var pc, ppc := QuotedReads(z, [QUOTE] + Ending(end, sep) + more, [], 0, 0, nLine, sep);
    assert [] + z == z;
    QuotedEnds(z, end, more, pc, ppc, nLine + Lines(z), sep);
  }

  lemma QuotedParts(d: seq<Byte>, e: seq<Byte>, more: seq<Byte>)
    ensures var s := [QUOTE] + d + [QUOTE] + e + more; s[0] == QUOTE && s[1..] == d + ([QUOTE] + e + more)
  {}

  /** A quoted text is read back whatever it is and however it ends. */
  lemma QuotedFieldReads(z: seq<Byte>, end: End, more: seq<Byte>, first: bool, nLine: nat, sep: Separator)
    requires sep != QUOTE && sep != CR && sep != LF && (end.AtEof? ==> more == [])
    ensures ReadField([QUOTE] + Doubled(z) + [QUOTE] + Ending(end, sep) + more, first, nLine, sep)
      == EndedField(z, end, more, nLine + Lines(z), sep)
  {
    hide Quoted, Plain, Ending, Doubled, Lines;
    QuotedTermReads(z, end, more, nLine, sep);
    QuotedParts(Doubled(z), Ending(end, sep), more);
  }

  /** A text without quotes is read up to the separator or the line end, of which a CR is part. */
  lemma PlainFieldReads(z: seq<Byte>, end: End, more: seq<Byte>, nLine: nat, sep: Separator)
    requires sep != QUOTE && sep != CR && sep != LF && (end.AtEof? ==> more == [])
    requires z != [] && z[0] != QUOTE && forall i | 0 <= i < |z| :: z[i] != LF && z[i] != sep
    requires end.AtLf? ==> z[|z| - 1] != CR
    ensures ReadField(z + Ending(end, sep) + more, false, nLine, sep) == EndedField(z, end, more, nLine, sep)
  {
    hide Quoted, Plain, Ending;
    assert [] + z == z && (z + Ending(end, sep) + more)[0] == z[0];
    PlainReads(z, end, more, [], nLine, sep);
  }

  /** The two fields of the line "a""b",c as bytes. */
  lemma TwoFieldsRead()
    ensures ReadField([34, 97, 34, 34, 98, 34, 44, 99, 13, 10], false, 1, 44)
      == Field(Some([97, 34, 98]), [99, 13, 10], 44, 1)
    ensures ReadField([99, 13, 10], false, 1, 44) == Field(Some([99]), [], 10, 2)
  {
    hide ReadField, Doubled, Lines;
    QuoteDoubled();
    QuotedFieldReads([97, 34, 98], AtSeparator, [99, 13, 10], false, 1, 44);
    assert [34] + [97, 34, 34, 98] + [34] + [44] + [99, 13, 10] == [34, 97, 34, 34, 98, 34, 44, 99, 13, 10];
    PlainFieldReads([99], AtCrLf, [], 1, 44);
    assert [99 as Byte] + [13, 10] + [] == [99, 13, 10];
  }

  lemma QuoteDoubled()
    ensures Doubled([97, 34, 98]) == [97, 34, 34, 98] && Lines([97, 34, 98]) == 0
  {
    assert Doubled([98]) == [98] && Doubled([34, 98]) == [34, 34, 98];
    assert Lines([98]) == 0 && Lines([34, 98]) == 0;
  }

  /** A term that was written is read back, together with what ends it. */
  lemma TermReads(z: seq<Byte>, end: End, more: seq<Byte>, first: bool, nLine: nat, sep: Separator)
    requires sep != QUOTE && sep != CR && sep != LF && (end.AtEof? ==> more == [])
    ensures ReadField(Term(z, sep) + Ending(end, sep) + more, first, nLine, sep)
      == EndedField(z, end, more, nLine + Lines(z), sep)
  {
    hide Quoted, Plain, Ending, Doubled, Lines, ReadField;
    if MustQuote(z, sep) {
      QuotedFieldReads(z, end, more, first, nLine, sep);
    } else {
      PlainFieldReads(z, end, more, nLine, sep);
      NoLines(z);
      FirstIsPlain(z, Ending(end, sep) + more, first, nLine, sep);
      assert z + Ending(end, sep) + more == z + (Ending(end, sep) + more);
    }
  }

  /** What needs no quotes does not begin with a byte order mark. */
  lemma FirstIsPlain(z: seq<Byte>, more: seq<Byte>, first: bool, nLine: nat, sep: Separator)
    requires !MustQuote(z, sep)
    ensures ReadField(z + more, first, nLine, sep) == ReadField(z + more, false, nLine, sep)
  {
    hide Plain, Quoted;
    assert (z + more)[0] == z[0];
  }

  /**
   What is bound for the columns of a row, from column i on; z as a C string
   ends at its first NUL, and NULL stands for what is missing.
   */
  datatype Row = Row(values: seq<Option<seq<Byte>>>, rest: seq<Byte>, cTerm: int, nLine: nat)

  function Bound(text: Option<seq<Byte>>): (r: Option<seq<Byte>>)
    ensures r.None? <==> text.None?
    ensures r.Some? ==>
      var s, t := text.value, r.value; t <= s && 0 !in t && (|t| < |s| ==> s[|t|] == 0)
  {
    match text
    case None => None
    case Some(s) => Some(UpToNul(s))
  }

  function Nulls(n: nat): (r: seq<Option<seq<Byte>>>)
    ensures |r| == n && forall i | 0 <= i < n :: r[i] == None
  {
    seq(n, _ => None)
  }

  /** The loop over the columns of a row, of which n are still to come. */
  function Columns(rest: seq<Byte>, first: bool, nLine: nat, n: nat, sep: Separator): (r: Row)
    requires n > 0
    ensures |r.values| == n && |r.rest| <= |rest|
    decreases n
  {
    var f := ReadField(rest, first, nLine, sep);
    ReadsOn(rest, first, nLine, sep);
    if n == 1 then Row([Bound(f.text)], f.rest, f.cTerm, f.nLine)
    else if f.cTerm != sep then Row([Bound(f.text)] + Nulls(n - 1), f.rest, f.cTerm, f.nLine)
    else
      var r := Columns(f.rest, false, f.nLine, n - 1, sep);
      r.(values := [Bound(f.text)] + r.values)
  }

  /** Fields beyond the last column are read and dropped. */
  function Extras(r: Row, sep: Separator): (s: Row)
    ensures s.values == r.values && |s.rest| <= |r.rest|
    decreases |r.rest|, r.cTerm == sep
  {
    if r.cTerm != sep then r else
    var f := ReadField(r.rest, false, r.nLine, sep);
    ReadsOn(r.rest, false, r.nLine, sep);
    Extras(Row(r.values, f.rest, f.cTerm, f.nLine), sep)
  }

  lemma {:induction false} QuotedReadsOn(rest: seq<Byte>, z: seq<Byte>, pc: int, ppc: int, nLine: nat, sep: Separator)
    requires Remembered(z, pc, ppc)
    ensures var f := Quoted(rest, z, pc, ppc, nLine, sep); |f.rest| <= |rest|
    decreases |rest|
  {
    if rest != [] {
      var c := rest[0];
      var nLine' := if c == LF then nLine + 1 else nLine;
      if c == QUOTE && pc == QUOTE {
        QuotedReadsOn(rest[1..], z, 0, ppc, nLine', sep);
      } else if !Closes(c, pc, ppc, sep) {
        QuotedReadsOn(rest[1..], z + [c], c, pc, nLine', sep);
      }
    }
  }

  lemma {:induction false} PlainReadsOn(rest: seq<Byte>, z: seq<Byte>, nLine: nat, sep: Separator)
    ensures var f := Plain(rest, z, nLine, sep); |f.rest| <= |rest| && (rest != [] ==> |f.rest| < |rest|)
    decreases |rest|
  {
    if rest != [] && rest[0] != LF && rest[0] != sep {
      PlainReadsOn(rest[1..], z + [rest[0]], nLine, sep);
    }
  }

  /** Every field but the one at the end of the file takes something from it. */
  lemma ReadsOn(rest: seq<Byte>, first: bool, nLine: nat, sep: Separator)
    ensures var f := ReadField(rest, first, nLine, sep);
      |f.rest| <= |rest| && (rest != [] ==> |f.rest| < |rest|) && (rest == [] ==> f.cTerm == EOF)
    decreases |rest|
  {
    hide Quoted, Plain;
    if rest == [] {
    } else if rest[0] == QUOTE {
      QuotedReadsOn(rest[1..], [], 0, 0, nLine, sep);
    } else if first && StartsWithBom(rest) {
      ReadsOn(rest[3..], false, nLine, sep);
    } else {
      PlainReadsOn(rest, [], nLine, sep);
    }
  }

  /** The rows that are inserted into a table of nCol columns. */
  function Imported(rest: seq<Byte>, first: bool, nLine: nat, nCol: nat, sep: Separator): seq<seq<Option<seq<Byte>>>>
    requires nCol > 0
    decreases |rest|
  {
    if ReadField(rest, first, nLine, sep).text.None? then [] else
    var r := Extras(Columns(rest, first, nLine, nCol, sep), sep);
    ColumnsReadOn(rest, first, nLine, nCol, sep);
    [r.values] + if r.cTerm == EOF then [] else Imported(r.rest, false, r.nLine, nCol, sep)
  }

  lemma ColumnsReadOn(rest: seq<Byte>, first: bool, nLine: nat, n: nat, sep: Separator)
    requires n > 0 && rest != []
    ensures |Columns(rest, first, nLine, n, sep).rest| < |rest|
  {
    ReadsOn(rest, first, nLine, sep);
  }

  /** The loop over the columns; no values at all at the end of the file. */
  method ReadColumns(p: ImportCtx, nCol: nat) returns (values: seq<Option<seq<Byte>>>)
    requires nCol > 0
    modifies p
    ensures var f := ReadField(old(p.input), !old(p.bNotFirst), old(p.nLine), p.cColSep);
      if f.text.None? then values == [] && p.cTerm == EOF && p.input == f.rest else
      p.bNotFirst &&
      Row(values, p.input, p.cTerm, p.nLine) == Columns(old(p.input), !old(p.bNotFirst), old(p.nLine), nCol, p.cColSep)
    ensures p.nLine + Lines(p.input) == old(p.nLine + Lines(p.input)) && (p.cTerm == EOF ==> p.input == [])
  {
    hide ReadField, Bound, Columns, Joined, Lines;
    ghost var row := Columns(p.input, !p.bNotFirst, p.nLine, nCol, p.cColSep);
    JoinedToNothing(row);
    values := [];
    var i := 0;
    while i < nCol
      invariant i == 0 ==> values == [] && p.input == old(p.input) && p.nLine == old(p.nLine)
      invariant i == 0 ==> p.bNotFirst == old(p.bNotFirst)
      invariant i > 0 ==> ReadField(old(p.input), !old(p.bNotFirst), old(p.nLine), p.cColSep).text.Some? && p.bNotFirst
      invariant i < nCol ==> row == Joined(values, Columns(p.input, !p.bNotFirst, p.nLine, nCol - i, p.cColSep))
      invariant i >= nCol ==> row == Row(values, p.input, p.cTerm, p.nLine)
      invariant p.nLine + Lines(p.input) == old(p.nLine + Lines(p.input)) && (i > 0 && p.cTerm == EOF ==> p.input == [])
      decreases nCol - i
    {
      ReadsOn(p.input, !p.bNotFirst, p.nLine, p.cColSep);
      ColumnsStep(values, p.input, !p.bNotFirst, p.nLine, nCol - i, p.cColSep);
      FieldCounts(p.input, !p.bNotFirst, p.nLine, p.cColSep);
      EndsAtEof(p.input, !p.bNotFirst, p.nLine, p.cColSep);
      var z := p.ReadOneField();
      if z.None? && i == 0 {
        NothingReadAtEnd(old(p.input), !old(p.bNotFirst), old(p.nLine), p.cColSep);
        return [];
      }
      values := values + [Bound(z)];
      if i < nCol - 1 && p.cTerm != p.cColSep {
        values := values + Nulls(nCol - i - 1);
        i := nCol;
      } else {
        i := i + 1;
      }
    }
  }

  function Joined(before: seq<Option<seq<Byte>>>, r: Row): Row {
    r.(values := before + r.values)
  }

  lemma JoinedToNothing(r: Row)
    ensures Joined([], r) == r
  {
    assert [] + r.values == r.values;
  }

  lemma ColumnsUnfold(rest: seq<Byte>, first: bool, nLine: nat, n: nat, sep: Separator)
    requires n > 0
    ensures var f := ReadField(rest, first, nLine, sep);
      Columns(rest, first, nLine, n, sep) ==
        if n == 1 then Row([Bound(f.text)], f.rest, f.cTerm, f.nLine)
        else if f.cTerm != sep then Row([Bound(f.text)] + Nulls(n - 1), f.rest, f.cTerm, f.nLine)
        else
          var r := Columns(f.rest, false, f.nLine, n - 1, sep);
          r.(values := [Bound(f.text)] + r.values)
  {
    hide ReadField, Bound;
  }

  lemma ColumnsStep(before: seq<Option<seq<Byte>>>, rest: seq<Byte>, first: bool, nLine: nat, n: nat, sep: Separator)
    requires n > 0
    ensures var f := ReadField(rest, first, nLine, sep);
      var values := before + [Bound(f.text)];
      Joined(before, Columns(rest, first, nLine, n, sep)) ==
        if n == 1 then Row(values, f.rest, f.cTerm, f.nLine)
        else if f.cTerm != sep then Row(values + Nulls(n - 1), f.rest, f.cTerm, f.nLine)
        else Joined(values, Columns(f.rest, false, f.nLine, n - 1, sep))
  {
    hide ReadField, Bound, Columns, Nulls;
    var f := ReadField(rest, first, nLine, sep);
    ColumnsUnfold(rest, first, nLine, n, sep);
    if n > 1 {
      var more := if f.cTerm != sep then Nulls(n - 1) else Columns(f.rest, false, f.nLine, n - 1, sep).values;
      Regroup(before, Bound(f.text), more);
    }
  }

  lemma Regroup(a: seq<Option<seq<Byte>>>, x: Option<seq<Byte>>, b: seq<Option<seq<Byte>>>)
    ensures a + ([x] + b) == a + [x] + b
  {}

  lemma NothingReadAtEnd(rest: seq<Byte>, first: bool, nLine: nat, sep: Separator)
    requires ReadField(rest, first, nLine, sep).text.None?
    ensures ReadField(rest, first, nLine, sep).cTerm == EOF
    decreases |rest|
  {
    if rest == [] {
    } else if rest[0] == QUOTE {
      QuotedReturns(rest[1..], [], 0, 0, nLine, sep);
    } else if first && StartsWithBom(rest) {
      NothingReadAtEnd(rest[3..], false, nLine, sep);
    } else {
      PlainReturns(rest, [], nLine, sep);
    }
  }

  lemma QuotedReturns(rest: seq<Byte>, z: seq<Byte>, pc: int, ppc: int, nLine: nat, sep: Separator)
    requires Remembered(z, pc, ppc)
    ensures Quoted(rest, z, pc, ppc, nLine, sep).text.Some?
    decreases |rest|
  {}

  lemma PlainReturns(rest: seq<Byte>, z: seq<Byte>, nLine: nat, sep: Separator)
    ensures Plain(rest, z, nLine, sep).text.Some?
    decreases |rest|
  {}

  /** The loop of ".import" into a table of nCol columns; it reads the whole file and counts its lines. */
  method Import(p: ImportCtx, nCol: nat) returns (rows: seq<seq<Option<seq<Byte>>>>)
    requires nCol > 0
    modifies p
    ensures rows == Imported(old(p.input), !old(p.bNotFirst), old(p.nLine), nCol, p.cColSep)
    ensures p.input == [] && p.nLine == old(p.nLine) + Lines(old(p.input))
  {
    hide ReadField, Columns, Extras, Imported, Lines;
    rows := [];
    ghost var all := Imported(p.input, !p.bNotFirst, p.nLine, nCol, p.cColSep);
    assert [] + all == all;
    var done := false;
    while !done
      invariant if done then all == rows
        else all == rows + Imported(p.input, !p.bNotFirst, p.nLine, nCol, p.cColSep)
      invariant p.nLine + Lines(p.input) == old(p.nLine + Lines(p.input)) && (done ==> p.input == [])
      decreases |p.input|, !done
    {
      ghost var rest, first, nLine := p.input, !p.bNotFirst, p.nLine;
      ReadsOn(rest, first, nLine, p.cColSep);
      ImportedStep(rows, rest, first, nLine, nCol, p.cColSep);
      var values := ReadColumns(p, nCol);
      if values != [] {
        SkipExtras(p, values);
        rows := rows + [values];
      }
      done := p.cTerm == EOF;
    }
    NoLines([]);
  }

  lemma ImportedStep(rows: seq<seq<Option<seq<Byte>>>>, rest: seq<Byte>, first: bool, nLine: nat, nCol: nat,
                     sep: Separator)
    requires nCol > 0
    ensures var r := Extras(Columns(rest, first, nLine, nCol, sep), sep);
      rows + Imported(rest, first, nLine, nCol, sep) ==
        if ReadField(rest, first, nLine, sep).text.None? then rows
        else rows + [r.values] + if r.cTerm == EOF then [] else Imported(r.rest, false, r.nLine, nCol, sep)
    ensures var r := Extras(Columns(rest, first, nLine, nCol, sep), sep);
      ReadField(rest, first, nLine, sep).text.Some? ==> |r.rest| < |rest|
  {
    ImportedUnfold(rest, first, nLine, nCol, sep);
    hide ReadField, Columns, Extras, Imported;
    var r := Extras(Columns(rest, first, nLine, nCol, sep), sep);
    RowsRegrouped(rows, r.values, if r.cTerm == EOF then [] else Imported(r.rest, false, r.nLine, nCol, sep));
  }

  lemma ImportedUnfold(rest: seq<Byte>, first: bool, nLine: nat, nCol: nat, sep: Separator)
    requires nCol > 0
    ensures var r := Extras(Columns(rest, first, nLine, nCol, sep), sep);
      && (ReadField(rest, first, nLine, sep).text.Some? ==> |r.rest| < |rest|)
      && Imported(rest, first, nLine, nCol, sep) ==
           if ReadField(rest, first, nLine, sep).text.None? then []
           else [r.values] + if r.cTerm == EOF then [] else Imported(r.rest, false, r.nLine, nCol, sep)
  {
    hide Columns, Extras;
    if ReadField(rest, first, nLine, sep).text.Some? {
      ColumnsReadOn(rest, first, nLine, nCol, sep);
    }
  }

  lemma RowsRegrouped(a: seq<seq<Option<seq<Byte>>>>, x: seq<Option<seq<Byte>>>, b: seq<seq<Option<seq<Byte>>>>)
    ensures a + ([x] + b) == a + [x] + b && a + [] == a
  {}

  method SkipExtras(p: ImportCtx, ghost values: seq<Option<seq<Byte>>>)
    requires p.bNotFirst && (p.cTerm == EOF ==> p.input == [])
    modifies p
    ensures p.bNotFirst && (p.cTerm == EOF ==> p.input == [])
    ensures p.nLine + Lines(p.input) == old(p.nLine + Lines(p.input))
    ensures Row(values, p.input, p.cTerm, p.nLine)
      == Extras(Row(values, old(p.input), old(p.cTerm), old(p.nLine)), p.cColSep)
  {
    hide ReadField, Lines;
    while p.cTerm == p.cColSep
      invariant p.bNotFirst && (p.cTerm == EOF ==> p.input == [])
      invariant p.nLine + Lines(p.input) == old(p.nLine + Lines(p.input))
      invariant Extras(Row(values, p.input, p.cTerm, p.nLine), p.cColSep)
        == Extras(Row(values, old(p.input), old(p.cTerm), old(p.nLine)), p.cColSep)
      decreases |p.input|, p.cTerm == p.cColSep
    {
      ReadsOn(p.input, false, p.nLine, p.cColSep);
      FieldCounts(p.input, false, p.nLine, p.cColSep);
      EndsAtEof(p.input, false, p.nLine, p.cColSep);
      var z := p.ReadOneField();
    }
  }

  function Given(row: seq<seq<Byte>>): seq<Option<seq<Byte>>> {
    if row == [] then [] else [Some(row[0])] + Given(row[1..])
  }

  function AllGiven(rows: seq<seq<seq<Byte>>>): seq<seq<Option<seq<Byte>>>> {
    if rows == [] then [] else [Given(rows[0])] + AllGiven(rows[1..])
  }

  predicate CStrings(row: seq<seq<Byte>>) {
    forall i | 0 <= i < |row| :: 0 !in row[i]
  }

  /** The row after its first term and what ends that. */
  function Later(row: seq<seq<Byte>>, more: seq<Byte>, sep: Separator): seq<Byte> {
    if |row| <= 1 then more else RowText(row[1..], sep) + more
  }

  lemma RowParts(row: seq<seq<Byte>>, more: seq<Byte>, sep: Separator)
    requires row != []
    ensures RowText(row, sep) + more == Term(row[0], sep) + Ending(RowEnd(row), sep) + Later(row, more, sep)
  {
    hide Term;
  }

  /** What follows the first term of a row. */
  function RowEnd(row: seq<seq<Byte>>): End {
    if |row| == 1 then AtCrLf else AtSeparator
  }

  lemma FirstTermReads(row: seq<seq<Byte>>, more: seq<Byte>, first: bool, nLine: nat, sep: Separator)
    requires row != [] && sep != QUOTE && sep != CR && sep != LF
    ensures ReadField(RowText(row, sep) + more, first, nLine, sep)
      == Field(Some(row[0]), Later(row, more, sep), if |row| == 1 then LF else sep,
               nLine + Lines(row[0]) + if |row| == 1 then 1 else 0)
  {
    hide Term, ReadField, RowText, Ending, Lines, Later;
    RowParts(row, more, sep);
    TermReads(row[0], RowEnd(row), Later(row, more, sep), first, nLine, sep);
  }

  lemma {:induction false} RowReads(row: seq<seq<Byte>>, more: seq<Byte>, first: bool, nLine: nat, sep: Separator)
    requires row != [] && CStrings(row) && sep != QUOTE && sep != CR && sep != LF
    ensures var r := Columns(RowText(row, sep) + more, first, nLine, |row|, sep);
      r.values == Given(row) && r.rest == more && r.cTerm == LF
    decreases |row|
  {
    hide ReadField, UpToNul, RowText, Columns, Lines;
    FirstTermReads(row, more, first, nLine, sep);
    ColumnsUnfold(RowText(row, sep) + more, first, nLine, |row|, sep);
    if |row| > 1 {
      RowReads(row[1..], more, false, nLine + Lines(row[0]), sep);
    }
  }

  /** A table that the shell writes as CSV is imported as the same table. */
  lemma {:induction false} TableReads(rows: seq<seq<seq<Byte>>>, nCol: nat, first: bool, nLine: nat, sep: Separator)
    requires nCol > 0 && sep != QUOTE && sep != CR && sep != LF
    requires forall i | 0 <= i < |rows| :: |rows[i]| == nCol && CStrings(rows[i])
    ensures Imported(TableText(rows, sep), first, nLine, nCol, sep) == AllGiven(rows)
    decreases |rows|
  {
    hide Term, ReadField, Columns, RowText, Given;
    if rows == [] {
      NothingLeft(first, nLine, sep);
    } else {
      var more := TableText(rows[1..], sep);
      RowReads(rows[0], more, first, nLine, sep);
      RowStarts(rows[0], more, first, nLine, sep);
      var r := Columns(TableText(rows, sep), first, nLine, nCol, sep);
      TableReads(rows[1..], nCol, false, r.nLine, sep);
    }
  }

  lemma NothingLeft(first: bool, nLine: nat, sep: Separator)
    ensures ReadField([], first, nLine, sep).text.None?
  {}

  lemma RowStarts(row: seq<seq<Byte>>, more: seq<Byte>, first: bool, nLine: nat, sep: Separator)
    requires row != [] && sep != QUOTE && sep != CR && sep != LF
    ensures ReadField(RowText(row, sep) + more, first, nLine, sep).text.Some?
  {
    hide ReadField, RowText;
    FirstTermReads(row, more, first, nLine, sep);
  }
}
