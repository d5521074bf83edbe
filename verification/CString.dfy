/** C strings as the shell prints them, and the tokenizer of its dot-commands. */
module CString {
  import opened Words

  const QUOTE: Byte := 34
  const APOSTROPHE: Byte := 39
  const BACKSLASH: Byte := 92
  const MAX_ARGS := 50

  /** isprint in the C locale. */
  predicate IsPrint(c: Byte) {
    32 <= c <= 126
  }

  /** isspace in the C locale. */
  predicate IsSpace(c: Byte) {
    c == 32 || 9 <= c <= 13
  }

  predicate IsOctal(c: Byte) {
    48 <= c <= 55
  }

  /** "%03o" */
  function OctalDigits(c: Byte): (d: seq<Byte>)
    ensures |d| == 3 && forall i | 0 <= i < 3 :: IsOctal(d[i])
  {
    [48 + c / 64, 48 + c / 8 % 8, 48 + c % 8]
  }

  function EscapedByte(c: Byte): (e: seq<Byte>)
    ensures e != []
  {
    if c == BACKSLASH then [BACKSLASH, BACKSLASH]
    else if c == QUOTE then [BACKSLASH, QUOTE]
    else if c == 9 then [BACKSLASH, 116]
    else if c == 10 then [BACKSLASH, 110]
    else if c == 13 then [BACKSLASH, 114]
    else if !IsPrint(c) then [BACKSLASH] + OctalDigits(c)
    else [c]
  }

  function Escaped(z: seq<Byte>): seq<Byte> {
    if z == [] then [] else EscapedByte(z[0]) + Escaped(z[1..])
  }

  /** output_c_string */
  method OutputCString(z: seq<Byte>) returns (out: seq<Byte>)
    ensures out == [QUOTE] + Escaped(z) + [QUOTE]
  {
    out := [QUOTE];
    var i := 0;
    while i < |z|
      invariant i <= |z|
      invariant out + Escaped(z[i..]) == [QUOTE] + Escaped(z)
    {
      assert z[i..][0] == z[i] && z[i..][1..] == z[i + 1..];
      assert out + Escaped(z[i..]) == (out + EscapedByte(z[i])) + Escaped(z[i + 1..]);
      out := out + EscapedByte(z[i]);
      i := i + 1;
    }
    assert out == out + Escaped(z[i..]);
    out := out + [QUOTE];
  }

  /** The byte that a letter after a backslash stands for. */
  function Meaning(c: Byte): Byte {
    if c == 97 then 7 else if c == 98 then 8 else if c == 116 then 9 else if c == 110 then 10
    else if c == 118 then 11 else if c == 102 then 12 else if c == 114 then 13 else c
  }

  function OctalMore(v: Byte, c: Byte): Byte
    requires IsOctal(c)
  {
    (v * 8 + (c - 48)) % 256
  }

  /** One resolved byte and how many bytes it is made of. */
  datatype Unit = Unit(c: Byte, n: nat)

  function FirstUnit(s: seq<Byte>): (u: Unit)
    requires s != []
    ensures 1 <= u.n <= |s|
  {
    if s[0] != BACKSLASH || |s| == 1 then Unit(s[0], 1)
    else if !IsOctal(s[1]) then Unit(Meaning(s[1]), 2)
    else if |s| == 2 || !IsOctal(s[2]) then Unit(s[1] - 48, 2)
    else if |s| == 3 || !IsOctal(s[3]) then Unit(OctalMore(s[1] - 48, s[2]), 3)
    else Unit(OctalMore(OctalMore(s[1] - 48, s[2]), s[3]), 4)
  }

  function Resolve(s: seq<Byte>): (r: seq<Byte>)
    ensures |r| <= |s|
    decreases |s|
  {
    if s == [] then [] else [FirstUnit(s).c] + Resolve(s[FirstUnit(s).n..])
  }

  /** A string in a buffer, with its NUL. */
  ghost predicate StringAt(b: seq<Byte>, at: nat, s: seq<Byte>) {
    at + |s| < |b| && b[at..at + |s|] == s && b[at + |s|] == 0
  }

  lemma SplitAt(b: seq<Byte>, at: nat, s: seq<Byte>, k: nat)
    requires StringAt(b, at, s) && k <= |s|
    ensures StringAt(b, at + k, s[k..])
  {}

  lemma StringByte(b: seq<Byte>, at: nat, s: seq<Byte>, k: nat)
    requires StringAt(b, at, s) && k <= |s| && 0 !in s
    ensures at + |s| < |b| && b[at + k] == if k < |s| then s[k] else 0
    ensures b[at + k] == 0 <==> k == |s|
  {
    if k < |s| {
      assert b[at + k] == b[at..at + |s|][k];
    }
  }

  /** The unit at position i: resolve_backslashes moves i to its last byte. */
  method ReadUnit(z: array<Byte>, i0: nat, ghost s: seq<Byte>) returns (c: Byte, i: nat)
    requires StringAt(z[..], i0, s) && s != [] && 0 !in s
    ensures c == FirstUnit(s).c && i + 1 == i0 + FirstUnit(s).n
  {
    i := i0;
    forall k | 0 <= k <= |s| ensures z[i0 + k] == (if k < |s| then s[k] else 0) {
      StringByte(z[..], i0, s, k);
    }
    c := z[i];
    if c == BACKSLASH && z[i + 1] != 0 {
      i := i + 1;
      c := z[i];
      if IsOctal(c) {
        c := c - 48;
        if IsOctal(z[i + 1]) {
          i := i + 1;
          c := OctalMore(c, z[i]);
          if IsOctal(z[i + 1]) {
            i := i + 1;
            c := OctalMore(c, z[i]);
          }
        }
      } else {
        c := Meaning(c);
      }
    }
  }

  lemma ResolveUnit(s: seq<Byte>)
    requires s != []
    ensures Resolve(s) == [FirstUnit(s).c] + Resolve(s[FirstUnit(s).n..])
  {}

  lemma ResolveNothing()
    ensures Resolve([]) == []
  {}

  lemma ResolvePlain(s: seq<Byte>)
    requires s != [] && s[0] != BACKSLASH
    ensures Resolve(s) == [s[0]] + Resolve(s[1..])
  {}

  lemma StoreKeeps(b: seq<Byte>, j: nat, c: Byte, at: nat, i: nat, rest: seq<Byte>, end: nat)
    requires at <= j < i <= end < |b| && StringAt(b, i, rest)
    ensures var b' := b[j := c];
      && StringAt(b', i, rest) && b'[at..j + 1] == b[at..j] + [c] && b'[..at] == b[..at] && b'[end..] == b[end..]
  {}

  lemma ShiftedBy(b: seq<Byte>, j: nat, at: nat, i: nat, rest: seq<Byte>, end: nat)
    requires at <= j <= i && i + |rest| == end < |b| && rest != [] && StringAt(b, i, rest)
    ensures var u := FirstUnit(rest);
      var b' := b[j := u.c];
      && StringAt(b', i + u.n, rest[u.n..]) && b'[..at] == b[..at] && b'[end..] == b[end..]
      && b'[at..j + 1] == b[at..j] + [u.c] && Resolve(rest) == [u.c] + Resolve(rest[u.n..])
  {
    hide StringAt, FirstUnit, Resolve;
    var u := FirstUnit(rest);
    SplitAt(b, i, rest, u.n);
    StoreKeeps(b, j, u.c, at, i + u.n, rest[u.n..], end);
    ResolveUnit(rest);
  }

  lemma Regrouped(x: seq<Byte>, y: seq<Byte>, z: seq<Byte>)
    ensures x + (y + z) == x + y + z
  {}

  /** The loop that skips what needs no resolving. */
  method FirstBackslash(z: array<Byte>, at: nat, ghost s: seq<Byte>) returns (p: nat)
    requires StringAt(z[..], at, s) && 0 !in s
    ensures at <= p <= at + |s|
    ensures Resolve(s) == s[..p - at] + Resolve(s[p - at..])
  {
    hide StringAt, Resolve;
    p := at;
    ghost var k: nat := 0;
    StringByte(z[..], at, s, 0);
    assert s[..0] + Resolve(s[0..]) == Resolve(s) by { assert s[0..] == s; }
    while z[p] != 0 && z[p] != BACKSLASH
      invariant p == at + k && k <= |s| && p < z.Length && z[p] == (if k < |s| then s[k] else 0)
      invariant z[p] == 0 <==> k == |s|
      invariant Resolve(s) == s[..k] + Resolve(s[k..])
      decreases |s| - k
    {
      ResolvePlain(s[k..]);
      assert s[k..][1..] == s[k + 1..];
      assert s[..k] + ([s[k]] + Resolve(s[k + 1..])) == s[..k + 1] + Resolve(s[k + 1..]);
      k := k + 1;
      p := p + 1;
      StringByte(z[..], at, s, k);
    }
  }

  /** The loop that resolves: what is written never gets ahead of what is read. */
  method Shift(z: array<Byte>, at: nat, ghost s: seq<Byte>) returns (i: nat, j: nat)
    requires StringAt(z[..], at, s) && 0 !in s
    modifies z
    ensures z[..at] == old(z[..at]) && z[at + |s|..] == old(z[at + |s|..])
    ensures i == at + |s| && j == at + |Resolve(s)| && z[at..j] == Resolve(s)
  {
    hide StringAt, FirstUnit, Resolve;
    i, j := at, at;
    ghost var rest := s;
    StringByte(z[..], i, rest, 0);
    assert z[at..j] + Resolve(rest) == Resolve(rest);
    while z[i] != 0
      invariant at <= j <= i && i + |rest| == at + |s| < z.Length && 0 !in rest
      invariant StringAt(z[..], i, rest) && (z[i] == 0 <==> rest == [])
      invariant z[..at] == old(z[..at]) && z[at + |s|..] == old(z[at + |s|..])
      invariant Resolve(s) == z[at..j] + Resolve(rest)
      decreases |rest|
    {
      ghost var b, i0, n := z[..], i, FirstUnit(rest).n;
      var c;
      c, i := ReadUnit(z, i, rest);
      ShiftedBy(b, j, at, i0, rest, at + |s|);
      Regrouped(b[at..j], [c], Resolve(rest[n..]));
      z[j] := c;
      assert z[..] == b[j := c];
      rest := rest[n..];
      i := i + 1;
      j := j + 1;
      StringByte(z[..], i, rest, 0);
    }
    ResolveNothing();
  }

  lemma Reassembled(b: seq<Byte>, c: seq<Byte>, at: nat, s: seq<Byte>, p: nat, t: seq<Byte>)
    requires StringAt(b, at, s) && at <= p <= p + |t| <= at + |s| && |c| == |b|
    requires c[..p] == b[..p] && c[at + |s|..] == b[at + |s|..] && c[p..p + |t|] == t
    ensures var d := if p + |t| < at + |s| then c[p + |t| := 0] else c;
      StringAt(d, at, s[..p - at] + t) && d[..at] == b[..at] && d[at + |s|..] == b[at + |s|..]
  {
    assert s[..p - at] == b[at..p] == c[at..p];
    assert c[at + |s|] == c[at + |s|..][0];
  }

  /** resolve_backslashes, in place. */
  method ResolveBackslashes(z: array<Byte>, at: nat, ghost s: seq<Byte>)
    requires StringAt(z[..], at, s) && 0 !in s
    modifies z
    ensures z[..at] == old(z[..at]) && z[at + |s|..] == old(z[at + |s|..])
    ensures StringAt(z[..], at, Resolve(s))
  {
    hide Resolve, StringAt;
    StringByte(z[..], at, s, |s|);
    var p := FirstBackslash(z, at, s);
    SplitAt(z[..], at, s, p - at);
    ghost var b := z[..];
    var i, j := Shift(z, p, s[p - at..]);
    Reassembled(b, z[..], at, s, p, Resolve(s[p - at..]));
    if j < i {
      z[j] := 0;
    }
  }

  /** Length of what a delimiter encloses. */
  function QuotedLength(s: seq<Byte>, delim: Byte): (n: nat)
    ensures n <= |s| && (n < |s| ==> s[n] == delim)
  {
    if s == [] || s[0] == delim then 0
    else if s[0] == BACKSLASH && delim == QUOTE && |s| > 1 then 2 + QuotedLength(s[2..], delim)
    else 1 + QuotedLength(s[1..], delim)
  }

  function BareLength(s: seq<Byte>): (n: nat)
    ensures n <= |s| && (n < |s| ==> IsSpace(s[n]))
  {
    if s == [] || IsSpace(s[0]) then 0 else 1 + BareLength(s[1..])
  }

  function Spaces(s: seq<Byte>): (n: nat)
    ensures n <= |s| && (n < |s| ==> !IsSpace(s[n]))
  {
    if s == [] || !IsSpace(s[0]) then 0 else 1 + Spaces(s[1..])
  }

  /** A token of a line, and the line after it and what ended it. */
  datatype Token = Token(text: seq<Byte>, rest: seq<Byte>)

  function FirstToken(s: seq<Byte>): (t: Token)
    requires s != [] && !IsSpace(s[0])
    ensures |t.rest| < |s|
  {
    if s[0] == APOSTROPHE || s[0] == QUOTE then
      var n := 1 + QuotedLength(s[1..], s[0]);
      Token(if s[0] == QUOTE then Resolve(s[1..n]) else s[1..n], if n < |s| then s[n + 1..] else [])
    else
      var n := BareLength(s);
      Token(Resolve(s[..n]), if n < |s| then s[n + 1..] else [])
  }

  /** The tokens of a line, at most `max` of them. */
  function Tokens(s: seq<Byte>, max: nat): (tokens: seq<seq<Byte>>)
    ensures |tokens| <= max
    decreases max
  {
    var t := s[Spaces(s)..];
    if max == 0 || t == [] then [] else [FirstToken(t).text] + Tokens(FirstToken(t).rest, max - 1)
  }

  lemma CutAt(b: seq<Byte>, at: nat, s: seq<Byte>, n: nat)
    requires StringAt(b, at, s) && n < |s|
    ensures var c := b[at + n := 0];
      StringAt(c, at, s[..n]) && StringAt(c, at + n + 1, s[n + 1..]) && c[..at] == b[..at]
  {}

  lemma KeptBehind(b: seq<Byte>, c: seq<Byte>, k: nat, at: nat, s: seq<Byte>)
    requires StringAt(b, at, s) && k <= at && |c| == |b| && c[k..] == b[k..]
    ensures StringAt(c, at, s)
  {
    assert forall i | at <= i < |b| :: c[i] == c[k..][i - k] == b[i];
  }

  lemma KeptBefore(b: seq<Byte>, c: seq<Byte>, k: nat, at: nat, s: seq<Byte>)
    requires StringAt(b, at, s) && at + |s| < k <= |b| == |c| && c[..k] == b[..k]
    ensures StringAt(c, at, s)
  {
    assert c[at..at + |s|] == c[..k][at..at + |s|];
    assert c[at + |s|] == c[..k][at + |s|];
  }

  method SkipSpaces(z: array<Byte>, h0: nat, ghost s: seq<Byte>) returns (h: nat)
    requires StringAt(z[..], h0, s) && 0 !in s
    ensures h == h0 + Spaces(s) < z.Length
  {
    hide StringAt;
    h := h0;
    ghost var k: nat := 0;
    StringByte(z[..], h0, s, 0);
    assert s[0..] == s;
    while IsSpace(z[h])
      invariant h == h0 + k < z.Length && k <= |s| && z[h] == (if k < |s| then s[k] else 0)
      invariant Spaces(s) == k + Spaces(s[k..])
      decreases |s| - k
    {
      assert s[k..][1..] == s[k + 1..];
      h := h + 1;
      k := k + 1;
      StringByte(z[..], h0, s, k);
    }
  }

  lemma QuotedStep(s: seq<Byte>, k: nat, delim: Byte)
    requires k <= |s|
    ensures QuotedLength(s[k..], delim) ==
      if k == |s| || s[k] == delim then 0
      else if s[k] == BACKSLASH && delim == QUOTE && k + 1 < |s| then 2 + QuotedLength(s[k + 2..], delim)
      else 1 + QuotedLength(s[k + 1..], delim)
  {
    if k < |s| {
      assert s[k..][1..] == s[k + 1..];
      assert k + 1 < |s| ==> s[k..][2..] == s[k + 2..];
    }
  }

  method ScanQuoted(z: array<Byte>, h0: nat, delim: Byte, ghost s: seq<Byte>) returns (h: nat)
    requires StringAt(z[..], h0, s) && 0 !in s && delim != 0
    ensures h == h0 + QuotedLength(s, delim) < z.Length
  {
    hide StringAt, QuotedLength;
    h := h0;
    ghost var k: nat := 0;
    StringByte(z[..], h0, s, 0);
    assert s[0..] == s;
    while z[h] != 0 && z[h] != delim
      invariant h == h0 + k < z.Length && k <= |s| && z[h] == (if k < |s| then s[k] else 0)
      invariant z[h] == 0 <==> k == |s|
      invariant QuotedLength(s, delim) == k + QuotedLength(s[k..], delim)
      decreases |s| - k
    {
      QuotedStep(s, k, delim);
      StringByte(z[..], h0, s, k + 1);
      if z[h] == BACKSLASH && delim == QUOTE && z[h + 1] != 0 {
        h := h + 1;
        k := k + 1;
      }
      h := h + 1;
      k := k + 1;
      StringByte(z[..], h0, s, k);
    }
    QuotedStep(s, k, delim);
  }

  method ScanBare(z: array<Byte>, h0: nat, ghost s: seq<Byte>) returns (h: nat)
    requires StringAt(z[..], h0, s) && 0 !in s
    ensures h == h0 + BareLength(s) < z.Length
  {
    hide StringAt;
    h := h0;
    ghost var k: nat := 0;
    StringByte(z[..], h0, s, 0);
    assert s[0..] == s;
    while z[h] != 0 && !IsSpace(z[h])
      invariant h == h0 + k < z.Length && k <= |s| && z[h] == (if k < |s| then s[k] else 0)
      invariant z[h] == 0 <==> k == |s|
      invariant BareLength(s) == k + BareLength(s[k..])
      decreases |s| - k
    {
      assert s[k..][1..] == s[k + 1..];
      h := h + 1;
      k := k + 1;
      StringByte(z[..], h0, s, k);
    }
  }

  /** The parts of a token: where its text begins, how long it is, and what resolves it. */
  datatype Span = Span(skip: nat, n: nat, resolve: bool)

  function SpanOf(s: seq<Byte>): (p: Span)
    requires s != []
    ensures p.skip <= 1 && p.skip + p.n <= |s| && (p.skip + p.n == 0 ==> IsSpace(s[0]))
  {
    if s[0] == APOSTROPHE || s[0] == QUOTE then Span(1, QuotedLength(s[1..], s[0]), s[0] == QUOTE)
    else Span(0, BareLength(s), true)
  }

  lemma TokenOfSpan(s: seq<Byte>)
    requires s != [] && !IsSpace(s[0])
    ensures var p, t := SpanOf(s), FirstToken(s);
      && t.text == (if p.resolve then Resolve(s[p.skip..p.skip + p.n]) else s[p.skip..p.skip + p.n])
      && t.rest == if p.skip + p.n < |s| then s[p.skip + p.n + 1..] else []
  {
    hide Resolve;
  }

  /** Where the token that begins at h0 ends. */
  method Scan(z: array<Byte>, h0: nat, ghost s: seq<Byte>) returns (arg: nat, h: nat, resolve: bool)
    requires StringAt(z[..], h0, s) && 0 !in s && s != []
    ensures var p := SpanOf(s); arg == h0 + p.skip && h == arg + p.n < z.Length && resolve == p.resolve
  {
    hide StringAt, QuotedLength, BareLength;
    StringByte(z[..], h0, s, 0);
    arg := h0;
    if z[h0] == APOSTROPHE || z[h0] == QUOTE {
      var delim := z[h0];
      arg := h0 + 1;
      SplitAt(z[..], h0, s, 1);
      h := ScanQuoted(z, arg, delim, s[1..]);
      resolve := delim == QUOTE;
    } else {
      h := ScanBare(z, arg, s);
      resolve := true;
    }
  }

  /** The NUL that ends a token takes the place of its delimiter. */
  lemma CutApart(b: seq<Byte>, at: nat, s: seq<Byte>, skip: nat, n: nat)
    requires StringAt(b, at, s) && 0 !in s && skip + n <= |s|
    ensures var h := at + skip + n;
      var c := if b[h] != 0 then b[h := 0] else b;
      && (b[h] != 0 <==> skip + n < |s|) && c[..at] == b[..at]
      && StringAt(c, at + skip, s[skip..skip + n])
      && StringAt(c, if b[h] != 0 then h + 1 else h, if skip + n < |s| then s[skip + n + 1..] else [])
  {
    hide StringAt;
    StringByte(b, at, s, skip + n);
    SplitAt(b, at, s, skip);
    if skip + n < |s| {
      CutAt(b, at + skip, s[skip..], n);
      assert s[skip..][..n] == s[skip..skip + n] && s[skip..][n + 1..] == s[skip + n + 1..];
      assert b[at + skip + n := 0][..at] == b[..at];
    } else {
      SplitAt(b, at, s, |s|);
      assert s[skip..skip + n] == s[skip..] && s[|s|..] == [];
    }
  }

  /** One round of the loop of do_meta_command: the token is cut off with a NUL and resolved in its place. */
  method NextToken(z: array<Byte>, h0: nat, ghost s: seq<Byte>) returns (arg: nat, h: nat)
    requires StringAt(z[..], h0, s) && 0 !in s && s != [] && !IsSpace(s[0])
    modifies z
    ensures z[..h0] == old(z[..h0])
    ensures StringAt(z[..], arg, FirstToken(s).text) && StringAt(z[..], h, FirstToken(s).rest)
    ensures h0 <= arg && arg + |FirstToken(s).text| < h + (if FirstToken(s).rest == [] then 1 else 0)
  {
    hide StringAt, Resolve, SpanOf, FirstToken;
    TokenOfSpan(s);
    ghost var p, was := SpanOf(s), z[..];
    var resolve;
    arg, h, resolve := Scan(z, h0, s);
    CutApart(z[..], h0, s, p.skip, p.n);
    ghost var raw := s[p.skip..p.skip + p.n];
    if z[h] != 0 {
      z[h] := 0;
      h := h + 1;
    }
    assert z[..h0] == was[..h0];
    if resolve {
      ghost var b := z[..];
      ResolveBackslashes(z, arg, raw);
      KeptBehind(b, z[..], arg + |raw|, h, FirstToken(s).rest);
      assert z[..h0] == z[..arg][..h0] == b[..arg][..h0];
    }
  }

  /** The tokens found so far, and what is left of the line at h. */
  ghost predicate Found(b: seq<Byte>, azArg: seq<nat>, tokens: seq<seq<Byte>>, h: nat, rest: seq<Byte>) {
    && |azArg| == |tokens|
    && StringAt(b, h, rest) && 0 !in rest
    && forall k | 0 <= k < |azArg| ::
         StringAt(b, azArg[k], tokens[k]) && azArg[k] + |tokens[k]| < h + (if rest == [] then 1 else 0)
  }

  lemma FoundAfterSpaces(b: seq<Byte>, azArg: seq<nat>, tokens: seq<seq<Byte>>, h: nat, rest: seq<Byte>, n: nat)
    requires Found(b, azArg, tokens, h, rest) && n <= |rest|
    ensures Found(b, azArg, tokens, h + n, rest[n..])
  {
    SplitAt(b, h, rest, n);
    hide StringAt;
  }

  lemma FoundOneMore(b: seq<Byte>, c: seq<Byte>, azArg: seq<nat>, tokens: seq<seq<Byte>>, h0: nat, s: seq<Byte>,
                     arg: nat, h: nat)
    requires Found(b, azArg, tokens, h0, s) && s != [] && !IsSpace(s[0])
    requires |c| == |b| && h0 <= |b| && c[..h0] == b[..h0]
    requires StringAt(c, arg, FirstToken(s).text) && StringAt(c, h, FirstToken(s).rest) && h0 <= arg
    requires arg + |FirstToken(s).text| < h + (if FirstToken(s).rest == [] then 1 else 0)
    ensures Found(c, azArg + [arg], tokens + [FirstToken(s).text], h, FirstToken(s).rest)
  {
    hide StringAt, FirstToken;
    TokenOfSpan(s);
    forall k | 0 <= k < |azArg| ensures StringAt(c, azArg[k], tokens[k]) {
      KeptBefore(b, c, h0, azArg[k], tokens[k]);
    }
  }

  lemma TokensStep(s: seq<Byte>, max: nat)
    ensures var t := s[Spaces(s)..];
      Tokens(s, max) == if max == 0 || t == [] then [] else [FirstToken(t).text] + Tokens(FirstToken(t).rest, max - 1)
  {}

  /** One pass of the loop, from the first byte of a token on. */
  method OneMore(z: array<Byte>, h0: nat, ghost s: seq<Byte>, ghost azArg: seq<nat>, ghost tokens: seq<seq<Byte>>)
    returns (arg: nat, h: nat)
    requires Found(z[..], azArg, tokens, h0, s) && s != [] && !IsSpace(s[0])
    modifies z
    ensures var t := FirstToken(s);
      Found(z[..], azArg + [arg], tokens + [t.text], h, t.rest) && h < z.Length && (z[h] == 0 <==> t.rest == [])
  {
    hide StringAt, FirstToken, Found;
    FoundStrings(z[..], azArg, tokens, h0, s);
    StringByte(z[..], h0, s, 0);
    ghost var b, t := z[..], FirstToken(s);
    arg, h := NextToken(z, h0, s);
    FoundOneMore(b, z[..], azArg, tokens, h0, s, arg, h);
    FoundStrings(z[..], azArg + [arg], tokens + [t.text], h, t.rest);
    StringByte(z[..], h, t.rest, 0);
  }

  /** The loop of do_meta_command: each argument is, in the buffer, the token of that number. */
  method Tokenize(zLine: array<Byte>, ghost line: seq<Byte>) returns (azArg: seq<nat>)
    requires StringAt(zLine[..], 0, line) && 0 !in line && line != []
    modifies zLine
    ensures |azArg| == |Tokens(line[1..], MAX_ARGS)|
    ensures forall k | 0 <= k < |azArg| :: StringAt(zLine[..], azArg[k], Tokens(line[1..], MAX_ARGS)[k])
  {
    hide StringAt, FirstToken, Tokens, Spaces, Found;
    var h: nat := 1;
    azArg := [];
    ghost var tokens: seq<seq<Byte>>, rest := [], line[1..];
    SplitAt(zLine[..], 0, line, 1);
    StringByte(zLine[..], h, rest, 0);
    FoundNone(zLine[..], h, rest);
    assert tokens + Tokens(rest, MAX_ARGS) == Tokens(rest, MAX_ARGS);
    while zLine[h] != 0 && |azArg| < MAX_ARGS
      invariant |azArg| <= MAX_ARGS && Found(zLine[..], azArg, tokens, h, rest)
      invariant h < zLine.Length && (zLine[h] == 0 <==> rest == [])
      invariant Tokens(line[1..], MAX_ARGS) == tokens + Tokens(rest, MAX_ARGS - |azArg|)
      decreases MAX_ARGS - |azArg|, |rest|
    {
      TokensStep(rest, MAX_ARGS - |azArg|);
      ghost var n := Spaces(rest);
      FoundStrings(zLine[..], azArg, tokens, h, rest);
      FoundAfterSpaces(zLine[..], azArg, tokens, h, rest, n);
      h := SkipSpaces(zLine, h, rest);
      rest := rest[n..];
      FoundStrings(zLine[..], azArg, tokens, h, rest);
      StringByte(zLine[..], h, rest, 0);
      if zLine[h] == 0 {
        TokensStep(rest, MAX_ARGS - |azArg|);
        NoSpaces();
        break;
      }
      ghost var t := FirstToken(rest);
      var arg;
      arg, h := OneMore(zLine, h, rest, azArg, tokens);
      TokensRegrouped(tokens, t.text, Tokens(t.rest, MAX_ARGS - |azArg| - 1));
      azArg := azArg + [arg];
      tokens := tokens + [t.text];
      rest := t.rest;
    }
    TokensStep(rest, MAX_ARGS - |azArg|);
    NoSpaces();
    FoundStrings(zLine[..], azArg, tokens, h, rest);
    assert tokens + [] == tokens;
  }

  lemma FoundNone(b: seq<Byte>, h: nat, rest: seq<Byte>)
    requires StringAt(b, h, rest) && 0 !in rest
    ensures Found(b, [], [], h, rest)
  {}

  lemma FoundStrings(b: seq<Byte>, azArg: seq<nat>, tokens: seq<seq<Byte>>, h: nat, rest: seq<Byte>)
    requires Found(b, azArg, tokens, h, rest)
    ensures |azArg| == |tokens| && StringAt(b, h, rest) && 0 !in rest
    ensures forall k | 0 <= k < |azArg| :: StringAt(b, azArg[k], tokens[k])
  {
    hide StringAt;
  }

  lemma NoSpaces()
    ensures Spaces([]) == 0
  {}

  lemma TokensRegrouped(x: seq<seq<Byte>>, y: seq<Byte>, z: seq<seq<Byte>>)
    ensures x + ([y] + z) == x + [y] + z
  {}

  /** The line that prints a list: a dot and the strings with spaces between them. */
  function ListText(list: seq<seq<Byte>>): seq<Byte> {
    if list == [] then []
    else if |list| == 1 then [QUOTE] + Escaped(list[0]) + [QUOTE]
    else [QUOTE] + Escaped(list[0]) + [QUOTE] + [32 as Byte] + ListText(list[1..])
  }

  lemma OctalReads(c: Byte, s: seq<Byte>)
    ensures FirstUnit([BACKSLASH] + OctalDigits(c) + s) == Unit(c, 4)
  {
    OctalValue(c);
    hide OctalMore;
    var d := OctalDigits(c);
    hide OctalDigits;
    var t := [BACKSLASH] + d + s;
    assert t[0] == BACKSLASH && t[1] == d[0] && t[2] == d[1] && t[3] == d[2];
  }

  lemma OctalValue(c: Byte)
    ensures var d := OctalDigits(c); OctalMore(OctalMore(d[0] - 48, d[1]), d[2]) == c
  {
    var q := c / 8;
    OctalStep(q, c % 8);
    OctalStep(q / 8, q % 8);
    assert c / 64 == q / 8;
    hide OctalMore;
  }

  lemma OctalStep(q: Byte, r: Byte)
    requires r < 8 && q * 8 + r < 256
    ensures OctalMore(q, 48 + r) == q * 8 + r
  {}

  lemma UnitReads(c: Byte, s: seq<Byte>)
    ensures FirstUnit(EscapedByte(c) + s) == Unit(c, |EscapedByte(c)|)
  {
    if EscapedByte(c) == [BACKSLASH] + OctalDigits(c) {
      OctalReads(c, s);
    }
  }

  /** Resolving undoes escaping. */
  lemma {:induction false} ResolveUndoesEscape(z: seq<Byte>)
    ensures Resolve(Escaped(z)) == z
  {
    if z != [] {
      hide EscapedByte, FirstUnit;
      UnitReads(z[0], Escaped(z[1..]));
      ResolveUndoesEscape(z[1..]);
      assert Escaped(z)[|EscapedByte(z[0])|..] == Escaped(z[1..]);
    }
  }

  lemma EscapedByteIsSkipped(c: Byte, s: seq<Byte>)
    ensures QuotedLength(EscapedByte(c) + s, QUOTE) == |EscapedByte(c)| + QuotedLength(s, QUOTE)
  {
    var e := EscapedByte(c) + s;
    if |EscapedByte(c)| == 1 {
      assert e[1..] == s;
    } else {
      assert QuotedLength(e, QUOTE) == 2 + QuotedLength(e[2..], QUOTE);
      if |EscapedByte(c)| == 2 {
        assert e[2..] == s;
      } else {
        assert e[2..][1..] == e[3..] && e[3..][1..] == s;
      }
    }
  }

  /** The quote that ends a printed string is the first that is not escaped. */
  lemma {:induction false} EscapedIsSkipped(z: seq<Byte>, more: seq<Byte>)
    ensures QuotedLength(Escaped(z) + ([QUOTE] + more), QUOTE) == |Escaped(z)|
  {
    hide EscapedByte;
    if z == [] {
      assert Escaped(z) + ([QUOTE] + more) == [QUOTE] + more;
    } else {
      assert Escaped(z) + ([QUOTE] + more) == EscapedByte(z[0]) + (Escaped(z[1..]) + ([QUOTE] + more));
      EscapedByteIsSkipped(z[0], Escaped(z[1..]) + ([QUOTE] + more));
      EscapedIsSkipped(z[1..], more);
    }
  }

  lemma QuotedSpan(s: seq<Byte>)
    requires s != [] && s[0] == QUOTE
    ensures SpanOf(s) == Span(1, QuotedLength(s[1..], QUOTE), true)
  {}

  lemma EnclosedToken(e: seq<Byte>, more: seq<Byte>)
    requires QuotedLength(e + ([QUOTE] + more), QUOTE) == |e|
    ensures FirstToken([QUOTE] + e + [QUOTE] + more) == Token(Resolve(e), more)
  {
    hide QuotedLength, Resolve, FirstToken, SpanOf;
    var s := [QUOTE] + e + [QUOTE] + more;
    EnclosedParts(QUOTE, e, more);
    QuotedSpan(s);
    TokenOfSpan(s);
  }

  lemma EnclosedParts(q: Byte, e: seq<Byte>, more: seq<Byte>)
    ensures var s := [q] + e + [q] + more;
      && s != [] && s[0] == q && s[1..] == e + ([q] + more)
      && |s| > 1 + |e| && s[1..1 + |e|] == e && s[1 + |e| + 1..] == more
  {}

  lemma PrintedTokenReads(z: seq<Byte>, more: seq<Byte>)
    ensures FirstToken([QUOTE] + Escaped(z) + [QUOTE] + more) == Token(z, more)
  {
    hide QuotedLength, Resolve, Escaped, FirstToken;
    EscapedIsSkipped(z, more);
    ResolveUndoesEscape(z);
    EnclosedToken(Escaped(z), more);
  }

  function Leading(list: seq<seq<Byte>>, max: nat): seq<seq<Byte>> {
    if |list| <= max then list else list[..max]
  }

  lemma FirstPrintedToken(sp: seq<Byte>, z: seq<Byte>, more: seq<Byte>, max: nat)
    requires max > 0 && (sp == [] || sp == [32])
    ensures Tokens(sp + ([QUOTE] + Escaped(z) + [QUOTE] + more), max) == [z] + Tokens(more, max - 1)
  {
    hide FirstToken, Escaped, Tokens;
    var t := [QUOTE] + Escaped(z) + [QUOTE] + more;
    var s := sp + t;
    assert s[|sp|..] == t;
    assert Spaces(t) == 0;
    assert Spaces(s) == |sp|;
    TokensStep(s, max);
    PrintedTokenReads(z, more);
  }

  function Tail(list: seq<seq<Byte>>): seq<Byte> {
    if |list| <= 1 then [] else [32 as Byte] + ListText(list[1..])
  }

  lemma ListTextParts(list: seq<seq<Byte>>)
    requires list != []
    ensures ListText(list) == [QUOTE] + Escaped(list[0]) + [QUOTE] + Tail(list)
  {
    hide Escaped;
  }

  lemma NoTokens(sp: seq<Byte>, max: nat)
    requires sp == [] || sp == [32]
    ensures Tokens(sp, max) == []
  {
    assert Spaces(sp) == |sp|;
  }

  /** What the shell prints as C strings, the tokenizer reads as the same list, up to its limit of arguments. */
  lemma {:induction false} ListReads(sp: seq<Byte>, list: seq<seq<Byte>>, max: nat)
    requires sp == [] || sp == [32]
    ensures Tokens(sp + ListText(list), max) == Leading(list, max)
    decreases |list|
  {
    hide Escaped, Tokens;
    if max == 0 {
      TokensStep(sp + ListText(list), 0);
    } else if list == [] {
      assert sp + ListText(list) == sp;
      NoTokens(sp, max);
    } else {
      ListTextParts(list);
      hide ListText;
      FirstPrintedToken(sp, list[0], Tail(list), max);
      if |list| == 1 {
        NoTokens([], max - 1);
      } else {
        ListReads([32], list[1..], max - 1);
      }
    }
  }

  /** The letters and signs that may follow a backslash, as they are documented, and what they stand for. */
  const ESCAPES: map<Byte, Byte> := map[
    97 := 7, 98 := 8, 116 := 9, 110 := 10, 118 := 11, 102 := 12, 114 := 13, 115 := 32, 34 := 34, 39 := 39, 92 := 92]

  /** The octal digits in front, of which no more than three are taken. */
  function OctalCount(s: seq<Byte>, most: nat): (n: nat)
    ensures n <= |s| && n <= most && forall i | 0 <= i < n :: IsOctal(s[i])
  {
    if most == 0 || s == [] || !(48 <= s[0] <= 55) then 0 else 1 + OctalCount(s[1..], most - 1)
  }

  function Numeral(s: seq<Byte>): int {
    if s == [] then 0 else 8 * Numeral(s[..|s| - 1]) + s[|s| - 1] as int - 48
  }

  /** One escape as it is documented; other characters behind a backslash stand for themselves. */
  function DocumentedUnit(s: seq<Byte>): (u: Unit)
    requires s != []
    ensures 1 <= u.n <= |s|
  {
    if s[0] != 92 || |s| == 1 then Unit(s[0], 1)
    else
      var n := OctalCount(s[1..], 3);
      if n > 0 then Unit(Numeral(s[1..1 + n]) % 256, 1 + n)
      else Unit(if s[1] in ESCAPES then ESCAPES[s[1]] else s[1], 2)
  }

  predicate IsBlankEscape(s: seq<Byte>) {
    |s| > 1 && s[0] == BACKSLASH && s[1] == 115
  }

  function DocumentedResolve(s: seq<Byte>): seq<Byte>
    decreases |s|
  {
    if s == [] then [] else [DocumentedUnit(s).c] + DocumentedResolve(s[DocumentedUnit(s).n..])
  }

  /** Some escape of a string is "\s". */
  predicate HasBlankEscape(s: seq<Byte>)
    decreases |s|
  {
    s != [] && (IsBlankEscape(s) || HasBlankEscape(s[DocumentedUnit(s).n..]))
  }

  /** "\s" is documented to be a space; a string is resolved as documented exactly if it has no such escape. */
  lemma {:induction false} DocumentedExactlyWhen(s: seq<Byte>)
    ensures Resolve(s) == DocumentedResolve(s) <==> !HasBlankEscape(s)
    decreases |s|
  {
    if s != [] {
      var n := FirstUnit(s).n;
      DocumentedUnitIs(s);
      hide FirstUnit, DocumentedUnit;
      DocumentedExactlyWhen(s[n..]);
      assert Resolve(s)[0] == FirstUnit(s).c && Resolve(s)[1..] == Resolve(s[n..]);
      assert DocumentedResolve(s)[0] == DocumentedUnit(s).c && DocumentedResolve(s)[1..] == DocumentedResolve(s[n..]);
    }
  }

  lemma DocumentedUnitIs(s: seq<Byte>)
    requires s != []
    ensures DocumentedUnit(s).n == FirstUnit(s).n && (DocumentedUnit(s).c == FirstUnit(s).c <==> !IsBlankEscape(s))
  {
    if |s| > 1 && s[0] == BACKSLASH {
      OctalCountIs(s[1..]);
      if IsOctal(s[1]) {
        var n := OctalCount(s[1..], 3);
        OctalUnitIs(s[1..], n);
        assert s[1..1 + n] == s[1..][..n];
      }
    }
  }

  lemma OctalCountIs(s: seq<Byte>)
    requires s != []
    ensures OctalCount(s, 3) ==
      if !IsOctal(s[0]) then 0
      else if |s| == 1 || !IsOctal(s[1]) then 1
      else if |s| == 2 || !IsOctal(s[2]) then 2
      else 3
  {
    assert OctalCount(s, 3) == if IsOctal(s[0]) then 1 + OctalCount(s[1..], 2) else 0;
    if |s| > 1 {
      assert OctalCount(s[1..], 2) == if IsOctal(s[1]) then 1 + OctalCount(s[1..][1..], 1) else 0;
      assert |s| > 2 ==> s[1..][1..][0] == s[2];
    }
  }

  lemma OctalUnitIs(s: seq<Byte>, n: nat)
    requires 0 < n <= 3 && n <= |s| && IsOctal(s[0]) && (n > 1 ==> IsOctal(s[1])) && (n > 2 ==> IsOctal(s[2]))
    ensures Numeral(s[..n]) % 256 ==
      if n == 1 then s[0] - 48
      else if n == 2 then OctalMore(s[0] - 48, s[1])
      else OctalMore(OctalMore(s[0] - 48, s[1]), s[2])
  {
    hide Numeral;
    NumeralStep(s, 1);
    if n > 1 {
      NumeralStep(s, 2);
    }
    if n > 2 {
      NumeralStep(s, 3);
      var v := (s[0] - 48) * 8 + (s[1] - 48);
      OneMoreDigit(v, s[2] - 48);
    }
  }

  lemma OneMoreDigit(v: nat, d: nat)
    ensures (v % 256 * 8 + d) % 256 == (8 * v + d) % 256
  {
    var q, r := v / 256, v % 256;
    assert 8 * v + d == 256 * (8 * q) + (8 * r + d);
    WholeBytes(8 * q, 8 * r + d);
  }

  lemma WholeBytes(k: nat, r: nat)
    ensures (256 * k + r) % 256 == r % 256
  {}

  lemma NumeralStep(s: seq<Byte>, n: nat)
    requires 0 < n <= |s|
    ensures Numeral(s[..n]) == 8 * Numeral(s[..n - 1]) + s[n - 1] as int - 48 && Numeral(s[..0]) == 0
  {
    assert s[..n][..n - 1] == s[..n - 1];
  }

  /** "\s" is resolved to the letter. */
  lemma BlankEscape()
    ensures Resolve([BACKSLASH, 115]) == [115] && DocumentedResolve([BACKSLASH, 115]) == [32]
  {
    assert [BACKSLASH, 115][2..] == [];
  }

  lemma EscapedHasNoNul(z: seq<Byte>)
    requires 0 !in z
    ensures 0 !in Escaped(z)
  {}

  lemma {:induction false} ListHasNoNul(list: seq<seq<Byte>>)
    requires forall i | 0 <= i < |list| :: 0 !in list[i]
    ensures 0 !in ListText(list)
  {
    hide Escaped;
    if list != [] {
      EscapedHasNoNul(list[0]);
      ListHasNoNul(list[1..]);
    }
  }

  /**
   A line of a dot and a printed list, tokenised in its buffer: the arguments
   are the strings of the list, up to the limit of arguments.
   */
  method TokenizeList(zLine: array<Byte>, ghost list: seq<seq<Byte>>) returns (azArg: seq<nat>)
    requires StringAt(zLine[..], 0, [46] + ListText(list)) && forall i | 0 <= i < |list| :: 0 !in list[i]
    modifies zLine
    ensures |azArg| == if |list| <= MAX_ARGS then |list| else MAX_ARGS
    ensures forall k | 0 <= k < |azArg| :: StringAt(zLine[..], azArg[k], list[k])
  {
    hide StringAt, ListText, Tokens;
    ghost var line := [46] + ListText(list);
    ListHasNoNul(list);
    ListReads([], list, MAX_ARGS);
    assert line[1..] == [] + ListText(list);
    azArg := Tokenize(zLine, line);
  }

  /** The characters by name, and the classes of the C locale. */
  lemma Characters()
    ensures MAX_ARGS == 50
    ensures QUOTE == '"' as int && APOSTROPHE == '\'' as int && BACKSLASH == '\\' as int
    ensures forall c: Byte :: IsPrint(c) <==> Between(c, ' ', '~')
    ensures forall c: Byte :: IsSpace(c) <==> c == ' ' as int || Between(c, '\t', '\r')
    ensures forall c: Byte :: IsOctal(c) <==> Between(c, '0', '7')
  {}

  predicate Between(c: int, first: char, last: char) {
    first as int <= c <= last as int
  }

  /** What is printed for a byte: itself, a letter behind a backslash, or three octal digits with its value. */
  lemma EscapedForm(c: Byte)
    ensures EscapedByte(c) == [c] <==> Between(c, ' ', '~') && c != '"' as int && c != '\\' as int
    ensures EscapedByte(c) != [c] ==> EscapedByte(c)[0] == '\\' as int && |EscapedByte(c)| in {2, 4}
    ensures |EscapedByte(c)| == 2 <==> c in {9, 10, 13, 34, 92}
    ensures |EscapedByte(c)| == 2 ==> EscapedByte(c)[1] in ESCAPES && ESCAPES[EscapedByte(c)[1]] == c
    ensures |EscapedByte(c)| == 4 ==> Numeral(EscapedByte(c)[1..]) == c
  {
    hide Numeral, OctalDigits;
    OctalForm(c);
    assert |EscapedByte(c)| == 4 ==> EscapedByte(c)[1..] == OctalDigits(c);
  }

  lemma OctalForm(c: Byte)
    ensures Numeral(OctalDigits(c)) == c
  {
    hide Numeral;
    var d := OctalDigits(c);
    assert d[..3] == d;
    NumeralStep(d, 1);
    NumeralStep(d, 2);
    NumeralStep(d, 3);
    OctalSplit(c);
  }

  lemma OctalSplit(c: Byte)
    ensures c == 64 * (c / 64) + 8 * (c / 8 % 8) + c % 8
  {
    assert c / 64 == c / 8 / 8;
  }

  /** Between apostrophes a text is a token as it is. */
  lemma ApostrophesEnclose(w: seq<Byte>, more: seq<Byte>)
    requires '\'' as int !in w
    ensures FirstToken(['\'' as int] + w + ['\'' as int] + more) == Token(w, more)
  {
    var s := ['\'' as int] + w + ['\'' as int] + more;
    assert s[1..] == w + (['\'' as int] + more);
    ApostropheEnds(w, more);
    assert s[1..1 + |w|] == w && s[|w| + 2..] == more;
  }

  lemma {:induction false} ApostropheEnds(w: seq<Byte>, more: seq<Byte>)
    requires APOSTROPHE !in w
    ensures QuotedLength(w + ([APOSTROPHE] + more), APOSTROPHE) == |w|
  {
    var s := w + ([APOSTROPHE] + more);
    if w != [] {
      assert s[1..] == w[1..] + ([APOSTROPHE] + more);
      ApostropheEnds(w[1..], more);
    }
  }

  /** A text without white space that begins with no quote is a token up to a blank, with its escapes resolved. */
  lemma BlanksSeparate(w: seq<Byte>, more: seq<Byte>)
    requires w != [] && w[0] != '"' as int && w[0] != '\'' as int
    requires forall i | 0 <= i < |w| :: w[i] != 32 && !(9 <= w[i] <= 13)
    ensures FirstToken(w + [32] + more) == Token(Resolve(w), more)
    ensures FirstToken(w) == Token(Resolve(w), [])
  {
    hide Resolve;
    var s := w + [32] + more;
    assert s == w + ([32] + more);
    BareEnds(w, [32] + more);
    assert w + [] == w;
    BareEnds(w, []);
    assert s[..|w|] == w && s[|w| + 1..] == more && w[..|w|] == w;
  }

  lemma {:induction false} BareEnds(w: seq<Byte>, more: seq<Byte>)
    requires (forall i | 0 <= i < |w| :: w[i] != 32 && !(9 <= w[i] <= 13)) && (more == [] || more[0] == 32)
    ensures BareLength(w + more) == |w|
  {
    var s := w + more;
    if w != [] {
      assert s[1..] == w[1..] + more;
      BareEnds(w[1..], more);
    }
  }
}
