/** A small evaluator for the SQL text that shell.c writes: string literals, replace() and char(). */
module SqlText {
  import opened Wrappers

  /** replace(X,Y,Z): every occurrence of Y in X, leftmost first and without overlaps, becomes Z. */
  function Replace(x: string, y: string, z: string): string
    decreases |x|
  {
    if y == [] || |x| < |y| then x
    else if y <= x then z + Replace(x[|y|..], y, z)
    else [x[0]] + Replace(x[1..], y, z)
  }

  /** What follows the opening quote of a literal: its value and the text after its closing quote. */
  function LiteralTail(s: string): (r: Option<(string, string)>)
    ensures r.Some? ==> |r.value.1| < |s|
  {
    if s == [] then None
    else if s[0] != '\'' then
      match LiteralTail(s[1..])
      case None => None
      case Some((v, rest)) => Some(([s[0]] + v, rest))
    else if |s| > 1 && s[1] == '\'' then
      match LiteralTail(s[2..])
      case None => None
      case Some((v, rest)) => Some(("'" + v, rest))
    else Some(([], s[1..]))
  }

  /** The value of the expression s starts with, and the text after it. */
  function Parse(s: string): (r: Option<(string, string)>)
    ensures r.Some? ==> |r.value.1| < |s|
    decreases |s|
  {
    if "'" <= s then LiteralTail(s[1..])
    else if "char(10)" <= s then Some(("\n", s[8..]))
    else if "char(13)" <= s then Some(("\r", s[8..]))
    else if "replace(" <= s then
      match Parse(s[8..])
      case None => None
      case Some((x, s1)) =>
        if !("," <= s1) then None else
        match Parse(s1[1..])
        case None => None
        case Some((y, s2)) =>
          if !("," <= s2) then None else
          match Parse(s2[1..])
          case None => None
          case Some((z, s3)) => if ")" <= s3 then Some((Replace(x, y, z), s3[1..])) else None
    else None
  }

  function Evaluate(s: string): Option<string> {
    match Parse(s)
    case Some((v, rest)) => if rest == [] then Some(v) else None
    case None => None
  }
}

/** unused_string and output_quoted_escaped_string of shell.c. */
module SqlQuote {
  import opened Wrappers
  import opened SqlText

  /** strstr(z, t) != 0 */
  predicate Occurs(z: string, t: string) {
    exists i | 0 <= i <= |z| :: t <= z[i..]
  }

  predicate IsDigit(c: char) {
    '0' <= c <= '9'
  }

  function Digit(d: nat): (c: char)
    requires d < 10
    ensures IsDigit(c)
  {
    '0' + d as char
  }

  /** printf's %u */
  function Decimal(n: nat): (s: string)
    ensures s != [] && forall i | 0 <= i < |s| :: IsDigit(s[i])
  {
    if n < 10 then [Digit(n)] else Decimal(n / 10) + [Digit(n % 10)]
  }

  /** A number is written with no zero in front, and its digits have its value. */
  lemma {:induction false} DecimalIs(n: nat)
    ensures ValueOf(Decimal(n)) == n && (Decimal(n)[0] == '0' <==> n == 0) && (n < 10 ==> |Decimal(n)| == 1)
  {
    var d := Decimal(n);
    if n < 10 {
      assert d[..|d| - 1] == [];
    } else {
      assert d[..|d| - 1] == Decimal(n / 10);
      DecimalIs(n / 10);
    }
  }

  function ValueOf(d: string): int {
    if d == [] then 0 else 10 * ValueOf(d[..|d| - 1]) + d[|d| - 1] as int - '0' as int
  }

  lemma {:induction false} DecimalInjective(m: nat, n: nat)
    requires Decimal(m) == Decimal(n)
    ensures m == n
  {
    if m < 10 || n < 10 {
      assert |Decimal(m / 10)| > 0 && |Decimal(n / 10)| > 0;
    } else {
      var a, b := Decimal(m / 10), Decimal(n / 10);
      assert Decimal(m)[..|a|] == a && Decimal(n)[..|b|] == b;
      assert Decimal(m)[|a|] == Digit(m % 10) && Decimal(n)[|b|] == Digit(n % 10);
      DecimalInjective(m / 10, n / 10);
    }
  }

  function Candidate(zA: string, i: nat): string {
    "(" + zA + Decimal(i) + ")"
  }

  /** No candidate is a prefix of another: the closing parenthesis is their only one. */
  lemma CandidatesArePrefixFree(zA: string, i: nat, j: nat, s: string)
    requires ')' !in zA
    requires Candidate(zA, i) <= s && Candidate(zA, j) <= s
    ensures i == j
  {
    var c, d := Candidate(zA, i), Candidate(zA, j);
    var m, n := |c| - 1, |d| - 1;
    assert c[m] == ')' && d[n] == ')' && c[m] == s[m] && d[n] == s[n];
    assert forall k | 0 <= k < m :: c[k] in zA || c[k] in Decimal(i) || c[k] == '(';
    assert forall k | 0 <= k < n :: d[k] in zA || d[k] in Decimal(j) || d[k] == '(';
    assert m == n && c == d;
    assert Decimal(i) == c[1 + |zA|..m] && Decimal(j) == d[1 + |zA|..n];
    DecimalInjective(i, j);
  }

  lemma {:induction false} Pigeonhole(p: seq<nat>, n: nat)
    requires forall i | 0 <= i < |p| :: p[i] < n
    requires forall i, j | 0 <= i < j < |p| :: p[i] != p[j]
    ensures |p| <= n
  {
    if p != [] {
      assert p[0] < n;
      if k :| 0 <= k < |p| && p[k] == n - 1 {
        Pigeonhole(p[..k] + p[k + 1..], n - 1);
      } else {
        Pigeonhole(p, n - 1);
      }
    }
  }

  /** A string that unused_string may return, and the probes it makes: zA, zB, then candidates in order. */
  ghost predicate IsFirstUnused(z: string, zA: string, zB: string, t: string) {
    && !Occurs(z, t)
    && (t == zA
        || (Occurs(z, zA) && t == zB)
        || (Occurs(z, zA) && Occurs(z, zB) && exists i: nat ::
              i <= |z| && t == Candidate(zA, i) && forall j: nat | j < i :: Occurs(z, Candidate(zA, j))))
  }

  method UnusedString(z: string, zA: string, zB: string) returns (t: string)
    requires ')' !in zA
    ensures IsFirstUnused(z, zA, zB, t)
  {
    if !Occurs(z, zA) { return zA; }
    if !Occurs(z, zB) { return zB; }
    hide Candidate;
    var i: nat := 0;
    ghost var found: seq<nat> := [];
    t := Candidate(zA, i);
    i := 1;
    while Occurs(z, t)
      invariant 0 < i && t == Candidate(zA, i - 1)
      invariant |found| == i - 1 <= |z| && FoundAt(z, zA, found)
      decreases |z| + 1 - i
    {
      found := AnotherFound(z, zA, found);
      t := Candidate(zA, i);
      i := i + 1;
    }
    assert forall j: nat | j < i - 1 :: Occurs(z, Candidate(zA, j));
  }

  /** Candidate k starts at position found[k] of z, and no two start at the same place. */
  ghost predicate FoundAt(z: string, zA: string, found: seq<nat>) {
    && (forall k: nat | k < |found| :: found[k] < |z| && Candidate(zA, k) <= z[found[k]..])
    && (forall k, l | 0 <= k < l < |found| :: found[k] != found[l])
  }

  /** So finding one more candidate uses up one more position of z. */
  lemma AnotherFound(z: string, zA: string, found: seq<nat>) returns (more: seq<nat>)
    requires ')' !in zA && FoundAt(z, zA, found) && Occurs(z, Candidate(zA, |found|))
    ensures |more| == |found| + 1 <= |z| && FoundAt(z, zA, more)
  {
    var i := |found|;
    var p: nat :| p <= |z| && Candidate(zA, i) <= z[p..];
    assert |Candidate(zA, i)| > 0;
    hide Candidate;
    forall k: nat | k < i ensures found[k] != p {
      if found[k] == p {
        CandidatesArePrefixFree(zA, k, i, z[p..]);
      }
    }
    more := found + [p];
    Pigeonhole(more, |z|);
  }

  /** What the code writes in place of character c, inside the literal and before quotes are doubled. */
  function Item(c: char, nl: string, cr: string): string {
    if c == '\n' then nl else if c == '\r' then cr else [c]
  }

  function Substituted(z: string, nl: string, cr: string): string {
    if z == [] then [] else Item(z[0], nl, cr) + Substituted(z[1..], nl, cr)
  }

  function Doubled(z: string): string {
    if z == [] then [] else (if z[0] == '\'' then "''" else [z[0]]) + Doubled(z[1..])
  }

  /** The three shapes of a token for a control character written with letter x and octal digits 01o. */
  ghost predicate IsToken(t: string, x: char, o: char) {
    || t == ['\\', x]
    || t == ['\\', '0', '1', o]
    || (&& |t| >= 5 && t[0] == '(' && t[1] == '\\' && t[2] == x && t[|t| - 1] == ')'
        && forall j | 3 <= j < |t| - 1 :: IsDigit(t[j]))
  }

  ghost predicate IsNewline(t: string) {
    IsToken(t, 'n', '2')
  }

  ghost predicate IsReturn(t: string) {
    IsToken(t, 'r', '5')
  }

  lemma UnusedIsToken(z: string, t: string, x: char, o: char)
    requires IsFirstUnused(z, ['\\', x], ['\\', '0', '1', o], t)
    ensures IsToken(t, x, o) && !Occurs(z, t)
  {
    if i: nat :| i <= |z| && t == Candidate(['\\', x], i) {
      assert t[3..|t| - 1] == Decimal(i);
      assert forall j | 3 <= j < |t| - 1 :: t[j] == Decimal(i)[j - 3];
    }
  }

  /** A token never overlaps itself, and never touches one of the other kind. */
  lemma TokensDoNotOverlap(t: string, u: string, k: nat)
    requires IsNewline(t) || IsReturn(t)
    requires IsNewline(u) || IsReturn(u)
    requires IsNewline(t) == IsNewline(u) ==> t == u
    requires k < |t| && forall i | 0 <= i < |u| && k + i < |t| :: t[k + i] == u[i]
    ensures k == 0 && IsNewline(t) == IsNewline(u)
  {
    assert t[k] == u[0];
    assert k + 1 < |t| ==> t[k + 1] == u[1];
    assert k + 2 < |t| && 2 < |u| ==> t[k + 2] == u[2];
    assert k + 3 < |t| && 3 < |u| ==> t[k + 3] == u[3];
  }

  lemma {:induction false} PlainPrefix(z: string, nl: string, cr: string, k: nat)
    requires k <= |z| && forall i | 0 <= i < k :: Item(z[i], nl, cr) == [z[i]]
    ensures Substituted(z, nl, cr) == z[..k] + Substituted(z[k..], nl, cr)
  {
    if k > 0 {
      PlainPrefix(z[1..], nl, cr, k - 1);
      assert z[1..][k - 1..] == z[k..];
    }
  }

  /** nl and cr are what the code, or one replace() later the text, holds for the two characters. */
  ghost predicate Stage(nl: string, cr: string) {
    (nl == "\n" || IsNewline(nl)) && (cr == "\r" || IsReturn(cr))
  }

  lemma Kinds(t: string)
    requires IsNewline(t) || IsReturn(t)
    ensures |t| > 1 && !(IsNewline(t) && IsReturn(t))
  {}

  /** A token that z lacks can begin the text only where its own character begins z. */
  lemma TokenStartsAtItsCharacter(z: string, nl: string, cr: string, t: string)
    requires Stage(nl, cr) && !Occurs(z, t)
    requires (t == nl && IsNewline(t)) || (t == cr && IsReturn(t))
    requires t <= Substituted(z, nl, cr)
    ensures z != [] && z[0] == if IsNewline(t) then '\n' else '\r'
  {
    assert Substituted([], nl, cr) == [];
    hide IsToken, Substituted, Occurs;
    var k := FirstSpecial(z, nl, cr);
    PlainPrefix(z, nl, cr, k);
    var plain, tail := z[..k], Substituted(z[k..], nl, cr);
    if |t| <= k || k == |z| {
      PrefixOfPlain(z, t, plain, tail, k);
    } else {
      FirstItem(z[k..], nl, cr);
      ReachesItem(z[k], nl, cr, t, plain, tail);
    }
  }

  /** A token that reaches into the item of a control character is that item. */
  lemma ReachesItem(c: char, nl: string, cr: string, t: string, plain: string, tail: string)
    requires Stage(nl, cr) && ((t == nl && IsNewline(t)) || (t == cr && IsReturn(t)))
    requires Item(c, nl, cr) != [c] && Item(c, nl, cr) <= tail
    requires t <= plain + tail && |plain| < |t|
    ensures plain == [] && c == if IsNewline(t) then '\n' else '\r'
  {
    hide IsToken;
    var u, k := Item(c, nl, cr), |plain|;
    forall i | 0 <= i < |u| && k + i < |t| ensures t[k + i] == u[i] {
      assert t[k + i] == (plain + tail)[k + i] == tail[i];
    }
    Kinds(t);
    Kinds(u);
    TokensDoNotOverlap(t, u, k);
  }

  lemma FirstItem(z: string, nl: string, cr: string)
    requires z != []
    ensures Item(z[0], nl, cr) <= Substituted(z, nl, cr)
  {}

  lemma OccursInMore(z: string, t: string)
    requires z != [] && Occurs(z[1..], t)
    ensures Occurs(z, t)
  {
    var i :| 0 <= i <= |z[1..]| && t <= z[1..][i..];
    assert z[1..][i..] == z[i + 1..];
  }

  lemma PrefixOfPlain(z: string, t: string, plain: string, tail: string, k: nat)
    requires k <= |z| && plain == z[..k] && t <= plain + tail
    requires |t| <= k || (k == |z| && tail == [])
    ensures Occurs(z, t)
  {
    assert z[0..] == z;
    assert t == plain[..|t|];
    assert t <= z[0..];
  }

  function FirstSpecial(z: string, nl: string, cr: string): (k: nat)
    ensures k <= |z| && forall i | 0 <= i < k :: Item(z[i], nl, cr) == [z[i]]
    ensures k < |z| ==> Item(z[k], nl, cr) != [z[k]]
  {
    if z == [] || Item(z[0], nl, cr) != [z[0]] then 0 else 1 + FirstSpecial(z[1..], nl, cr)
  }

  lemma NoTokenInsideToken(u: string, rest: string, t: string, j: nat)
    requires IsNewline(t) || IsReturn(t)
    requires IsNewline(u) || IsReturn(u)
    requires IsNewline(t) == IsNewline(u) ==> t == u
    requires 0 < j < |u|
    ensures !(t <= (u + rest)[j..])
  {
    if t <= (u + rest)[j..] {
      forall i | 0 <= i < |t| && j + i < |u| ensures u[j + i] == t[i] {
        assert t[i] == (u + rest)[j..][i] == u[j + i];
      }
      TokensDoNotOverlap(u, t, j);
    }
  }

  lemma {:induction false} ReplaceSkips(x: string, y: string, z: string, n: nat)
    requires n <= |x| && forall j | 0 <= j < n :: !(y <= x[j..])
    ensures Replace(x, y, z) == x[..n] + Replace(x[n..], y, z)
  {
    if n > 0 {
      forall j | 0 <= j < n - 1 ensures !(y <= x[1..][j..]) {
        assert x[1..][j..] == x[j + 1..];
      }
      ReplaceSkips(x[1..], y, z, n - 1);
      assert x[1..][n - 1..] == x[n..] && !(y <= x[0..]);
    }
  }

  /** One replace() undoes one of the two substitutions and leaves the other alone. */
  lemma {:induction false} ReplaceUndoes(z: string, nl: string, cr: string, t: string)
    requires Stage(nl, cr) && !Occurs(z, t)
    requires (t == nl && IsNewline(t)) || (t == cr && IsReturn(t))
    ensures IsNewline(t) ==> Replace(Substituted(z, nl, cr), t, "\n") == Substituted(z, "\n", cr)
    ensures IsReturn(t) ==> Replace(Substituted(z, nl, cr), t, "\r") == Substituted(z, nl, "\r")
    decreases |z|
  {
    hide IsToken;
    if z != [] {
      var x, u, rest := Substituted(z, nl, cr), Item(z[0], nl, cr), Substituted(z[1..], nl, cr);
      if Occurs(z[1..], t) {
        OccursInMore(z, t);
      }
      ReplaceUndoes(z[1..], nl, cr, t);
      Kinds(t);
      if z[0] == if IsNewline(t) then '\n' else '\r' {
        assert u == t && x[|t|..] == rest && t <= x;
      } else {
        forall j | 0 <= j < |u| ensures !(t <= x[j..]) {
          if j > 0 {
            Kinds(u);
            NoTokenInsideToken(u, rest, t, j);
          } else if t <= x[0..] {
            assert x[0..] == x;
            TokenStartsAtItsCharacter(z, nl, cr, t);
          }
        }
        ReplaceSkips(x, t, if IsNewline(t) then "\n" else "\r", |u|);
        assert x[..|u|] == u && x[|u|..] == rest;
      }
    }
  }

  lemma {:induction false} NothingSubstituted(z: string)
    ensures Substituted(z, "\n", "\r") == z
  {
    if z != [] {
      NothingSubstituted(z[1..]);
    }
  }

  /** A literal holds what was doubled into it. */
  lemma {:induction false} LiteralHolds(w: string, rest: string)
    requires !("'" <= rest)
    ensures LiteralTail(Doubled(w) + "'" + rest) == Some((w, rest))
  {
    var s := Doubled(w) + "'" + rest;
    if w == [] {
      assert s == "'" + rest && s[1..] == rest;
    } else {
      LiteralHolds(w[1..], rest);
      var tail := Doubled(w[1..]) + "'" + rest;
      if w[0] == '\'' {
        assert s[2..] == tail;
      } else {
        assert s[1..] == tail;
      }
      assert [w[0]] + w[1..] == w;
    }
  }

  function CallTail(t: string, control: string): string {
    ",'" + t + "'," + control + ")"
  }

  function Call(text: string, t: string, control: string): string {
    "replace(" + text + CallTail(t, control)
  }

  lemma {:induction false} NothingDoubled(t: string)
    requires '\'' !in t
    ensures Doubled(t) == t
  {
    if t != [] {
      NothingDoubled(t[1..]);
    }
  }

  lemma QuoteParses(x: string)
    ensures Parse("'" + x) == LiteralTail(x)
  {
    assert ("'" + x)[1..] == x;
  }

  lemma LiteralParses(w: string, rest: string)
    requires !("'" <= rest)
    ensures Parse("'" + Doubled(w) + "'" + rest) == Some((w, rest))
  {
    hide Parse, Doubled, LiteralTail;
    LiteralHolds(w, rest);
    var x := Doubled(w) + "'" + rest;
    QuoteParses(x);
    assert "'" + Doubled(w) + "'" + rest == "'" + x;
  }

  lemma ControlParses(control: string, value: string, rest: string)
    requires (control == "char(10)" && value == "\n") || (control == "char(13)" && value == "\r")
    ensures Parse(control + rest) == Some((value, rest))
  {
    var s := control + rest;
    assert s[0] == 'c' && s[6] == control[6] && s[8..] == rest && s[..8] == control;
  }

  /** One replace() around a text that parses. */
  lemma CallParses(text: string, v: string, t: string, control: string, value: string, rest: string)
    requires (control == "char(10)" && value == "\n") || (control == "char(13)" && value == "\r")
    requires '\'' !in t
    requires var tail := ",'" + t + "'," + control + ")" + rest; Parse(text + tail) == Some((v, tail))
    ensures Parse(Call(text, t, control) + rest) == Some((Replace(v, t, value), rest))
  {
    hide Parse, Replace, LiteralTail, Call, Doubled;
    var s3 := ")" + rest;
    var s2 := "," + (control + s3);
    var s1 := "," + ("'" + t + "'" + s2);
    var s := "replace(" + (text + s1);
    CallPieces(text, t, control, rest, s1, s2, s3);
    NothingDoubled(t);
    LiteralParses(t, s2);
    ControlParses(control, value, s3);
    CallUnfolds(s, v, t, value, s1, s2, s3);
  }

  lemma CallPieces(text: string, t: string, control: string, rest: string, s1: string, s2: string, s3: string)
    requires s3 == ")" + rest && s2 == "," + (control + s3) && s1 == "," + ("'" + t + "'" + s2)
    ensures s1 == ",'" + t + "'," + control + ")" + rest
    ensures "replace(" + (text + s1) == Call(text, t, control) + rest
    ensures s1[1..] == "'" + t + "'" + s2 && s2[1..] == control + s3 && s3[1..] == rest
    ensures ("replace(" + (text + s1))[8..] == text + s1
    ensures s2[0] == ','
  {
    assert s1 == ",'" + t + "'," + control + ")" + rest;
  }

  lemma CallUnfolds(s: string, x: string, y: string, z: string, s1: string, s2: string, s3: string)
    requires "replace(" <= s && Parse(s[8..]) == Some((x, s1))
    requires "," <= s1 && Parse(s1[1..]) == Some((y, s2))
    requires "," <= s2 && Parse(s2[1..]) == Some((z, s3)) && ")" <= s3
    ensures Parse(s) == Some((Replace(x, y, z), s3[1..]))
  {
    hide Replace;
    assert s[0] == "replace("[0];
  }

  /** The expression printed for z, given the token for each of the two characters that z contains. */
  function QuotedText(z: string, zNL: string, zCR: string): string {
    var literal := "'" + Doubled(Substituted(z, zNL, zCR)) + "'";
    var inner := if '\r' in z then Call(literal, zCR, "char(13)") else literal;
    if '\n' in z then Call(inner, zNL, "char(10)") else inner
  }

  /** The tokens of a character that z lacks do not matter. */
  lemma {:induction false} UnusedTokens(z: string, nl: string, cr: string, nl': string, cr': string)
    requires '\n' in z ==> nl == nl'
    requires '\r' in z ==> cr == cr'
    ensures Substituted(z, nl, cr) == Substituted(z, nl', cr')
  {
    if z != [] {
      UnusedTokens(z[1..], nl, cr, nl', cr');
    }
  }

  lemma TokensHaveNoQuote(t: string)
    requires IsNewline(t) || IsReturn(t)
    ensures '\'' !in t && '\n' !in t && '\r' !in t
  {}

  /** Around a literal for w, a call undoes whatever token it names. */
  lemma LiteralInCall(w: string, t: string, control: string, value: string, rest: string)
    requires (control == "char(10)" && value == "\n") || (control == "char(13)" && value == "\r")
    requires '\'' !in t
    ensures Parse(Call("'" + Doubled(w) + "'", t, control) + rest) == Some((Replace(w, t, value), rest))
  {
    hide Parse, Replace, Doubled;
    var tail := ",'" + t + "'," + control + ")" + rest;
    assert tail[0] == ',';
    LiteralParses(w, tail);
    CallParses("'" + Doubled(w) + "'", w, t, control, value, rest);
  }

  /** What the evaluator makes of the text is the string it was printed for. */
  lemma QuotedTextMeansItself(z: string, zNL: string, zCR: string)
    requires '\n' in z ==> IsNewline(zNL) && !Occurs(z, zNL)
    requires '\r' in z ==> IsReturn(zCR) && !Occurs(z, zCR)
    ensures Evaluate(QuotedText(z, zNL, zCR)) == Some(z)
  {
    var nl := if '\n' in z then zNL else "\n";
    var cr := if '\r' in z then zCR else "\r";
    UnusedTokens(z, zNL, zCR, nl, cr);
    NothingSubstituted(z);
    var w := Substituted(z, nl, cr);
    var literal := "'" + Doubled(w) + "'";
    if '\n' in z { TokensHaveNoQuote(nl); }
    if '\r' in z { TokensHaveNoQuote(cr); }
    hide Parse, Replace, IsToken, Occurs, Doubled, Substituted;
    if '\r' in z {
      ReplaceUndoes(z, nl, cr, cr);
      if '\n' in z {
        ReplaceUndoes(z, nl, "\r", nl);
        LiteralInCall(w, cr, "char(13)", "\r", ",'" + nl + "'," + "char(10)" + ")" + "");
        CallParses(Call(literal, cr, "char(13)"), Substituted(z, nl, "\r"), nl, "char(10)", "\n", "");
      } else {
        LiteralInCall(w, cr, "char(13)", "\r", "");
      }
    } else if '\n' in z {
      ReplaceUndoes(z, nl, cr, nl);
      LiteralInCall(w, nl, "char(10)", "\n", "");
    } else {
      LiteralParses(w, "");
    }
    assert QuotedText(z, zNL, zCR) + "" == QuotedText(z, zNL, zCR);
  }

  lemma {:induction false} OneMoreItem(z: string, c: char, nl: string, cr: string)
    ensures Substituted(z + [c], nl, cr) == Substituted(z, nl, cr) + Item(c, nl, cr)
  {
    if z == [] {
      assert z + [c] == [c];
    } else {
      assert (z + [c])[1..] == z[1..] + [c];
      OneMoreItem(z[1..], c, nl, cr);
    }
  }

  lemma {:induction false} DoubledConcat(s: string, t: string)
    ensures Doubled(s + t) == Doubled(s) + Doubled(t)
  {
    if s == [] {
      assert s + t == t;
    } else {
      assert (s + t)[1..] == s[1..] + t;
      DoubledConcat(s[1..], t);
    }
  }

  function Escaped(z: string, nl: string, cr: string): string {
    Doubled(Substituted(z, nl, cr))
  }

  lemma OneMoreEscaped(z: string, p: nat, nl: string, cr: string)
    requires p < |z|
    ensures Escaped(z[..p + 1], nl, cr) == Escaped(z[..p], nl, cr) + Doubled(Item(z[p], nl, cr))
  {
    assert z[..p + 1] == z[..p] + [z[p]];
    OneMoreItem(z[..p], z[p], nl, cr);
    DoubledConcat(Substituted(z[..p], nl, cr), Item(z[p], nl, cr));
  }

  lemma {:induction false} PlainIsEscaped(z: string, p: nat, q: nat, nl: string, cr: string)
    requires p <= q <= |z| && forall i | p <= i < q :: z[i] != '\n' && z[i] != '\r' && z[i] != '\''
    ensures Escaped(z[..q], nl, cr) == Escaped(z[..p], nl, cr) + z[p..q]
    decreases q
  {
    hide Substituted;
    if p < q {
      PlainIsEscaped(z, p, q - 1, nl, cr);
      OneMoreEscaped(z, q - 1, nl, cr);
      assert z[p..q] == z[p..q - 1] + [z[q - 1]];
    } else {
      assert z[p..q] == [];
    }
  }

  /** Length of the run of plain characters from position p on. */
  method PlainRun(z: string, p: nat) returns (i: nat)
    requires p <= |z|
    ensures p + i <= |z| && forall k | p <= k < p + i :: z[k] != '\n' && z[k] != '\r' && z[k] != '\''
    ensures p + i < |z| ==> z[p + i] == '\n' || z[p + i] == '\r' || z[p + i] == '\''
  {
    i := 0;
    while p + i < |z| && z[p + i] != '\'' && z[p + i] != '\n' && z[p + i] != '\r'
      invariant p + i <= |z| && forall k | p <= k < p + i :: z[k] != '\n' && z[k] != '\r' && z[k] != '\''
    {
      i := i + 1;
    }
  }

  /** What is printed of a run, with or without the quote that ends it. */
  lemma RunPrinted(out: string, z: string, p: nat, run: nat, i: nat)
    requires p + i <= |z| && (i == run || (i == run + 1 && z[p + run] == '\''))
    ensures i == 0 ==> z[p..p + run] == []
    ensures i == run + 1 ==> out + z[p..p + i] + "'" == out + z[p..p + run] + "''"
  {
    assert i == run + 1 ==> z[p..p + i] == z[p..p + run] + "'";
  }

  /** The loop that prints the contents of the literal. */
  method PrintContents(z: string, zNL: string, zCR: string) returns (out: string)
    requires '\n' in z ==> IsNewline(zNL)
    requires '\r' in z ==> IsReturn(zCR)
    ensures out == Escaped(z, zNL, zCR)
  {
    hide Doubled, Substituted, Escaped;
    out := [];
    var p: nat := 0;
    NothingEscaped(zNL, zCR);
    assert z[..0] == [];
    while p < |z|
      invariant p <= |z| && out == Escaped(z[..p], zNL, zCR)
      decreases |z| - p
    {
      var i := PlainRun(z, p);
      PlainIsEscaped(z, p, p + i, zNL, zCR);
      var c := if p + i < |z| then z[p + i] else '\0';
      ghost var run := i;
      if p + i < |z| {
        OneMoreEscaped(z, p + i, zNL, zCR);
        EscapedItem(z[p + i], zNL, zCR);
      }
      if c == '\'' { i := i + 1; }
      RunPrinted(out, z, p, run, i);
      if i > 0 {
        out := out + z[p..p + i];
        p := p + i;
      }
      if c == '\'' {
        out := out + "'";
        continue;
      }
      if p == |z| {
        break;
      }
      p := p + 1;
      if c == '\n' {
        out := out + zNL;
        continue;
      }
      out := out + zCR;
    }
    assert z[..|z|] == z;
  }

  lemma {:induction false} NoControlsEscaped(z: string, nl: string, cr: string)
    requires '\n' in z ==> IsNewline(nl)
    requires '\r' in z ==> IsReturn(cr)
    ensures '\n' !in Escaped(z, nl, cr) && '\r' !in Escaped(z, nl, cr)
  {
    if z != [] {
      NoControlsEscaped(z[1..], nl, cr);
      DoubledConcat(Item(z[0], nl, cr), Substituted(z[1..], nl, cr));
      EscapedItem(z[0], nl, cr);
      if z[0] == '\n' { TokensHaveNoQuote(nl); }
      if z[0] == '\r' { TokensHaveNoQuote(cr); }
    }
  }

  lemma EscapedMeans(z: string, nl: string, cr: string)
    ensures Escaped(z, nl, cr) == Doubled(Substituted(z, nl, cr))
  {}

  lemma NothingEscaped(nl: string, cr: string)
    ensures Escaped([], nl, cr) == []
  {}

  lemma EscapedItem(c: char, nl: string, cr: string)
    requires c == '\n' ==> IsNewline(nl)
    requires c == '\r' ==> IsReturn(cr)
    ensures Doubled(Item(c, nl, cr)) ==
      if c == '\n' then nl else if c == '\r' then cr else if c == '\'' then "''" else [c]
  {
    if c == '\n' {
      TokensHaveNoQuote(nl);
      NothingDoubled(nl);
    } else if c == '\r' {
      TokensHaveNoQuote(cr);
      NothingDoubled(cr);
    }
  }

  lemma PlainText(z: string)
    requires '\n' !in z && '\r' !in z && '\'' !in z
    ensures Evaluate("'" + z + "'") == Some(z)
  {
    PlainIsEscaped(z, 0, |z|, [], []);
    QuotedTextMeansItself(z, [], []);
    assert z[..|z|] == z && z[0..|z|] == z && z[..0] == [];
    assert Escaped(z, [], []) == z;
    EscapedMeans(z, [], []);
    hide Evaluate, Escaped;
    assert QuotedText(z, [], []) == "'" + z + "'";
  }

  lemma Regrouped(r: string, q: string, x: string, t: string, u: string)
    ensures r + (q + x + q) + t == (r + q) + x + (q + t)
    ensures r + (r + (q + x + q) + t) + u == (r + r + q) + x + (q + t + u)
  {
    assert r + (q + x + q) + t == (r + q) + x + (q + t);
  }

  lemma TailTexts(t: string)
    ensures ",'" + t + "',char(13))" == CallTail(t, "char(13)")
    ensures ",'" + t + "',char(10))" == CallTail(t, "char(10)")
  {
    assert "'," + "char(13)" + ")" == "',char(13))";
    assert "'," + "char(10)" + ")" == "',char(10))";
  }

  function Opening(z: string): string {
    (if '\n' in z then "replace(" else "") + (if '\r' in z then "replace(" else "") + "'"
  }

  function Closing(z: string, zNL: string, zCR: string): string {
    "'" + (if '\r' in z then CallTail(zCR, "char(13)") else "") + (if '\n' in z then CallTail(zNL, "char(10)") else "")
  }

  /** The pieces that the code prints around the contents add up to the nested calls. */
  lemma Assembled(z: string, zNL: string, zCR: string)
    ensures Opening(z) + Escaped(z, zNL, zCR) + Closing(z, zNL, zCR) == QuotedText(z, zNL, zCR)
  {
    EscapedMeans(z, zNL, zCR);
    hide Escaped, Doubled, Substituted, CallTail;
    var contents, t, u := Escaped(z, zNL, zCR), CallTail(zCR, "char(13)"), CallTail(zNL, "char(10)");
    Regrouped("replace(", "'", contents, t, u);
    Regrouped("replace(", "'", contents, u, t);
    assert "" + "replace(" == "replace(" == "replace(" + "";
  }

  ghost predicate TokensFor(z: string, zNL: string, zCR: string) {
    && ('\n' in z ==> IsNewline(zNL) && !Occurs(z, zNL))
    && ('\r' in z ==> IsReturn(zCR) && !Occurs(z, zCR))
  }

  /** The text before the contents of the literal, and the tokens chosen on the way. */
  method PrintOpening(z: string) returns (out: string, zNL: string, zCR: string)
    ensures out == Opening(z) && TokensFor(z, zNL, zCR)
  {
    hide IsToken, Occurs;
    out, zNL, zCR := [], [], [];
    var nNL := Count(z, '\n');
    var nCR := Count(z, '\r');
    if nNL > 0 {
      out := out + "replace(";
      zNL := UnusedString(z, "\\n", "\\012");
      UnusedIsToken(z, zNL, 'n', '2');
    }
    if nCR > 0 {
      out := out + "replace(";
      zCR := UnusedString(z, "\\r", "\\015");
      UnusedIsToken(z, zCR, 'r', '5');
    }
    out := out + "'";
  }

  method PrintClosing(z: string, zNL: string, zCR: string) returns (out: string)
    requires TokensFor(z, zNL, zCR)
    ensures out == Closing(z, zNL, zCR)
  {
    TailTexts(zCR);
    TailTexts(zNL);
    hide CallTail;
    out := "'";
    if '\r' in z {
      out := out + (",'" + zCR + "',char(13))");
    }
    if '\n' in z {
      out := out + (",'" + zNL + "',char(10))");
    }
  }

  predicate Clean(s: string) {
    '\n' !in s && '\r' !in s
  }

  lemma CallTailIsClean(t: string, control: string)
    requires (IsNewline(t) || IsReturn(t)) && (control == "char(10)" || control == "char(13)")
    ensures Clean(CallTail(t, control))
  {
    TokensHaveNoQuote(t);
    hide IsToken;
    assert Clean(control);
  }

  lemma NoControlsAround(z: string, zNL: string, zCR: string)
    requires TokensFor(z, zNL, zCR)
    ensures Clean(Opening(z)) && Clean(Closing(z, zNL, zCR))
  {
    hide IsNewline, IsReturn, Occurs, CallTail;
    if '\n' in z { CallTailIsClean(zNL, "char(10)"); }
    if '\r' in z { CallTailIsClean(zCR, "char(13)"); }
  }

  method OutputQuotedEscapedString(z: string) returns (out: string)
    ensures Evaluate(out) == Some(z)
    ensures '\n' !in out && '\r' !in out
  {
    hide Escaped, IsToken, Evaluate, Occurs, QuotedText, Opening, Closing;
    var i := PlainRun(z, 0);
    if i == |z| {
      PlainText(z);
      return "'" + z + "'";
    }
    var opening, zNL, zCR := PrintOpening(z);
    var contents := PrintContents(z, zNL, zCR);
    var closing := PrintClosing(z, zNL, zCR);
    out := opening + contents + closing;
    NoControlsAround(z, zNL, zCR);
    NoControlsEscaped(z, zNL, zCR);
    Assembled(z, zNL, zCR);
    QuotedTextMeansItself(z, zNL, zCR);
  }

  method Count(z: string, c: char) returns (n: nat)
    ensures n > 0 <==> c in z
  {
    n := 0;
    for i := 0 to |z|
      invariant n > 0 <==> c in z[..i]
    {
      if z[i] == c { n := n + 1; }
    }
    assert z[..|z|] == z;
  }
}
