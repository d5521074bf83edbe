/** testcase_glob: the matcher of the shell's test cases. */
module Glob {
  import opened Wrappers
  import opened Words
  import opened CString

  const STAR: Byte := 42
  const QUESTION: Byte := 63
  const HASH: Byte := 35
  const OPEN: Byte := 91
  const CLOSE: Byte := 93
  const CARET: Byte := 94
  const DASH: Byte := 45
  const PLUS: Byte := 43

  /** A byte as the signed char that the code compares. */
  function Signed(c: Byte): int {
    if c < 128 then c else c - 256
  }

  datatype Range = Range(lo: int, hi: int)

  /** What a pattern is made of; Never stands for a class that is not closed. */
  datatype Item = Lit(c: Byte) | Any | Star | Class(invert: bool, ranges: seq<Range>) | Space | Number | Never

  datatype Members = Members(ranges: seq<Range>, rest: seq<Byte>)

  /** The members of a class up to its ']', after a member `prior` that may begin a range. */
  function MembersFrom(p: seq<Byte>, prior: int): (m: Option<Members>)
    ensures m.Some? ==> |m.value.rest| < |p|
    decreases |p|
  {
    if p == [] then None
    else if p[0] == CLOSE then Some(Members([], p[1..]))
    else if p[0] == DASH && |p| > 1 && p[1] != CLOSE && prior > 0 then
      match MembersFrom(p[2..], 0)
      case None => None
      case Some(m) => Some(Members([Range(prior, Signed(p[1]))] + m.ranges, m.rest))
    else
      match MembersFrom(p[1..], Signed(p[0]))
      case None => None
      case Some(m) => Some(Members([Range(Signed(p[0]), Signed(p[0]))] + m.ranges, m.rest))
  }

  /** A class after its '[': a leading '^' inverts it, and a ']' that comes first is a member. */
  datatype Bracket = Bracket(invert: bool, ranges: seq<Range>, rest: seq<Byte>)

  function BracketAt(p: seq<Byte>): (b: Option<Bracket>)
    ensures b.Some? ==> |b.value.rest| < |p|
  {
    var invert := p != [] && p[0] == CARET;
    var q := if invert then p[1..] else p;
    var first := q != [] && q[0] == CLOSE;
    match MembersFrom(if first then q[1..] else q, 0)
    case None => None
    case Some(m) => Some(Bracket(invert, (if first then [Range(93, 93)] else []) + m.ranges, m.rest))
  }

  /** The items of a pattern; right after a '*', white space and '#' stand for themselves. */
  function Parse(p: seq<Byte>, afterStar: bool): seq<Item>
    decreases |p|
  {
    if p == [] then []
    else if p[0] == STAR then [Star] + Parse(p[1..], true)
    else if p[0] == QUESTION then [Any] + Parse(p[1..], afterStar)
    else if p[0] == OPEN then
      match BracketAt(p[1..])
      case None => [Never]
      case Some(b) => [Class(b.invert, b.ranges)] + Parse(b.rest, false)
    else if afterStar then [Lit(p[0])] + Parse(p[1..], false)
    else if IsSpace(p[0]) then [Space] + Parse(p[1 + Spaces(p[1..])..], false)
    else if p[0] == HASH then [Number] + Parse(p[1..], false)
    else [Lit(p[0])] + Parse(p[1..], false)
  }

  predicate InRanges(c: Byte, ranges: seq<Range>) {
    exists i | 0 <= i < |ranges| :: ranges[i].lo <= Signed(c) <= ranges[i].hi
  }

  predicate IsDigit(c: Byte) {
    48 <= c <= 57
  }

  function Digits(z: seq<Byte>): (n: nat)
    ensures n <= |z|
  {
    if z == [] || !IsDigit(z[0]) then 0 else 1 + Digits(z[1..])
  }

  /** Length of a number with an optional sign, or 0. */
  function NumberLength(z: seq<Byte>): (n: nat)
    ensures n <= |z|
  {
    if |z| > 1 && (z[0] == DASH || z[0] == PLUS) && IsDigit(z[1]) then 1 + Digits(z[1..]) else Digits(z)
  }

  predicate Blank(z: seq<Byte>) {
    forall i | 0 <= i < |z| :: IsSpace(z[i])
  }

  /** The language of a pattern; white space and numbers in the text are taken as a whole. */
  ghost predicate Matches(items: seq<Item>, z: seq<Byte>, loose: bool)
    decreases |items|
  {
    if items == [] then (if loose then Blank(z) else z == []) else
    var more := items[1..];
    match items[0]
    case Lit(c) => z != [] && z[0] == c && Matches(more, z[1..], loose)
    case Any => z != [] && Matches(more, z[1..], loose)
    case Class(invert, ranges) => z != [] && InRanges(z[0], ranges) != invert && Matches(more, z[1..], loose)
    case Star => exists k | 0 <= k <= |z| :: Matches(more, z[k..], loose)
    case Space => z != [] && IsSpace(z[0]) && Matches(more, z[Spaces(z)..], loose)
    case Number => NumberLength(z) > 0 && Matches(more, z[NumberLength(z)..], loose)
    case Never => false
  }

  lemma StarStep(more: seq<Item>, z: seq<Byte>, loose: bool)
    ensures Matches([Star] + more, z, loose) <==>
      Matches(more, z, loose) || (z != [] && Matches([Star] + more, z[1..], loose))
  {
    var items := [Star] + more;
    assert items[1..] == more && z[0..] == z;
    if Matches(items, z, loose) && !Matches(more, z, loose) {
      var k :| 0 <= k <= |z| && Matches(more, z[k..], loose);
      assert z[1..][k - 1..] == z[k..];
    }
    if z != [] && Matches(items, z[1..], loose) {
      var k :| 0 <= k <= |z[1..]| && Matches(more, z[1..][k..], loose);
      assert z[1..][k..] == z[k + 1..];
    }
  }

  lemma {:induction false} StarTwice(more: seq<Item>, z: seq<Byte>, loose: bool)
    ensures Matches([Star] + ([Star] + more), z, loose) == Matches([Star] + more, z, loose)
    decreases |z|
  {
    StarStep([Star] + more, z, loose);
    StarStep(more, z, loose);
    if z != [] {
      StarTwice(more, z[1..], loose);
    }
  }

  lemma AnyStep(more: seq<Item>, z: seq<Byte>, loose: bool)
    ensures Matches([Any] + more, z, loose) <==> z != [] && Matches(more, z[1..], loose)
  {
    assert ([Any] + more)[1..] == more;
  }

  /** A '?' after a '*' may as well come before it. */
  lemma {:induction false} StarThenAny(more: seq<Item>, z: seq<Byte>, loose: bool)
    ensures Matches([Star] + ([Any] + more), z, loose) <==> z != [] && Matches([Star] + more, z[1..], loose)
    decreases |z|
  {
    StarStep([Any] + more, z, loose);
    AnyStep(more, z, loose);
    if z != [] {
      StarThenAny(more, z[1..], loose);
      StarStep(more, z[1..], loose);
    }
  }

  /** Whether one of the members still to come, or one already seen, is c. */
  ghost predicate SeenIn(seen: bool, c: Byte, m: Option<Members>) {
    m.Some? && (seen || InRanges(c, m.value.ranges))
  }

  lemma MemberStep(seen: bool, c: Byte, r: Range, ranges: seq<Range>)
    ensures InRanges(c, [r] + ranges) <==> r.lo <= Signed(c) <= r.hi || InRanges(c, ranges)
  {
    var all := [r] + ranges;
    assert all[0] == r && forall i | 0 <= i < |ranges| :: all[i + 1] == ranges[i];
  }

  /** The loop over a class; where it succeeds it also says what follows the class. */
  method MatchBracket(p: seq<Byte>, c: Byte) returns (ok: bool, g: seq<Byte>)
    ensures match BracketAt(p)
      case None => !ok
      case Some(b) => ok == (InRanges(c, b.ranges) != b.invert) && g == b.rest
  {
    var prior, seen, invert := 0, false, false;
    g := p;
    if g != [] && g[0] == CARET {
      invert := true;
      g := g[1..];
    }
    ghost var first := g != [] && g[0] == CLOSE;
    if g != [] && g[0] == CLOSE {
      seen := c == CLOSE;
      g := g[1..];
    }
    ghost var m := MembersFrom(g, 0);
    hide InRanges, MembersFrom;
    if m.Some? && first {
      MemberStep(seen, c, Range(93, 93), m.value.ranges);
    }
    assert m.Some? ==> [] + m.value.ranges == m.value.ranges;
    hide SeenIn;
    ghost var target := SeenIn(seen, c, m);
    while g != [] && g[0] != CLOSE
      invariant m.Some? == MembersFrom(g, prior).Some?
      invariant m.Some? ==> m.value.rest == MembersFrom(g, prior).value.rest
      invariant target == SeenIn(seen, c, MembersFrom(g, prior))
      decreases |g|
    {
      MembersStep(seen, c, g, prior);
      if g[0] == DASH && |g| > 1 && g[1] != CLOSE && prior > 0 {
        if prior <= Signed(c) <= Signed(g[1]) {
          seen := true;
        }
        prior := 0;
        g := g[2..];
      } else {
        if c == g[0] {
          seen := true;
        }
        prior := Signed(g[0]);
        g := g[1..];
      }
    }
    NoMembers(c, g, prior);
    if g == [] {
      return false, g;
    }
    g := g[1..];
    ok := seen != invert;
  }

  lemma NoMembers(c: Byte, g: seq<Byte>, prior: int)
    requires g == [] || g[0] == CLOSE
    ensures MembersFrom(g, prior) == (if g == [] then None else Some(Members([], g[1..]))) && !InRanges(c, [])
  {}

  lemma MembersStep(seen: bool, c: Byte, g: seq<Byte>, prior: int)
    requires g != [] && g[0] != CLOSE
    ensures var range := g[0] == DASH && |g| > 1 && g[1] != CLOSE && prior > 0;
      var r := if range then Range(prior, Signed(g[1])) else Range(Signed(g[0]), Signed(g[0]));
      var m, n := MembersFrom(g, prior), if range then MembersFrom(g[2..], 0) else MembersFrom(g[1..], Signed(g[0]));
      && m.Some? == n.Some? && (m.Some? ==> m.value.rest == n.value.rest)
      && SeenIn(seen, c, m) == SeenIn(seen || r.lo <= Signed(c) <= r.hi, c, n)
  {
    hide InRanges;
    var range := g[0] == DASH && |g| > 1 && g[1] != CLOSE && prior > 0;
    var r := if range then Range(prior, Signed(g[1])) else Range(Signed(g[0]), Signed(g[0]));
    var n := if range then MembersFrom(g[2..], 0) else MembersFrom(g[1..], Signed(g[0]));
    if n.Some? {
      MemberStep(seen, c, r, n.value.ranges);
    }
  }

  lemma NothingMatches(more: seq<Item>, loose: bool)
    requires more != [] && (more[0].Lit? || more[0].Class? || more[0].Never?)
    ensures !Matches(more, [], loose) && !Matches([Star] + more, [], loose)
  {
    StarStep(more, [], loose);
  }

  lemma StarAlone(z: seq<Byte>, loose: bool)
    ensures Matches([Star] + [], z, loose)
  {
    assert ([Star] + [])[1..] == [];
    assert Matches([], z[|z|..], loose);
  }

  /** A '*', with what follows it in the pattern. */
  method MatchStar(p: seq<Byte>, z: seq<Byte>) returns (r: bool)
    ensures r == Matches([Star] + Parse(p, true), z, true)
    decreases |p|, 1
  {
    hide Matches, BracketAt;
    var g, t := p, z;
    while g != [] && (g[0] == STAR || g[0] == QUESTION)
      invariant |g| <= |p|
      invariant Matches([Star] + Parse(p, true), z, true) == Matches([Star] + Parse(g, true), t, true)
      decreases |g|
    {
      if g[0] == QUESTION {
        StarThenAny(Parse(g[1..], true), t, true);
        if t == [] {
          return false;
        }
        t := t[1..];
      } else {
        StarTwice(Parse(g[1..], true), t, true);
      }
      g := g[1..];
    }
    if g == [] {
      StarAlone(t, true);
      return true;
    }
    ghost var items := Parse(g, true);
    if g[0] == OPEN {
      while t != []
        invariant Matches([Star] + Parse(p, true), z, true) == Matches([Star] + items, t, true)
        decreases |t|
      {
        var here := TestcaseGlob(g, t);
        StarStep(items, t, true);
        if here {
          break;
        }
        t := t[1..];
      }
      NothingMatches(items, true);
      return t != [];
    }
    var c := g[0];
    g := g[1..];
    while t != []
      invariant Matches([Star] + Parse(p, true), z, true) == Matches([Star] + items, t, true)
      decreases |t|
    {
      StarStep(items, t, true);
      LitStep(c, Parse(g, false), t, true);
      if t[0] == c {
        var here := TestcaseGlob(g, t[1..]);
        if here {
          return true;
        }
      }
      t := t[1..];
    }
    NothingMatches(items, true);
    return false;
  }

  lemma LitStep(c: Byte, more: seq<Item>, z: seq<Byte>, loose: bool)
    ensures Matches([Lit(c)] + more, z, loose) <==> z != [] && z[0] == c && Matches(more, z[1..], loose)
  {
    assert ([Lit(c)] + more)[1..] == more;
  }

  lemma ClassStep(b: Bracket, more: seq<Item>, z: seq<Byte>, loose: bool)
    ensures Matches([Class(b.invert, b.ranges)] + more, z, loose)
      <==> z != [] && InRanges(z[0], b.ranges) != b.invert && Matches(more, z[1..], loose)
  {
    assert ([Class(b.invert, b.ranges)] + more)[1..] == more;
  }

  lemma SpaceStep(more: seq<Item>, z: seq<Byte>, loose: bool)
    ensures Matches([Space] + more, z, loose) <==> z != [] && IsSpace(z[0]) && Matches(more, z[Spaces(z)..], loose)
  {
    assert ([Space] + more)[1..] == more;
  }

  lemma NumberStep(more: seq<Item>, z: seq<Byte>, loose: bool)
    ensures Matches([Number] + more, z, loose) <==> NumberLength(z) > 0 && Matches(more, z[NumberLength(z)..], loose)
  {
    assert ([Number] + more)[1..] == more;
  }

  method SkipBlank(z: seq<Byte>) returns (t: seq<Byte>)
    ensures t == z[Spaces(z)..]
  {
    t := z;
    while t != [] && IsSpace(t[0])
      invariant |t| <= |z| && Spaces(t) <= |t| && t[Spaces(t)..] == z[Spaces(z)..]
      decreases |t|
    {
      t := t[1..];
    }
  }

  method SkipDigits(z: seq<Byte>) returns (t: seq<Byte>)
    ensures t == z[Digits(z)..]
  {
    t := z;
    while t != [] && IsDigit(t[0])
      invariant |t| <= |z| && t[Digits(t)..] == z[Digits(z)..]
      decreases |t|
    {
      t := t[1..];
    }
  }

  /** '#': an optional sign and digits. */
  method MatchNumber(z: seq<Byte>) returns (ok: bool, t: seq<Byte>)
    ensures ok == (NumberLength(z) > 0) && (ok ==> t == z[NumberLength(z)..])
  {
    t := z;
    if |t| > 1 && (t[0] == DASH || t[0] == PLUS) && IsDigit(t[1]) {
      t := t[1..];
    }
    ok := t != [] && IsDigit(t[0]);
    if ok {
      t := SkipDigits(t[1..]);
    }
  }

  lemma EndOfPattern(z: seq<Byte>)
    ensures Matches([], z, true) <==> z[Spaces(z)..] == []
  {
    BlankIsSpaces(z);
  }

  lemma {:induction false} BlankIsSpaces(z: seq<Byte>)
    ensures Blank(z) <==> Spaces(z) == |z|
  {
    if z != [] {
      BlankIsSpaces(z[1..]);
    }
  }

  /** testcase_glob decides the language of the pattern. */
  method TestcaseGlob(zGlob: seq<Byte>, z: seq<Byte>) returns (r: bool)
    ensures r == Matches(Parse(zGlob, false), z, true)
    decreases |zGlob|, 0
  {
    hide Matches, BracketAt, InRanges, NumberLength;
    var g, t := zGlob, z;
    while g != []
      invariant |g| <= |zGlob|
      invariant Matches(Parse(zGlob, false), z, true) == Matches(Parse(g, false), t, true)
      decreases |g|
    {
      var c := g[0];
      ghost var p := g;
      g := g[1..];
      if c == STAR {
        r := MatchStar(g, t);
        return;
      } else if c == QUESTION {
        AnyStep(Parse(g, false), t, true);
        if t == [] {
          return false;
        }
        t := t[1..];
      } else if c == OPEN {
        BracketStep(g, t);
        if t == [] {
          return false;
        }
        var ok;
        ok, g := MatchBracket(g, t[0]);
        if !ok {
          return false;
        }
        t := t[1..];
      } else if IsSpace(c) {
        SpaceStep(Parse(g[Spaces(g)..], false), t, true);
        if t == [] || !IsSpace(t[0]) {
          return false;
        }
        g := SkipBlank(g);
        t := SkipBlank(t);
      } else if c == HASH {
        NumberStep(Parse(g, false), t, true);
        var ok;
        ok, t := MatchNumber(t);
        if !ok {
          return false;
        }
      } else {
        LitStep(c, Parse(g, false), t, true);
        if t == [] || t[0] != c {
          return false;
        }
        t := t[1..];
      }
    }
    EndOfPattern(t);
    t := SkipBlank(t);
    r := t == [];
  }

  lemma BracketStep(g: seq<Byte>, z: seq<Byte>)
    ensures Matches(Parse([OPEN] + g, false), z, true) <==>
      match BracketAt(g)
      case None => false
      case Some(b) => z != [] && InRanges(z[0], b.ranges) != b.invert && Matches(Parse(b.rest, false), z[1..], true)
  {
    assert ([OPEN] + g)[1..] == g;
    if BracketAt(g).Some? {
      var b := BracketAt(g).value;
      ClassStep(b, Parse(b.rest, false), z, true);
    }
  }

  lemma {:induction false} SpacesOfPrefix(z: seq<Byte>, e: nat)
    requires Spaces(z) <= e <= |z| || (e <= |z| && Blank(z[e..]) && Spaces(z[..e]) < e)
    ensures Spaces(z[..e]) == Spaces(z)
  {
    if e > 0 && IsSpace(z[0]) {
      assert z[..e][1..] == z[1..][..e - 1] && z[1..][e - 1..] == z[e..];
      SpacesOfPrefix(z[1..], e - 1);
    }
  }

  lemma {:induction false} DigitsOfPrefix(z: seq<Byte>, e: nat)
    requires e <= |z| && (Digits(z) <= e || Blank(z[e..]))
    ensures Digits(z[..e]) == Digits(z)
  {
    if e > 0 && IsDigit(z[0]) {
      assert z[..e][1..] == z[1..][..e - 1] && z[1..][e - 1..] == z[e..];
      DigitsOfPrefix(z[1..], e - 1);
    } else if e == 0 && z != [] && Blank(z[e..]) {
      assert z[e..][0] == z[0];
    }
  }

  lemma NumberOfPrefix(z: seq<Byte>, e: nat)
    requires e <= |z|
    requires 0 < NumberLength(z) <= e || (Blank(z[e..]) && NumberLength(z[..e]) > 0)
    ensures NumberLength(z[..e]) == NumberLength(z)
  {
    if |z| > 1 && (z[0] == DASH || z[0] == PLUS) && IsDigit(z[1]) {
      assert e > 1;
      assert z[..e][1..] == z[1..][..e - 1] && z[1..][e - 1..] == z[e..];
      DigitsOfPrefix(z[1..], e - 1);
    } else {
      DigitsOfPrefix(z, e);
    }
  }

  lemma {:induction false} LooseHasEnd(items: seq<Item>, z: seq<Byte>) returns (e: nat)
    requires Matches(items, z, true)
    ensures e <= |z| && Blank(z[e..]) && Matches(items, z[..e], false)
    decreases |items|
  {
    hide Blank, InRanges, NumberLength;
    e := 0;
    if items == [] {
      assert z[0..] == z;
    } else {
      var n := match items[0]
        case Space => Spaces(z)
        case Number => NumberLength(z)
        case Star => (var k :| 0 <= k <= |z| && Matches(items[1..], z[k..], true); k)
        case _ => 1;
      var more := LooseHasEnd(items[1..], z[n..]);
      e := n + more;
      assert z[n..][more..] == z[e..] && z[..e][n..] == z[n..][..more];
      match items[0] {
        case Space => SpacesOfPrefix(z, e);
        case Number => NumberOfPrefix(z, e);
        case _ =>
      }
    }
  }

  lemma AllBlank(z: seq<Byte>, e: nat)
    requires e <= |z| && Blank(z[e..]) && Spaces(z[..e]) == e
    ensures Spaces(z) == |z| && Blank(z[|z|..][0..])
  {
    BlankIsSpaces(z[..e]);
    assert forall i | 0 <= i < |z| :: if i < e then z[i] == z[..e][i] else z[i] == z[e..][i - e];
    BlankIsSpaces(z);
  }

  lemma {:induction false} EndIsLoose(items: seq<Item>, z: seq<Byte>, e: nat)
    requires e <= |z| && Blank(z[e..]) && Matches(items, z[..e], false)
    ensures Matches(items, z, true)
    decreases |items|
  {
    hide InRanges, NumberLength, Blank;
    if items == [] {
      assert z[e..] == z;
    } else if items[0].Space? && Spaces(z[..e]) == e {
      AllBlank(z, e);
      assert z[..e][e..] == z[|z|..][..0];
      EndIsLoose(items[1..], z[|z|..], 0);
    } else {
      var n := match items[0]
        case Space => Spaces(z[..e])
        case Number => NumberLength(z[..e])
        case Star => (var k :| 0 <= k <= |z[..e]| && Matches(items[1..], z[..e][k..], false); k)
        case _ => 1;
      assert z[n..][e - n..] == z[e..] && z[..e][n..] == z[n..][..e - n];
      EndIsLoose(items[1..], z[n..], e - n);
      match items[0] {
        case Space => SpacesOfPrefix(z, e);
        case Number => NumberOfPrefix(z, e);
        case _ =>
      }
    }
  }

  /** The matcher accepts exactly the texts that are in the language but for some white space at their end. */
  lemma LooseIsUpToBlanks(items: seq<Item>, z: seq<Byte>)
    ensures Matches(items, z, true) <==> exists e | 0 <= e <= |z| :: Blank(z[e..]) && Matches(items, z[..e], false)
  {
    hide Matches, Blank;
    if Matches(items, z, true) {
      var e := LooseHasEnd(items, z);
    }
    if exists e | 0 <= e <= |z| :: Blank(z[e..]) && Matches(items, z[..e], false) {
      var e :| 0 <= e <= |z| && Blank(z[e..]) && Matches(items, z[..e], false);
      EndIsLoose(items, z, e);
    }
  }

  /** "#1" does not match "11", although "#" is documented to match any sequence of digits. */
  lemma NumbersAreTakenWhole()
    ensures !Matches(Parse([HASH, 49], false), [49, 49], true)
  {
    assert Parse([HASH, 49][1..], false) == [Lit(49)] by {
      assert Parse([49][1..], false) == [];
    }
    assert NumberLength([49, 49]) == 2 by {
      assert [49, 49][1..] == [49] && Digits([49][1..]) == 0;
    }
    NumberStep([Lit(49)], [49, 49], true);
    NothingMatches([Lit(49)], true);
  }

  /** The special characters by name. */
  lemma Characters()
    ensures STAR == '*' as int && QUESTION == '?' as int && HASH == '#' as int && OPEN == '[' as int
    ensures CLOSE == ']' as int && CARET == '^' as int && DASH == '-' as int && PLUS == '+' as int
    ensures forall c: Byte :: IsDigit(c) <==> Between(c, '0', '9')
  {}

  /** A signed char has the byte as its low eight bits. */
  lemma SignedIs(c: Byte)
    ensures -128 <= Signed(c) <= 127 && (Signed(c) - c) % 256 == 0
  {}
}
