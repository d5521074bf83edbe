/** The documented meaning of patterns, and for which patterns testcase_glob keeps to it. */
module GlobDocs {
  import opened Wrappers
  import opened Words
  import opened CString
  import opened Glob

  /** The items of a pattern as the documentation reads it: '#' and white space are special everywhere. */
  function Documented(p: seq<Byte>): seq<Item>
    decreases |p|
  {
    if p == [] then []
    else if p[0] == STAR then [Star] + Documented(p[1..])
    else if p[0] == QUESTION then [Any] + Documented(p[1..])
    else if p[0] == OPEN then
      match BracketAt(p[1..])
      case None => [Never]
      case Some(b) => [Class(b.invert, b.ranges)] + Documented(b.rest)
    else if IsSpace(p[0]) then [Space] + Documented(p[1 + Spaces(p[1..])..])
    else if p[0] == HASH then [Number] + Documented(p[1..])
    else [Lit(p[0])] + Documented(p[1..])
  }

  /** One or more digits with an optional sign in front. */
  predicate IsNumber(s: seq<Byte>) {
    var from := if s != [] && (s[0] == DASH || s[0] == PLUS) then 1 else 0;
    from < |s| && forall i | from <= i < |s| :: IsDigit(s[i])
  }

  /** Any span of white space matches a span of white space, and any number a '#'. */
  predicate Takes(i: Item, s: seq<Byte>) {
    match i
    case Lit(c) => s == [c]
    case Any => |s| == 1
    case Class(invert, ranges) => |s| == 1 && InRanges(s[0], ranges) != invert
    case Star => true
    case Space => s != [] && Blank(s)
    case Number => IsNumber(s)
    case Never => false
  }

  /** The documented language of a pattern, up to white space at the end of the text. */
  ghost predicate Means(items: seq<Item>, z: seq<Byte>)
    decreases |items|
  {
    if items == [] then Blank(z) else exists n | 0 <= n <= |z| :: Takes(items[0], z[..n]) && Means(items[1..], z[n..])
  }

  /** Whether an item can begin with a byte, or rather be it. */
  predicate Admits(i: Item, c: Byte) {
    c != 0 && !i.Star? && Takes(i, [c])
  }

  predicate Digit(c: Byte, digits: bool) {
    if digits then IsDigit(c) else IsSpace(c)
  }

  /** The first item that is not a star can be a digit, or white space. */
  ghost predicate NextAdmits(items: seq<Item>, digits: bool) {
    items != [] && (if items[0].Star? then NextAdmits(items[1..], digits)
                    else exists c: Byte :: Digit(c, digits) && Admits(items[0], c))
  }

  /** No number is followed by what can be a digit, and no white space by what can be white space. */
  ghost predicate Apart(items: seq<Item>) {
    items == [] ||
    (Apart(items[1..]) && (items[0].Number? ==> !NextAdmits(items[1..], true))
     && (items[0].Space? ==> !NextAdmits(items[1..], false)))
  }

  lemma NextItem(i: Item, more: seq<Item>)
    ensures ([i] + more)[0] == i && ([i] + more)[1..] == more
  {}

  lemma MeansFrom(items: seq<Item>, z: seq<Byte>, n: nat)
    requires items != [] && n <= |z| && Takes(items[0], z[..n]) && Means(items[1..], z[n..])
    ensures Means(items, z)
  {}

  lemma {:induction false} SpacesAreBlank(z: seq<Byte>, n: nat)
    requires n <= Spaces(z)
    ensures Blank(z[..n])
  {
    if n > 0 {
      SpacesAreBlank(z[1..], n - 1);
      assert forall i | 0 < i < n :: z[..n][i] == z[1..][..n - 1][i - 1];
    }
  }

  lemma {:induction false} BlankIsWithinSpaces(z: seq<Byte>, n: nat)
    requires n <= |z| && Blank(z[..n])
    ensures n <= Spaces(z)
  {
    if n > 0 {
      assert z[..n][0] == z[0] && z[1..][..n - 1] == z[..n][1..];
      BlankIsWithinSpaces(z[1..], n - 1);
    }
  }

  lemma {:induction false} DigitsAreDigits(z: seq<Byte>, i: nat)
    requires i < Digits(z)
    ensures IsDigit(z[i])
  {
    if i > 0 {
      DigitsAreDigits(z[1..], i - 1);
    }
  }

  lemma {:induction false} DigitsAreCounted(z: seq<Byte>, n: nat)
    requires n <= |z| && forall i | 0 <= i < n :: IsDigit(z[i])
    ensures n <= Digits(z)
  {
    if n > 0 {
      DigitsAreCounted(z[1..], n - 1);
    }
  }

  /** What the matcher takes for a number is one, and no number at the front of the text is longer. */
  lemma NumberIsLongest(z: seq<Byte>)
    ensures NumberLength(z) > 0 ==> IsNumber(z[..NumberLength(z)])
    ensures forall n | 0 <= n <= |z| && IsNumber(z[..n]) :: 0 < n <= NumberLength(z)
    ensures forall n, i | 0 <= n <= i < NumberLength(z) && IsNumber(z[..n]) :: IsDigit(z[i])
  {
    var sign := z != [] && (z[0] == DASH || z[0] == PLUS);
    var from := if |z| > 1 && sign && IsDigit(z[1]) then 1 else 0;
    assert z[0..] == z && NumberLength(z) == from + Digits(z[from..]);
    forall i | from <= i < NumberLength(z) ensures IsDigit(z[i]) {
      DigitsAreDigits(z[from..], i - from);
    }
    forall n | 0 <= n <= |z| && IsNumber(z[..n]) ensures 0 < n <= NumberLength(z) {
      assert forall i | 0 <= i < n :: z[..n][i] == z[i];
      DigitsAreCounted(z[from..], n - from);
    }
    assert forall i | 0 <= i < NumberLength(z) :: z[..NumberLength(z)][i] == z[i];
  }

  /** Whatever the matcher accepts is in the documented language of the items. */
  lemma {:induction false} MatchesMeans(items: seq<Item>, z: seq<Byte>)
    requires Matches(items, z, true)
    ensures Means(items, z)
    decreases |items|
  {
    hide InRanges, NumberLength, IsNumber, Blank;
    if items != [] {
      var n := match items[0]
        case Space => Spaces(z)
        case Number => NumberLength(z)
        case Star => (var k :| 0 <= k <= |z| && Matches(items[1..], z[k..], true); k)
        case _ => 1;
      MatchesMeans(items[1..], z[n..]);
      match items[0] {
        case Space => SpacesAreBlank(z, n);
        case Number => NumberIsLongest(z);
        case _ => assert z != [] && n == 1 ==> z[..n] == [z[0]];
      }
      MeansFrom(items, z, n);
    }
  }

  lemma TakesAdmitted(i: Item, s: seq<Byte>, digits: bool)
    requires !i.Star? && s != [] && Digit(s[0], digits) && Takes(i, s)
    ensures Admits(i, s[0])
  {
    assert |s| == 1 ==> s == [s[0]];
  }

  /** A digit in front of a text can be dropped where what is to be matched cannot begin with one; so can a blank. */
  lemma {:induction false} DropOne(items: seq<Item>, z: seq<Byte>, digits: bool)
    requires z != [] && Digit(z[0], digits) && !NextAdmits(items, digits) && Means(items, z)
    ensures Means(items, z[1..])
    decreases |items|
  {
    if items == [] {
      assert forall i | 0 <= i < |z[1..]| :: z[1..][i] == z[i + 1];
    } else {
      var n :| 0 <= n <= |z| && Takes(items[0], z[..n]) && Means(items[1..], z[n..]);
      hide Means;
      if items[0].Star? {
        if n == 0 {
          assert z[0..] == z;
          DropOne(items[1..], z, digits);
          assert z[1..][0..] == z[1..];
          MeansFrom(items, z[1..], 0);
        } else {
          assert z[1..][n - 1..] == z[n..];
          MeansFrom(items, z[1..], n - 1);
        }
      } else {
        NothingTaken(items[0], z[..n]);
        TakesAdmitted(items[0], z[..n], digits);
        assert false;
      }
    }
  }

  lemma NothingTaken(i: Item, s: seq<Byte>)
    requires Takes(i, s) && !i.Star?
    ensures s != []
  {}

  lemma {:induction false} DropSome(items: seq<Item>, z: seq<Byte>, n: nat, digits: bool)
    requires n <= |z| && (forall i | 0 <= i < n :: Digit(z[i], digits)) && !NextAdmits(items, digits) && Means(items, z)
    ensures Means(items, z[n..])
    decreases n
  {
    hide Means, NextAdmits;
    if n == 0 {
      assert z[0..] == z;
    } else {
      DropOne(items, z, digits);
      DropSome(items, z[1..], n - 1, digits);
      assert z[1..][n - 1..] == z[n..];
    }
  }

  /** What the matcher takes for an item at the front of a text. */
  predicate Taken(i: Item, z: seq<Byte>, n: nat) {
    n <= |z| &&
    match i
    case Lit(c) => n == 1 && z[0] == c
    case Any => n == 1
    case Class(invert, ranges) => n == 1 && InRanges(z[0], ranges) != invert
    case Star => true
    case Space => n == Spaces(z) > 0
    case Number => n == NumberLength(z) > 0
    case Never => false
  }

  lemma MatchesFrom(items: seq<Item>, z: seq<Byte>, n: nat)
    requires items != [] && Taken(items[0], z, n) && Matches(items[1..], z[n..], true)
    ensures Matches(items, z, true)
  {
    hide InRanges, NumberLength;
  }

  lemma BlankAt(s: seq<Byte>, i: nat)
    requires Blank(s) && i < |s|
    ensures IsSpace(s[i])
  {}

  /** Where what follows cannot begin like it, all of a number or of white space may be taken. */
  lemma WholeTaken(items: seq<Item>, z: seq<Byte>, n: nat) returns (m: nat)
    requires items != [] && Apart(items) && n <= |z| && Takes(items[0], z[..n]) && Means(items[1..], z[n..])
    ensures Taken(items[0], z, m) && Means(items[1..], z[m..])
  {
    hide InRanges, NumberLength, NextAdmits, Means, IsNumber, Blank;
    m := n;
    if items[0].Space? {
      BlankIsWithinSpaces(z, n);
      m := Spaces(z);
      SpacesAreBlank(z, m);
      forall i | 0 <= i < m - n ensures IsSpace(z[n..][i]) {
        BlankAt(z[..m], n + i);
      }
      DropSome(items[1..], z[n..], m - n, false);
      assert z[n..][m - n..] == z[m..];
    } else if items[0].Number? {
      NumberIsLongest(z);
      m := NumberLength(z);
      DropSome(items[1..], z[n..], m - n, true);
      assert z[n..][m - n..] == z[m..];
    } else if n == 1 {
      assert z[..1][0] == z[0];
    }
  }

  /** Where the items are apart, nothing is lost by taking numbers and white space as a whole. */
  lemma {:induction false} MeansMatches(items: seq<Item>, z: seq<Byte>)
    requires Apart(items) && Means(items, z)
    ensures Matches(items, z, true)
    decreases |items|
  {
    hide Matches, Takes, Taken, NextAdmits;
    if items == [] {
      NothingMatchesBlank(z);
    } else {
      var n :| 0 <= n <= |z| && Takes(items[0], z[..n]) && Means(items[1..], z[n..]);
      var m := WholeTaken(items, z, n);
      TakenFits(items[0], z, m);
      MeansMatches(items[1..], z[m..]);
      MatchesFrom(items, z, m);
    }
  }

  lemma TakenFits(i: Item, z: seq<Byte>, n: nat)
    requires Taken(i, z, n)
    ensures n <= |z|
  {}

  lemma NothingMatchesBlank(z: seq<Byte>)
    ensures Matches([], z, true) == Blank(z)
  {}

  /** The shortest text of a pattern has one byte for every item that is not a star. */
  function Least(items: seq<Item>): nat {
    if items == [] then 0 else (if items[0].Star? then 0 else 1) + Least(items[1..])
  }

  lemma {:induction false} NeedsLeast(items: seq<Item>, z: seq<Byte>)
    requires Matches(items, z, true)
    ensures |z| >= Least(items)
    decreases |items|
  {
    hide InRanges, NumberLength;
    if items != [] {
      var n := match items[0]
        case Space => Spaces(z)
        case Number => NumberLength(z)
        case Star => (var k :| 0 <= k <= |z| && Matches(items[1..], z[k..], true); k)
        case _ => 1;
      NeedsLeast(items[1..], z[n..]);
    }
  }

  /** Every item that is not a star can be some byte. */
  ghost predicate Satisfiable(items: seq<Item>) {
    items == [] || (Satisfiable(items[1..]) && (!items[0].Star? ==> exists c: Byte :: Admits(items[0], c)))
  }

  lemma MeansCons(i: Item, more: seq<Item>, c: Byte, z: seq<Byte>)
    requires Admits(i, c) && Means(more, z)
    ensures Means([i] + more, [c] + z)
  {
    hide Means, InRanges;
    NextItem(i, more);
    assert ([c] + z)[..1] == [c] && ([c] + z)[1..] == z;
    MeansFrom([i] + more, [c] + z, 1);
  }

  lemma MeansStar(more: seq<Item>, z: seq<Byte>)
    requires Means(more, z)
    ensures Means([Star] + more, z)
  {
    hide Means;
    NextItem(Star, more);
    assert z[0..] == z;
    MeansFrom([Star] + more, z, 0);
  }

  lemma {:induction false} Shortest(items: seq<Item>) returns (z: seq<Byte>)
    requires Satisfiable(items)
    ensures |z| == Least(items) && Means(items, z) && 0 !in z
    decreases |items|
  {
    hide Admits;
    if items == [] {
      z := [];
    } else {
      z := Shortest(items[1..]);
      assert [items[0]] + items[1..] == items;
      if items[0].Star? {
        MeansStar(items[1..], z);
      } else {
        var c: Byte :| Admits(items[0], c);
        AdmitsByte(items[0], c);
        MeansCons(items[0], items[1..], c, z);
        z := [c] + z;
      }
    }
  }

  lemma AdmitsByte(i: Item, c: Byte)
    requires Admits(i, c)
    ensures c != 0 && !i.Star?
  {}

  /** A shortest text that begins with a digit, or with white space. */
  lemma {:induction false} ShortestFrom(items: seq<Item>, digits: bool) returns (z: seq<Byte>)
    requires Satisfiable(items) && NextAdmits(items, digits)
    ensures |z| == Least(items) && Means(items, z) && 0 !in z && z != [] && Digit(z[0], digits)
    decreases |items|
  {
    hide Admits, Digit;
    assert [items[0]] + items[1..] == items;
    if items[0].Star? {
      z := ShortestFrom(items[1..], digits);
      MeansStar(items[1..], z);
    } else {
      z := Shortest(items[1..]);
      var c: Byte :| Digit(c, digits) && Admits(items[0], c);
      AdmitsByte(items[0], c);
      MeansCons(items[0], items[1..], c, z);
      z := [c] + z;
    }
  }

  /** On a shortest text the matcher has no choice: one byte for the item, and the rest for the others. */
  lemma OneByteTaken(i: Item, more: seq<Item>, c: Byte, z: seq<Byte>)
    requires |z| <= Least(more) && Matches([i] + more, [c] + z, true) && !i.Star?
    ensures Matches(more, z, true) && (i.Space? ==> Spaces([c] + z) == 1) && (i.Number? ==> NumberLength([c] + z) == 1)
  {
    hide InRanges, NumberLength, Least;
    NextItem(i, more);
    assert ([c] + z)[1..] == z;
    var n := match i case Space => Spaces([c] + z) case Number => NumberLength([c] + z) case _ => 1;
    NeedsLeast(more, ([c] + z)[n..]);
  }

  lemma NothingForStar(more: seq<Item>, z: seq<Byte>)
    requires |z| <= Least(more) && Matches([Star] + more, z, true)
    ensures Matches(more, z, true)
  {
    hide Least;
    NextItem(Star, more);
    var k :| 0 <= k <= |z| && Matches(more, z[k..], true);
    NeedsLeast(more, z[k..]);
    assert z[0..] == z;
  }

  lemma TwoTaken(c: Byte, z: seq<Byte>)
    requires z != []
    ensures IsDigit(c) && IsDigit(z[0]) ==> NumberLength([c] + z) > 1
    ensures IsSpace(c) && IsSpace(z[0]) ==> Spaces([c] + z) > 1
  {
    var s := [c] + z;
    assert s[1..] == z && s[0] == c && s[1] == z[0];
    if IsSpace(c) && IsSpace(z[0]) {
      assert Spaces(s) == 1 + Spaces(z) && Spaces(z) == 1 + Spaces(z[1..]);
    }
    if IsDigit(c) && IsDigit(z[0]) {
      assert Digits(s) == 1 + Digits(z) && Digits(z) == 1 + Digits(z[1..]);
      assert NumberLength(s) == Digits(s);
    }
  }

  /** Where the items are not apart, some text is in the documented language and is not accepted. */
  lemma {:induction false} NotApart(items: seq<Item>) returns (z: seq<Byte>)
    requires Satisfiable(items) && !Apart(items)
    ensures |z| == Least(items) && Means(items, z) && 0 !in z && !Matches(items, z, true)
    decreases |items|
  {
    hide Means, Matches, NumberLength, NextAdmits;
    var i, more := items[0], items[1..];
    assert [i] + more == items;
    if i.Star? {
      z := NotApart(more);
      MeansStar(more, z);
      if Matches(items, z, true) {
        NothingForStar(more, z);
      }
    } else {
      var digits := i.Number?;
      var c: Byte;
      if (i.Number? || i.Space?) && NextAdmits(more, digits) {
        z := ShortestFrom(more, digits);
        c := if digits then 48 else 32;
        TwoTaken(c, z);
      } else {
        z := NotApart(more);
        c :| Admits(i, c);
      }
      MeansCons(i, more, c, z);
      if Matches(items, [c] + z, true) {
        OneByteTaken(i, more, c, z);
      }
      z := [c] + z;
    }
  }

  lemma LeastCons(i: Item, more: seq<Item>)
    ensures Least([i] + more) == (if i.Star? then 0 else 1) + Least(more)
  {
    NextItem(i, more);
  }

  lemma SpacesStep(p: seq<Byte>)
    requires p != [] && IsSpace(p[0])
    ensures Spaces(p) == 1 + Spaces(p[1..])
    ensures p[1 + Spaces(p[1..])..] == p[Spaces(p)..]
  {}

  /** Behind some white space, the rest of a pattern is read no shorter than without it. */
  lemma {:induction false} ParseIsNoShorter(p: seq<Byte>, afterStar: bool)
    ensures Least(Parse(p, afterStar)) >= Least(Documented(p))
    decreases |p|
  {
    hide Least, BracketAt, Spaces;
    if p == [] {
    } else if p[0] == STAR {
      ParseIsNoShorter(p[1..], true);
      LeastCons(Star, Parse(p[1..], true));
      LeastCons(Star, Documented(p[1..]));
    } else if p[0] == QUESTION {
      ParseIsNoShorter(p[1..], afterStar);
      LeastCons(Any, Parse(p[1..], afterStar));
      LeastCons(Any, Documented(p[1..]));
    } else if p[0] == OPEN {
      if BracketAt(p[1..]).Some? {
        var b := BracketAt(p[1..]).value;
        ParseIsNoShorter(b.rest, false);
        LeastCons(Class(b.invert, b.ranges), Parse(b.rest, false));
        LeastCons(Class(b.invert, b.ranges), Documented(b.rest));
      }
    } else if IsSpace(p[0]) {
      var n := 1 + Spaces(p[1..]);
      ParseIsNoShorter(p[n..], false);
      LeastCons(Space, Documented(p[n..]));
      LeastCons(Space, Parse(p[n..], false));
      if afterStar {
        LeastCons(Lit(p[0]), Parse(p[1..], false));
        BehindSpaces(p[1..]);
        assert p[1..][Spaces(p[1..])..] == p[n..];
      }
    } else {
      ParseIsNoShorter(p[1..], false);
      LeastCons(Number, Documented(p[1..]));
      LeastCons(Lit(p[0]), Documented(p[1..]));
      LeastCons(Number, Parse(p[1..], false));
      LeastCons(Lit(p[0]), Parse(p[1..], false));
    }
  }

  lemma BehindSpaces(p: seq<Byte>)
    ensures Least(Parse(p, false)) >= Least(Parse(p[Spaces(p)..], false))
  {
    hide Least, BracketAt;
    if p != [] && IsSpace(p[0]) {
      SpacesStep(p);
      LeastCons(Space, Parse(p[Spaces(p)..], false));
    }
  }

  lemma SatisfiableCons(i: Item, more: seq<Item>)
    ensures Satisfiable([i] + more) <==> Satisfiable(more) && (!i.Star? ==> exists c: Byte :: Admits(i, c))
  {
    NextItem(i, more);
    hide Admits;
  }

  lemma AdmitsItself()
    ensures Admits(Any, 97) && Admits(Space, 32) && Admits(Space, 9) && Admits(Number, 48) && Admits(Number, 49)
    ensures forall c: Byte | c != 0 :: Admits(Lit(c), c)
  {}

  lemma LitStopsHere(c: Byte, more: seq<Item>, d: Byte, z: seq<Byte>)
    requires c != d
    ensures !Matches([Lit(c)] + more, [d] + z, true)
  {
    LitStep(c, more, [d] + z, true);
  }

  /** One more item in front of two readings of the rest of a pattern, the same in both, hides no difference. */
  lemma DifferenceStays(i: Item, c: Byte, more: seq<Item>, documented: seq<Item>, z: seq<Byte>)
    requires Admits(i, c) && Means(documented, z) && |z| == Least(documented) <= Least(more) && !Matches(more, z, true)
    ensures Means([i] + documented, [c] + z) && |[c] + z| == Least([i] + documented)
    ensures !Matches([i] + more, [c] + z, true)
  {
    hide Means, Matches, Least;
    AdmitsByte(i, c);
    MeansCons(i, documented, c, z);
    LeastCons(i, documented);
    if Matches([i] + more, [c] + z, true) {
      OneByteTaken(i, more, c, z);
    }
  }

  lemma DifferenceAtSpecial(c: Byte, more: seq<Item>, i: Item, d: Byte, documented: seq<Item>) returns (z: seq<Byte>)
    requires c != d && Admits(i, d) && Satisfiable(documented)
    ensures Means([i] + documented, z) && |z| == Least([i] + documented) && 0 !in z
    ensures !Matches([Lit(c)] + more, z, true)
  {
    hide Means, Matches, Least;
    AdmitsByte(i, d);
    z := Shortest(documented);
    MeansCons(i, documented, d, z);
    LeastCons(i, documented);
    LitStopsHere(c, more, d, z);
    z := [d] + z;
  }

  /** Where the code reads a pattern otherwise than documented, it refuses some text that it should accept. */
  lemma {:induction false} ReadOtherwise(p: seq<Byte>, afterStar: bool) returns (z: seq<Byte>)
    requires Satisfiable(Documented(p)) && Parse(p, afterStar) != Documented(p)
    ensures Means(Documented(p), z) && |z| == Least(Documented(p)) && 0 !in z && !Matches(Parse(p, afterStar), z, true)
    decreases |p|
  {
    hide Least, BracketAt, Means, Matches, Satisfiable, Admits;
    AdmitsItself();
    if p[0] == STAR {
      var more, documented := Parse(p[1..], true), Documented(p[1..]);
      SatisfiableCons(Star, documented);
      ParseIsNoShorter(p[1..], true);
      z := ReadOtherwise(p[1..], true);
      MeansStar(documented, z);
      LeastCons(Star, documented);
      if Matches([Star] + more, z, true) {
        NothingForStar(more, z);
      }
    } else if p[0] == QUESTION {
      SatisfiableCons(Any, Documented(p[1..]));
      ParseIsNoShorter(p[1..], afterStar);
      z := ReadOtherwise(p[1..], afterStar);
      DifferenceStays(Any, 97, Parse(p[1..], afterStar), Documented(p[1..]), z);
      z := [97] + z;
    } else if p[0] == OPEN {
      var b := BracketAt(p[1..]).value;
      var i := Class(b.invert, b.ranges);
      SatisfiableCons(i, Documented(b.rest));
      ParseIsNoShorter(b.rest, false);
      z := ReadOtherwise(b.rest, false);
      var c: Byte :| Admits(i, c);
      AdmitsByte(i, c);
      DifferenceStays(i, c, Parse(b.rest, false), Documented(b.rest), z);
      z := [c] + z;
    } else if IsSpace(p[0]) {
      var n := 1 + Spaces(p[1..]);
      SatisfiableCons(Space, Documented(p[n..]));
      if afterStar {
        z := DifferenceAtSpecial(p[0], Parse(p[1..], false), Space, if p[0] == 32 then 9 else 32, Documented(p[n..]));
      } else {
        ParseIsNoShorter(p[n..], false);
        z := ReadOtherwise(p[n..], false);
        DifferenceStays(Space, 32, Parse(p[n..], false), Documented(p[n..]), z);
        z := [32] + z;
      }
    } else if p[0] == HASH {
      SatisfiableCons(Number, Documented(p[1..]));
      if afterStar {
        z := DifferenceAtSpecial(HASH, Parse(p[1..], false), Number, 48, Documented(p[1..]));
      } else {
        ParseIsNoShorter(p[1..], false);
        z := ReadOtherwise(p[1..], false);
        DifferenceStays(Number, 48, Parse(p[1..], false), Documented(p[1..]), z);
        z := [48] + z;
      }
    } else {
      SatisfiableCons(Lit(p[0]), Documented(p[1..]));
      LitAdmits(p[0]);
      ParseIsNoShorter(p[1..], false);
      z := ReadOtherwise(p[1..], false);
      DifferenceStays(Lit(p[0]), p[0], Parse(p[1..], false), Documented(p[1..]), z);
      z := [p[0]] + z;
    }
  }

  lemma LitAdmits(c: Byte)
    requires exists d: Byte :: Admits(Lit(c), d)
    ensures c != 0 && Admits(Lit(c), c)
  {
    var d: Byte :| Admits(Lit(c), d);
    assert [d][0] == d;
  }

  /** A '#' or white space is the first in the pattern, question marks apart, behind a star. */
  predicate SpecialBehindStar(p: seq<Byte>, afterStar: bool)
    decreases |p|
  {
    if p == [] then false
    else if p[0] == STAR then SpecialBehindStar(p[1..], true)
    else if p[0] == QUESTION then SpecialBehindStar(p[1..], afterStar)
    else if p[0] == OPEN then
      match BracketAt(p[1..])
      case None => false
      case Some(b) => SpecialBehindStar(b.rest, false)
    else if IsSpace(p[0]) then afterStar || SpecialBehindStar(p[1 + Spaces(p[1..])..], false)
    else (p[0] == HASH && afterStar) || SpecialBehindStar(p[1..], false)
  }

  lemma SameFirst(i: Item, more: seq<Item>, documented: seq<Item>)
    ensures [i] + more == [i] + documented <==> more == documented
  {
    NextItem(i, more);
    NextItem(i, documented);
  }

  lemma OtherFirst(i: Item, more: seq<Item>, j: Item, documented: seq<Item>)
    requires i != j
    ensures [i] + more != [j] + documented
  {
    NextItem(i, more);
    NextItem(j, documented);
  }

  /** That is where the code reads a pattern otherwise than documented, and nowhere else. */
  lemma {:induction false} ReadAsDocumented(p: seq<Byte>, afterStar: bool)
    ensures Parse(p, afterStar) == Documented(p) <==> !SpecialBehindStar(p, afterStar)
    decreases |p|
  {
    hide BracketAt, Spaces;
    if p == [] {
    } else if p[0] == STAR {
      ReadAsDocumented(p[1..], true);
      SameFirst(Star, Parse(p[1..], true), Documented(p[1..]));
    } else if p[0] == QUESTION {
      ReadAsDocumented(p[1..], afterStar);
      SameFirst(Any, Parse(p[1..], afterStar), Documented(p[1..]));
    } else if p[0] == OPEN {
      if BracketAt(p[1..]).Some? {
        var b := BracketAt(p[1..]).value;
        ReadAsDocumented(b.rest, false);
        SameFirst(Class(b.invert, b.ranges), Parse(b.rest, false), Documented(b.rest));
      }
    } else if IsSpace(p[0]) {
      var n := 1 + Spaces(p[1..]);
      ReadAsDocumented(p[n..], false);
      SameFirst(Space, Parse(p[n..], false), Documented(p[n..]));
      OtherFirst(Lit(p[0]), Parse(p[1..], false), Space, Documented(p[n..]));
    } else {
      ReadAsDocumented(p[1..], false);
      SameFirst(Number, Parse(p[1..], false), Documented(p[1..]));
      SameFirst(Lit(p[0]), Parse(p[1..], false), Documented(p[1..]));
      OtherFirst(Lit(p[0]), Parse(p[1..], false), Number, Documented(p[1..]));
    }
  }

  /** A pattern on which the code keeps to its documentation. */
  ghost predicate AsDocumented(p: seq<Byte>) {
    !SpecialBehindStar(p, false) && Apart(Documented(p))
  }

  /** The code accepts exactly the documented language of the pattern, on texts without NUL. */
  ghost predicate KeepsToDocumentation(p: seq<Byte>) {
    forall z | 0 !in z :: Matches(Parse(p, false), z, true) <==> Means(Documented(p), z)
  }

  lemma {:induction false} MeansIsSatisfiable(items: seq<Item>, z: seq<Byte>)
    requires Means(items, z) && 0 !in z
    ensures Satisfiable(items)
    decreases |items|
  {
    hide Admits, Takes;
    if items != [] {
      var n :| 0 <= n <= |z| && Takes(items[0], z[..n]) && Means(items[1..], z[n..]);
      MeansIsSatisfiable(items[1..], z[n..]);
      if !items[0].Star? {
        var c := TakesAdmits(items[0], z[..n]);
      }
    }
  }

  lemma TakesAdmits(i: Item, s: seq<Byte>) returns (c: Byte)
    requires Takes(i, s) && !i.Star? && 0 !in s
    ensures Admits(i, c)
  {
    NothingTaken(i, s);
    assert |s| == 1 ==> s == [s[0]];
    c := if i.Number? then 48 else s[0];
  }

  lemma {:induction false} MembersRest(p: seq<Byte>, prior: int)
    requires MembersFrom(p, prior).Some? && 0 !in p
    ensures 0 !in MembersFrom(p, prior).value.rest
    decreases |p|
  {
    if p[0] == CLOSE {
    } else if p[0] == DASH && |p| > 1 && p[1] != CLOSE && prior > 0 {
      MembersRest(p[2..], 0);
    } else {
      MembersRest(p[1..], Signed(p[0]));
    }
  }

  lemma BracketRest(p: seq<Byte>)
    requires BracketAt(p).Some? && 0 !in p
    ensures 0 !in BracketAt(p).value.rest
  {
    hide MembersFrom;
    var q := if p != [] && p[0] == CARET then p[1..] else p;
    MembersRest(if q != [] && q[0] == CLOSE then q[1..] else q, 0);
  }

  /** The items that the code reads can only be matched where the documented ones can. */
  lemma {:induction false} BothSatisfiable(p: seq<Byte>, afterStar: bool)
    requires 0 !in p && Satisfiable(Parse(p, afterStar))
    ensures Satisfiable(Documented(p))
    decreases |p|
  {
    hide BracketAt, Satisfiable, Admits, Spaces;
    AdmitsItself();
    if p == [] {
      NothingIsSatisfiable();
    } else if p[0] == STAR {
      SatisfiableCons(Star, Parse(p[1..], true));
      BothSatisfiable(p[1..], true);
      SatisfiableCons(Star, Documented(p[1..]));
    } else if p[0] == QUESTION {
      SatisfiableCons(Any, Parse(p[1..], afterStar));
      BothSatisfiable(p[1..], afterStar);
      SatisfiableCons(Any, Documented(p[1..]));
    } else if p[0] == OPEN {
      if BracketAt(p[1..]).Some? {
        var b := BracketAt(p[1..]).value;
        BracketRest(p[1..]);
        SatisfiableCons(Class(b.invert, b.ranges), Parse(b.rest, false));
        BothSatisfiable(b.rest, false);
        SatisfiableCons(Class(b.invert, b.ranges), Documented(b.rest));
      }
    } else if IsSpace(p[0]) {
      var n := 1 + Spaces(p[1..]);
      SatisfiableCons(Lit(p[0]), Parse(p[1..], false));
      SatisfiableCons(Space, Parse(p[n..], false));
      if afterStar {
        SatisfiableBehindSpaces(p[1..]);
        assert p[1..][Spaces(p[1..])..] == p[n..];
      }
      BothSatisfiable(p[n..], false);
      SatisfiableCons(Space, Documented(p[n..]));
    } else {
      SatisfiableCons(Lit(p[0]), Parse(p[1..], false));
      SatisfiableCons(Number, Parse(p[1..], false));
      BothSatisfiable(p[1..], false);
      SatisfiableCons(Lit(p[0]), Documented(p[1..]));
      SatisfiableCons(Number, Documented(p[1..]));
    }
  }

  lemma NothingIsSatisfiable()
    ensures Satisfiable([])
  {}

  lemma SatisfiableBehindSpaces(p: seq<Byte>)
    requires Satisfiable(Parse(p, false))
    ensures Satisfiable(Parse(p[Spaces(p)..], false))
  {
    hide BracketAt, Satisfiable, Admits;
    if p != [] && IsSpace(p[0]) {
      SpacesStep(p);
      SatisfiableCons(Space, Parse(p[Spaces(p)..], false));
    }
  }

  /**
   The code keeps to its documentation exactly on the patterns with no '#' or
   white space right behind a star, and nothing behind a number or white space
   that can begin like it; and on patterns that nothing can match anyway.
   */
  lemma DocumentedExactlyWhen(p: seq<Byte>)
    requires 0 !in p
    ensures KeepsToDocumentation(p) <==> AsDocumented(p) || !Satisfiable(Documented(p))
  {
    hide Means, Matches, Apart, Satisfiable, Parse, Documented, Least;
    ReadAsDocumented(p, false);
    if !Satisfiable(Documented(p)) || AsDocumented(p) {
      forall z | 0 !in z ensures Matches(Parse(p, false), z, true) <==> Means(Documented(p), z) {
        if Matches(Parse(p, false), z, true) {
          MatchesMeans(Parse(p, false), z);
          MeansIsSatisfiable(Parse(p, false), z);
          BothSatisfiable(p, false);
        }
        if Means(Documented(p), z) {
          MeansIsSatisfiable(Documented(p), z);
          MeansMatches(Documented(p), z);
        }
      }
    } else {
      var z;
      if Parse(p, false) != Documented(p) {
        z := ReadOtherwise(p, false);
      } else {
        z := NotApart(Documented(p));
      }
      assert 0 !in z && Means(Documented(p), z) && !Matches(Parse(p, false), z, true);
    }
  }

  /** "#1" is documented to match "11", and does not. */
  lemma NumberBeforeDigit()
    ensures Means(Documented([HASH, 49]), [49, 49]) && !Matches(Parse([HASH, 49], false), [49, 49], true)
  {
    NumbersAreTakenWhole();
    hide Means, Matches;
    assert Documented([HASH, 49][1..]) == [Lit(49)] by {
      assert Documented([49][1..]) == [];
    }
    AdmitsItself();
    EmptyMeansNothing();
    MeansCons(Lit(49), [], 49, []);
    MeansCons(Number, [Lit(49)] + [], 49, [49] + []);
    assert [Number] + ([Lit(49)] + []) == Documented([HASH, 49]);
    assert [49 as Byte] + ([49] + []) == [49, 49];
  }

  lemma EmptyMeansNothing()
    ensures Means([], [])
  {}
}
