/** sha3_query: the bytes that stand for the results of a list of queries. */
module Sha3Query {
  import opened Wrappers
  import opened Bits
  import opened Words
  import opened Sponge
  import opened Sha3Engine

  type Int64 = v: int | -0x8000_0000_0000_0000 <= v < 0x8000_0000_0000_0000

  /** A value of a result row; a Float is given by its 64 bits. */
  datatype Value = Null | Integer(v: Int64) | Float(bits: Word64) | Text(z: seq<Byte>) | Blob(z: seq<Byte>)

  datatype Statement = Statement(sql: seq<Byte>, rows: seq<seq<Value>>)

  /** The bits of a signed integer as an unsigned one. */
  function Unsigned(v: Int64): Word64 {
    if v < 0 then v + TWO64 else v
  }

  /** "%d" */
  function Decimal(n: nat): seq<Byte> {
    (if n < 10 then [] else Decimal(n / 10)) + [48 + n % 10]
  }

  /** A tag, the length, a colon and the bytes. */
  function Sized(tag: Byte, z: seq<Byte>): seq<Byte> {
    [tag] + Decimal(|z|) + [58] + z
  }

  function ValueBytes(v: Value): seq<Byte> {
    match v
    case Null => [78]
    case Integer(i) => [73] + BigEndian(Unsigned(i), 8)
    case Float(bits) => [70] + BigEndian(bits, 8)
    case Text(z) => Sized(84, z)
    case Blob(z) => Sized(66, z)
  }

  function RowBytes(row: seq<Value>): seq<Byte> {
    if row == [] then [] else ValueBytes(row[0]) + RowBytes(row[1..])
  }

  function RowsBytes(rows: seq<seq<Value>>): seq<Byte> {
    if rows == [] then [] else [82] + RowBytes(rows[0]) + RowsBytes(rows[1..])
  }

  function Stream(statements: seq<Statement>): seq<Byte> {
    if statements == [] then [] else
    Sized(83, statements[0].sql) + RowsBytes(statements[0].rows) + Stream(statements[1..])
  }

  /** What a decoder finds first in a stream: a statement, the start of a row, or a value. */
  datatype Token = S(sql: seq<Byte>) | R | V(v: Value)

  datatype Found<T> = Found(t: T, rest: seq<Byte>)

  /** A number up to a colon. */
  function ReadNumber(s: seq<Byte>, n: nat): Option<Found<nat>>
    decreases |s|
  {
    if s == [] then None
    else if s[0] == 58 then Some(Found(n, s[1..]))
    else if 48 <= s[0] <= 57 then ReadNumber(s[1..], 10 * n + (s[0] - 48))
    else None
  }

  function ReadSized(s: seq<Byte>): Option<Found<seq<Byte>>> {
    match ReadNumber(s, 0)
    case None => None
    case Some(f) => if f.t > |f.rest| then None else Some(Found(f.rest[..f.t], f.rest[f.t..]))
  }

  function Signed(u: nat): Option<Int64> {
    if u < 0x8000_0000_0000_0000 then Some(u) else if u < TWO64 then Some(u - TWO64) else None
  }

  function ReadToken(s: seq<Byte>): Option<Found<Token>>
    requires s != []
  {
    var tag, more := s[0], s[1..];
    if tag == 82 then Some(Found(R, more))
    else if tag == 78 then Some(Found(V(Null), more))
    else if tag == 73 || tag == 70 then
      if |more| < 8 then None else
      var u := FromBig(more[..8]);
      if tag == 70 then (if u < TWO64 then Some(Found(V(Float(u)), more[8..])) else None) else
      match Signed(u)
      case None => None
      case Some(i) => Some(Found(V(Integer(i)), more[8..]))
    else if tag == 83 || tag == 84 || tag == 66 then
      match ReadSized(more)
      case None => None
      case Some(f) =>
        Some(Found(if tag == 83 then S(f.t) else if tag == 84 then V(Text(f.t)) else V(Blob(f.t)), f.rest))
    else None
  }

  /** What has been decoded from the right: values of a row, rows of a statement, and statements. */
  datatype Decoded = Decoded(values: seq<Value>, rows: seq<seq<Value>>, statements: seq<Statement>)

  function Add(t: Token, d: Decoded): Decoded {
    match t
    case V(v) => d.(values := [v] + d.values)
    case R => Decoded([], [d.values] + d.rows, d.statements)
    case S(sql) => Decoded([], [], [Statement(sql, d.rows)] + d.statements)
  }

  function Decode(s: seq<Byte>): Option<Decoded>
    decreases |s|
  {
    if s == [] then Some(Decoded([], [], [])) else
    match ReadToken(s)
    case None => None
    case Some(f) =>
      if |f.rest| >= |s| then None else
      match Decode(f.rest)
      case None => None
      case Some(d) => Some(Add(f.t, d))
  }

  lemma {:induction false} NumberReads(n: nat, s: seq<Byte>)
    ensures ReadNumber(Decimal(n) + s, 0) == ReadNumber(s, n)
  {
    var t := [48 + n % 10] + s;
    DigitReads(n % 10, s, n / 10);
    DecimalStep(n, s);
    hide ReadNumber, Decimal;
    if n >= 10 {
      NumberReads(n / 10, t);
    }
  }

  lemma DigitReads(d: nat, s: seq<Byte>, n: nat)
    requires d < 10
    ensures ReadNumber([48 + d] + s, n) == ReadNumber(s, 10 * n + d)
  {
    var t := [48 + d] + s;
    assert t[1..] == s;
  }

  /** A length is written with at least one digit, and with no zero in front. */
  lemma DecimalDigits(n: nat)
    ensures Decimal(n) != [] && (Decimal(n)[0] == 48 <==> n == 0)
    ensures forall i | 0 <= i < |Decimal(n)| :: 48 <= Decimal(n)[i] <= 57
    ensures n == 0 ==> Decimal(n) == [48]
  {
    if n >= 10 {
      DecimalDigits(n / 10);
    }
  }

  /** And it has the value of the length. */
  lemma {:induction false} DecimalValue(n: nat)
    ensures ValueOf(Decimal(n)) == n
  {
    var d := Decimal(n);
    assert d[..|d| - 1] == if n < 10 then [] else Decimal(n / 10);
    if n >= 10 {
      DecimalValue(n / 10);
    }
  }

  function ValueOf(d: seq<Byte>): int {
    if d == [] then 0 else 10 * ValueOf(d[..|d| - 1]) + d[|d| - 1] as int - 48
  }

  lemma DecimalStep(n: nat, s: seq<Byte>)
    ensures Decimal(n) + s == if n < 10 then [48 + n % 10] + s else Decimal(n / 10) + ([48 + n % 10] + s)
  {}

  lemma SizedReads(tag: Byte, z: seq<Byte>, s: seq<Byte>)
    ensures |s| < |Sized(tag, z) + s| && (Sized(tag, z) + s)[0] == tag
    ensures ReadSized((Sized(tag, z) + s)[1..]) == Some(Found(z, s))
  {
    hide Decimal;
    assert (Sized(tag, z) + s)[1..] == Decimal(|z|) + ([58] + z + s);
    NumberReads(|z|, [58] + z + s);
    assert ([58] + z + s)[1..] == z + s;
  }

  lemma SignedUndoes(i: Int64)
    ensures Signed(Unsigned(i)) == Some(i)
  {}

  lemma WordReads(tag: Byte, w: Word64, s: seq<Byte>)
    ensures var t := [tag] + BigEndian(w, 8) + s;
      t[0] == tag && |t[1..]| >= 8 && FromBig(t[1..][..8]) == w && t[1..][8..] == s
  {
    Power256Of8();
    FromBigEndian(w, 8);
    var t := [tag] + BigEndian(w, 8) + s;
    assert t[1..][..8] == BigEndian(w, 8);
  }

  function TokenBytes(t: Token): seq<Byte> {
    match t
    case S(sql) => Sized(83, sql)
    case R => [82]
    case V(v) => ValueBytes(v)
  }

  /** Each token is read back, whatever follows it. */
  lemma TokenReads(t: Token, s: seq<Byte>)
    ensures |s| < |TokenBytes(t) + s| && ReadToken(TokenBytes(t) + s) == Some(Found(t, s))
  {
    hide Sized, ReadSized, BigEndian, FromBig, Signed, Unsigned;
    match t
    case S(sql) => SizedReads(83, sql, s);
    case R => assert ([82] + s)[1..] == s;
    case V(v) =>
      match v
      case Null => assert ([78] + s)[1..] == s;
      case Integer(i) => WordReads(73, Unsigned(i), s); SignedUndoes(i);
      case Float(bits) => WordReads(70, bits, s);
      case Text(z) => SizedReads(84, z, s);
      case Blob(z) => SizedReads(66, z, s);
  }

  lemma TokenDecodes(t: Token, s: seq<Byte>)
    requires Decode(s).Some?
    ensures Decode(TokenBytes(t) + s) == Some(Add(t, Decode(s).value))
  {
    hide TokenBytes, ReadToken;
    TokenReads(t, s);
  }

  lemma {:induction false} RowDecodes(row: seq<Value>, s: seq<Byte>)
    requires Decode(s).Some?
    ensures Decode(RowBytes(row) + s) == Some(Decode(s).value.(values := row + Decode(s).value.values))
  {
    hide Decode, ValueBytes;
    if row == [] {
      assert RowBytes(row) + s == s && row + Decode(s).value.values == Decode(s).value.values;
    } else {
      RowDecodes(row[1..], s);
      assert RowBytes(row) + s == TokenBytes(V(row[0])) + (RowBytes(row[1..]) + s);
      TokenDecodes(V(row[0]), RowBytes(row[1..]) + s);
      assert [row[0]] + (row[1..] + Decode(s).value.values) == row + Decode(s).value.values;
    }
  }

  lemma {:induction false} RowsDecode(rows: seq<seq<Value>>, s: seq<Byte>)
    requires Decode(s).Some? && Decode(s).value.values == [] && Decode(s).value.rows == []
    ensures Decode(RowsBytes(rows) + s) == Some(Decode(s).value.(rows := rows))
  {
    hide Decode, RowBytes;
    if rows == [] {
      assert RowsBytes(rows) + s == s;
    } else {
      var more := RowsBytes(rows[1..]) + s;
      RowsDecode(rows[1..], s);
      assert RowsBytes(rows) + s == TokenBytes(R) + (RowBytes(rows[0]) + more);
      RowDecodes(rows[0], more);
      TokenDecodes(R, RowBytes(rows[0]) + more);
      assert rows[0] + [] == rows[0] && [rows[0]] + rows[1..] == rows;
    }
  }

  /** The stream determines the statements, the rows and the values. */
  lemma {:induction false} StreamDecodes(statements: seq<Statement>)
    ensures Decode(Stream(statements)) == Some(Decoded([], [], statements))
  {
    hide RowsBytes, Sized, ReadToken;
    if statements != [] {
      hide Decode;
      var first, more := statements[0], Stream(statements[1..]);
      StreamDecodes(statements[1..]);
      RowsDecode(first.rows, more);
      assert Stream(statements) == TokenBytes(S(first.sql)) + (RowsBytes(first.rows) + more);
      TokenDecodes(S(first.sql), RowsBytes(first.rows) + more);
      assert [first] + statements[1..] == statements;
    }
  }

  /** Different results give different streams. */
  lemma SameStream(a: seq<Statement>, b: seq<Statement>)
    requires Stream(a) == Stream(b)
    ensures a == b
  {
    hide Decode, Stream;
    StreamDecodes(a);
    StreamDecodes(b);
  }

  /** The bytes that the context has taken in. */
  ghost predicate Holds(cx: SHA3Context, fed: seq<Byte>)
    reads cx, cx.s
  {
    cx.Valid() && cx.Sponge() == FeedAll(Feeder(Zeros(200), 0), fed, cx.nRate)
  }

  /** SHA3Update on a buffer that may or may not be aligned. */
  method Take(cx: SHA3Context, z: seq<Byte>, ghost fed: seq<Byte>)
    requires Holds(cx, fed)
    modifies cx, cx.s
    ensures Holds(cx, fed + z) && cx.nRate == old(cx.nRate)
  {
    hide FeedAll, Zeros;
    var aligned: bool := *;
    cx.Update(z, aligned);
    FeedAllConcat(Feeder(Zeros(200), 0), fed, z, cx.nRate);
  }

  /** The loop that fills x[8] down to x[1] with the bytes of u. */
  method TaggedWord(tag: Byte, word: Word64) returns (z: seq<Byte>)
    ensures z == [tag] + BigEndian(word, 8)
  {
    var x := new Byte[9];
    var u: nat := word;
    for j := 8 downto 0
      invariant BigEndian(word, 8) == BigEndian(u, j) + x[j + 1..]
    {
      x[j + 1] := u % 256;
      u := u / 256;
      assert x[j + 1..] == [x[j + 1]] + x[j + 2..];
    }
    x[0] := tag;
    assert x[..] == [tag] + x[1..];
    z := x[..];
  }

  method HashValue(cx: SHA3Context, v: Value, ghost fed: seq<Byte>)
    requires Holds(cx, fed)
    modifies cx, cx.s
    ensures Holds(cx, fed + ValueBytes(v)) && cx.nRate == old(cx.nRate)
  {
    hide Holds, BigEndian, Unsigned;
    match v {
      case Null => Take(cx, [78], fed);
      case Integer(i) =>
        var x := TaggedWord(73, Unsigned(i));
        Take(cx, x, fed);
      case Float(bits) =>
        var x := TaggedWord(70, bits);
        Take(cx, x, fed);
      case Text(z) => HashSized(cx, 84, z, fed);
      case Blob(z) => HashSized(cx, 66, z, fed);
    }
  }

  /** hash_step_vformat with the length, and then the bytes themselves. */
  method HashSized(cx: SHA3Context, tag: Byte, z: seq<Byte>, ghost fed: seq<Byte>)
    requires Holds(cx, fed)
    modifies cx, cx.s
    ensures Holds(cx, fed + Sized(tag, z)) && cx.nRate == old(cx.nRate)
  {
    hide Holds, Decimal;
    var head := [tag] + Decimal(|z|) + [58];
    Take(cx, head, fed);
    Take(cx, z, fed + head);
    assert fed + head + z == fed + Sized(tag, z);
  }

  method HashRow(cx: SHA3Context, row: seq<Value>, ghost fed: seq<Byte>)
    requires Holds(cx, fed)
    modifies cx, cx.s
    ensures Holds(cx, fed + [82] + RowBytes(row)) && cx.nRate == old(cx.nRate)
  {
    hide Holds, ValueBytes;
    Take(cx, [82], fed);
    ghost var now := fed + [82];
    for i := 0 to |row|
      invariant Holds(cx, now) && cx.nRate == old(cx.nRate)
      invariant now + RowBytes(row[i..]) == fed + [82] + RowBytes(row[0..])
    {
      HashValue(cx, row[i], now);
      assert row[i..][1..] == row[i + 1..];
      assert now + (ValueBytes(row[i]) + RowBytes(row[i + 1..])) == now + ValueBytes(row[i]) + RowBytes(row[i + 1..]);
      now := now + ValueBytes(row[i]);
    }
    assert row[0..] == row && now + RowBytes([]) == now;
  }

  method HashRows(cx: SHA3Context, rows: seq<seq<Value>>, ghost fed: seq<Byte>)
    requires Holds(cx, fed)
    modifies cx, cx.s
    ensures Holds(cx, fed + RowsBytes(rows)) && cx.nRate == old(cx.nRate)
  {
    hide Holds, RowBytes;
    ghost var now := fed;
    for i := 0 to |rows|
      invariant Holds(cx, now) && cx.nRate == old(cx.nRate)
      invariant now + RowsBytes(rows[i..]) == fed + RowsBytes(rows[0..])
    {
      HashRow(cx, rows[i], now);
      assert rows[i..][1..] == rows[i + 1..];
      assert now + ([82] + RowBytes(rows[i]) + RowsBytes(rows[i + 1..]))
        == now + [82] + RowBytes(rows[i]) + RowsBytes(rows[i + 1..]);
      now := now + [82] + RowBytes(rows[i]);
    }
    assert rows[0..] == rows && now + RowsBytes([]) == now;
  }

  /** sha3QueryFunc once its statements have been compiled: the digest of FIPS 202 of the stream. */
  method QueryDigest(statements: seq<Statement>, iSize: int, bigEndian: bool) returns (digest: seq<Byte>)
    requires iSize == 224 || iSize == 256 || iSize == 384 || iSize == 512
    ensures digest == Sha3(Stream(statements), (1600 - 2 * iSize) / 8)[..iSize / 8]
  {
    hide FeedAll, Zeros, Sized, RowsBytes, Padding, Sha3;
    var cx := new SHA3Context(iSize, bigEndian);
    FeedNothing(Feeder(Zeros(200), 0), cx.nRate);
    RateOfDigest(iSize);
    hide RateOf;
    ghost var now: seq<Byte> := [];
    for i := 0 to |statements|
      invariant Holds(cx, now) && cx.nRate == RateOf(iSize) && fresh(cx) && fresh(cx.s)
      invariant now + Stream(statements[i..]) == Stream(statements[0..])
    {
      ghost var first, more := statements[i], Stream(statements[i + 1..]);
      HashSized(cx, 83, statements[i].sql, now);
      HashRows(cx, statements[i].rows, now + Sized(83, first.sql));
      assert statements[i..][1..] == statements[i + 1..];
      assert now + (Sized(83, first.sql) + RowsBytes(first.rows) + more)
        == now + Sized(83, first.sql) + RowsBytes(first.rows) + more;
      now := now + Sized(83, first.sql) + RowsBytes(first.rows);
    }
    assert statements[0..] == statements && now + Stream([]) == now;
    FedAndPadded(now, cx.nRate, cx.Sponge());
    digest := cx.Final();
    digest := digest[..iSize / 8];
  }

  /** The integer 1 goes into the stream with its most significant byte first. */
  lemma IntegersAreBigEndian()
    ensures ValueBytes(Integer(1)) == [73, 0, 0, 0, 0, 0, 0, 0, 1]
    ensures DocumentedBytes(Integer(1)) == [73, 1, 0, 0, 0, 0, 0, 0, 0]
  {
    OneBothWays();
    hide BigEndian, Put;
  }

  lemma OneBothWays()
    ensures BigEndian(1, 8) == [0, 0, 0, 0, 0, 0, 0, 1] && Put(1, 8) == [1, 0, 0, 0, 0, 0, 0, 0]
  {
    NoughtsOnly(7);
    assert BigEndian(1, 8) == BigEndian(0, 7) + [1] && Put(1, 8) == [1] + Put(0, 7);
    hide BigEndian, Put;
  }

  lemma {:induction false} NoughtsOnly(n: nat)
    ensures BigEndian(0, n) == Zeros(n) == Put(0, n)
  {
    if n > 0 {
      NoughtsOnly(n - 1);
    }
  }

  /** The bytes of a value as the documentation has them, with numbers least significant byte first. */
  function DocumentedBytes(v: Value): seq<Byte> {
    match v
    case Integer(i) => [73] + Put(Unsigned(i), 8)
    case Float(bits) => [70] + Put(bits, 8)
    case _ => ValueBytes(v)
  }

  /** The eight bytes of a word read the same both ways. */
  ghost predicate SameBothWays(w: Word64) {
    forall k: nat | k < 8 :: ByteAt(w, k) == ByteAt(w, 7 - k)
  }

  lemma WordAsDocumented(w: Word64)
    ensures BigEndian(w, 8) == Put(w, 8) <==> SameBothWays(w)
  {
    hide BigEndian, Put, ByteAt;
    if BigEndian(w, 8) == Put(w, 8) {
      forall k: nat | k < 8 ensures ByteAt(w, k) == ByteAt(w, 7 - k) {
        BigEndianAt(w, 8, k);
        PutAt(w, 8, k);
      }
    } else {
      var k :| 0 <= k < 8 && BigEndian(w, 8)[k] != Put(w, 8)[k];
      BigEndianAt(w, 8, k);
      PutAt(w, 8, k);
    }
  }

  /** A value is hashed as documented exactly if it is not a number whose bytes read otherwise backwards. */
  lemma DocumentedExactlyWhen(v: Value)
    ensures ValueBytes(v) == DocumentedBytes(v) <==>
      match v
      case Integer(i) => SameBothWays(Unsigned(i))
      case Float(bits) => SameBothWays(bits)
      case _ => true
  {
    hide BigEndian, Put, SameBothWays, Unsigned;
    match v
    case Integer(i) => WordAsDocumented(Unsigned(i)); BehindTag(73, BigEndian(Unsigned(i), 8), Put(Unsigned(i), 8));
    case Float(bits) => WordAsDocumented(bits); BehindTag(70, BigEndian(bits, 8), Put(bits, 8));
    case _ =>
  }

  lemma BehindTag(tag: Byte, a: seq<Byte>, b: seq<Byte>)
    ensures [tag] + a == [tag] + b <==> a == b
  {
    assert ([tag] + a)[1..] == a && ([tag] + b)[1..] == b;
  }
}
