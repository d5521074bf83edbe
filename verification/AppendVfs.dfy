/** appendvfs: a database kept after a foreign prefix, with a mark at the end of the file. */
module AppendVfs {
  import opened Words
  import opened ByteFile

  /** "Start-Of-SQLite3-" */
  const APND_MARK_PREFIX: seq<Byte> := [83, 116, 97, 114, 116, 45, 79, 102, 45, 83, 81, 76, 105, 116, 101, 51, 45]
  const APND_MARK_PREFIX_SZ := 17
  const APND_MARK_SIZE := 25
  const APND_MAX_SIZE := 65536 * 15259

  /** "SQLite format 3" and its NUL. */
  const SQLITE_HDR: seq<Byte> := [83, 81, 76, 105, 116, 101, 32, 102, 111, 114, 109, 97, 116, 32, 51, 0]

  function Mark(iPgOne: nat): (m: seq<Byte>)
    ensures |m| == APND_MARK_SIZE
  {
    APND_MARK_PREFIX + BigEndian(iPgOne, 8)
  }

  /** The eight bytes of an offset without the sign bit. */
  function Unsigned(b: seq<Byte>): (r: seq<Byte>)
    requires |b| == 8
    ensures |r| == 8
  {
    [b[0] % 128] + b[1..]
  }

  predicate IsMark(m: seq<Byte>) {
    |m| == APND_MARK_SIZE && m[..APND_MARK_PREFIX_SZ] == APND_MARK_PREFIX
  }

  function MarkValue(m: seq<Byte>): nat
    requires IsMark(m)
  {
    FromBig(Unsigned(m[APND_MARK_PREFIX_SZ..]))
  }

  /** The file with a database and its mark, or without a mark only the prefix. */
  function Whole(prefix: seq<Byte>, iPgOne: nat, content: seq<Byte>, mark: seq<Byte>): (file: seq<Byte>)
    requires |prefix| <= iPgOne
    ensures |file| == if mark == [] then |prefix| else iPgOne + |content| + |mark|
  {
    if mark == [] then prefix else Extend(prefix, iPgOne) + content + mark
  }

  ghost predicate MarkFor(m: seq<Byte>, iPgOne: nat) {
    |m| == APND_MARK_SIZE && IsMark(m) && MarkValue(m) == iPgOne
  }

  /** apndReadMark */
  function ReadMark(file: seq<Byte>): int {
    if |file| <= APND_MARK_SIZE then -1 else
    var m := file[|file| - APND_MARK_SIZE..];
    if IsMark(m) then MarkValue(m) else -1
  }

  predicate IsOrdinaryDatabaseFile(file: seq<Byte>) {
    |file| >= 512 && file[..16] == SQLITE_HDR
  }

  /** (sz+0xfff) & ~0xfff */
  function PageAfter(sz: nat): (r: nat)
    ensures sz <= r < sz + 0x1000 && r % 0x1000 == 0
  {
    (sz + 0xfff) / 0x1000 * 0x1000
  }

  datatype Opened = Ordinary | Appended(iPgOne: nat) | CantOpen

  /** apndOpen for a main database. */
  function Open(file: seq<Byte>, create: bool): Opened {
    if IsOrdinaryDatabaseFile(file) then Ordinary
    else if ReadMark(file) > 0 then Appended(ReadMark(file))
    else if create then Appended(PageAfter(|file|))
    else CantOpen
  }

  /** The loop of apndReadMark. */
  method FindMark(file: seq<Byte>) returns (iMark: int)
    ensures iMark == ReadMark(file)
  {
    if |file| <= APND_MARK_SIZE {
      return -1;
    }
    var a := file[|file| - APND_MARK_SIZE..];
    if a[..APND_MARK_PREFIX_SZ] != APND_MARK_PREFIX {
      return -1;
    }
    ghost var b := Unsigned(a[APND_MARK_PREFIX_SZ..]);
    iMark := a[APND_MARK_PREFIX_SZ] % 128 * Power256(7);
    assert b[..1] == [b[0]] && b[..1][..0] == [];
    for i := 1 to 8
      invariant iMark == FromBig(b[..i]) * Power256(8 - i)
    {
      FromBigStep(b, i);
      iMark := iMark + a[APND_MARK_PREFIX_SZ + i] * Power256(7 - i);
    }
    assert b[..8] == b;
  }

  class ApndFile {
    var sub: seq<Byte>
    var iPgOne: nat
    var iMark: int
    /** What stands before the database, the database, and the mark, which is missing before the first write. */
    ghost const prefix: seq<Byte>
    ghost var content: seq<Byte>
    ghost var mark: seq<Byte>

    ghost predicate Valid()
      reads this
    {
      && |prefix| <= iPgOne && 0 < iPgOne < 128 * Power256(7)
      && sub == Whole(prefix, iPgOne, content, mark)
      && if mark == []
         then iPgOne == PageAfter(|prefix|) && iMark == 0 && content == [] && ReadMark(prefix) <= 0
         else MarkFor(mark, iPgOne) && (iMark == 0 || iMark == iPgOne + |content|)
    }

    /** apndOpen on a file that is not an ordinary database and, if it has a mark, one that lies in the file. */
    constructor (file: seq<Byte>)
      requires file != [] && |file| + 0xfff < 128 * Power256(7)
      requires !IsOrdinaryDatabaseFile(file) && (ReadMark(file) > 0 ==> ReadMark(file) + APND_MARK_SIZE <= |file|)
      ensures Valid() && sub == file && Appended(iPgOne) == Open(file, true)
      ensures if ReadMark(file) > 0
        then mark != [] && prefix == file[..iPgOne] && content == file[iPgOne..|file| - APND_MARK_SIZE]
        else mark == [] && prefix == file
    {
      sub, iMark := file, 0;
      var r := FindMark(file);
      if r > 0 {
        iPgOne := r;
        prefix, content := file[..r], file[r..|file| - APND_MARK_SIZE];
        mark := file[|file| - APND_MARK_SIZE..];
        ReadMarkFits(file);
      } else {
        iPgOne := PageAfter(|file|);
        prefix, content, mark := file, [], [];
      }
    }

    method WriteMark()
      requires iMark >= 0
      modifies this`sub
      ensures sub == WriteAt(old(sub), iMark, Mark(iPgOne))
    {
      var a := new Byte[APND_MARK_SIZE];
      forall i | 0 <= i < APND_MARK_PREFIX_SZ {
        a[i] := APND_MARK_PREFIX[i];
      }
      for i := 0 to 8
        invariant sub == old(sub) && a[..APND_MARK_PREFIX_SZ] == APND_MARK_PREFIX
        invariant forall j | 0 <= j < i :: a[APND_MARK_PREFIX_SZ + j] == BigEndian(iPgOne, 8)[j]
      {
        BigEndianAt(iPgOne, 8, i);
        a[APND_MARK_PREFIX_SZ + i] := ByteAt(iPgOne, 7 - i);
      }
      assert a[..] == a[..APND_MARK_PREFIX_SZ] + a[APND_MARK_PREFIX_SZ..];
      assert a[APND_MARK_PREFIX_SZ..] == BigEndian(iPgOne, 8);
      assert a[..] == Mark(iPgOne);
      sub := WriteAt(sub, iMark, a[..]);
    }

    /** The second half of apndWrite, after data that ends behind iMark. */
    method MoveMark(end: nat) returns (moved: bool)
      modifies this`sub, this`iMark
      ensures moved == (end > old(|sub|) - APND_MARK_SIZE)
      ensures if moved then iMark == end && sub == WriteAt(old(sub), end, Mark(iPgOne))
        else iMark == |sub| - APND_MARK_SIZE && sub == old(sub)
    {
      var sz := |sub|;
      iMark := sz - APND_MARK_SIZE;
      moved := end > iMark;
      if moved {
        iMark := end;
        WriteMark();
      }
    }

    /** A write that leaves no gap is a write to the database, unless it is refused. */
    method Write(data: seq<Byte>, iOfst: nat) returns (ok: bool)
      requires Valid() && iOfst <= |content|
      modifies this
      ensures Valid() && iPgOne == old(iPgOne)
      ensures ok == (iOfst + |data| < APND_MAX_SIZE)
      ensures ok ==> mark != [] && content == WriteAt(old(content), iOfst, data)
      ensures ok ==> |sub| == FileSizeAfter(iPgOne, |old(content)|, iOfst, |data|)
      ensures !ok ==> unchanged(this)
    {
      hide WriteAt, Valid;
      ok := iOfst + |data| < APND_MAX_SIZE;
      if ok {
        WriteAndMark(data, iOfst);
      }
    }

    method WriteAndMark(data: seq<Byte>, iOfst: nat)
      requires Valid() && iOfst <= |content|
      modifies this
      ensures Valid() && iPgOne == old(iPgOne)
      ensures mark != [] && content == WriteAt(old(content), iOfst, data)
      ensures |sub| == FileSizeAfter(iPgOne, |old(content)|, iOfst, |data|)
    {
      hide WriteAt, Whole, Mark, MarkFor, PageAfter, ReadMark, Power256;
      MarkReads(iPgOne);
      MarkHasSize(mark, iPgOne);
      WriteLands(prefix, iPgOne, content, mark, iOfst, data);
      sub := WriteAt(sub, iOfst + iPgOne, data);
      if iOfst + |data| + iPgOne > iMark {
        var moved := MoveMark(iPgOne + iOfst + |data|);
        if moved {
          mark := Mark(iPgOne);
        }
      }
      content := WriteAt(content, iOfst, data);
      MarkHasSize(mark, iPgOne);
    }

    method Truncate(size: nat)
      requires Valid() && size <= |content|
      modifies this
      ensures Valid() && iPgOne == old(iPgOne)
      ensures mark != [] && content == old(content)[..size]
    {
      hide WriteAt, Whole, ByteFile.Truncate, Mark, MarkFor, PageAfter, ReadMark, Power256;
      MarkReads(iPgOne);
      MarkHasSize(mark, iPgOne);
      TruncateLands(prefix, iPgOne, content, mark, size);
      sub := ByteFile.Truncate(sub, size + iPgOne + APND_MARK_SIZE);
      iMark := iPgOne + size;
      WriteMark();
      content, mark := content[..size], Mark(iPgOne);
    }

    /** The size is right once there is a mark; before that it is negative. */
    method FileSize() returns (n: int)
      requires Valid()
      ensures mark != [] ==> n == |content|
      ensures mark == [] ==> n < 0
    {
      n := |sub|;
      if iPgOne != 0 {
        n := n - (iPgOne + APND_MARK_SIZE);
      }
    }

    /** Reads see the database and, behind it, the mark. */
    method Read(iAmt: nat, iOfst: nat) returns (r: Reading)
      requires Valid()
      ensures r == ReadAt(content + mark, iOfst, iAmt)
    {
      r := ReadAt(sub, iOfst + iPgOne, iAmt);
    }

    lemma NotOrdinary()
      requires Valid()
      requires !IsOrdinaryDatabaseFile(Whole(prefix, iPgOne, content, if mark != [] then Mark(iPgOne) else []))
      ensures !IsOrdinaryDatabaseFile(sub)
    {
      hide SQLITE_HDR, Mark;
      if mark != [] {
        MarkHasSize(mark, iPgOne);
        SameBeginning(prefix, iPgOne, content, mark, Mark(iPgOne));
      }
    }

    lemma PrefixAndMark()
      requires Valid()
      ensures prefix <= sub && (mark != [] ==> ReadMark(sub) == iPgOne)
    {
      if mark != [] {
        MarkIsFound(prefix, iPgOne, content, mark);
      }
    }

    /** Closing the file and opening it again. */
    method Reopen()
      requires Valid() && !IsOrdinaryDatabaseFile(sub)
      modifies this`iPgOne, this`iMark
      ensures Valid() && iPgOne == old(iPgOne)
    {
      iMark := 0;
      var r := FindMark(sub);
      iPgOne := if r > 0 then r else PageAfter(|sub|);
    }
  }

  lemma MarkHasSize(m: seq<Byte>, iPgOne: nat)
    ensures MarkFor(m, iPgOne) ==> |m| == APND_MARK_SIZE
  {}

  /** Where a write ends, and what a mark written right after it makes of the file. */
  lemma WriteLands(prefix: seq<Byte>, iPgOne: nat, c: seq<Byte>, m: seq<Byte>, off: nat, data: seq<Byte>)
    requires |prefix| <= iPgOne && off <= |c| && (|m| == APND_MARK_SIZE || m == c == [])
    ensures var g := WriteAt(Whole(prefix, iPgOne, c, m), off + iPgOne, data);
      var c', end := WriteAt(c, off, data), iPgOne + off + |data|;
      if off + |data| <= |c| && m != [] then
        g == Whole(prefix, iPgOne, c', m) && |g| - APND_MARK_SIZE == iPgOne + |c'| >= end
      else
        && |g| - APND_MARK_SIZE < end == iPgOne + |c'|
        && WriteAt(g, end, Mark(iPgOne)) == Whole(prefix, iPgOne, c', Mark(iPgOne))
  {
    hide WriteAt, Mark;
    if m == [] {
      FirstWrite(prefix, iPgOne, data, Mark(iPgOne));
      WriteAtEnd(c, 0, data);
    } else if off + |data| <= |c| {
      WriteInside(Extend(prefix, iPgOne), c, m, off, data);
    } else {
      WriteBeyond(Extend(prefix, iPgOne), c, m, off, data, Mark(iPgOne));
    }
  }

  lemma TruncateLands(prefix: seq<Byte>, iPgOne: nat, c: seq<Byte>, m: seq<Byte>, n: nat)
    requires |prefix| <= iPgOne && n <= |c| && (|m| == APND_MARK_SIZE || m == c == [])
    ensures var cut := ByteFile.Truncate(Whole(prefix, iPgOne, c, m), n + iPgOne + APND_MARK_SIZE);
      WriteAt(cut, iPgOne + n, Mark(iPgOne))
      == Whole(prefix, iPgOne, c[..n], Mark(iPgOne))
  {
    hide WriteAt, ByteFile.Truncate, Extend, Mark;
    if m == [] {
      FirstTruncate(prefix, iPgOne, Mark(iPgOne));
      assert c[..n] == [] && Extend(prefix, iPgOne) + [] == Extend(prefix, iPgOne);
    } else {
      TruncateInside(Extend(prefix, iPgOne), c, m, n, Mark(iPgOne));
    }
  }

  lemma FromBigStep(b: seq<Byte>, i: nat)
    requires i < |b| == 8
    ensures FromBig(b[..i]) * Power256(8 - i) + b[i] * Power256(7 - i) == FromBig(b[..i + 1]) * Power256(7 - i)
  {
    assert b[..i + 1][..i] == b[..i];
    var f, p := FromBig(b[..i]), Power256(7 - i);
    assert Power256(8 - i) == 256 * p;
    assert f * (256 * p) + b[i] * p == (f * 256 + b[i]) * p;
  }

  lemma {:induction false} FirstByteFits(v: nat, n: nat)
    requires n > 0 && v < 128 * Power256(n - 1)
    ensures BigEndian(v, n)[0] < 128
  {
    if n > 1 {
      FirstByteFits(v / 256, n - 1);
    }
  }

  /** The offset in a mark that was written is read back. */
  lemma MarkReads(v: nat)
    requires v < 128 * Power256(7)
    ensures MarkFor(Mark(v), v)
  {
    assert Mark(v)[APND_MARK_PREFIX_SZ..] == BigEndian(v, 8);
    FirstByteFits(v, 8);
    assert Unsigned(BigEndian(v, 8)) == BigEndian(v, 8);
    FromBigEndian(v, 8);
  }

  lemma {:induction false} FromBigFits(b: seq<Byte>)
    requires b != [] && b[0] < 128
    ensures FromBig(b) < 128 * Power256(|b| - 1)
  {
    if |b| > 1 {
      FromBigFits(b[..|b| - 1]);
    }
  }

  lemma ReadMarkFits(file: seq<Byte>)
    ensures ReadMark(file) < 128 * Power256(7)
  {
    if |file| > APND_MARK_SIZE && IsMark(file[|file| - APND_MARK_SIZE..]) {
      FromBigFits(Unsigned(file[|file| - APND_MARK_SIZE..][APND_MARK_PREFIX_SZ..]));
    }
  }

  /** Prefix, database and mark together, after a write of n bytes at iOfst to a database of the given size. */
  function FileSizeAfter(iPgOne: nat, size: nat, iOfst: nat, n: nat): nat {
    iPgOne + (if iOfst + n > size then iOfst + n else size) + APND_MARK_SIZE
  }

  /** The check of apndWrite. */
  predicate Accepted(iOfst: nat, n: nat) {
    iOfst + n < APND_MAX_SIZE
  }

  /** APND_MAX_SIZE is documented as the most that prefix, database and mark may have together. */
  predicate StaysWithinLimit(iPgOne: nat, size: nat, iOfst: nat, n: nat) {
    Accepted(iOfst, n) ==> FileSizeAfter(iPgOne, size, iOfst, n) <= APND_MAX_SIZE
  }

  /**
   A write keeps to that exactly if it is refused, or fits together with
   prefix, mark and what is there already.
   */
  lemma LimitExactlyWhen(iPgOne: nat, size: nat, iOfst: nat, n: nat)
    ensures StaysWithinLimit(iPgOne, size, iOfst, n) <==>
      iOfst + n >= APND_MAX_SIZE
      || (iPgOne + iOfst + n + APND_MARK_SIZE <= APND_MAX_SIZE && iPgOne + size + APND_MARK_SIZE <= APND_MAX_SIZE)
  {}

  /** Behind any prefix there is a write that does not keep to it. */
  lemma LimitIsExceeded(iPgOne: nat, size: nat)
    requires size < APND_MAX_SIZE
    ensures !StaysWithinLimit(iPgOne, size, 0, APND_MAX_SIZE - 1)
  {}

  /** The bytes of a mark up to its last one that is not zero. */
  function Loud(m: seq<Byte>): (n: nat)
    ensures n <= |m| && (n > 0 ==> m[n - 1] != 0) && forall k | n <= k < |m| :: m[k] == 0
  {
    if m == [] || m[|m| - 1] != 0 then |m| else Loud(m[..|m| - 1])
  }

  lemma MarkIsMark(m: seq<Byte>, iPgOne: nat)
    requires MarkFor(m, iPgOne)
    ensures IsMark(m)
  {}

  lemma {:induction false} LoudFrom(m: seq<Byte>, n: nat)
    requires 0 < n <= |m| && m[n - 1] != 0 && forall k | n <= k < |m| :: m[k] == 0
    ensures Loud(m) == n
  {
    assert Loud(m) > 0;
  }

  lemma OffsetBytes(m: seq<Byte>, iPgOne: nat)
    requires MarkFor(m, iPgOne)
    ensures Unsigned(m[APND_MARK_PREFIX_SZ..]) == BigEndian(iPgOne, 8)
  {
    hide BigEndian, FromBig, Unsigned;
    BigOfUnsigned(m[APND_MARK_PREFIX_SZ..]);
  }

  lemma UnsignedAt(b: seq<Byte>)
    requires |b| == 8
    ensures var c := Unsigned(b); c[0] == b[0] % 128 && forall k | 1 <= k < 8 :: c[k] == b[k]
  {}

  /** Marks for the same offset differ in the sign bit only. */
  lemma SameButSign(m: seq<Byte>, iPgOne: nat)
    requires MarkFor(m, iPgOne)
    ensures var n := Mark(iPgOne);
      n[17] == m[17] % 128 && forall k | 18 <= k < APND_MARK_SIZE :: m[k] == n[k]
  {
    OffsetBytes(m, iPgOne);
    UnsignedAt(m[APND_MARK_PREFIX_SZ..]);
    hide BigEndian, Unsigned, MarkFor;
    MarkHasSize(m, iPgOne);
    assert m[17] == m[APND_MARK_PREFIX_SZ..][0];
    assert forall k | 18 <= k < APND_MARK_SIZE :: m[k] == m[APND_MARK_PREFIX_SZ..][k - 17];
  }

  lemma SomeOffsetByte(iPgOne: nat) returns (k: nat)
    requires 0 < iPgOne < Power256(8)
    ensures 17 <= k < APND_MARK_SIZE && Mark(iPgOne)[k] != 0
  {
    hide BigEndian, Power256;
    FromBigEndian(iPgOne, 8);
    BigIsPositive(BigEndian(iPgOne, 8));
    var j :| 0 <= j < 8 && BigEndian(iPgOne, 8)[j] != 0;
    k := 17 + j;
  }

  lemma OffsetFits(m: seq<Byte>, iPgOne: nat)
    requires MarkFor(m, iPgOne)
    ensures iPgOne < Power256(8)
  {
    FromBigFits(Unsigned(m[APND_MARK_PREFIX_SZ..]));
  }

  /** Marks for the same offset are equally long up to their last byte that is not zero, whatever the sign bit. */
  lemma EquallyLoud(m: seq<Byte>, iPgOne: nat)
    requires MarkFor(m, iPgOne) && iPgOne > 0
    ensures Loud(m) == Loud(Mark(iPgOne))
  {
    hide Mark, MarkFor, Power256;
    MarkHasSize(m, iPgOne);
    SameButSign(m, iPgOne);
    OffsetFits(m, iPgOne);
    var k := SomeOffsetByte(iPgOne);
    var n := Mark(iPgOne);
    if k >= 18 {
      LastLoud(m, n, k);
    } else if j :| 18 <= j < APND_MARK_SIZE && m[j] != 0 {
      LastLoud(m, n, j);
    } else {
      LoudFrom(m, 18);
      LoudFrom(n, 18);
    }
  }

  lemma BigOfUnsigned(b: seq<Byte>)
    requires |b| == 8
    ensures BigEndian(FromBig(Unsigned(b)), 8) == Unsigned(b)
  {
    hide Unsigned;
    BigOfFromBig(Unsigned(b));
  }

  lemma {:induction false} BigOfFromBig(b: seq<Byte>)
    ensures BigEndian(FromBig(b), |b|) == b
  {
    if b != [] {
      var n := |b| - 1;
      BigOfFromBig(b[..n]);
      Joined(FromBig(b[..n]), b[n]);
    }
  }

  lemma {:induction false} BigIsPositive(b: seq<Byte>)
    requires FromBig(b) > 0
    ensures exists k | 0 <= k < |b| :: b[k] != 0
  {
    if b[|b| - 1] == 0 {
      BigIsPositive(b[..|b| - 1]);
    }
  }

  lemma LastLoud(m: seq<Byte>, n: seq<Byte>, k: nat)
    requires |m| == |n| == APND_MARK_SIZE && 18 <= k < APND_MARK_SIZE && m[k] != 0
    requires forall j | 18 <= j < APND_MARK_SIZE :: m[j] == n[j]
    ensures Loud(m) == Loud(n)
  {
    LoudFrom(n, Loud(m));
  }

  /** The first bytes of a file do not depend on its mark. */
  lemma SameBeginning(prefix: seq<Byte>, iPgOne: nat, content: seq<Byte>, m: seq<Byte>, n: seq<Byte>)
    requires |prefix| <= iPgOne && |m| == |n| == APND_MARK_SIZE
    ensures IsOrdinaryDatabaseFile(Whole(prefix, iPgOne, content, m)) ==
      IsOrdinaryDatabaseFile(Whole(prefix, iPgOne, content, n))
  {
    hide SQLITE_HDR;
    if iPgOne + |content| + APND_MARK_SIZE >= 512 {
      assert Whole(prefix, iPgOne, content, m)[..16] == Whole(prefix, iPgOne, content, n)[..16];
    }
  }

  predicate ReadIsPlain(size: nat, mark: seq<Byte>, iOfst: nat, iAmt: nat) {
    iAmt == 0 || iOfst + iAmt <= size || (iOfst + iAmt > size + |mark| && iOfst >= size + Loud(mark))
  }

  /**
   A read agrees with the same read of the database alone exactly when it ends
   within the database, or when it runs past the end of the file and starts
   behind the last byte of the mark that is not zero.
   */
  lemma ReadsAgree(content: seq<Byte>, mark: seq<Byte>, iOfst: nat, iAmt: nat)
    requires IsMark(mark)
    ensures ReadAt(content + mark, iOfst, iAmt) == ReadAt(content, iOfst, iAmt)
      <==> ReadIsPlain(|content|, mark, iOfst, iAmt)
  {
    var r, s := ReadAt(content + mark, iOfst, iAmt), ReadAt(content, iOfst, iAmt);
    assert r.short == (iAmt > 0 && iOfst + iAmt > |content| + |mark|);
    assert s.short == (iAmt > 0 && iOfst + iAmt > |content|);
    hide ReadAt;
    MarkIsLoud(mark);
    if ReadIsPlain(|content|, mark, iOfst, iAmt) {
      hide IsMark;
      assert r.bytes == s.bytes;
    } else if iOfst + iAmt > |content| + |mark| {
      var k := |content| + Loud(mark) - 1;
      assert (content + mark)[k] == mark[Loud(mark) - 1];
      assert r.bytes[k - iOfst] != s.bytes[k - iOfst];
    }
  }

  lemma MarkIsLoud(m: seq<Byte>)
    requires IsMark(m)
    ensures Loud(m) >= APND_MARK_PREFIX_SZ
  {
    assert m[16] == m[..APND_MARK_PREFIX_SZ][16] == 45;
  }

  lemma MarkIsFound(prefix: seq<Byte>, iPgOne: nat, content: seq<Byte>, mark: seq<Byte>)
    requires |prefix| <= iPgOne && 0 < iPgOne && MarkFor(mark, iPgOne)
    ensures ReadMark(Whole(prefix, iPgOne, content, mark)) == iPgOne
  {
    var file := Whole(prefix, iPgOne, content, mark);
    assert file[|file| - APND_MARK_SIZE..] == mark;
  }

  lemma HeaderOf(prefix: seq<Byte>, iPgOne: nat, rest: seq<Byte>)
    requires |prefix| <= iPgOne && iPgOne >= 16
    ensures (Extend(prefix, iPgOne) + rest)[..16] == SQLITE_HDR <==> SQLITE_HDR <= prefix + [0]
  {
    var head := Extend(prefix, iPgOne) + rest;
    assert head[..16] == Extend(prefix, iPgOne)[..16];
    if |prefix| >= 16 {
      assert head[..16] == prefix[..16];
      assert SQLITE_HDR <= prefix + [0] <==> (prefix + [0])[..16] == SQLITE_HDR;
      assert (prefix + [0])[..16] == prefix[..16];
    } else if |prefix| == 15 {
      assert head[..16] == prefix + [0];
    } else {
      assert head[..16][14] == 0 != SQLITE_HDR[14];
    }
  }

  /**
   A file that had no mark is opened again as the same database, whatever was
   written to it, exactly when it does not begin like an ordinary database;
   a short one that does is taken for one once it has grown.
   */
  lemma ReopenRecovers(prefix: seq<Byte>, content: seq<Byte>, create: bool)
    requires prefix != [] && PageAfter(|prefix|) < 128 * Power256(7)
    ensures var iPgOne := PageAfter(|prefix|);
      Open(Whole(prefix, iPgOne, content, Mark(iPgOne)), create) ==
        if SQLITE_HDR <= prefix + [0] then Ordinary else Appended(iPgOne)
  {
    hide ReadMark, Mark, Extend, PageAfter, Power256, MarkFor;
    var iPgOne := PageAfter(|prefix|);
    AtLeastAPage(|prefix|);
    MarkReads(iPgOne);
    MarkIsFound(prefix, iPgOne, content, Mark(iPgOne));
    HeaderOf(prefix, iPgOne, content + Mark(iPgOne));
    assert Whole(prefix, iPgOne, content, Mark(iPgOne)) == Extend(prefix, iPgOne) + (content + Mark(iPgOne));
  }

  lemma AtLeastAPage(sz: nat)
    requires sz > 0
    ensures PageAfter(sz) >= 0x1000
  {}

  /** Fifteen bytes of a header are no database, but become one with the first write. */
  lemma HeaderWithoutNul(content: seq<Byte>)
    ensures Open(SQLITE_HDR[..15], true) == Appended(0x1000)
    ensures Open(Whole(SQLITE_HDR[..15], 0x1000, content, Mark(0x1000)), true) == Ordinary
  {
    assert PageAfter(15) == 0x1000;
    PowerIsBig();
    hide Power256, Mark, Whole, Extend;
    ReopenRecovers(SQLITE_HDR[..15], content, true);
    assert SQLITE_HDR[..15] + [0] == SQLITE_HDR;
  }

  lemma PowerIsBig()
    ensures Power256(7) > 0x1000
  {
    assert Power256(2) == 0x10000;
    assert forall n | n >= 0 :: Power256(n) > 0;
  }

  /** The calls on an open database file, with the file closed and opened again in between. */
  datatype Call = Write(data: seq<Byte>, iOfst: nat) | Truncate(size: nat) | Read(iAmt: nat, iOfst: nat) | Size | Reopen

  datatype Answer = Done | Full | Bytes(r: Reading) | Length(n: int)

  /** A plain file of bytes under the same calls. */
  function PlainStep(f: seq<Byte>, c: Call): (seq<Byte>, Answer) {
    match c
    case Write(data, iOfst) => if iOfst + |data| >= APND_MAX_SIZE then (f, Full) else (WriteAt(f, iOfst, data), Done)
    case Truncate(size) => (ByteFile.Truncate(f, size), Done)
    case Read(iAmt, iOfst) => (f, Bytes(ReadAt(f, iOfst, iAmt)))
    case Size => (f, Length(|f|))
    case Reopen => (f, Done)
  }

  /** The file and the answers after the first n calls. */
  function PlainRun(f: seq<Byte>, calls: seq<Call>, n: nat): (r: (seq<Byte>, seq<Answer>))
    requires n <= |calls|
    ensures |r.1| == n
  {
    if n == 0 then (f, []) else
    var (g, a) := PlainRun(f, calls, n - 1);
    var (h, b) := PlainStep(g, calls[n - 1]);
    (h, a + [b])
  }

  predicate Touches(c: Call) {
    c.Truncate? || (c.Write? && c.iOfst + |c.data| < APND_MAX_SIZE)
  }

  /**
   No gaps, no growing truncation, no size before the first write, no read that
   differs from a plain one, and no reopening of what looks like an ordinary
   database.
   */
  ghost predicate CallFits(prefix: seq<Byte>, iPgOne: nat, f: seq<Byte>, marked: bool, c: Call)
    requires |prefix| <= iPgOne
  {
    match c
    case Write(data, iOfst) => iOfst <= |f|
    case Truncate(size) => size <= |f|
    case Read(iAmt, iOfst) => !marked || ReadIsPlain(|f|, Mark(iPgOne), iOfst, iAmt)
    case Size => marked
    case Reopen => !IsOrdinaryDatabaseFile(Whole(prefix, iPgOne, f, if marked then Mark(iPgOne) else []))
  }

  function MarkedAfter(marked: bool, calls: seq<Call>, n: nat): bool
    requires n <= |calls|
  {
    if n == 0 then marked else MarkedAfter(marked, calls, n - 1) || Touches(calls[n - 1])
  }

  ghost predicate RunFits(prefix: seq<Byte>, iPgOne: nat, f: seq<Byte>, marked: bool, calls: seq<Call>)
    requires |prefix| <= iPgOne
  {
    forall i | 0 <= i < |calls| ::
      CallFits(prefix, iPgOne, PlainRun(f, calls, i).0, MarkedAfter(marked, calls, i), calls[i])
  }

  method Perform(p: ApndFile, c: Call) returns (a: Answer)
    requires p.Valid() && CallFits(p.prefix, p.iPgOne, p.content, p.mark != [], c)
    modifies p
    ensures p.Valid() && p.iPgOne == old(p.iPgOne)
    ensures (p.content, a) == PlainStep(old(p.content), c)
    ensures (p.mark != []) == (old(p.mark) != [] || Touches(c))
  {
    hide WriteAt, Power256, SQLITE_HDR;
    match c {
      case Write(data, iOfst) =>
        var ok := p.Write(data, iOfst);
        a := if ok then Done else Full;
      case Truncate(size) =>
        p.Truncate(size);
        a := Done;
      case Read(iAmt, iOfst) =>
        var r := p.Read(iAmt, iOfst);
        if p.mark != [] {
          MarkIsMark(p.mark, p.iPgOne);
          EquallyLoud(p.mark, p.iPgOne);
          ReadsAgree(p.content, p.mark, iOfst, iAmt);
        } else {
          assert p.content + p.mark == p.content;
        }
        a := Bytes(r);
      case Size =>
        var n := p.FileSize();
        a := Length(n);
      case Reopen =>
        p.NotOrdinary();
        p.Reopen();
        a := Done;
    }
  }

  /** Over every run the database behaves like a plain file, and what stands before it never changes. */
  method Run(p: ApndFile, calls: seq<Call>) returns (answers: seq<Answer>)
    requires p.Valid() && RunFits(p.prefix, p.iPgOne, p.content, p.mark != [], calls)
    modifies p
    ensures p.Valid() && p.iPgOne == old(p.iPgOne) && p.prefix <= p.sub
    ensures (p.content, answers) == PlainRun(old(p.content), calls, |calls|)
    ensures MarkedAfter(old(p.mark) != [], calls, |calls|) ==> ReadMark(p.sub) == p.iPgOne
  {
    hide PlainStep, CallFits, Touches, Power256, SQLITE_HDR;
    ghost var f, marked := p.content, p.mark != [];
    answers := [];
    for i := 0 to |calls|
      invariant p.Valid() && p.iPgOne == old(p.iPgOne)
      invariant (p.content, answers) == PlainRun(f, calls, i)
      invariant (p.mark != []) == MarkedAfter(marked, calls, i)
    {
      var a := Perform(p, calls[i]);
      answers := answers + [a];
    }
    p.PrefixAndMark();
  }

  /** The bytes of a text. */
  ghost predicate Spells(b: seq<Byte>, text: string) {
    |b| == |text| && forall i | 0 <= i < |b| :: b[i] == text[i] as int
  }

  lemma Literals()
    ensures Spells(APND_MARK_PREFIX, "Start-Of-SQLite3-")
    ensures Spells(SQLITE_HDR[..15], "SQLite format 3") && SQLITE_HDR[15] == 0
    ensures APND_MAX_SIZE == 1_000_013_824 < 0x4000_0000
  {}

  /** Which files are taken for ordinary databases. */
  lemma OrdinaryExactlyWhen(file: seq<Byte>)
    ensures IsOrdinaryDatabaseFile(file) <==>
      |file| >= 512 && Spells(file[..15], "SQLite format 3") && file[15] == 0
  {
    Literals();
    if |file| >= 512 {
      assert file[..16][..15] == file[..15] && file[..16][15] == file[15];
      if Spells(file[..15], "SQLite format 3") && file[15] == 0 {
        assert forall i | 0 <= i < 16 :: file[..16][i] == SQLITE_HDR[i];
      }
    }
  }

  /** Any other file with a mark is opened at the offset in it, whether or not it may be created. */
  lemma OpensAtMark(before: seq<Byte>, iPgOne: nat, create: bool)
    requires before != [] && 0 < iPgOne < 128 * Power256(7)
    requires !IsOrdinaryDatabaseFile(before + Mark(iPgOne))
    ensures Open(before + Mark(iPgOne), create) == Appended(iPgOne)
  {
    hide IsOrdinaryDatabaseFile, Mark, MarkValue, Power256;
    MarkReads(iPgOne);
    var file := before + Mark(iPgOne);
    assert file[|file| - APND_MARK_SIZE..] == Mark(iPgOne);
  }

  /** Any other file without one is opened behind its last page, or not at all. */
  lemma OpensBehind(file: seq<Byte>, create: bool)
    requires !IsOrdinaryDatabaseFile(file)
    requires |file| > 25 ==> !Spells(file[|file| - 25..|file| - 8], "Start-Of-SQLite3-")
    ensures create ==>
      var o := Open(file, create); o.Appended? && o.iPgOne % 4096 == 0 && |file| <= o.iPgOne < |file| + 4096
    ensures !create ==> Open(file, create).CantOpen?
  {
    hide IsOrdinaryDatabaseFile;
    Literals();
    if |file| > 25 {
      assert file[|file| - 25..][..17] == file[|file| - 25..|file| - 8];
    }
  }
}
