/** zipfileScanExtra: the search for a timestamp, which may read beyond the extra data it is given. */
module ZipExtra {
  import opened Wrappers
  import opened Words
  import opened ZipFormat

  /** What the memory happens to hold behind the bytes of a record; the scan reads at most eight of them. */
  type Behind = b: seq<Byte> | |b| == 8 witness [0, 0, 0, 0, 0, 0, 0, 0]

  /** The scan with n bytes of extra data left; b is the memory from where it stands. */
  function Scan(b: seq<Byte>, n: nat, found: Option<nat>): Option<nat>
    requires n + 8 <= |b|
    decreases n
  {
    if n == 0 then found else
    var id, size, data := Load(b[..2]), Load(b[2..4]), b[4..];
    var found' := if id == EXTRA_TIMESTAMP && data[0] % 2 == 1 then Some(Load(data[1..5])) else found;
    if n <= 4 + size then found' else Scan(data[size..], n - 4 - size, found')
  }

  /** zipfileScanExtra on a memory that holds nExtra bytes of extra data and whatever stands behind them. */
  method ScanExtra(b: seq<Byte>, nExtra: nat) returns (found: Option<nat>)
    requires nExtra + 8 <= |b|
    ensures found == Scan(b, nExtra, None)
  {
    hide Load, Scan;
    found := None;
    var p := 0;
    NothingScanned(b, found);
    assert b[0..] == b;
    while p < nExtra
      invariant Scan(b, nExtra, None) == if p < nExtra then Scan(b[p..], nExtra - p, found) else found
      decreases nExtra - p
    {
      FieldAt(b, p, nExtra, found);
      var id, nByte := Load(b[p..p + 2]), Load(b[p + 2..p + 4]);
      p := p + 4;
      if id == EXTRA_TIMESTAMP && b[p] % 2 == 1 {
        found := Some(Load(b[p + 1..p + 5]));
      }
      p := p + nByte;
    }
  }

  lemma FieldAt(b: seq<Byte>, p: nat, nExtra: nat, found: Option<nat>)
    requires p < nExtra && nExtra + 8 <= |b|
    ensures var id, nByte := Load(b[p..p + 2]), Load(b[p + 2..p + 4]);
      var found' := if id == EXTRA_TIMESTAMP && b[p + 4] % 2 == 1 then Some(Load(b[p + 5..p + 9])) else found;
      Scan(b[p..], nExtra - p, found) ==
        if p + 4 + nByte >= nExtra then found' else Scan(b[p + 4 + nByte..], nExtra - (p + 4 + nByte), found')
  {
    hide Load;
    var m := b[p..];
    assert m[..2] == b[p..p + 2] && m[2..4] == b[p + 2..p + 4] && m[4..][1..5] == b[p + 5..p + 9];
    var nByte := Load(b[p + 2..p + 4]);
    assert p + 4 + nByte < nExtra ==> m[4..][nByte..] == b[p + 4 + nByte..];
  }

  /** Field header that is cut off, and may be that of a timestamp all the same. */
  predicate MayBeTimestamp(b: seq<Byte>) {
    b != [] && b[0] == 0x55 && (|b| > 1 ==> b[1] == 0x54)
  }

  /**
   The scan of n bytes of extra data does not depend on what stands behind b:
   no header of a timestamp is cut off, and of each timestamp its flags and,
   if they announce it, its time are there.
   */
  predicate Inside(b: seq<Byte>, n: nat)
    requires n <= |b|
    decreases n
  {
    n == 0 ||
    if |b| < 4 then !MayBeTimestamp(b) else
    var id, size, data := Load(b[..2]), Load(b[2..4]), b[4..];
    && (id == EXTRA_TIMESTAMP ==> data != [] && (data[0] % 2 == 1 ==> |data| >= 5))
    && (n > 4 + size ==> Inside(data[size..], n - 4 - size))
  }

  function Or(found: Option<nat>, default: nat): nat {
    match found
    case Some(t) => t
    case None => default
  }

  lemma LoadTwo(b: seq<Byte>)
    requires |b| == 2
    ensures Load(b) == b[0] as int + 256 * (b[1] as int)
  {
    assert b[1..][1..] == [] && Load([]) == 0;
    assert Load(b[1..]) == b[1];
  }

  lemma LoadFour(b: seq<Byte>)
    requires |b| == 4
    ensures Load(b) == b[0] as int + 256 * (b[1] as int) + 65536 * (b[2] as int) + 16777216 * (b[3] as int)
  {
    var c := b[2..];
    assert b[1..][1..] == c;
    LoadTwo(c);
    assert Load(b) == Load(b[1..]) * 256 + b[0] as int && Load(b[1..]) == Load(c) * 256 + b[1] as int;
  }

  /** The id of a timestamp, byte by byte. */
  lemma IdBytes(b: seq<Byte>)
    requires |b| >= 2
    ensures Load(b[..2]) == EXTRA_TIMESTAMP <==> b[0] == 0x55 && b[1] == 0x54
  {
    LoadTwo(b[..2]);
  }

  /** The scan of one field, as far as it reads it. */
  lemma FirstField(b: seq<Byte>, x: Behind, n: nat, found: Option<nat>)
    requires 0 < n <= |b| && 4 <= |b|
    ensures var id, size, data := Load(b[..2]), Load(b[2..4]), b[4..];
      var found' := if id == EXTRA_TIMESTAMP && (data + x)[0] % 2 == 1 then Some(Load((data + x)[1..5])) else found;
      Scan(b + x, n, found) == if n <= 4 + size then found' else Scan(data[size..] + x, n - 4 - size, found')
  {
    hide Load;
    assert (b + x)[..2] == b[..2] && (b + x)[2..4] == b[2..4] && (b + x)[4..] == b[4..] + x;
    var size, data := Load(b[2..4]), b[4..];
    if n > 4 + size {
      assert (data + x)[size..] == data[size..] + x;
    }
  }

  /** Behind a header that is cut off the scan ends, whatever the header says. */
  lemma CutOffField(b: seq<Byte>, x: Behind, n: nat, found: Option<nat>)
    requires 0 < n <= |b| < 4
    ensures var m := b + x;
      Scan(m, n, found) == if m[0] == 0x55 && m[1] == 0x54 && m[4] % 2 == 1 then Some(Load(m[5..9])) else found
  {
    hide Load;
    var m := b + x;
    IdBytes(m);
    assert m[4..][1..5] == m[5..9];
  }

  /** Two memories that agree on b. */
  lemma {:induction false} InsideAgrees(b: seq<Byte>, n: nat, found: Option<nat>, x: Behind, y: Behind)
    requires n <= |b| && Inside(b, n)
    ensures Scan(b + x, n, found) == Scan(b + y, n, found)
    decreases n
  {
    hide Load, Scan;
    if n == 0 {
      NothingScanned(b + x, found);
      NothingScanned(b + y, found);
    } else if |b| < 4 {
      CutOffField(b, x, n, found);
      CutOffField(b, y, n, found);
    } else {
      FirstField(b, x, n, found);
      FirstField(b, y, n, found);
      var id, size, data := Load(b[..2]), Load(b[2..4]), b[4..];
      if id == EXTRA_TIMESTAMP && data[0] % 2 == 1 {
        assert (data + x)[1..5] == data[1..5] == (data + y)[1..5];
      }
      if n > 4 + size {
        var found' := if id == EXTRA_TIMESTAMP && data[0] % 2 == 1 then Some(Load(data[1..5])) else found;
        InsideAgrees(data[size..], n - 4 - size, found', x, y);
      }
    }
  }

  lemma NothingScanned(b: seq<Byte>, found: Option<nat>)
    requires |b| >= 8
    ensures Scan(b, 0, found) == found
  {}

  const ZEROS: Behind := [0, 0, 0, 0, 0, 0, 0, 0]
  const TWOS: Behind := [2, 2, 2, 2, 2, 2, 2, 2]

  /** Where no more than four bytes are known, bytes that announce no time change nothing. */
  lemma Quiet(b: seq<Byte>, n: nat, found: Option<nat>, x: Behind)
    requires n <= |b| <= 4 && (x == ZEROS || x == TWOS)
    ensures Scan(b + x, n, found) == found
  {
    hide Load;
    if 0 < n && |b| == 4 {
      FirstField(b, x, n, found);
    } else if 0 < n {
      CutOffField(b, x, n, found);
    }
  }

  /** What has to stand behind r bytes of a cut off header to make a timestamp of it. */
  function Timestamp(r: nat, t: Byte): Behind
    requires r <= 4
  {
    if r == 1 then [0x54, 0, 0, 1, t, 0, 0, 0]
    else if r == 2 then [0, 0, 1, t, 0, 0, 0, 0]
    else if r == 3 then [0, 1, t, 0, 0, 0, 0, 0]
    else [1, t, 0, 0, 0, 0, 0, 0]
  }

  lemma SmallTime(b: seq<Byte>, t: Byte)
    requires |b| == 4 && b[0] == t && b[1] == b[2] == b[3] == 0
    ensures Load(b) == t
  {
    LoadFour(b);
  }

  lemma CutOffDepends(b: seq<Byte>, n: nat, found: Option<nat>, t: Byte)
    requires 0 < n <= |b| < 4 && MayBeTimestamp(b)
    ensures Scan(b + ZEROS, n, found) == found && Scan(b + Timestamp(|b|, t), n, found) == Some(t)
  {
    hide Load, Scan;
    Quiet(b, n, found, ZEROS);
    var x := Timestamp(|b|, t);
    CutOffField(b, x, n, found);
    SmallTime((b + x)[5..9], t);
  }

  lemma FlagsDepend(b: seq<Byte>, n: nat, found: Option<nat>, t: Byte)
    requires 0 < n <= |b| == 4 && Load(b[..2]) == EXTRA_TIMESTAMP
    ensures Scan(b + ZEROS, n, found) == found && Scan(b + Timestamp(4, t), n, found) == Some(t)
  {
    hide Load, Scan;
    Quiet(b, n, found, ZEROS);
    var x := Timestamp(4, t);
    FirstField(b, x, n, found);
    assert b[4..] + x == x;
    SmallTime(x[1..5], t);
  }

  /** A time of which the last byte is unknown. */
  lemma TimesDiffer(data: seq<Byte>)
    requires 1 <= |data| <= 4
    ensures Load((data + ZEROS)[1..5]) != Load((data + TWOS)[1..5])
  {
    hide Load;
    LoadFour((data + ZEROS)[1..5]);
    LoadFour((data + TWOS)[1..5]);
  }

  lemma TimeDepends(b: seq<Byte>, n: nat, found: Option<nat>)
    requires 0 < n <= |b| && 5 <= |b| <= 8 && Load(b[..2]) == EXTRA_TIMESTAMP && b[4] % 2 == 1
    ensures var p, q := Scan(b + ZEROS, n, found), Scan(b + TWOS, n, found); p.Some? && q.Some? && p != q
  {
    hide Load, Scan;
    FirstField(b, ZEROS, n, found);
    FirstField(b, TWOS, n, found);
    var size, data := Load(b[2..4]), b[4..];
    TimesDiffer(data);
    if n > 4 + size {
      Quiet(data[size..], n - 4 - size, Some(Load((data + ZEROS)[1..5])), ZEROS);
      Quiet(data[size..], n - 4 - size, Some(Load((data + TWOS)[1..5])), TWOS);
    }
  }

  /** Where the scan is not inside, two memories give different times. */
  lemma {:induction false} Depends(b: seq<Byte>, n: nat, found: Option<nat>, default: nat)
    returns (x: Behind, y: Behind)
    requires n <= |b| && !Inside(b, n)
    ensures Or(Scan(b + x, n, found), default) != Or(Scan(b + y, n, found), default)
    decreases n
  {
    hide Load, Scan;
    var t: Byte := if Or(found, default) == 0 then 1 else 0;
    if |b| < 4 {
      CutOffDepends(b, n, found, t);
      x, y := ZEROS, Timestamp(|b|, t);
    } else {
      var id, size, data := Load(b[..2]), Load(b[2..4]), b[4..];
      if id == EXTRA_TIMESTAMP && data == [] {
        FlagsDepend(b, n, found, t);
        x, y := ZEROS, Timestamp(4, t);
      } else if id == EXTRA_TIMESTAMP && data[0] % 2 == 1 && |data| < 5 {
        TimeDepends(b, n, found);
        x, y := ZEROS, TWOS;
      } else {
        var found' := if id == EXTRA_TIMESTAMP && data[0] % 2 == 1 then Some(Load(data[1..5])) else found;
        x, y := Depends(data[size..], n - 4 - size, found', default);
        FirstField(b, x, n, found);
        FirstField(b, y, n, found);
        if id == EXTRA_TIMESTAMP && data[0] % 2 == 1 {
          assert (data + x)[1..5] == data[1..5] == (data + y)[1..5];
        }
      }
    }
  }

  /** Whether what stands behind the extra data can change the time that is found there. */
  lemma ScanExactlyWhen(b: seq<Byte>, n: nat, default: nat)
    requires n <= |b|
    ensures (forall x: Behind, y: Behind :: Or(Scan(b + x, n, None), default) == Or(Scan(b + y, n, None), default))
      <==> Inside(b, n)
  {
    hide Scan, Inside;
    if Inside(b, n) {
      forall x: Behind, y: Behind ensures Or(Scan(b + x, n, None), default) == Or(Scan(b + y, n, None), default) {
        InsideAgrees(b, n, None, x, y);
      }
    } else {
      var x, y := Depends(b, n, None, default);
    }
  }

  /** Four bytes of extra data that say no more than that a timestamp follows. */
  lemma ShortExtra()
    ensures var b := [0x55, 0x54, 5, 0];
      !Inside(b, 4) && Scan(b + ZEROS, 4, None) == None && Scan(b + [1, 1, 0, 0, 0, 0, 0, 0], 4, None) == Some(1)
  {
    var b: seq<Byte> := [0x55, 0x54, 5, 0];
    IdBytes(b);
    hide Load;
    FlagsDepend(b, 4, None, 1);
    assert Timestamp(4, 1) == [1, 1, 0, 0, 0, 0, 0, 0];
  }
}
