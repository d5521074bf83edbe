/** The zipfile() aggregate: zipfileStep, zipfileFinal and their growing buffers. */
module ZipAggregate {
  import opened Wrappers
  import opened Words
  import opened Fields
  import opened ZipFormat
  import opened ZipExtra
  import opened ZipDirectory
  import opened ZipReader
  import Calendar

  const S_IFDIR := 0x4000
  const S_IFREG := 0x8000
  const TWO32 := 0x1_0000_0000

  /**
   The arguments of zipfile() after the library has converted them.  A NULL
   name, mode, data or method is None; `deflated` and `crc` are what zlib makes
   of the data.
   */
  datatype Args = Args(name: Option<seq<Byte>>, mode: Option<nat>, mtime: nat, data: Option<seq<Byte>>,
                       iMethod: Option<int>, deflated: seq<Byte>, crc: nat)

  /** One entry as zipfileStep decides on it. */
  datatype Item = Item(name: seq<Byte>, mode: nat, mtime: nat, iMethod: nat, crc: nat, szUncompressed: nat,
                       data: seq<Byte>)

  /** zipfileGetMode for a numeric mode: None if it does not go with the data. */
  function GetMode(mode: Option<nat>, isDir: bool): Option<nat> {
    var m := match mode case Some(m) => m case None => if isDir then S_IFDIR + 493 else S_IFREG + 420;
    if (m / S_IFDIR % 2 == 0) == isDir then None else Some(m)
  }

  /** nName after the loop that leaves exactly one '/' at the end. */
  function OneSlash(name: seq<Byte>): (r: seq<Byte>)
    requires name != []
    ensures r != [] && r <= name
  {
    if |name| > 1 && name[|name| - 2] == '/' as int then OneSlash(name[..|name| - 1]) else name
  }

  function EndsWithSlash(name: seq<Byte>): bool
    requires name != []
  {
    name[|name| - 1] == '/' as int
  }

  /** The directory name that is stored, or None if a file name ends with '/'. */
  function StoredName(name: seq<Byte>, isDir: bool): Option<seq<Byte>>
    requires name != []
  {
    if !isDir then (if EndsWithSlash(name) then None else Some(name))
    else if EndsWithSlash(name) then Some(OneSlash(name))
    else Some(name + ['/' as int])
  }

  /** What zipfileStep makes of its arguments; None for each of its errors. */
  function Decide(a: Args): Option<Item>
    requires a.name.Some? ==> a.name.value != []
  {
    if a.name.None? then None
    else if a.iMethod.Some? && a.iMethod.value != 0 && a.iMethod.value != 8 then None
    else
      var isDir := a.data.None?;
      var input := if isDir then [] else a.data.value;
      var deflate := !isDir && (a.iMethod == Some(8) || (a.iMethod.None? && |a.deflated| < |input|));
      match GetMode(a.mode, isDir)
      case None => None
      case Some(mode) =>
        match StoredName(a.name.value, isDir)
        case None => None
        case Some(name) =>
          Some(Item(name, mode, a.mtime, if deflate then 8 else 0, if isDir then 0 else a.crc, |input|,
                    if deflate then a.deflated else input))
  }

  /** A name without the slashes at its end. */
  function Stem(name: seq<Byte>): seq<Byte> {
    if name != [] && name[|name| - 1] == '/' as int then Stem(name[..|name| - 1]) else name
  }

  lemma {:induction false} OneSlashKeepsStem(name: seq<Byte>)
    requires name != [] && EndsWithSlash(name)
    ensures var r := OneSlash(name);
      EndsWithSlash(r) && Stem(r) == Stem(name) && (|r| > 1 ==> r[|r| - 2] != '/' as int)
  {
    if |name| > 1 && name[|name| - 2] == '/' as int {
      OneSlashKeepsStem(name[..|name| - 1]);
    }
  }

  /**
   What is kept of the data, the method and the mode that were given, with
   permissions 755 for directories and 644 for files where no mode was.
   */
  ghost predicate Keeps(data: Option<seq<Byte>>, given: Option<int>, deflated: seq<Byte>, crc: nat, mode: Option<nat>,
                        mtime: nat, i: Item) {
    && (data.None? ==> i.iMethod == 0 && i.data == [] && i.crc == 0 && i.szUncompressed == 0)
    && (data.Some? ==> (i.iMethod == 0 && i.data == data.value) || (i.iMethod == 8 && i.data == deflated))
    && (data.Some? ==> i.crc == crc && i.szUncompressed == |data.value|)
    && (data.Some? && given.Some? ==> i.iMethod == given.value)
    && (data.Some? && given.None? ==> (i.iMethod == 8 <==> |deflated| < |data.value|))
    && i.mtime == mtime
    && (mode.Some? ==> i.mode == mode.value)
    && (mode.None? ==> i.mode == if data.None? then 0x41ED else 0x81A4)
  }

  /** The bit of a mode that says that it is one of a directory. */
  predicate ForDirectory(mode: nat) {
    mode / 0x4000 % 2 == 1
  }

  /**
   What is stored: the path that was given, ending in one slash if and only if
   it is a directory, with the data, the method and the mode.
   */
  ghost predicate IsItemOf(a: Args, i: Item) {
    && a.name.Some? && i.name != [] && Stem(i.name) == Stem(a.name.value)
    && (i.name[|i.name| - 1] == 47 <==> a.data.None?)
    && (|i.name| > 1 && i.name[|i.name| - 1] == 47 ==> i.name[|i.name| - 2] != 47)
    && Keeps(a.data, a.iMethod, a.deflated, a.crc, a.mode, a.mtime, i)
  }

  /** Exactly what is refused, and what is stored of the rest. */
  lemma DecidedItem(a: Args)
    requires a.name.Some? ==> a.name.value != []
    ensures Decide(a).Some? <==>
      && a.name.Some? && (a.iMethod.Some? ==> a.iMethod.value == 0 || a.iMethod.value == 8)
      && (a.mode.Some? ==> (ForDirectory(a.mode.value) <==> a.data.None?))
      && (a.data.Some? ==> a.name.value[|a.name.value| - 1] != 47)
    ensures Decide(a).Some? ==> IsItemOf(a, Decide(a).value)
  {
    if Decide(a).Some? && a.data.None? {
      var name := a.name.value;
      if EndsWithSlash(name) {
        OneSlashKeepsStem(name);
      } else {
        var r := name + ['/' as int];
        assert r[..|r| - 1] == name;
      }
    }
  }

  /** The ZipfileEntry for an item whose header goes to offset `off`. */
  function NewEntry(i: Item, off: nat): Entry {
    var dos := Calendar.MtimeToDos(i.mtime);
    var n := |i.name| % 65536;
    Entry(CDS(798, 20, 0x800, i.iMethod, dos.mTime, dos.mDate, i.crc, |i.data|, i.szUncompressed, n, 0, 0, 0, 0,
              i.mode * 65536 % TWO32, off),
          i.name, i.mtime, None, off + LFH_FIXED_SZ + n + 9)
  }

  /** The archive after the given items: its headers with data, and the entries of its directory. */
  datatype Layout = Layout(body: seq<Byte>, es: seq<Entry>)

  function LayOut(items: seq<Item>): (r: Layout)
    ensures |r.es| == |items|
  {
    if items == [] then Layout([], []) else
    var before, i := LayOut(items[..|items| - 1]), items[|items| - 1];
    var e := NewEntry(i, |before.body|);
    Layout(before.body + LfhBytes(e) + i.data, before.es + [e])
  }

  lemma LayOutAppend(items: seq<Item>, i: Item)
    ensures var before, after := LayOut(items), LayOut(items + [i]);
      var e := NewEntry(i, |before.body|);
      after.body == before.body + LfhBytes(e) + i.data && after.es == before.es + [e]
      && Directory(after.es) == Directory(before.es) + CdsBytes(e)
  {
    assert (items + [i])[..|items|] == items;
    DirectoryAppend(LayOut(items).es, NewEntry(i, |LayOut(items).body|));
    hide LfhBytes, CdsBytes, Directory, NewEntry;
  }

  function Image(items: seq<Item>): seq<Byte> {
    var l := LayOut(items);
    l.body + Directory(l.es) + WriteEOCD(EndRecord(|items|, |Directory(l.es)|, |l.body|))
  }

  function EndRecord(n: nat, size: nat, offset: nat): EOCD {
    EOCD(0, 0, n % 65536, n % 65536, size % TWO32, offset % TWO32)
  }

  /** Sizes are signed 32-bit numbers. */
  const INT_LIMIT := 0x8000_0000

  /** The loop that doubles a size. */
  function Doubled(m: nat, nReq: nat): (r: nat)
    requires m > 0
    ensures r >= m && r >= nReq
    decreases nReq - m
  {
    if m < nReq then Doubled(2 * m, nReq) else m
  }

  /** What a buffer with n bytes in nAlloc is enlarged to when nByte more are to go in. */
  function AllocFor(n: nat, nAlloc: nat, nByte: nat): (r: nat)
    ensures n + nByte <= r
  {
    if n + nByte <= nAlloc then nAlloc else Doubled(if n != 0 then 2 * n else 512, n + nByte)
  }

  /** The last of m, 2m, 4m and so on that a signed 32-bit number can hold. */
  function LastFit(m: nat): (r: nat)
    requires 0 < m < INT_LIMIT
    ensures m <= r && INT_LIMIT / 2 <= r < INT_LIMIT
    decreases INT_LIMIT - m
  {
    if 2 * m < INT_LIMIT then LastFit(2 * m) else m
  }

  lemma {:induction false} DoubledFitsExactlyWhen(m: nat, nReq: nat)
    requires 0 < m < INT_LIMIT
    ensures Doubled(m, nReq) < INT_LIMIT <==> nReq <= LastFit(m)
    decreases INT_LIMIT - m
  {
    if m < nReq && 2 * m < INT_LIMIT {
      DoubledFitsExactlyWhen(2 * m, nReq);
    }
  }

  /**
   There are n bytes, and nByte more fit in what is allocated; or there are none,
   and the new ones are no more than 2^30; or there are less than 2^30, and all
   together they are no more than the last doubling of 2n that fits.
   */
  predicate GrowFits(n: nat, nAlloc: nat, nByte: nat) {
    || n + nByte <= nAlloc
    || (n == 0 && nByte <= INT_LIMIT / 2)
    || (0 < n < INT_LIMIT / 2 && n + nByte <= LastFit(2 * n))
  }

  /** That is exactly when no size overflows as the bytes are put in. */
  lemma GrowthBound(n: nat, nAlloc: nat, nByte: nat)
    requires n <= nAlloc < INT_LIMIT
    ensures AllocFor(n, nAlloc, nByte) < INT_LIMIT <==> GrowFits(n, nAlloc, nByte)
  {
    hide Doubled, LastFit;
    if n + nByte > nAlloc && n < INT_LIMIT / 2 {
      DoubledFitsExactlyWhen(if n != 0 then 2 * n else 512, n + nByte);
      if n == 0 {
        LastFitOf512();
      }
    }
  }

  lemma LastFitOf512()
    ensures LastFit(512) == INT_LIMIT / 2
  {
    assert LastFit(0x100_0000) == LastFit(0x800_0000) == LastFit(0x4000_0000);
    assert LastFit(512) == LastFit(0x4000) == LastFit(0x2_0000) == LastFit(0x10_0000) == LastFit(0x100_0000);
  }

  /** Sums between 2^30 and 2^31 bytes, of which the first fits and the second does not. */
  lemma GrowthOverflows()
    ensures GrowFits(0x3000_0000, 0x3000_0000, 0x2000_0000) && !GrowFits(0x2000_0001, 0x2000_0001, 0x2000_0002)
    ensures AllocFor(0x3000_0000, 0x3000_0000, 0x2000_0000) < INT_LIMIT
    ensures AllocFor(0x2000_0001, 0x2000_0001, 0x2000_0002) >= INT_LIMIT
  {}

  /** zipfileBufferGrow and the code that appends to a buffer. */
  class ZipfileBuffer {
    var a: array<Byte>
    var n: nat

    ghost predicate Valid()
      reads this
    {
      n <= a.Length < INT_LIMIT
    }

    ghost function Contents(): seq<Byte>
      reads this, a
      requires Valid()
    {
      a[..n]
    }

    constructor ()
      ensures Valid() && fresh(a) && Contents() == [] && a.Length == 0
    {
      a := new Byte[0];
      n := 0;
    }

    method Grow(nByte: nat)
      requires Valid() && GrowFits(n, a.Length, nByte)
      modifies this
      ensures Valid() && n == old(n) && (a == old(a) || fresh(a))
      ensures a.Length == AllocFor(n, old(a.Length), nByte)
      ensures Contents() == old(Contents())
    {
      hide GrowFits;
      GrowthBound(n, a.Length, nByte);
      if n + nByte > a.Length {
        var nNew: nat := if n != 0 then n * 2 else 512;
        var nReq := n + nByte;
        while nNew < nReq
          invariant nNew > 0 && nNew >= n && Doubled(nNew, nReq) == AllocFor(n, a.Length, nByte)
        {
          nNew := nNew * 2;
        }
        var aNew := new Byte[nNew];
        forall i | 0 <= i < n {
          aNew[i] := a[i];
        }
        a := aNew;
      }
    }

    method Append(data: seq<Byte>)
      requires Valid() && GrowFits(n, a.Length, |data|)
      modifies this, a
      ensures Valid() && (a == old(a) || fresh(a))
      ensures a.Length == AllocFor(old(n), old(a.Length), |data|)
      ensures Contents() == old(Contents()) + data
    {
      hide GrowFits;
      ghost var before := Contents();
      Grow(|data|);
      forall i | 0 <= i < |data| {
        a[n + i] := data[i];
      }
      assert a[..n] == before;
      Appended(a[..], before, data);
      n := n + |data|;
      assert a[..n] == a[..][..n];
    }

    lemma Appended(c: seq<Byte>, before: seq<Byte>, data: seq<Byte>)
      requires |before| + |data| <= |c| && c[..|before|] == before
      requires forall j | |before| <= j < |before| + |data| :: c[j] == data[j - |before|]
      ensures c[..|before| + |data|] == before + data
    {}

    /** A header, and behind it the data. */
    method AppendBoth(header: seq<Byte>, data: seq<Byte>)
      requires Valid() && GrowFits(n, a.Length, |header|)
      requires GrowFits(n + |header|, AllocFor(n, a.Length, |header|), |data|)
      modifies this, a
      ensures Valid() && (a == old(a) || fresh(a))
      ensures a.Length == AllocFor(old(n) + |header|, AllocFor(old(n), old(a.Length), |header|), |data|)
      ensures Contents() == old(Contents()) + header + data
    {
      hide GrowFits, AllocFor;
      Append(header);
      Append(data);
    }
  }

  /** The allocated sizes of the two buffers. */
  datatype Allocs = Allocs(body: nat, cds: nat)

  /** Them after an item has been stored behind what is there; data of no bytes is not appended. */
  function AllocsFor(x: Allocs, l: Layout, i: Item): Allocs {
    var e := NewEntry(i, |l.body|);
    var n := |l.body| + |LfhBytes(e)|;
    Allocs(AllocFor(n, AllocFor(|l.body|, x.body, |LfhBytes(e)|), |i.data|),
           AllocFor(|Directory(l.es)|, x.cds, |CdsBytes(e)|))
  }

  function AllocsAfter(items: seq<Item>): Allocs {
    if items == [] then Allocs(0, 0) else
    AllocsFor(AllocsAfter(items[..|items| - 1]), LayOut(items[..|items| - 1]), items[|items| - 1])
  }

  /** No size of a buffer overflows while the item is stored. */
  predicate ItemHasRoom(x: Allocs, l: Layout, i: Item) {
    var e := NewEntry(i, |l.body|);
    && GrowFits(|l.body|, x.body, |LfhBytes(e)|)
    && GrowFits(|l.body| + |LfhBytes(e)|, AllocFor(|l.body|, x.body, |LfhBytes(e)|), |i.data|)
    && GrowFits(|Directory(l.es)|, x.cds, |CdsBytes(e)|)
  }

  /** No size overflows in a run of the aggregate, nor does that of its image. */
  predicate HaveRoom(items: seq<Item>) {
    |Image(items)| < INT_LIMIT && forall k | 0 <= k < |items| :: RoomAt(items, k)
  }

  predicate RoomAt(items: seq<Item>, k: nat)
    requires k < |items|
  {
    ItemHasRoom(AllocsAfter(items[..k]), LayOut(items[..k]), items[k])
  }

  lemma StoredSizes(l: Layout, i: Item, x: Allocs)
    requires |l.body| <= x.body < INT_LIMIT && |Directory(l.es)| <= x.cds < INT_LIMIT
    requires var e := NewEntry(i, |l.body|);
      |l.body + LfhBytes(e) + i.data| <= INT_LIMIT / 2 && |Directory(l.es)| + |CdsBytes(e)| <= INT_LIMIT / 2
    ensures var e := NewEntry(i, |l.body|);
      var y := AllocsFor(x, l, i);
      && ItemHasRoom(x, l, i) && |l.body + LfhBytes(e) + i.data| <= y.body && |Directory(l.es)| + |CdsBytes(e)| <= y.cds
  {
    hide LfhBytes, CdsBytes, Directory, NewEntry, AllocFor;
    var e := NewEntry(i, |l.body|);
    GrowthBound(|l.body|, x.body, |LfhBytes(e)|);
    GrowthBound(|l.body| + |LfhBytes(e)|, AllocFor(|l.body|, x.body, |LfhBytes(e)|), |i.data|);
    GrowthBound(|Directory(l.es)|, x.cds, |CdsBytes(e)|);
  }

  /** No buffer overflows as long as neither part of the image is longer than 2^30 bytes. */
  lemma {:induction false} SmallPartsHaveRoom(items: seq<Item>)
    requires |LayOut(items).body| <= INT_LIMIT / 2 && |Directory(LayOut(items).es)| <= INT_LIMIT / 2
    ensures forall k | 0 <= k < |items| :: RoomAt(items, k)
    ensures |LayOut(items).body| <= AllocsAfter(items).body < INT_LIMIT
    ensures |Directory(LayOut(items).es)| <= AllocsAfter(items).cds < INT_LIMIT
  {
    hide LfhBytes, CdsBytes, Directory, NewEntry, LayOut, AllocsFor, ItemHasRoom;
    if items == [] {
      NothingLaidOut();
    } else {
      var before, i := items[..|items| - 1], items[|items| - 1];
      assert before + [i] == items;
      LayOutAppend(before, i);
      SmallPartsHaveRoom(before);
      StoredSizes(LayOut(before), i, AllocsAfter(before));
      RoomHasAllocs(AllocsAfter(before), LayOut(before), i);
      forall k | 0 <= k < |items| ensures RoomAt(items, k) {
        if k < |before| {
          assert items[..k] == before[..k] && RoomAt(before, k);
        }
      }
    }
  }

  lemma NothingLaidOut()
    ensures LayOut([]) == Layout([], []) && Directory([]) == []
  {}

  lemma RoomHasAllocs(x: Allocs, l: Layout, i: Item)
    requires |l.body| <= x.body < INT_LIMIT && |Directory(l.es)| <= x.cds < INT_LIMIT && ItemHasRoom(x, l, i)
    ensures AllocsFor(x, l, i).body < INT_LIMIT && AllocsFor(x, l, i).cds < INT_LIMIT
  {
    hide LfhBytes, CdsBytes, Directory, NewEntry, AllocFor, GrowFits;
    var e := NewEntry(i, |l.body|);
    GrowthBound(|l.body|, x.body, |LfhBytes(e)|);
    GrowthBound(|l.body| + |LfhBytes(e)|, AllocFor(|l.body|, x.body, |LfhBytes(e)|), |i.data|);
    GrowthBound(|Directory(l.es)|, x.cds, |CdsBytes(e)|);
  }

  class ZipfileCtx {
    var nEntry: nat
    const body: ZipfileBuffer
    const cds: ZipfileBuffer
    ghost var items: seq<Item>

    ghost predicate Valid()
      reads this, body, cds, body.a, cds.a
    {
      && body != cds && body.Valid() && cds.Valid() && body.a != cds.a
      && nEntry == |items|
      && body.Contents() == LayOut(items).body
      && cds.Contents() == Directory(LayOut(items).es)
      && Allocs(body.a.Length, cds.a.Length) == AllocsAfter(items)
    }

    constructor ()
      ensures Valid() && fresh(body) && fresh(cds) && fresh(body.a) && fresh(cds.a) && items == []
    {
      nEntry := 0;
      body := new ZipfileBuffer();
      cds := new ZipfileBuffer();
      items := [];
    }

    /** The second half of zipfileStep: header, data and directory record of the entry it has assembled. */
    method Store(i: Item)
      requires Valid() && ItemHasRoom(AllocsAfter(items), LayOut(items), i)
      modifies this, body, cds, body.a, cds.a
      ensures Valid()
      ensures body.a == old(body.a) || fresh(body.a)
      ensures cds.a == old(cds.a) || fresh(cds.a)
      ensures items == old(items) + [i]
    {
      hide LfhBytes, CdsBytes, Directory, NewEntry, LayOut, Decide, AllocFor, GrowFits, Image;
      assert (items + [i])[..|items|] == items;
      ghost var before, after := LayOut(items), LayOut(items + [i]);
      LayOutAppend(items, i);
      var e := NewEntry(i, body.n);
      assert body.n == |before.body|;
      body.AppendBoth(LfhBytes(e), i.data);
      assert body.Contents() == after.body;
      cds.Append(CdsBytes(e));
      assert cds.Contents() == Directory(after.es);
      nEntry := nEntry + 1;
      items := items + [i];
    }

    /** zipfileStep; false stands for an error result. */
    method Step(args: Args) returns (ok: bool)
      requires Valid() && (args.name.Some? ==> args.name.value != [])
      requires Decide(args).Some? ==> ItemHasRoom(AllocsAfter(items), LayOut(items), Decide(args).value)
      modifies this, body, cds, body.a, cds.a
      ensures Valid()
      ensures body.a == old(body.a) || fresh(body.a)
      ensures cds.a == old(cds.a) || fresh(cds.a)
      ensures ok == Decide(args).Some?
      ensures items == if ok then old(items) + [Decide(args).value] else old(items)
    {
      hide Decide, LayOut, Directory, ItemHasRoom, AllocsAfter;
      var decided := Decide(args);
      ok := decided.Some?;
      if ok {
        Store(decided.value);
      }
    }

    /** zipfileFinal; None if no entry was added. */
    method Final() returns (image: Option<seq<Byte>>)
      requires Valid() && |Image(items)| < INT_LIMIT
      ensures image == if items == [] then None else Some(Image(items))
    {
      if nEntry == 0 {
        return None;
      }
      image := Some(body.a[..body.n] + cds.a[..cds.n] + WriteEOCD(EndRecord(nEntry, cds.n, body.n)));
    }
  }

  /** The widths of the format are enough for the item. */
  ghost predicate ItemFits(i: Item) {
    && 0 < |i.name| < 65536 && 0 !in i.name
    && i.mtime < TWO32 && i.iMethod < 65536 && i.crc < TWO32
    && i.szUncompressed < TWO32 && |i.data| < TWO32
  }

  ghost predicate WithinLimits(items: seq<Item>) {
    && |items| < 65536
    && (forall i | i in items :: ItemFits(i))
    && |LayOut(items).body| < TWO32 && |Directory(LayOut(items).es)| < TWO32
  }

  lemma DosWordsFit(t: nat)
    ensures Calendar.MtimeToDos(t).mDate < 65536 && Calendar.MtimeToDos(t).mTime < 65536
  {}

  lemma Powers()
    ensures Power256(2) == 65536 && Power256(4) == TWO32
  {
    assert Power256(2) == 65536;
  }

  lemma CdsWidths(c: CDS)
    requires c.iVersionMadeBy < 65536 && c.iVersionExtract < 65536 && c.flags < 65536 && c.iCompression < 65536
    requires c.mTime < 65536 && c.mDate < 65536 && c.crc32 < TWO32 && c.szCompressed < TWO32 && c.szUncompressed < TWO32
    requires c.nFile < 65536 && c.nExtra < 65536 && c.nComment < 65536
    requires c.iDiskStart < 65536 && c.iInternalAttr < 65536
    requires c.iExternalAttr < TWO32 && c.iOffset < TWO32
    ensures CdsFits(c)
    ensures Fits(LFH_WIDTHS, LfhFields(LFH(c.iVersionExtract, c.flags, c.iCompression, c.mTime, c.mDate, c.crc32,
                                           c.szCompressed, c.szUncompressed, c.nFile, 9)))
  {
    Powers();
    hide Power256;
    assert Power256(4) > SIGNATURE_CDS && Power256(4) > SIGNATURE_LFH;
  }

  /** The local header in front of a new entry. */
  function HeaderOf(e: Entry): LFH {
    var c := e.cds;
    LFH(c.iVersionExtract, c.flags, c.iCompression, c.mTime, c.mDate, c.crc32, c.szCompressed, c.szUncompressed,
        c.nFile, 9)
  }

  lemma NewEntryFits(i: Item, off: nat)
    requires ItemFits(i) && off < TWO32
    ensures CdsFits(Finished(NewEntry(i, off)).cds) && Fits(LFH_WIDTHS, LfhFields(HeaderOf(NewEntry(i, off))))
  {
    DosWordsFit(i.mtime);
    CdsWidths(Finished(NewEntry(i, off)).cds);
    hide CdsFits, Fits, Calendar.MtimeToDos;
  }

  lemma NewEntryIsSound(i: Item, off: nat)
    requires ItemFits(i) && off < TWO32
    ensures Sound(Finished(NewEntry(i, off)))
  {
    hide CdsFits, Power256, Scan, TimestampExtra, Calendar.MtimeToDos;
    var f := Finished(NewEntry(i, off));
    NewEntryFits(i, off);
    Powers();
    forall behind: Behind ensures Scan(TimestampExtra(i.mtime) + behind, 9, None) == Some(i.mtime) {
      TimestampScans(i.mtime, behind);
    }
    assert f.zFile == i.name && f.aExtra == Some(TimestampExtra(i.mtime)) && f.mUnixTime == i.mtime;
    assert f.cds.nExtra == 9 && f.cds.nComment == 0 && f.cds.nFile == |i.name|;
    hide NewEntry, Finished;
  }

  lemma NewEntryHasHeader(before: seq<Byte>, i: Item)
    requires ItemFits(i) && |before| < TWO32
    ensures var e := NewEntry(i, |before|); var body := before + LfhBytes(e) + i.data;
      HeaderIn(body, Finished(e)) && BytesAt(body, e.iDataOff, i.data) && Headed(body, Finished(e), i)
  {
    hide ReadLFH, WriteLFH, CdsFits, Fits, TimestampExtra, Calendar.MtimeToDos;
    var off := |before|;
    var e := NewEntry(i, off);
    var header, rest := WriteLFH(HeaderOf(e)), NameBytes(e) + TimestampExtra(i.mtime);
    NewEntryFits(i, off);
    ReadWrittenLFH(HeaderOf(e));
    assert LfhBytes(e) == header + rest;
    assert Finished(e).cds.iOffset == off && Finished(e).iDataOff == e.iDataOff == off + LFH_FIXED_SZ + |i.name| + 9;
    assert HeaderOf(e).nFile == |i.name| && HeaderOf(e).nExtra == 9 && NameBytes(e) == i.name;
    var c := Finished(e).cds;
    assert HeaderOf(e) == LFH(20, 0x800, c.iCompression, c.mTime, c.mDate, c.crc32, c.szCompressed, c.szUncompressed,
                              |i.name|, 9);
    TimestampBytes(i.mtime);
    hide NewEntry, Finished, LfhBytes, HeaderOf;
    var body := before + (header + rest) + i.data;
    assert body[off..off + LFH_FIXED_SZ] == header;
    assert body[off + |header + rest|..] == i.data;
    HeaderBytes(before, header, i.name, TimestampExtra(i.mtime), i.data);
  }

  lemma HeaderBytes(before: seq<Byte>, header: seq<Byte>, name: seq<Byte>, extra: seq<Byte>, data: seq<Byte>)
    ensures var body := before + (header + (name + extra)) + data;
      BytesAt(body, |before| + |header|, name) && BytesAt(body, |before| + |header| + |name|, extra)
  {
    var body := before + (header + (name + extra)) + data;
    assert body == (before + header) + name + (extra + data);
    assert body == (before + header + name) + extra + data;
    MiddleIsAt(before + header, name, extra + data);
    MiddleIsAt(before + header + name, extra, data);
  }

  function Listed(es: seq<Entry>): (r: seq<Entry>)
    ensures |r| == |es| && forall k | 0 <= k < |es| :: r[k] == Finished(es[k])
  {
    seq(|es|, k requires 0 <= k < |es| => Finished(es[k]))
  }

  lemma {:induction false} ListedDirectory(es: seq<Entry>)
    ensures Directory(Listed(es)) == Directory(es)
  {
    hide WriteCDS, TimestampExtra;
    if es != [] {
      ListedDirectory(es[1..]);
      assert Listed(es)[1..] == Listed(es[1..]);
      assert CdsBytes(Finished(es[0])) == CdsBytes(es[0]);
    }
  }

  /** The words for date and time: zero before 1980, and from then on those of the Gregorian date. */
  ghost predicate Dated(c: CDS, t: nat) {
    var d := Calendar.Dos(c.mDate, c.mTime);
    && (t < Calendar.FIRST ==> d.mDate == 0 && d.mTime == 0)
    && (Calendar.FIRST <= t ==> Calendar.Names(d, t))
    && (Calendar.FIRST <= t < Calendar.LIMIT ==> Calendar.Mtime(d) == t - t % 2)
  }

  /** The local header says the same as the directory; behind it are the name and the time, and then the data. */
  ghost predicate Headed(image: seq<Byte>, e: Entry, i: Item) {
    var c, off := e.cds, e.cds.iOffset;
    && off + LFH_FIXED_SZ <= |image|
    && ReadLFH(image[off..off + LFH_FIXED_SZ]) == Some(LFH(20, 0x800, c.iCompression, c.mTime, c.mDate, c.crc32,
                                                           c.szCompressed, c.szUncompressed, |i.name|, 9))
    && BytesAt(image, off + LFH_FIXED_SZ, i.name)
    && BytesAt(image, off + LFH_FIXED_SZ + |i.name|, [0x55, 0x54, 5, 0, 1] + Put(i.mtime, 4))
    && e.iDataOff == off + LFH_FIXED_SZ + |i.name| + 9
  }

  /** What a directory entry, its header and the data behind it say about an item. */
  ghost predicate Describes(image: seq<Byte>, e: Entry, i: Item) {
    && e.zFile == i.name && e.mUnixTime == i.mtime && Dated(e.cds, i.mtime)
    && e.cds.iExternalAttr == i.mode % 65536 * 65536
    && e.cds.iCompression == i.iMethod && e.cds.crc32 == i.crc && e.cds.szUncompressed == i.szUncompressed
    && e.cds.szCompressed == |i.data| && BytesAt(image, e.iDataOff, i.data)
    && e.cds.iVersionMadeBy == 3 * 256 + 30 && e.cds.iVersionExtract == 20 && e.cds.flags == 0x800
    && e.cds.nFile == |i.name| && e.cds.nExtra == 9 && e.cds.nComment == 0
    && e.cds.iDiskStart == 0 && e.cds.iInternalAttr == 0
    && Headed(image, e, i)
  }

  lemma ModeSurvives(mode: nat)
    ensures mode * 65536 % TWO32 == mode % 65536 * 65536
  {}

  lemma NewEntryIsDated(i: Item, off: nat)
    requires i.mtime < TWO32
    ensures Dated(Finished(NewEntry(i, off)).cds, i.mtime)
  {
    hide Calendar.MtimeToDos, Calendar.Mtime, Calendar.Names;
    if i.mtime < Calendar.FIRST {
      Calendar.DosOfEarly(i.mtime);
    } else {
      Calendar.DosNames(i.mtime);
      Calendar.RoundTripFrom1980(i.mtime);
    }
  }

  lemma TimestampBytes(t: nat)
    ensures TimestampExtra(t) == [0x55, 0x54, 5, 0, 1] + Put(t, 4)
  {
    assert Put(EXTRA_TIMESTAMP, 2) == [0x55, 0x54] && Put(5, 2) == [5, 0];
  }

  lemma MoreBytes(file: seq<Byte>, more: seq<Byte>, off: nat, b: seq<Byte>)
    requires BytesAt(file, off, b)
    ensures BytesAt(file + more, off, b)
  {
    assert (file + more)[off..off + |b|] == file[off..off + |b|];
  }

  ghost predicate Recorded(body: seq<Byte>, e: Entry, i: Item) {
    Sound(e) && HeaderIn(body, e) && Describes(body, e, i)
  }

  lemma RecordedStays(body: seq<Byte>, more: seq<Byte>, e: Entry, i: Item)
    requires Recorded(body, e, i)
    ensures Recorded(body + more, e, i)
  {
    hide Sound, HeaderIn, BytesAt, ReadLFH, Dated;
    HeaderStays(body, more, e);
    MoreBytes(body, more, e.iDataOff, i.data);
    HeadedStays(body, more, e, i);
  }

  lemma HeadedStays(body: seq<Byte>, more: seq<Byte>, e: Entry, i: Item)
    requires Headed(body, e, i)
    ensures Headed(body + more, e, i)
  {
    hide BytesAt, ReadLFH;
    var off := e.cds.iOffset;
    assert (body + more)[off..off + LFH_FIXED_SZ] == body[off..off + LFH_FIXED_SZ];
    MoreBytes(body, more, off + LFH_FIXED_SZ, i.name);
    MoreBytes(body, more, off + LFH_FIXED_SZ + |i.name|, [0x55, 0x54, 5, 0, 1] + Put(i.mtime, 4));
  }

  lemma NewEntryIsRecorded(before: seq<Byte>, i: Item)
    requires ItemFits(i) && |before| < TWO32
    ensures var e := NewEntry(i, |before|); Recorded(before + LfhBytes(e) + i.data, Finished(e), i)
  {
    hide Sound, HeaderIn, BytesAt, LfhBytes, Calendar.MtimeToDos, TimestampExtra, Dated, Headed;
    NewEntryIsSound(i, |before|);
    NewEntryHasHeader(before, i);
    NewEntryIsDated(i, |before|);
    ModeSurvives(i.mode);
  }

  lemma {:induction false} EveryItemIsRecorded(items: seq<Item>)
    requires (forall i | i in items :: ItemFits(i)) && |LayOut(items).body| < TWO32
    ensures forall k | 0 <= k < |items| :: Recorded(LayOut(items).body, Finished(LayOut(items).es[k]), items[k])
  {
    hide ItemFits, Recorded, LfhBytes, NewEntry, Finished;
    if items != [] {
      var n := |items| - 1;
      var before, i := LayOut(items[..n]), items[n];
      var e := NewEntry(i, |before.body|);
      assert LayOut(items) == Layout(before.body + LfhBytes(e) + i.data, before.es + [e]);
      EveryItemIsRecorded(items[..n]);
      NewEntryIsRecorded(before.body, i);
      forall k | 0 <= k < n ensures Recorded(LayOut(items).body, Finished(LayOut(items).es[k]), items[k]) {
        assert before.body + LfhBytes(e) + i.data == before.body + (LfhBytes(e) + i.data);
        RecordedStays(before.body, LfhBytes(e) + i.data, Finished(before.es[k]), items[k]);
      }
    }
  }

  lemma EndRecordFits(n: nat, size: nat, offset: nat)
    ensures Fits(EOCD_WIDTHS, EocdFields(EndRecord(n, size, offset)))
  {
    Powers();
    hide Power256;
  }

  /** The end record counts n entries, and their records fill the image up to it. */
  predicate EndsWith(image: seq<Byte>, n: nat) {
    match FindEOCD(image, false)
    case None => false
    case Some(e) => e == EOCD(0, 0, n, n, e.nSize, e.iOffset) && e.iOffset + e.nSize + EOCD_FIXED_SZ == |image|
  }

  /** Reading the image that the aggregate returns gives the entries back in order, with their data. */
  lemma AggregateRoundTrip(items: seq<Item>, memory: Memory)
    requires WithinLimits(items)
    ensures LoadDirectory(Image(items), false, memory).Some?
    ensures var es := LoadDirectory(Image(items), false, memory).value;
      |es| == |items| && forall k | 0 <= k < |es| :: Describes(Image(items), es[k], items[k])
    ensures EndsWith(Image(items), |items|)
  {
    hide ItemFits, LayOut, Directory, WriteEOCD, LoadDirectory, FindEOCD, Sound, HeaderIn, Describes, Finished;
    var l := LayOut(items);
    var es := Listed(l.es);
    var end := EndRecord(|items|, |Directory(l.es)|, |l.body|);
    EveryItemIsRecorded(items);
    ListedDirectory(l.es);
    EndRecordFits(|items|, |Directory(l.es)|, |l.body|);
    forall x | x in es ensures Sound(x) && HeaderIn(l.body, x) {
      var k :| 0 <= k < |es| && x == es[k];
      assert Recorded(l.body, es[k], items[k]);
    }
    ImageLoads(l.body, es, end, false, memory);
    EndRecordIsFound(l.body + Directory(l.es), end, false);
    forall k | 0 <= k < |es| ensures Describes(Image(items), es[k], items[k]) {
      assert Image(items) == l.body + (Directory(l.es) + WriteEOCD(end));
      assert Recorded(l.body, es[k], items[k]);
      RecordedStays(l.body, Directory(l.es) + WriteEOCD(end), es[k], items[k]);
    }
  }

  predicate Accepted(a: Args) {
    a.name.Some? && a.name.value != [] && Decide(a).Some?
  }

  function Items(calls: seq<Args>): (items: seq<Item>)
    requires forall k | 0 <= k < |calls| :: Accepted(calls[k])
    ensures |items| == |calls| && forall k | 0 <= k < |calls| :: items[k] == ItemOf(calls[k])
  {
    seq(|calls|, k requires 0 <= k < |calls| && Accepted(calls[k]) => ItemOf(calls[k]))
  }

  function ItemOf(a: Args): Item
    requires Accepted(a)
  {
    Decide(a).value
  }

  lemma AppendedItems(calls: seq<Args>, k: nat)
    requires k < |calls| && forall j | 0 <= j <= k :: Accepted(calls[j])
    ensures Items(calls[..k + 1]) == Items(calls[..k]) + [ItemOf(calls[k])]
  {}

  lemma RoomForNext(items: seq<Item>, before: seq<Item>, i: Item)
    requires HaveRoom(items) && |before| < |items| && before == items[..|before|] && i == items[|before|]
    ensures ItemHasRoom(AllocsAfter(before), LayOut(before), i)
  {
    hide ItemHasRoom, AllocsAfter, LayOut, Image;
    assert RoomAt(items, |before|);
  }

  /** An entry of an archive is what zipfile() was given. */
  ghost predicate Tells(image: seq<Byte>, e: Entry, a: Args) {
    exists i: Item :: IsItemOf(a, i) && Describes(image, e, i)
  }

  lemma ItemTells(image: seq<Byte>, e: Entry, a: Args)
    requires Accepted(a) && Describes(image, e, ItemOf(a))
    ensures Tells(image, e, a)
  {
    hide Describes, IsItemOf, Decide;
    DecidedItem(a);
  }

  /** The aggregate over some rows, none of which is refused: its result is read back as what they gave. */
  method Zipfile(calls: seq<Args>, ghost memory: Memory) returns (image: Option<seq<Byte>>)
    requires (forall k | 0 <= k < |calls| :: Accepted(calls[k])) && HaveRoom(Items(calls))
    ensures image.None? <==> calls == []
    ensures image.Some? && WithinLimits(Items(calls)) ==>
      && EndsWith(image.value, |calls|) && LoadDirectory(image.value, false, memory).Some?
      && |LoadDirectory(image.value, false, memory).value| == |calls|
      && forall k | 0 <= k < |calls| ::
           Tells(image.value, LoadDirectory(image.value, false, memory).value[k], calls[k])
  {
    hide Decide, LayOut, Directory, LoadDirectory, Describes, Tells, EndsWith, WithinLimits, Image, ItemHasRoom,
      AllocsAfter;
    var ctx := new ZipfileCtx();
    for k := 0 to |calls|
      invariant ctx.Valid() && fresh(ctx) && fresh(ctx.body) && fresh(ctx.cds) && fresh(ctx.body.a) && fresh(ctx.cds.a)
      invariant ctx.items == Items(calls[..k])
    {
      AppendedItems(calls, k);
      assert Items(calls[..k]) == Items(calls)[..k];
      RoomForNext(Items(calls), Items(calls[..k]), ItemOf(calls[k]));
      var ok := ctx.Step(calls[k]);
    }
    assert calls[..|calls|] == calls;
    image := ctx.Final();
    if image.Some? && WithinLimits(Items(calls)) {
      AggregateRoundTrip(Items(calls), memory);
      var es := LoadDirectory(image.value, false, memory).value;
      forall k | 0 <= k < |calls| ensures Tells(image.value, es[k], calls[k]) {
        ItemTells(image.value, es[k], calls[k]);
      }
    }
  }
}
