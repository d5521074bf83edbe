/** Archive entries: how the writer lays them out and what the reader makes of an image. */
module ZipDirectory {
  import opened Wrappers
  import opened Words
  import opened Fields
  import opened ZipFormat
  import opened ZipExtra
  import Calendar

  /** A ZipfileEntry; aExtra is absent until an entry has been read from an archive. */
  datatype Entry = Entry(cds: CDS, zFile: seq<Byte>, mUnixTime: nat, aExtra: Option<seq<Byte>>, iDataOff: nat)

  /** The 0x5455 extra field with a modification time. */
  function TimestampExtra(t: nat): (b: seq<Byte>)
    ensures |b| == 9
  {
    Put(EXTRA_TIMESTAMP, 2) + Put(5, 2) + [1] + Put(t, 4)
  }

  /** The modification time of an entry; extra holds the extra data and the comment. */
  function UnixTime(extra: seq<Byte>, c: CDS, behind: Behind): nat
    requires c.nExtra <= |extra|
  {
    Or(Scan(extra + behind, c.nExtra, None), DosTime(c))
  }

  function DosTime(c: CDS): nat {
    Calendar.Mtime(Calendar.Dos(c.mDate, c.mTime))
  }

  /** Without extra data the time is that of the date and time words. */
  lemma TimeOfWords(c: CDS, extra: seq<Byte>, behind: Behind, t: nat)
    requires c.nExtra == 0 && Calendar.FIRST <= t < Calendar.LIMIT
    requires c.mDate == Calendar.MtimeToDos(t).mDate && c.mTime == Calendar.MtimeToDos(t).mTime
    ensures UnixTime(extra, c, behind) == t - t % 2
  {
    hide Calendar.Mtime, Calendar.MtimeToDos;
    Calendar.RoundTripFrom1980(t);
  }

  function RecordSize(c: CDS): nat {
    CDS_FIXED_SZ + c.nFile + c.nExtra + c.nComment
  }

  /** A record of a directory, with the local header that it points to. */
  datatype Record = Record(cds: CDS, name: seq<Byte>, extra: seq<Byte>, lfh: LFH)

  function RecordAt(file: seq<Byte>, off: nat): (r: Option<Record>)
    ensures r.Some? ==> |r.value.extra| == r.value.cds.nExtra + r.value.cds.nComment
  {
    if off + CDS_FIXED_SZ > |file| then None else
    match ReadCDS(file[off..off + CDS_FIXED_SZ])
    case None => None
    case Some(c) =>
      if off + RecordSize(c) > |file| || c.iOffset + LFH_FIXED_SZ > |file| then None else
      var name := file[off + CDS_FIXED_SZ..off + CDS_FIXED_SZ + c.nFile];
      var extra := file[off + CDS_FIXED_SZ + c.nFile..off + RecordSize(c)];
      match ReadLFH(file[c.iOffset..c.iOffset + LFH_FIXED_SZ])
      case None => None
      case Some(l) => Some(Record(c, name, extra, l))
  }

  /** zipfileGetEntry; None stands for its errors, and behind for what its buffer holds behind the record. */
  function EntryAt(file: seq<Byte>, off: nat, behind: Behind): Option<Entry> {
    match RecordAt(file, off)
    case None => None
    case Some(r) => Some(EntryFrom(r, behind))
  }

  /**
   What zipfileGetEntry reads of a record on disk fits its buffer of BUFFER_SIZE
   bytes: the name, extra data and comment, as far as the file holds them.
   */
  predicate RecordInBuffer(file: seq<Byte>, off: nat) {
    off + CDS_FIXED_SZ <= |file| && ReadCDS(file[off..off + CDS_FIXED_SZ]).Some? ==>
      var c := ReadCDS(file[off..off + CDS_FIXED_SZ]).value;
      RecordSize(c) - CDS_FIXED_SZ <= BUFFER_SIZE || |file| - off - CDS_FIXED_SZ <= BUFFER_SIZE
  }

  /** The same for every record that zipfileLoadDirectory reads. */
  predicate RecordsInBuffer(file: seq<Byte>, off: nat, n: nat)
    decreases n
  {
    n == 0 || (RecordInBuffer(file, off)
               && (RecordAt(file, off).Some? ==>
                     RecordsInBuffer(file, off + RecordSize(RecordAt(file, off).value.cds), n - 1)))
  }

  function EntryFrom(r: Record, behind: Behind): Entry
    requires r.cds.nExtra <= |r.extra|
  {
    Entry(r.cds, UpToNul(r.name), UnixTime(r.extra, r.cds, behind), Some(r.extra),
          r.cds.iOffset + LFH_FIXED_SZ + r.lfh.nFile + r.lfh.nExtra)
  }

  /** What the memory holds behind each record that is read, by the number of records still to be read. */
  type Memory = nat -> Behind

  /** The loop of zipfileLoadDirectory. */
  function Entries(file: seq<Byte>, off: nat, n: nat, memory: Memory): Option<seq<Entry>>
    decreases n
  {
    if n == 0 then Some([]) else
    match EntryAt(file, off, memory(n))
    case None => None
    case Some(e) =>
      match Entries(file, off + RecordSize(e.cds), n - 1, memory)
      case None => None
      case Some(rest) => Some([e] + rest)
  }

  /** The nFile bytes of the name that are copied. */
  function NameBytes(e: Entry): seq<Byte> {
    if e.cds.nFile <= |e.zFile| then e.zFile[..e.cds.nFile] else e.zFile
  }

  /** zipfileSerializeLFH, which always announces nine bytes of extra data. */
  function LfhBytes(e: Entry): (b: seq<Byte>)
    ensures |b| == LFH_FIXED_SZ + |NameBytes(e)| + 9
  {
    var c := e.cds;
    WriteLFH(LFH(c.iVersionExtract, c.flags, c.iCompression, c.mTime, c.mDate, c.crc32, c.szCompressed,
                 c.szUncompressed, c.nFile, 9)) + NameBytes(e) + TimestampExtra(e.mUnixTime)
  }

  /** An entry as the reader will see it once it has been written. */
  function Finished(e: Entry): Entry {
    if e.aExtra.Some? then e else e.(cds := e.cds.(nExtra := 9), aExtra := Some(TimestampExtra(e.mUnixTime)))
  }

  /** zipfileSerializeCDS */
  function CdsBytes(e: Entry): seq<Byte> {
    var f := Finished(e);
    WriteCDS(f.cds) + NameBytes(f) + f.aExtra.value
  }

  function Directory(es: seq<Entry>): seq<Byte> {
    if es == [] then [] else CdsBytes(es[0]) + Directory(es[1..])
  }

  /** An entry that a central directory can hold. */
  ghost predicate Whole(e: Entry) {
    && e.aExtra.Some? && |e.aExtra.value| == e.cds.nExtra + e.cds.nComment
    && |e.zFile| == e.cds.nFile && 0 !in e.zFile
    && CdsFits(e.cds)
  }

  /** And can give back, whatever stands behind its record in memory. */
  ghost predicate Sound(e: Entry) {
    Whole(e) && forall behind: Behind :: e.mUnixTime == UnixTime(e.aExtra.value, e.cds, behind)
  }

  /** The scan of the extra data finds all it looks for in the record. */
  predicate TimeInside(e: Entry) {
    e.aExtra.Some? && e.cds.nExtra <= |e.aExtra.value| && Inside(e.aExtra.value, e.cds.nExtra)
  }

  /** It can be held, and given back if only its time is found in the record. */
  ghost predicate Kept(e: Entry) {
    Whole(e) && (TimeInside(e) ==> Sound(e))
  }

  lemma SoundIsKept(e: Entry)
    requires Sound(e)
    ensures Kept(e)
  {}

  /** The local header that the entry points to is there, and its data starts after it. */
  ghost predicate HeaderIn(file: seq<Byte>, e: Entry) {
    && e.cds.iOffset + LFH_FIXED_SZ <= |file|
    && var l := ReadLFH(file[e.cds.iOffset..e.cds.iOffset + LFH_FIXED_SZ]);
       l.Some? && e.iDataOff == e.cds.iOffset + LFH_FIXED_SZ + l.value.nFile + l.value.nExtra
  }

  lemma HeaderStays(file: seq<Byte>, more: seq<Byte>, e: Entry)
    requires HeaderIn(file, e)
    ensures HeaderIn(file + more, e)
  {
    var end := e.cds.iOffset + LFH_FIXED_SZ;
    assert (file + more)[e.cds.iOffset..end] == file[e.cds.iOffset..end];
    hide ReadLFH;
  }

  ghost predicate BytesAt(file: seq<Byte>, off: nat, b: seq<Byte>) {
    off + |b| <= |file| && file[off..off + |b|] == b
  }

  lemma PartsAt(file: seq<Byte>, off: nat, b: seq<Byte>, c: seq<Byte>)
    requires BytesAt(file, off, b + c)
    ensures BytesAt(file, off, b) && BytesAt(file, off + |b|, c)
  {
    assert file[off..off + |b|] == file[off..off + |b + c|][..|b|];
    assert file[off + |b|..off + |b| + |c|] == file[off..off + |b + c|][|b|..];
  }

  lemma RecordAtParts(file: seq<Byte>, off: nat, record: seq<Byte>, r: Record)
    requires BytesAt(file, off, record) && |record| == CDS_FIXED_SZ && ReadCDS(record) == Some(r.cds)
    requires BytesAt(file, off + CDS_FIXED_SZ, r.name) && |r.name| == r.cds.nFile
    requires BytesAt(file, off + CDS_FIXED_SZ + r.cds.nFile, r.extra) && |r.extra| == r.cds.nExtra + r.cds.nComment
    requires r.cds.iOffset + LFH_FIXED_SZ <= |file|
    requires ReadLFH(file[r.cds.iOffset..r.cds.iOffset + LFH_FIXED_SZ]) == Some(r.lfh)
    ensures RecordAt(file, off) == Some(r)
  {
    hide ReadCDS, ReadLFH;
  }

  lemma SoundFrom(e: Entry, l: LFH, behind: Behind)
    requires Sound(e) && e.iDataOff == e.cds.iOffset + LFH_FIXED_SZ + l.nFile + l.nExtra
    ensures EntryFrom(Record(e.cds, e.zFile, e.aExtra.value, l), behind) == e
    ensures CdsBytes(e) == WriteCDS(e.cds) + e.zFile + e.aExtra.value
  {
    hide UnixTime, CdsFits, WriteCDS;
  }

  /** Reading what was written: the record may stand anywhere in the file. */
  lemma WrittenEntryReads(file: seq<Byte>, off: nat, e: Entry, behind: Behind)
    requires Sound(e) && HeaderIn(file, e) && BytesAt(file, off, CdsBytes(e))
    ensures EntryAt(file, off, behind) == Some(e)
    ensures |CdsBytes(e)| == RecordSize(e.cds)
  {
    hide ReadLFH, ReadCDS, WriteCDS, UnixTime, CdsFits, BytesAt, RecordAt, EntryFrom, CdsBytes;
    var c, record := e.cds, WriteCDS(e.cds);
    ReadWrittenCDS(c);
    var l := ReadLFH(file[c.iOffset..c.iOffset + LFH_FIXED_SZ]).value;
    SoundFrom(e, l, behind);
    PartsAt(file, off, record + e.zFile, e.aExtra.value);
    PartsAt(file, off, record, e.zFile);
    RecordAtParts(file, off, record, Record(c, e.zFile, e.aExtra.value, l));
  }

  lemma JoinedAt(file: seq<Byte>, off: nat, b: seq<Byte>, c: seq<Byte>)
    requires BytesAt(file, off, b) && BytesAt(file, off + |b|, c)
    ensures BytesAt(file, off, b + c)
  {
    assert file[off..off + |b + c|] == file[off..off + |b|] + file[off + |b|..off + |b| + |c|];
  }

  lemma RecordParts(file: seq<Byte>, off: nat) returns (record: seq<Byte>)
    requires RecordAt(file, off).Some?
    ensures var r := RecordAt(file, off).value;
      && BytesAt(file, off, record) && |record| == CDS_FIXED_SZ && ReadCDS(record) == Some(r.cds)
      && BytesAt(file, off + CDS_FIXED_SZ, r.name) && |r.name| == r.cds.nFile
      && BytesAt(file, off + CDS_FIXED_SZ + r.cds.nFile, r.extra)
      && r.cds.iOffset + LFH_FIXED_SZ <= |file|
      && ReadLFH(file[r.cds.iOffset..r.cds.iOffset + LFH_FIXED_SZ]) == Some(r.lfh)
  {
    hide ReadCDS, ReadLFH;
    record := file[off..off + CDS_FIXED_SZ];
  }

  /** All is found in the record exactly if the time does not depend on what stands behind the record. */
  lemma TimeExactlyWhen(extra: seq<Byte>, c: CDS)
    requires c.nExtra <= |extra|
    ensures (forall x: Behind, y: Behind :: UnixTime(extra, c, x) == UnixTime(extra, c, y)) <==> Inside(extra, c.nExtra)
  {
    hide Scan, Inside, DosTime;
    ScanExactlyWhen(extra, c.nExtra, DosTime(c));
    if x: Behind, y: Behind :|
      Or(Scan(extra + x, c.nExtra, None), DosTime(c)) != Or(Scan(extra + y, c.nExtra, None), DosTime(c)) {
      assert UnixTime(extra, c, x) != UnixTime(extra, c, y);
    }
  }

  lemma WholeName(name: seq<Byte>)
    requires |UpToNul(name)| == |name|
    ensures UpToNul(name) == name && 0 !in name
  {}

  lemma ReadEntryIsKept(r: Record, behind: Behind)
    requires |r.name| == r.cds.nFile && |r.extra| == r.cds.nExtra + r.cds.nComment && CdsFits(r.cds)
    requires |UpToNul(r.name)| == |r.name|
    ensures var e := EntryFrom(r, behind); Kept(e) && CdsBytes(e) == WriteCDS(r.cds) + r.name + r.extra
  {
    hide UnixTime, CdsFits, WriteCDS, UpToNul, Inside;
    WholeName(r.name);
    TimeExactlyWhen(r.extra, r.cds);
  }

  /** Writing what was read: the same bytes again, when the name holds no NUL. */
  lemma ReadEntryWrites(file: seq<Byte>, off: nat, behind: Behind, e: Entry)
    requires EntryAt(file, off, behind) == Some(e) && |e.zFile| == e.cds.nFile
    ensures Kept(e) && HeaderIn(file, e)
    ensures |CdsBytes(e)| == RecordSize(e.cds) && BytesAt(file, off, CdsBytes(e))
  {
    hide ReadLFH, ReadCDS, WriteCDS, UnixTime, CdsFits, BytesAt, RecordAt, CdsBytes, Kept, UpToNul, Inside;
    var record := RecordParts(file, off);
    var r := RecordAt(file, off).value;
    WriteReadCDS(record);
    ReadEntryIsKept(r, behind);
    JoinedAt(file, off, record, r.name);
    JoinedAt(file, off, record + r.name, r.extra);
  }

  /** An entry as another memory would show it. */
  lemma SameButTime(file: seq<Byte>, off: nat, x: Behind, y: Behind)
    requires EntryAt(file, off, x).Some?
    ensures var e, f := EntryAt(file, off, x), EntryAt(file, off, y);
      && f.Some? && f.value.cds == e.value.cds && (TimeInside(e.value) ==> f == e)
  {
    hide RecordAt, UnixTime, UpToNul, Inside;
    var r := RecordAt(file, off).value;
    TimeExactlyWhen(r.extra, r.cds);
  }

  lemma AnotherTime(file: seq<Byte>, off: nat, x: Behind) returns (y: Behind)
    requires EntryAt(file, off, x).Some? && !TimeInside(EntryAt(file, off, x).value)
    ensures EntryAt(file, off, y).Some? && EntryAt(file, off, y) != EntryAt(file, off, x)
  {
    hide RecordAt, UnixTime, UpToNul, Inside;
    var r := RecordAt(file, off).value;
    TimeExactlyWhen(r.extra, r.cds);
    var p: Behind, q: Behind :| UnixTime(r.extra, r.cds, p) != UnixTime(r.extra, r.cds, q);
    y := if UnixTime(r.extra, r.cds, p) == UnixTime(r.extra, r.cds, x) then q else p;
  }

  lemma EntriesUnfold(file: seq<Byte>, off: nat, n: nat, memory: Memory)
    requires n > 0
    ensures Entries(file, off, n, memory) ==
      match EntryAt(file, off, memory(n))
      case None => None
      case Some(e) =>
        (match Entries(file, off + RecordSize(e.cds), n - 1, memory)
         case None => None
         case Some(rest) => Some([e] + rest))
  {
    hide EntryAt;
  }

  /** A whole directory reads back as the entries it was written from. */
  lemma {:induction false} DirectoryReads(file: seq<Byte>, off: nat, es: seq<Entry>, memory: Memory)
    requires forall e | e in es :: Sound(e) && HeaderIn(file, e)
    requires BytesAt(file, off, Directory(es))
    ensures Entries(file, off, |es|, memory) == Some(es)
    decreases |es|
  {
    if es != [] {
      var e, rest := es[0], es[1..];
      assert [e] + rest == es;
      assert Directory(es) == CdsBytes(e) + Directory(rest);
      hide HeaderIn, Sound, EntryAt, CdsBytes, BytesAt, Directory, Entries;
      PartsAt(file, off, CdsBytes(e), Directory(rest));
      WrittenEntryReads(file, off, e, memory(|es|));
      DirectoryReads(file, off + |CdsBytes(e)|, rest, memory);
      EntriesUnfold(file, off, |es|, memory);
    }
  }

  predicate TimesInside(es: seq<Entry>) {
    forall k | 0 <= k < |es| :: TimeInside(es[k])
  }

  lemma TimesInsideStep(es: seq<Entry>)
    requires es != []
    ensures TimesInside(es) <==> TimeInside(es[0]) && TimesInside(es[1..])
  {
    hide TimeInside;
    assert forall k | 0 < k < |es| :: es[k] == es[1..][k - 1];
  }

  /** The same directory under another memory. */
  lemma {:induction false} InsideReadsAlike(file: seq<Byte>, off: nat, n: nat, memory: Memory, other: Memory)
    requires Entries(file, off, n, memory).Some? && TimesInside(Entries(file, off, n, memory).value)
    ensures Entries(file, off, n, other) == Entries(file, off, n, memory)
    decreases n
  {
    hide EntryAt, TimeInside, TimesInside, Entries;
    if n == 0 {
      NoEntries(file, off, memory);
      NoEntries(file, off, other);
    } else {
      EntriesUnfold(file, off, n, memory);
      EntriesUnfold(file, off, n, other);
      var e := EntryAt(file, off, memory(n)).value;
      TimesInsideStep(Entries(file, off, n, memory).value);
      SameButTime(file, off, memory(n), other(n));
      InsideReadsAlike(file, off + RecordSize(e.cds), n - 1, memory, other);
    }
  }

  lemma NoEntries(file: seq<Byte>, off: nat, memory: Memory)
    ensures Entries(file, off, 0, memory) == Some([])
  {}

  /** Only the memory behind the records that are read counts. */
  lemma {:induction false} EarlierMemory(file: seq<Byte>, off: nat, n: nat, memory: Memory, other: Memory)
    requires forall k: nat | k <= n :: memory(k) == other(k)
    ensures Entries(file, off, n, other) == Entries(file, off, n, memory)
    decreases n
  {
    hide EntryAt;
    if n > 0 && EntryAt(file, off, memory(n)).Some? {
      EarlierMemory(file, off + RecordSize(EntryAt(file, off, memory(n)).value.cds), n - 1, memory, other);
    }
  }

  /** A directory that reads otherwise under some other memory. */
  lemma {:induction false} ReadsOtherwise(file: seq<Byte>, off: nat, n: nat, memory: Memory) returns (other: Memory)
    requires Entries(file, off, n, memory).Some? && !TimesInside(Entries(file, off, n, memory).value)
    ensures Entries(file, off, n, other) != Entries(file, off, n, memory)
    decreases n
  {
    hide EntryAt, TimeInside, TimesInside, Entries;
    if n == 0 {
      NoEntries(file, off, memory);
      other := memory;
      NothingInside();
      assert false;
    } else {
      EntriesUnfold(file, off, n, memory);
      var e := EntryAt(file, off, memory(n)).value;
      TimesInsideStep(Entries(file, off, n, memory).value);
      if TimeInside(e) {
        var later := ReadsOtherwise(file, off + RecordSize(e.cds), n - 1, memory);
        other := k => if k == n then memory(n) else later(k);
        EarlierMemory(file, off + RecordSize(e.cds), n - 1, later, other);
      } else {
        var y := AnotherTime(file, off, memory(n));
        other := k => if k == n then y else memory(k);
      }
      EntriesUnfold(file, off, n, other);
    }
  }

  lemma NothingInside()
    ensures TimesInside([])
  {}

  lemma {:induction false} DirectoryAppend(es: seq<Entry>, e: Entry)
    ensures Directory(es + [e]) == Directory(es) + CdsBytes(e)
  {
    hide CdsBytes;
    if es == [] {
      assert es + [e] == [e];
    } else {
      assert (es + [e])[1..] == es[1..] + [e];
      DirectoryAppend(es[1..], e);
    }
  }

  lemma FieldScans(b: seq<Byte>, t: nat, behind: Behind)
    requires |b| == 9 && Load(b[..2]) == EXTRA_TIMESTAMP && Load(b[2..4]) == 5
    requires b[4] == 1 && Load(b[4..][1..5]) == t
    ensures Scan(b + behind, 9, None) == Some(t)
  {
    hide Load;
    FirstField(b, behind, 9, None);
    assert (b[4..] + behind)[1..5] == b[4..][1..5];
  }

  lemma FieldParts(b: seq<Byte>, id: seq<Byte>, n: seq<Byte>, v: seq<Byte>)
    requires |id| == 2 && |n| == 2 && |v| == 4 && b == id + n + [1] + v
    ensures b[..2] == id && b[2..4] == n && b[4] == 1 && b[4..][1..5] == v
  {}

  lemma TimestampScans(t: nat, behind: Behind)
    requires t < Power256(4)
    ensures Scan(TimestampExtra(t) + behind, 9, None) == Some(t)
  {
    assert Power256(2) == 65536;
    hide Load, Put, Power256, Scan;
    LoadPut(EXTRA_TIMESTAMP, 2);
    LoadPut(5, 2);
    LoadPut(t, 4);
    FieldParts(TimestampExtra(t), Put(EXTRA_TIMESTAMP, 2), Put(5, 2), Put(t, 4));
    FieldScans(TimestampExtra(t), t, behind);
  }

  /** The directory that was read is what the entries would be written as. */
  lemma {:induction false} DirectoryWrites(file: seq<Byte>, off: nat, n: nat, memory: Memory, es: seq<Entry>)
    requires Entries(file, off, n, memory) == Some(es)
    requires forall e | e in es :: |e.zFile| == e.cds.nFile
    requires n == 0 ==> off <= |file|
    ensures |es| == n && BytesAt(file, off, Directory(es))
    ensures forall e | e in es :: Kept(e) && HeaderIn(file, e)
    decreases n
  {
    hide Kept, HeaderIn, EntryAt, CdsBytes;
    if n > 0 {
      var e := EntryAt(file, off, memory(n)).value;
      assert es[0] == e && es[1..] == Entries(file, off + RecordSize(e.cds), n - 1, memory).value;
      ReadEntryWrites(file, off, memory(n), e);
      assert off + RecordSize(e.cds) <= |file|;
      DirectoryWrites(file, off + RecordSize(e.cds), n - 1, memory, es[1..]);
      JoinedAt(file, off, CdsBytes(e), Directory(es[1..]));
    }
  }
}
