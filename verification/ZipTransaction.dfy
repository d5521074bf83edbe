/** A write transaction on an archive, on values: what its inserts and its commit make of the file. */
module ZipTransaction {
  import opened Wrappers
  import opened Words
  import opened Fields
  import opened ZipFormat
  import opened ZipExtra
  import opened ZipDirectory
  import opened ZipReader
  import opened ZipAggregate
  import Calendar

  type Path = p: seq<Byte> | p != [] witness ['/' as int]

  /** A row given to INSERT; `columns` says that "sz" or "rawdata" was given, which is an error. */
  datatype Row = Row(columns: bool, path: Path, mode: Option<nat>, mtime: nat, data: Option<seq<Byte>>,
                     iMethod: Option<int>, deflated: seq<Byte>, crc: nat)

  datatype Conflict = Abort | Ignore | Replace

  datatype Op = Op(row: Row, onConflict: Conflict)

  /** The file, and the directory that is kept in memory until the commit. */
  datatype Txn = Txn(file: seq<Byte>, es: seq<Entry>)

  /** The entry that zipfileUpdate makes of a row; None for its errors. */
  function DecideRow(r: Row): Option<Item> {
    if r.columns then None
    else
      var isDir := r.data.None?;
      var input := if isDir then [] else r.data.value;
      var given := match r.iMethod case None => 0 case Some(m) => m;
      if !isDir && given != 0 && given != 8 then None
      else
        var deflate := !isDir && (given != 0 || (r.iMethod.None? && |r.deflated| < |input|));
        match GetMode(r.mode, isDir)
        case None => None
        case Some(mode) =>
          var name := if isDir && !EndsWithSlash(r.path) then r.path + ['/' as int] else r.path;
          Some(Item(name, mode, r.mtime, if deflate then 8 else 0, if isDir then 0 else r.crc, |input|,
                    if deflate then r.deflated else input))
  }

  /** What is stored of a row: the path, with a slash behind it if it is that of a directory, and what it gives. */
  ghost predicate IsItemOfRow(r: Row, i: Item) {
    && i.name == r.path + (if r.data.None? && r.path[|r.path| - 1] != 47 then [47] else [])
    && Keeps(r.data, r.iMethod, r.deflated, r.crc, r.mode, r.mtime, i)
  }

  /** Exactly what is refused, and what is stored of the rest. */
  lemma DecidedRow(r: Row)
    ensures DecideRow(r).Some? <==>
      && !r.columns && (r.data.Some? && r.iMethod.Some? ==> r.iMethod.value == 0 || r.iMethod.value == 8)
      && (r.mode.Some? ==> (ForDirectory(r.mode.value) <==> r.data.None?))
    ensures DecideRow(r).Some? ==> IsItemOfRow(r, DecideRow(r).value)
  {
    assert r.path + [] == r.path;
  }

  /** An entry of an archive is what a row gave. */
  ghost predicate TellsRow(file: seq<Byte>, e: Entry, r: Row) {
    exists i: Item :: IsItemOfRow(r, i) && Describes(file, e, i)
  }

  /** A path up to one trailing '/', which is how zipfileComparePath compares. */
  function Key(path: seq<Byte>): seq<Byte> {
    if path != [] && path[|path| - 1] == '/' as int then path[..|path| - 1] else path
  }

  /** Which paths count as the same: one slash at the end makes no difference. */
  lemma SameKeyExactlyWhen(p: seq<Byte>, q: seq<Byte>)
    requires |p| <= |q|
    ensures Key(p) == Key(q) <==> p == q || (q == p + [47] && (p == [] || p[|p| - 1] != 47))
  {
    if Key(p) == Key(q) && p != q {
      assert q == q[..|q| - 1] + [q[|q| - 1]];
    }
    if q == p + [47] {
      assert q[..|q| - 1] == p;
    }
  }

  /** Position of the first entry with the key, or the length of the list. */
  function IndexOf(es: seq<Entry>, key: seq<Byte>): (k: nat)
    ensures k <= |es| && (k < |es| ==> Key(es[k].zFile) == key)
    ensures forall j | 0 <= j < k :: Key(es[j].zFile) != key
  {
    if es == [] || Key(es[0].zFile) == key then 0 else 1 + IndexOf(es[1..], key)
  }

  function Without(es: seq<Entry>, k: nat): seq<Entry> {
    if k < |es| then es[..k] + es[k + 1..] else es
  }

  function Insert(t: Txn, op: Op): Txn {
    match DecideRow(op.row)
    case None => t
    case Some(i) =>
      var k := IndexOf(t.es, Key(i.name));
      if k < |t.es| && !op.onConflict.Replace? then t else
      var e := NewEntry(i, |t.file| % TWO32);
      Txn(t.file + LfhBytes(e) + i.data, Without(t.es, k) + [e])
  }

  /** The transaction after the first n of its inserts. */
  function Run(t: Txn, ops: seq<Op>, n: nat): Txn
    requires n <= |ops|
  {
    if n == 0 then t else Insert(Run(t, ops, n - 1), ops[n - 1])
  }

  /** zipfileCommit */
  function Commit(t: Txn): seq<Byte> {
    t.file + Directory(t.es) + WriteEOCD(EndRecord(|t.es|, |Directory(t.es)|, |t.file|))
  }

  ghost predicate DistinctPaths(es: seq<Entry>) {
    forall j, k | 0 <= j < k < |es| :: Key(es[j].zFile) != Key(es[k].zFile)
  }

  function Keys(es: seq<Entry>): set<seq<Byte>> {
    set k | 0 <= k < |es| :: Key(es[k].zFile)
  }

  /** The directory as a map from keys to entries. */
  function View(es: seq<Entry>): map<seq<Byte>, Entry> {
    map key | key in Keys(es) :: FirstWith(es, key)
  }

  function FirstWith(es: seq<Entry>, key: seq<Byte>): Entry
    requires key in Keys(es)
  {
    es[IndexOf(es, key)]
  }

  lemma UniqueIndex(es: seq<Entry>, k: nat)
    requires DistinctPaths(es) && k < |es|
    ensures IndexOf(es, Key(es[k].zFile)) == k && Key(es[k].zFile) in Keys(es)
  {}

  lemma ViewAt(es: seq<Entry>, k: nat)
    requires DistinctPaths(es) && k < |es|
    ensures Key(es[k].zFile) in View(es) && View(es)[Key(es[k].zFile)] == es[k]
  {
    UniqueIndex(es, k);
  }

  lemma ViewIndex(es: seq<Entry>, key: seq<Byte>) returns (k: nat)
    requires DistinctPaths(es) && key in View(es)
    ensures k < |es| && Key(es[k].zFile) == key && View(es)[key] == es[k]
  {
    k :| k < |es| && Key(es[k].zFile) == key;
    UniqueIndex(es, k);
  }

  lemma WithoutKeepsDistinct(es: seq<Entry>, key: seq<Byte>, e: Entry)
    requires DistinctPaths(es) && Key(e.zFile) == key
    ensures DistinctPaths(Without(es, IndexOf(es, key)) + [e])
  {}

  /** Whatever the conflict handling, no two entries ever share a path. */
  lemma InsertKeepsDistinct(t: Txn, op: Op)
    requires DistinctPaths(t.es)
    ensures DistinctPaths(Insert(t, op).es)
  {
    hide DecideRow, LfhBytes;
    match DecideRow(op.row)
    case None =>
    case Some(i) =>
      WithoutKeepsDistinct(t.es, Key(i.name), NewEntry(i, |t.file| % TWO32));
  }

  lemma WithoutAt(es: seq<Entry>, k: nat, e: Entry)
    requires k <= |es|
    ensures var after := Without(es, k) + [e];
      && |after| == (if k < |es| then |es| else |es| + 1) && after[|after| - 1] == e
      && (forall j | 0 <= j < |after| - 1 :: after[j] == es[if j < k then j else j + 1])
  {}

  lemma OthersKept(es: seq<Entry>, e: Entry, x: seq<Byte>)
    requires DistinctPaths(es) && x != Key(e.zFile)
    ensures var after := Without(es, IndexOf(es, Key(e.zFile))) + [e];
      (x in View(es) <==> x in View(after)) && (x in View(es) ==> View(after)[x] == View(es)[x])
  {
    hide View, Key, DistinctPaths, Without;
    var k := IndexOf(es, Key(e.zFile));
    var after := Without(es, k) + [e];
    WithoutKeepsDistinct(es, Key(e.zFile), e);
    WithoutAt(es, k, e);
    if x in View(es) {
      var i := ViewIndex(es, x);
      ViewAt(after, if i < k then i else i - 1);
    }
    if x in View(after) {
      var j := ViewIndex(after, x);
      ViewAt(es, if j < k then j else j + 1);
    }
  }

  lemma ReplacedView(es: seq<Entry>, e: Entry)
    requires DistinctPaths(es)
    ensures View(Without(es, IndexOf(es, Key(e.zFile))) + [e]) == View(es)[Key(e.zFile) := e]
  {
    hide View, Key, DistinctPaths, Without;
    var key := Key(e.zFile);
    var after := Without(es, IndexOf(es, key)) + [e];
    WithoutKeepsDistinct(es, key, e);
    WithoutAt(es, IndexOf(es, key), e);
    ViewAt(after, |after| - 1);
    forall x | x != key
      ensures (x in View(es) <==> x in View(after)) && (x in View(es) ==> View(after)[x] == View(es)[x])
    {
      OthersKept(es, e, x);
    }
  }

  /** On the map, an insert adds its row under a new path and, only when it replaces, under a known one. */
  lemma InsertRefinesMap(t: Txn, op: Op)
    requires DistinctPaths(t.es)
    ensures View(Insert(t, op).es) ==
      match DecideRow(op.row)
      case None => View(t.es)
      case Some(i) =>
        if Key(i.name) in View(t.es) && !op.onConflict.Replace? then View(t.es)
        else View(t.es)[Key(i.name) := NewEntry(i, |t.file| % TWO32)]
  {
    hide DecideRow, LfhBytes;
    match DecideRow(op.row)
    case None =>
    case Some(i) =>
      var e := NewEntry(i, |t.file| % TWO32);
      assert e.zFile == i.name;
      hide NewEntry;
      ReplacedView(t.es, e);
  }

  /** Every entry of the list can be written out and points to a header that is in the file. */
  ghost predicate AllKept(t: Txn) {
    forall e | e in t.es :: Kept(Finished(e)) && HeaderIn(t.file, Finished(e))
  }

  ghost predicate Increasing(s: seq<nat>) {
    forall j, k | 0 <= j < k < |s| :: s[j] < s[k]
  }

  /** The entry that insert i of a run makes, with its header where the file then ends, and its data behind that. */
  ghost predicate MadeBy(e: Entry, t: Txn, ops: seq<Op>, i: nat) {
    && i < |ops| && DecideRow(ops[i].row).Some?
    && e == NewEntry(DecideRow(ops[i].row).value, |Run(t, ops, i).file| % TWO32)
    && Run(t, ops, i + 1).file == Run(t, ops, i).file + LfhBytes(e) + DecideRow(ops[i].row).value.data
  }

  /** First the old entries at the positions pos, then what the inserts `made` made, both in their order. */
  ghost predicate OldThenNew(es: seq<Entry>, t: Txn, ops: seq<Op>, n: nat, pos: seq<nat>, made: seq<nat>) {
    && |es| == |pos| + |made| && Increasing(pos) && Increasing(made)
    && (forall k | 0 <= k < |pos| :: pos[k] < |t.es| && es[k] == t.es[pos[k]])
    && (forall k | 0 <= k < |made| :: made[k] < n && MadeBy(es[|pos| + k], t, ops, made[k]))
  }

  /** The local header is put together in a buffer of BUFFER_SIZE bytes. */
  predicate InBuffer(i: Item) {
    LFH_FIXED_SZ + |i.name| % 65536 + 9 <= BUFFER_SIZE
  }

  /** The exact length of a name up to which its header, and its directory record, fit the buffer. */
  lemma NameInBuffer(i: Item, off: nat)
    requires |i.name| < 65536
    ensures |LfhBytes(NewEntry(i, off))| <= BUFFER_SIZE <==> |i.name| <= 65497
    ensures |CdsBytes(NewEntry(i, off))| <= BUFFER_SIZE <==> |i.name| <= 65481
    ensures InBuffer(i) <==> |i.name| <= 65497
  {
    hide Calendar.MtimeToDos, WriteCDS, WriteLFH, TimestampExtra;
  }

  /** A name that the widths of the format allow, and that is too long for the buffer. */
  lemma LongNameOverruns(off: nat)
    requires off < TWO32
    ensures var i := Item(seq(65500, _ => 97), S_IFREG, 0, 0, 0, 0, []);
      ItemFits(i) && |LfhBytes(NewEntry(i, off))| == 65539 && |CdsBytes(NewEntry(i, off))| == 65555
  {
    hide Calendar.MtimeToDos, WriteCDS, WriteLFH, TimestampExtra;
  }

  predicate RowInBuffer(r: Row) {
    DecideRow(r).Some? ==> InBuffer(DecideRow(r).value)
  }

  ghost predicate OpFits(op: Op) {
    DecideRow(op.row).Some? ==> ItemFits(DecideRow(op.row).value)
  }

  lemma InsertKeepsEntries(t: Txn, op: Op)
    requires AllKept(t) && OpFits(op) && |t.file| < TWO32
    ensures AllKept(Insert(t, op))
  {
    hide DecideRow, LfhBytes, Sound, Kept, HeaderIn, Finished, NewEntry, ItemFits, BytesAt;
    match DecideRow(op.row)
    case None =>
    case Some(i) =>
      var more := LfhBytes(NewEntry(i, |t.file|)) + i.data;
      assert t.file + more == t.file + LfhBytes(NewEntry(i, |t.file|)) + i.data;
      NewEntryIsSound(i, |t.file|);
      SoundIsKept(Finished(NewEntry(i, |t.file|)));
      NewEntryHasHeader(t.file, i);
      forall x | x in t.es ensures HeaderIn(t.file + more, Finished(x)) {
        HeaderStays(t.file, more, Finished(x));
      }
  }

  lemma SeqWithout(s: seq<nat>, k: nat)
    requires k < |s| && Increasing(s)
    ensures var q := s[..k] + s[k + 1..];
      Increasing(q) && |q| == |s| - 1 && forall j | 0 <= j < |q| :: q[j] == s[if j < k then j else j + 1]
  {
    var q := s[..k] + s[k + 1..];
    assert forall j | 0 <= j < |q| :: q[j] == s[if j < k then j else j + 1];
  }

  lemma SeqAppended(s: seq<nat>, n: nat)
    requires Increasing(s) && forall k | 0 <= k < |s| :: s[k] < n
    ensures Increasing(s + [n])
  {}

  /** Taking out one entry and putting a new one at the end. */
  lemma WithoutKeepsOrder(es: seq<Entry>, k: nat, e: Entry, t: Txn, ops: seq<Op>, n: nat, pos: seq<nat>, made: seq<nat>)
    returns (pos': seq<nat>, made': seq<nat>)
    requires OldThenNew(es, t, ops, n, pos, made) && k <= |es| && MadeBy(e, t, ops, n)
    ensures OldThenNew(Without(es, k) + [e], t, ops, n + 1, pos', made')
  {
    hide Without, Increasing, MadeBy;
    WithoutAt(es, k, e);
    pos', made' := pos, made;
    if k < |pos| {
      SeqWithout(pos, k);
      pos' := pos[..k] + pos[k + 1..];
    } else if k < |es| {
      SeqWithout(made, k - |pos|);
      made' := made[..k - |pos|] + made[k - |pos| + 1..];
    }
    SeqAppended(made', n);
    made' := made' + [n];
  }

  lemma KeepsOrder(es: seq<Entry>, t: Txn, ops: seq<Op>, n: nat, pos: seq<nat>, made: seq<nat>)
    requires OldThenNew(es, t, ops, n, pos, made)
    ensures OldThenNew(es, t, ops, n + 1, pos, made)
  {
    hide MadeBy, Increasing;
  }

  /** Old entries stay in front, in their order, and new ones stand in the order of their insertion. */
  lemma InsertKeepsOrder(t: Txn, ops: seq<Op>, n: nat, pos: seq<nat>, made: seq<nat>)
    returns (pos': seq<nat>, made': seq<nat>)
    requires n < |ops| && OldThenNew(Run(t, ops, n).es, t, ops, n, pos, made)
    ensures OldThenNew(Run(t, ops, n + 1).es, t, ops, n + 1, pos', made')
  {
    hide DecideRow, LfhBytes, Key, OldThenNew, Without, NewEntry;
    pos', made' := pos, made;
    var u, op := Run(t, ops, n), ops[n];
    KeepsOrder(u.es, t, ops, n, pos, made);
    if DecideRow(op.row).Some? {
      var i := DecideRow(op.row).value;
      var k := IndexOf(u.es, Key(i.name));
      if k == |u.es| || op.onConflict.Replace? {
        pos', made' := WithoutKeepsOrder(u.es, k, NewEntry(i, |u.file| % TWO32), t, ops, n, pos, made);
      }
    }
  }

  /** What a new entry says is what its row gave, in any file that begins like the one after the run. */
  lemma MadeTells(e: Entry, t: Txn, ops: seq<Op>, i: nat, more: seq<Byte>)
    requires MadeBy(e, t, ops, i) && OpFits(ops[i]) && |Run(t, ops, |ops|).file| < TWO32
    ensures TellsRow(Run(t, ops, |ops|).file + more, Finished(e), ops[i].row)
  {
    hide DecideRow, LfhBytes, NewEntry, Finished, Run, Describes, Sound, HeaderIn, ItemFits, IsItemOfRow, Keeps;
    var item := DecideRow(ops[i].row).value;
    var before, after, file := Run(t, ops, i).file, Run(t, ops, i + 1).file, Run(t, ops, |ops|).file;
    RunAppends(t, ops, i, |ops|);
    RunAppends(t, ops, i + 1, |ops|);
    NewEntryIsRecorded(before, item);
    RecordedStays(after, file[|after|..] + more, Finished(e), item);
    assert after + (file[|after|..] + more) == file + more;
    DecidedRow(ops[i].row);
  }

  lemma InsertAppends(t: Txn, op: Op)
    ensures t.file <= Insert(t, op).file
  {
    hide DecideRow, LfhBytes, NewEntry;
  }

  lemma {:induction false} RunAppends(t: Txn, ops: seq<Op>, m: nat, n: nat)
    requires m <= n <= |ops|
    ensures Run(t, ops, m).file <= Run(t, ops, n).file
  {
    hide Insert;
    if m < n {
      RunAppends(t, ops, m, n - 1);
      InsertAppends(Run(t, ops, n - 1), ops[n - 1]);
    }
  }

  /** What every insert keeps, a run of inserts keeps. */
  lemma {:induction false} RunKeeps(t: Txn, ops: seq<Op>, n: nat, pos: seq<nat>)
    returns (pos': seq<nat>, made: seq<nat>)
    requires n <= |ops| && AllKept(t) && DistinctPaths(t.es) && OldThenNew(t.es, t, ops, 0, pos, [])
    requires (forall o | o in ops :: OpFits(o)) && |Run(t, ops, n).file| < TWO32
    ensures AllKept(Run(t, ops, n)) && DistinctPaths(Run(t, ops, n).es)
    ensures OldThenNew(Run(t, ops, n).es, t, ops, n, pos', made)
  {
    hide Insert, AllKept, DistinctPaths, OldThenNew, OpFits;
    pos', made := pos, [];
    if n > 0 {
      RunAppends(t, ops, n - 1, n);
      pos', made := RunKeeps(t, ops, n - 1, pos);
      InsertKeepsEntries(Run(t, ops, n - 1), ops[n - 1]);
      InsertKeepsDistinct(Run(t, ops, n - 1), ops[n - 1]);
      pos', made := InsertKeepsOrder(t, ops, n - 1, pos', made);
    }
  }

  predicate Adds(op: Op, key: seq<Byte>) {
    DecideRow(op.row).Some? && Key(DecideRow(op.row).value.name) == key
  }

  predicate Replaces(op: Op, key: seq<Byte>) {
    Adds(op, key) && op.onConflict.Replace?
  }

  /** What one insert does under one path. */
  lemma InsertAtKey(t: Txn, op: Op, key: seq<Byte>)
    requires DistinctPaths(t.es)
    ensures var before, after := View(t.es), View(Insert(t, op).es);
      && (key in after <==> key in before || Adds(op, key))
      && (key in before && !Replaces(op, key) ==> after[key] == before[key])
      && (Adds(op, key) && (key !in before || Replaces(op, key)) ==>
            after[key] == NewEntry(DecideRow(op.row).value, |t.file| % TWO32))
  {
    hide Insert, View, DecideRow, Key, NewEntry, DistinctPaths;
    InsertRefinesMap(t, op);
  }

  lemma InsertedFile(t: Txn, op: Op, key: seq<Byte>)
    ensures Adds(op, key) && (key !in View(t.es) || Replaces(op, key)) ==>
      var i := DecideRow(op.row).value;
      Insert(t, op).file == t.file + LfhBytes(NewEntry(i, |t.file| % TWO32)) + i.data
  {
    hide DecideRow, Key, NewEntry, LfhBytes;
    var k := IndexOf(t.es, key);
    if k < |t.es| {
      assert Key(t.es[k].zFile) in Keys(t.es);
    }
  }

  /**
   Insert i is the one whose entry is there after n inserts: it is the last that
   replaces, or, where there was no entry and none replaces, the first at all.
   */
  ghost predicate Wins(t: Txn, ops: seq<Op>, n: nat, i: nat, key: seq<Byte>) {
    && i < n <= |ops| && Adds(ops[i], key)
    && (forall j | i < j < n :: !Replaces(ops[j], key))
    && (!Replaces(ops[i], key) ==> key !in View(t.es) && forall j | 0 <= j < i :: !Adds(ops[j], key))
  }

  lemma {:induction false} RunKeepsDistinct(t: Txn, ops: seq<Op>, n: nat)
    requires n <= |ops| && DistinctPaths(t.es)
    ensures DistinctPaths(Run(t, ops, n).es)
  {
    hide Insert, DistinctPaths;
    if n > 0 {
      RunKeepsDistinct(t, ops, n - 1);
      InsertKeepsDistinct(Run(t, ops, n - 1), ops[n - 1]);
    }
  }

  lemma RunAtKey(t: Txn, ops: seq<Op>, n: nat, key: seq<Byte>)
    requires 0 < n <= |ops| && DistinctPaths(t.es)
    ensures var before, after := View(Run(t, ops, n - 1).es), View(Run(t, ops, n).es);
      && (key in after <==> key in before || Adds(ops[n - 1], key))
      && (key in before && !Replaces(ops[n - 1], key) ==> after[key] == before[key])
      && (Adds(ops[n - 1], key) && (key !in before || Replaces(ops[n - 1], key)) ==> MadeBy(after[key], t, ops, n - 1))
  {
    hide Insert, View, DistinctPaths, Adds, DecideRow, NewEntry, LfhBytes;
    RunKeepsDistinct(t, ops, n - 1);
    InsertAtKey(Run(t, ops, n - 1), ops[n - 1], key);
    InsertedFile(Run(t, ops, n - 1), ops[n - 1], key);
    AddsIs(ops[n - 1], key);
  }

  lemma AddsIs(op: Op, key: seq<Byte>)
    ensures Adds(op, key) ==> DecideRow(op.row).Some?
  {}

  /** A path is in the archive exactly if it was there before or some insert adds it. */
  lemma {:induction false} KeysAfterRun(t: Txn, ops: seq<Op>, n: nat, key: seq<Byte>)
    requires n <= |ops| && DistinctPaths(t.es)
    ensures key in View(Run(t, ops, n).es) <==> key in View(t.es) || exists i | 0 <= i < n :: Adds(ops[i], key)
  {
    hide Run, View, DistinctPaths, Adds;
    RunOfNone(t, ops);
    if n > 0 {
      KeysAfterRun(t, ops, n - 1, key);
      RunAtKey(t, ops, n, key);
    }
  }

  lemma RunOfNone(t: Txn, ops: seq<Op>)
    ensures Run(t, ops, 0) == t
  {}

  /** An old entry stays as long as no insert replaces it. */
  lemma {:induction false} OldEntryStays(t: Txn, ops: seq<Op>, n: nat, key: seq<Byte>)
    requires n <= |ops| && DistinctPaths(t.es) && key in View(t.es)
    requires forall j | 0 <= j < n :: !Replaces(ops[j], key)
    ensures key in View(Run(t, ops, n).es) && View(Run(t, ops, n).es)[key] == View(t.es)[key]
  {
    hide Run, View, DistinctPaths, Adds;
    RunOfNone(t, ops);
    if n > 0 {
      OldEntryStays(t, ops, n - 1, key);
      RunAtKey(t, ops, n, key);
    }
  }

  lemma {:induction false} WinnerIsThere(t: Txn, ops: seq<Op>, n: nat, i: nat, key: seq<Byte>)
    requires DistinctPaths(t.es) && Wins(t, ops, n, i, key)
    ensures key in View(Run(t, ops, n).es) && MadeBy(View(Run(t, ops, n).es)[key], t, ops, i)
  {
    hide Run, View, DistinctPaths, Adds, MadeBy;
    RunAtKey(t, ops, n, key);
    if i + 1 < n {
      WinnerIsThere(t, ops, n - 1, i, key);
    } else {
      KeysAfterRun(t, ops, i, key);
    }
  }

  /** Every entry that is not an old one that stayed has an insert that wins. */
  lemma {:induction false} NewEntryHasWinner(t: Txn, ops: seq<Op>, n: nat, key: seq<Byte>) returns (i: nat)
    requires n <= |ops| && DistinctPaths(t.es) && key in View(Run(t, ops, n).es)
    requires key !in View(t.es) || exists j | 0 <= j < n :: Replaces(ops[j], key)
    ensures Wins(t, ops, n, i, key)
  {
    hide Run, View, DistinctPaths, Adds, MadeBy;
    RunOfNone(t, ops);
    RunAtKey(t, ops, n, key);
    KeysAfterRun(t, ops, n - 1, key);
    if !Replaces(ops[n - 1], key) && key in View(Run(t, ops, n - 1).es) {
      i := NewEntryHasWinner(t, ops, n - 1, key);
    } else {
      i := n - 1;
    }
  }

  /**
   What a run leaves under a path: the old entry if there was one and nothing
   replaces it, and otherwise the entry of the insert that wins, if any adds it.
   */
  ghost predicate Settled(t: Txn, ops: seq<Op>, es: seq<Entry>, key: seq<Byte>) {
    && (key in View(es) <==> key in View(t.es) || exists i | 0 <= i < |ops| :: Adds(ops[i], key))
    && (key in View(t.es) && (forall j | 0 <= j < |ops| :: !Replaces(ops[j], key)) ==>
          key in View(es) && View(es)[key] == View(t.es)[key])
    && (key in View(es) && (key !in View(t.es) || exists j | 0 <= j < |ops| :: Replaces(ops[j], key)) ==>
          exists i :: Wins(t, ops, |ops|, i, key) && MadeBy(View(es)[key], t, ops, i))
  }

  lemma RunSettles(t: Txn, ops: seq<Op>, key: seq<Byte>)
    requires DistinctPaths(t.es)
    ensures Settled(t, ops, Run(t, ops, |ops|).es, key)
  {
    hide Run, View, DistinctPaths, Adds, Wins, MadeBy;
    var es := Run(t, ops, |ops|).es;
    KeysAfterRun(t, ops, |ops|, key);
    if key in View(t.es) && forall j | 0 <= j < |ops| :: !Replaces(ops[j], key) {
      OldEntryStays(t, ops, |ops|, key);
    } else if key in View(es) {
      var i := NewEntryHasWinner(t, ops, |ops|, key);
      WinnerIsThere(t, ops, |ops|, i, key);
    }
  }

  lemma {:induction false} WinnerIsUnique(t: Txn, ops: seq<Op>, n: nat, i: nat, j: nat, key: seq<Byte>)
    requires Wins(t, ops, n, i, key) && Wins(t, ops, n, j, key)
    ensures i == j
  {
    hide Adds, View;
  }

  lemma ListedKeepsPaths(es: seq<Entry>)
    requires DistinctPaths(es)
    ensures DistinctPaths(Listed(es))
  {
    hide Key;
    assert forall k | 0 <= k < |es| :: Listed(es)[k].zFile == es[k].zFile;
  }

  /** The end record counts n entries, and their records fill the file from off up to it. */
  predicate EndsWithRecord(file: seq<Byte>, n: nat, off: nat) {
    off + EOCD_FIXED_SZ <= |file| && FindEOCD(file, true) == Some(EOCD(0, 0, n, n, |file| - off - EOCD_FIXED_SZ, off))
  }

  /** Whatever the memory that it is read into, the archive on disk loads as es. */
  ghost predicate ReloadsAs(file: seq<Byte>, es: seq<Entry>) {
    forall memory: Memory :: LoadDirectory(file, true, memory) == Some(es)
  }

  /**
   The file after a commit: the old bytes first, and a directory that reads back
   as the list, exactly if all times are inside their records.
   */
  lemma CommitReloads(t: Txn)
    requires AllKept(t) && |t.es| < 65536 && |t.file| < TWO32 && |Directory(t.es)| < TWO32
    ensures t.file <= Commit(t)
    ensures ReloadsAs(Commit(t), Listed(t.es)) <==> TimesInside(Listed(t.es))
    ensures EndsWithRecord(Commit(t), |t.es|, |t.file|)
  {
    hide Sound, Whole, TimeInside, HeaderIn, Finished, WriteEOCD, Directory, LoadDirectory, FindEOCD;
    EndRecordFits(|t.es|, |Directory(t.es)|, |t.file|);
    EndRecordIsFound(t.file + Directory(t.es), EndRecord(|t.es|, |Directory(t.es)|, |t.file|), true);
    var memory: Memory := _ => ZEROS;
    if LoadDirectory(Commit(t), true, memory) == Some(Listed(t.es)) {
      LoadsAlikeExactlyWhen(Commit(t), true, memory);
    }
    if TimesInside(Listed(t.es)) {
      ListedReloads(t);
    }
    assert Commit(t) == t.file + (Directory(t.es) + WriteEOCD(EndRecord(|t.es|, |Directory(t.es)|, |t.file|)));
  }

  lemma ListedReloads(t: Txn)
    requires AllKept(t) && |t.es| < 65536 && |t.file| < TWO32 && |Directory(t.es)| < TWO32
    requires TimesInside(Listed(t.es))
    ensures ReloadsAs(Commit(t), Listed(t.es))
  {
    hide Sound, Whole, TimeInside, HeaderIn, Finished, WriteEOCD, Directory, LoadDirectory;
    ListedDirectory(t.es);
    EndRecordFits(|t.es|, |Directory(t.es)|, |t.file|);
    forall memory: Memory ensures LoadDirectory(Commit(t), true, memory) == Some(Listed(t.es)) {
      ImageLoads(t.file, Listed(t.es), EndRecord(|t.es|, |Directory(t.es)|, |t.file|), true, memory);
    }
  }

  /** Every record of the directory fits the buffer in which zipfileCommit puts it together. */
  predicate DirectoryInBuffer(es: seq<Entry>) {
    forall k | 0 <= k < |es| :: |CdsBytes(es[k])| <= BUFFER_SIZE
  }

  /** An old entry that is whole is written with as many bytes as were read of it. */
  lemma OldRecordInBuffer(file: seq<Byte>, off: nat, behind: Behind, e: Entry)
    requires EntryAt(file, off, behind) == Some(e) && |e.zFile| == e.cds.nFile
    ensures |CdsBytes(e)| <= BUFFER_SIZE <==> RecordSize(e.cds) <= BUFFER_SIZE
  {
    hide WriteCDS, UnixTime, RecordAt, UpToNul;
  }

  /** Where the directory of a file begins. */
  function DirectoryOffset(file: seq<Byte>): nat {
    match FindEOCD(file, true)
    case None => 0
    case Some(eocd) => eocd.iOffset
  }

  lemma LoadedIsKept(file: seq<Byte>, memory: Memory, es: seq<Entry>)
    requires LoadDirectory(file, true, memory) == Some(es) && WholeNames(es)
    ensures AllKept(Txn(file, es)) && forall e | e in es :: e.aExtra.Some?
    ensures es != [] ==> BytesAt(file, DirectoryOffset(file), Directory(es))
  {
    hide Sound, Whole, TimeInside, HeaderIn, EntryAt, ReadEocdFields;
    var eocd := FindEOCD(file, true).value;
    if eocd.nEntry > 0 {
      DirectoryWrites(file, eocd.iOffset, eocd.nEntry, memory, es);
      forall e | e in es ensures e.aExtra.Some? {
        KeptHasExtra(e);
      }
    }
  }

  lemma KeptHasExtra(e: Entry)
    requires Kept(e)
    ensures e.aExtra.Some?
  {}

  /** Where the record of entry k stands in a directory that begins at off. */
  function RecordOffset(off: nat, es: seq<Entry>, k: nat): nat
    requires k <= |es|
  {
    off + |Directory(es[..k])|
  }

  lemma {:induction false} RecordIsAt(file: seq<Byte>, off: nat, es: seq<Entry>, k: nat)
    requires k < |es| && BytesAt(file, off, Directory(es))
    ensures BytesAt(file, RecordOffset(off, es, k), CdsBytes(es[k]))
    decreases |es|
  {
    hide CdsBytes, BytesAt;
    assert Directory(es) == CdsBytes(es[0]) + Directory(es[1..]);
    PartsAt(file, off, CdsBytes(es[0]), Directory(es[1..]));
    if k > 0 {
      RecordIsAt(file, off + |CdsBytes(es[0])|, es[1..], k - 1);
      assert es[..k][0] == es[0] && es[..k][1..] == es[1..][..k - 1];
    }
  }

  /** The record of entry i of one directory and of entry k of another are the same bytes. */
  ghost predicate SameRecord(file: seq<Byte>, off: nat, es: seq<Entry>, i: nat,
                             file': seq<Byte>, off': nat, es': seq<Entry>, k: nat) {
    && i < |es| && k < |es'| && CdsBytes(es[i]) == CdsBytes(es'[k])
    && BytesAt(file, RecordOffset(off, es, i), CdsBytes(es[i]))
    && BytesAt(file', RecordOffset(off', es', k), CdsBytes(es[i]))
  }

  lemma StartsInOrder(t: Txn, ops: seq<Op>) returns (pos: seq<nat>)
    ensures OldThenNew(t.es, t, ops, 0, pos, [])
  {
    pos := seq(|t.es|, k => k);
  }

  lemma OldAreListed(es: seq<Entry>, t: Txn, ops: seq<Op>, n: nat, pos: seq<nat>, made: seq<nat>)
    requires OldThenNew(es, t, ops, n, pos, made) && forall e | e in t.es :: e.aExtra.Some?
    ensures forall k | 0 <= k < |pos| :: Listed(es)[k] == t.es[pos[k]]
  {}

  /** The times of the old entries at the positions pos are inside their records. */
  predicate SurvivorsInside(es: seq<Entry>, pos: seq<nat>) {
    forall k | 0 <= k < |pos| :: pos[k] < |es| && TimeInside(es[pos[k]])
  }

  lemma NewTimeInside(i: Item, off: nat)
    ensures TimeInside(Finished(NewEntry(i, off)))
  {
    hide Load, Put, Calendar.MtimeToDos;
    LoadPut(EXTRA_TIMESTAMP, 2);
    LoadPut(5, 2);
    FieldParts(TimestampExtra(i.mtime), Put(EXTRA_TIMESTAMP, 2), Put(5, 2), Put(i.mtime, 4));
  }

  /** The times of new entries are always inside. */
  lemma OldTimesDecide(es: seq<Entry>, t: Txn, ops: seq<Op>, n: nat, pos: seq<nat>, made: seq<nat>)
    requires OldThenNew(es, t, ops, n, pos, made) && forall e | e in t.es :: e.aExtra.Some?
    ensures TimesInside(Listed(es)) <==> SurvivorsInside(t.es, pos)
  {
    hide TimeInside, Increasing, Finished, NewEntry, DecideRow;
    OldAreListed(es, t, ops, n, pos, made);
    forall k | |pos| <= k < |es| ensures TimeInside(Listed(es)[k]) {
      var i := made[k - |pos|];
      NewTimeInside(DecideRow(ops[i].row).value, |Run(t, ops, i).file| % TWO32);
    }
  }

  /** No name was cut off at a NUL byte. */
  ghost predicate WholeNames(es: seq<Entry>) {
    forall e | e in es :: |e.zFile| == e.cds.nFile
  }

  /** The numbers of the end record fit. */
  ghost predicate CommitFits(t: Txn) {
    |t.es| < 65536 && |t.file| < TWO32 && |Directory(t.es)| < TWO32
  }

  lemma DirectoryIsAt(t: Txn)
    ensures BytesAt(Commit(t), |t.file|, Directory(t.es))
  {
    hide Directory, WriteEOCD;
    MiddleIsAt(t.file, Directory(t.es), WriteEOCD(EndRecord(|t.es|, |Directory(t.es)|, |t.file|)));
  }

  /** The records of the old entries that are left are copied byte for byte. */
  lemma RecordsAreCopied(file: seq<Byte>, t: Txn, ops: seq<Op>, n: nat, u: Txn, pos: seq<nat>, made: seq<nat>)
    requires t.es != [] ==> BytesAt(file, DirectoryOffset(file), Directory(t.es))
    requires OldThenNew(u.es, t, ops, n, pos, made)
    ensures forall k | 0 <= k < |pos| ::
      SameRecord(file, DirectoryOffset(file), t.es, pos[k], Commit(u), |u.file|, u.es, k)
  {
    hide Directory, CdsBytes, BytesAt, Commit, RecordOffset, FindEOCD, MadeBy, Increasing;
    DirectoryIsAt(u);
    forall k | 0 <= k < |pos|
      ensures SameRecord(file, DirectoryOffset(file), t.es, pos[k], Commit(u), |u.file|, u.es, k)
    {
      RecordIsAt(file, DirectoryOffset(file), t.es, pos[k]);
      RecordIsAt(Commit(u), |u.file|, u.es, k);
    }
  }

  lemma NewEntriesTell(t: Txn, ops: seq<Op>, pos: seq<nat>, made: seq<nat>)
    requires (forall o | o in ops :: OpFits(o)) && CommitFits(Run(t, ops, |ops|))
    requires OldThenNew(Run(t, ops, |ops|).es, t, ops, |ops|, pos, made)
    ensures var u := Run(t, ops, |ops|);
      forall k | 0 <= k < |made| :: TellsRow(Commit(u), Listed(u.es)[|pos| + k], ops[made[k]].row)
  {
    hide Run, MadeBy, OpFits, TellsRow, Increasing, Directory, WriteEOCD;
    var u := Run(t, ops, |ops|);
    var end := WriteEOCD(EndRecord(|u.es|, |Directory(u.es)|, |u.file|));
    assert Commit(u) == u.file + (Directory(u.es) + end);
    forall k | 0 <= k < |made| ensures TellsRow(Commit(u), Listed(u.es)[|pos| + k], ops[made[k]].row) {
      MadeTells(u.es[|pos| + k], t, ops, made[k], Directory(u.es) + end);
    }
  }

  /**
   What a transaction leaves: nothing that was in the file changes, and the
   directory u.es holds the entries that survived, exactly as they were and with
   the same bytes, followed by the new ones in the order of their insertion, no
   two of them with the same path.  The new ones, their headers and their data
   are what the rows gave.  Under each path stands what the inserts leave there.
   The file reads back as these entries, whatever the memory it is read into,
   exactly if the times of those that survived are inside their records.
   */
  ghost predicate Outcome(t: Txn, ops: seq<Op>, u: Txn, file: seq<Byte>, pos: seq<nat>, made: seq<nat>) {
    && t.file <= file && EndsWithRecord(file, |u.es|, |u.file|)
    && (ReloadsAs(file, Listed(u.es)) <==> SurvivorsInside(t.es, pos))
    && DistinctPaths(Listed(u.es))
    && OldThenNew(u.es, t, ops, |ops|, pos, made)
    && (forall k | 0 <= k < |pos| :: Listed(u.es)[k] == t.es[pos[k]])
    && (forall k | 0 <= k < |made| :: TellsRow(file, Listed(u.es)[|pos| + k], ops[made[k]].row))
    && (forall k | 0 <= k < |pos| ::
          SameRecord(t.file, DirectoryOffset(t.file), t.es, pos[k], file, |u.file|, u.es, k))
    && (forall key :: Settled(t, ops, u.es, key))
  }

  /** A whole transaction on an archive with distinct whole names. */
  lemma TransactionKeepsArchive(file: seq<Byte>, memory: Memory, es0: seq<Entry>, ops: seq<Op>)
    returns (pos: seq<nat>, made: seq<nat>)
    requires LoadDirectory(file, true, memory) == Some(es0)
    requires WholeNames(es0) && DistinctPaths(es0)
    requires (forall o | o in ops :: OpFits(o)) && CommitFits(Run(Txn(file, es0), ops, |ops|))
    ensures var t, u := Txn(file, es0), Run(Txn(file, es0), ops, |ops|);
      Outcome(t, ops, u, Commit(u), pos, made)
  {
    hide Sound, HeaderIn, LoadDirectory, DistinctPaths, Commit, AllKept, Run, OpFits, Finished, Directory, OldThenNew,
      SameRecord, WholeNames, TimesInside, SurvivorsInside, ReloadsAs, Settled, Kept, TellsRow, EndsWithRecord;
    var t := Txn(file, es0);
    var u := Run(t, ops, |ops|);
    LoadedIsKept(file, memory, es0);
    pos := StartsInOrder(t, ops);
    pos, made := RunKeeps(t, ops, |ops|, pos);
    RunOfNone(t, ops);
    RunAppends(t, ops, 0, |ops|);
    CommitReloads(u);
    ListedKeepsPaths(u.es);
    OldAreListed(u.es, t, ops, |ops|, pos, made);
    OldTimesDecide(u.es, t, ops, |ops|, pos, made);
    RecordsAreCopied(file, t, ops, |ops|, u, pos, made);
    NewEntriesTell(t, ops, pos, made);
    forall key ensures Settled(t, ops, u.es, key) {
      RunSettles(t, ops, key);
    }
  }
}
