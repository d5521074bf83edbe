/** ZipfileTab: the linked list of entries of a write transaction, and the file it appends to. */
module ZipTable {
  import opened Wrappers
  import opened Words
  import opened ZipFormat
  import opened ZipExtra
  import opened ZipDirectory
  import opened ZipReader
  import opened ZipAggregate
  import opened ZipTransaction
  import Calendar

  class ZipfileEntry {
    const e: Entry
    var pNext: ZipfileEntry?

    constructor (e: Entry)
      ensures this.e == e && pNext == null
    {
      this.e := e;
      pNext := null;
    }
  }

  ghost function After(nodes: seq<ZipfileEntry>, i: nat): ZipfileEntry?
    requires i < |nodes|
  {
    if i + 1 < |nodes| then nodes[i + 1] else null
  }

  /** Distinct nodes, each pointing to the next. */
  ghost predicate Chained(nodes: seq<ZipfileEntry>)
    reads nodes
  {
    && (forall i | 0 <= i < |nodes| :: nodes[i].pNext == After(nodes, i))
    && (forall i, j | 0 <= i < j < |nodes| :: nodes[i] != nodes[j])
  }

  ghost function Carried(nodes: seq<ZipfileEntry>): (es: seq<Entry>)
    ensures |es| == |nodes| && forall i | 0 <= i < |es| :: es[i] == nodes[i].e
  {
    seq(|nodes|, i requires 0 <= i < |nodes| => nodes[i].e)
  }

  class ZipfileTab {
    var file: seq<Byte>
    var pFirstEntry: ZipfileEntry?
    var pLastEntry: ZipfileEntry?
    var writing: bool
    var szCurrent: nat
    var szOrig: nat
    ghost var nodes: seq<ZipfileEntry>

    /** The nodes are exactly the list from pFirstEntry to pLastEntry. */
    ghost predicate ListOk()
      reads this`pFirstEntry, this`pLastEntry, this`nodes, nodes
    {
      && (nodes == [] ==> pFirstEntry == null && pLastEntry == null)
      && (nodes != [] ==> pFirstEntry == nodes[0] && pLastEntry == nodes[|nodes| - 1])
      && Chained(nodes)
    }

    ghost predicate Valid()
      reads this, nodes
    {
      && ListOk()
      && (writing ==> szCurrent == |file| && szOrig <= |file|)
      && (!writing ==> nodes == [] && szCurrent == szOrig == 0)
    }

    ghost function List(): seq<Entry>
      reads this`nodes
    {
      Carried(nodes)
    }

    constructor (file: seq<Byte>)
      ensures Valid() && !writing && this.file == file
    {
      this.file := file;
      pFirstEntry, pLastEntry, writing, szCurrent, szOrig, nodes := null, null, false, 0, 0, [];
    }

    /** zipfileAddEntry with no position given: at the end of the list. */
    method AddEntry(pNew: ZipfileEntry)
      requires ListOk() && pNew !in nodes && pNew.pNext == null
      modifies this`pFirstEntry, this`pLastEntry, this`nodes, pLastEntry
      ensures ListOk() && nodes == old(nodes) + [pNew]
    {
      if pFirstEntry == null {
        pFirstEntry := pNew;
        pLastEntry := pNew;
      } else {
        pLastEntry.pNext := pNew;
        pLastEntry := pNew;
      }
      nodes := nodes + [pNew];
    }

    /** zipfileRemoveEntryFromList, of a node that is not the last: pLastEntry is left as it is. */
    method RemoveEntryFromList(pOld: ZipfileEntry, ghost k: nat)
      requires ListOk() && k + 1 < |nodes| && nodes[k] == pOld
      modifies this`pFirstEntry, this`nodes, nodes
      ensures ListOk() && nodes == old(nodes[..k] + nodes[k + 1..])
      ensures List() == old(List()[..k] + List()[k + 1..])
      ensures forall i | 0 <= i < |nodes| :: nodes[i] in old(nodes)
    {
      hide After, Carried;
      ghost var was := nodes;
      Unlink(pOld, k);
      CarriedWithout(was, k);
      ChainSkips(was, k);
      hide Chained;
      nodes := was[..k] + was[k + 1..];
    }

    /** The pointers of the removal: only the one to the node changes. */
    method Unlink(pOld: ZipfileEntry, ghost k: nat)
      requires ListOk() && k + 1 < |nodes| && nodes[k] == pOld
      modifies this`pFirstEntry, nodes
      ensures pFirstEntry == nodes[if k == 0 then 1 else 0]
      ensures forall j | 0 <= j < |nodes| && j != k :: nodes[j].pNext == After(nodes, if j + 1 == k then k else j)
    {
      hide After;
      AfterIsNext(nodes);
      if pFirstEntry == pOld {
        pFirstEntry := pOld.pNext;
      } else {
        var p := Predecessor(pOld, k);
        p.pNext := pOld.pNext;
      }
    }

    /** The node whose pNext the removal overwrites. */
    method Predecessor(pOld: ZipfileEntry, ghost k: nat) returns (p: ZipfileEntry)
      requires ListOk() && 0 < k < |nodes| && nodes[k] == pOld
      ensures p == nodes[k - 1]
    {
      hide After;
      AfterIsNext(nodes);
      p := pFirstEntry;
      ghost var i: nat := 0;
      while p.pNext != pOld
        invariant i < k && p == nodes[i]
        decreases k - i
      {
        p := p.pNext;
        i := i + 1;
      }
    }

    /** zipfileAppendData */
    method AppendData(data: seq<Byte>)
      requires writing && szCurrent == |file|
      modifies this`file, this`szCurrent
      ensures file == old(file) + data && szCurrent == |file|
    {
      file := file + data;
      szCurrent := szCurrent + |data|;
    }

    /** A record that is put together in aBuffer, which holds BUFFER_SIZE bytes, and then appended. */
    method AppendRecord(record: seq<Byte>)
      requires writing && szCurrent == |file| && |record| <= BUFFER_SIZE
      modifies this`file, this`szCurrent
      ensures file == old(file) + record && szCurrent == |file|
    {
      AppendData(record);
    }

    /** zipfileGetEntry on the file of the table, which reads through aBuffer. */
    method GetEntry(iOff: nat, behind: Behind) returns (e: Option<Entry>)
      requires RecordInBuffer(file, iOff)
      ensures e == EntryAt(file, iOff, behind)
    {
      hide Scan, RecordAt, UpToNul, DosTime;
      var record := RecordAt(file, iOff);
      if record.None? {
        return None;
      }
      var r := record.value;
      var found := ScanExtra(r.extra + behind, r.cds.nExtra);
      e := Some(Entry(r.cds, UpToNul(r.name), Or(found, DosTime(r.cds)), Some(r.extra),
                      r.cds.iOffset + LFH_FIXED_SZ + r.lfh.nFile + r.lfh.nExtra));
    }

    /** A new node at the end of the list. */
    method Push(e: Entry)
      requires ListOk()
      modifies this`pFirstEntry, this`pLastEntry, this`nodes, pLastEntry
      ensures ListOk() && |nodes| == |old(nodes)| + 1 && nodes[..|old(nodes)|] == old(nodes)
      ensures pLastEntry == nodes[|nodes| - 1] && fresh(pLastEntry) && List() == old(List()) + [e]
      ensures forall i | 0 <= i < |nodes| :: nodes[i] in old(nodes) || fresh(nodes[i])
    {
      var pNew := new ZipfileEntry(e);
      AddEntry(pNew);
    }

    /** zipfileLoadDirectory on the file of the table; on an error part of the list may be built. */
    method LoadEntries(memory: Memory) returns (ok: bool)
      requires ListOk() && nodes == [] && pLastEntry == null && LoadsInBuffer(file)
      modifies this`pFirstEntry, this`pLastEntry, this`nodes
      ensures ListOk() && fresh(nodes)
      ensures ok == LoadDirectory(file, true, memory).Some?
      ensures ok ==> List() == LoadDirectory(file, true, memory).value
    {
      hide EntryAt, Entries, FindEOCD, After, Prepend, RecordSize, ListOk, RecordInBuffer, RecordsInBuffer;
      var eocd := ReadEOCD(file, true);
      if eocd.None? {
        return false;
      }
      var iOff: nat, n: nat := eocd.value.iOffset, eocd.value.nEntry;
      ghost var all := Entries(file, iOff, n, memory);
      assert List() == [];
      PrependNothing(all);
      for i := 0 to n
        invariant ListOk() && fresh(nodes) && (pLastEntry != null ==> fresh(pLastEntry))
        invariant all == Prepend(List(), Entries(file, iOff, n - i, memory)) && RecordsInBuffer(file, iOff, n - i)
      {
        NextEntry(file, iOff, n - i, memory, List());
        FirstInBuffer(file, iOff, n - i);
        var e := GetEntry(iOff, memory(n - i));
        if e.None? {
          return false;
        }
        NextInBuffer(file, iOff, n - i, memory(n - i));
        Push(e.value);
        iOff := iOff + RecordSize(e.value.cds);
      }
      NoMoreEntries(file, iOff, memory, List());
      ok := true;
    }

    /** The state in which a row is inserted: the open transaction or the one that zipfileBegin opens. */
    ghost function Pending(memory: Memory): Option<Txn>
      reads this
    {
      if writing then Some(Txn(file, List())) else
      match LoadDirectory(file, true, memory)
      case None => None
      case Some(es) => Some(Txn(file, es))
    }

    /** zipfileCleanupTransaction */
    method Cleanup()
      modifies this`pFirstEntry, this`pLastEntry, this`nodes, this`writing, this`szCurrent, this`szOrig
      ensures Valid() && !writing
    {
      pFirstEntry, pLastEntry, nodes := null, null, [];
      writing, szCurrent, szOrig := false, 0, 0;
    }

    /** zipfileBegin; false if the archive cannot be read. */
    method Begin(memory: Memory) returns (ok: bool)
      requires Valid() && !writing && LoadsInBuffer(file)
      modifies this`pFirstEntry, this`pLastEntry, this`nodes, this`writing, this`szCurrent, this`szOrig
      ensures Valid() && ok == writing == LoadDirectory(file, true, memory).Some?
      ensures ok ==> fresh(nodes) && List() == LoadDirectory(file, true, memory).value && szOrig == |file|
    {
      writing := true;
      szCurrent, szOrig := |file|, |file|;
      ok := LoadEntries(memory);
      if !ok {
        Cleanup();
      }
    }

    /** The search of zipfileUpdate for an entry with the same path. */
    method FindPath(key: seq<Byte>) returns (p: ZipfileEntry?, ghost k: nat)
      requires ListOk()
      ensures p == (var i := IndexOf(List(), key); if i < |nodes| then nodes[i] else null)
      ensures k == IndexOf(List(), key)
    {
      hide Key, After, Carried, IndexOf;
      AfterIsNext(nodes);
      ghost var es := List();
      p := pFirstEntry;
      k := 0;
      while p != null && Key(p.e.zFile) != key
        invariant k <= |nodes| && p == (if k < |nodes| then nodes[k] else null)
        invariant forall j | 0 <= j < k :: Key(es[j].zFile) != key
        decreases |nodes| - k
      {
        p := p.pNext;
        k := k + 1;
      }
    }

    lemma LastIsListed()
      requires ListOk()
      ensures pLastEntry == null || pLastEntry in nodes
    {}

    /** zipfileUpdate for an INSERT once a transaction is open; false stands for its errors. */
    method InsertRow(op: Op) returns (ok: bool)
      requires Valid() && writing && RowInBuffer(op.row)
      modifies this, nodes
      ensures Valid() && writing && szOrig == old(szOrig)
      ensures ok == InsertSucceeds(old(List()), op)
      ensures Txn(file, List()) == Insert(old(Txn(file, List())), op)
      ensures forall i | 0 <= i < |nodes| :: nodes[i] in old(nodes) || fresh(nodes[i])
    {
      hide DecideRow, NewEntry, LfhBytes, ListOk, Carried, Without, Key;
      var decided := DecideRow(op.row);
      if decided.None? {
        return false;
      }
      var i := decided.value;
      var pOld2, k := FindPath(Key(i.name));
      if pOld2 != null && !op.onConflict.Replace? {
        return op.onConflict.Ignore?;
      }
      var e := NewEntry(i, szCurrent % TWO32);
      HeaderInBuffer(i, szCurrent % TWO32);
      AppendRecord(LfhBytes(e));
      AppendData(i.data);
      Replace(e, pOld2, k);
      ok := true;
    }

    /** The new entry goes to the end of the list, and only then is the one it replaces taken out. */
    method Replace(e: Entry, pOld2: ZipfileEntry?, ghost k: nat)
      requires ListOk() && k <= |nodes| && pOld2 == if k < |nodes| then nodes[k] else null
      modifies this`pFirstEntry, this`pLastEntry, this`nodes, nodes
      ensures ListOk() && List() == Without(old(List()), k) + [e]
      ensures forall i | 0 <= i < |nodes| :: nodes[i] in old(nodes) || fresh(nodes[i])
    {
      hide ListOk, Carried, Without;
      LastIsListed();
      WithoutOfAppended(List(), k, e);
      Push(e);
      if pOld2 != null {
        RemoveEntryFromList(pOld2, k);
      }
    }

    /** zipfileUpdate for an INSERT: it opens the transaction if there is none. */
    method Update(op: Op, memory: Memory) returns (ok: bool)
      requires Valid() && RowInBuffer(op.row) && (!writing ==> LoadsInBuffer(file))
      modifies this, nodes
      ensures Valid() && writing == old(Pending(memory)).Some?
      ensures ok == (writing && InsertSucceeds(old(Pending(memory)).value.es, op))
      ensures !writing ==> file == old(file)
      ensures writing ==> Txn(file, List()) == Insert(old(Pending(memory)).value, op)
      ensures writing ==> szOrig == if old(writing) then old(szOrig) else |old(file)|
      ensures forall i | 0 <= i < |nodes| :: nodes[i] in old(nodes) || fresh(nodes[i])
    {
      hide ListOk, Insert, LoadDirectory;
      if !writing {
        var began := Begin(memory);
        if !began {
          return false;
        }
      }
      ok := InsertRow(op);
    }

    /** The loop of zipfileCommit over the list. */
    method AppendDirectory() returns (nEntry: nat)
      requires ListOk() && writing && szCurrent == |file| && DirectoryInBuffer(List())
      modifies this`file, this`szCurrent
      ensures file == old(file) + Directory(List()) && szCurrent == |file| && nEntry == |nodes|
    {
      ghost var es := List();
      hide CdsBytes, Directory, After, Carried;
      AfterIsNext(nodes);
      var p := pFirstEntry;
      nEntry := 0;
      DirectoryOfNone();
      while p != null
        invariant writing && nEntry <= |nodes| && szCurrent == |file|
        invariant p == (if nEntry < |nodes| then nodes[nEntry] else null)
        invariant file == old(file) + Directory(es[..nEntry])
        decreases |nodes| - nEntry
      {
        DirectoryOfPrefix(es, nEntry);
        AppendRecord(CdsBytes(p.e));
        p := p.pNext;
        nEntry := nEntry + 1;
      }
      assert es[..nEntry] == es;
    }

    /** zipfileCommit: the directory and its end record go after the data. */
    method Commit()
      requires Valid() && (writing ==> DirectoryInBuffer(List()))
      modifies this
      ensures Valid() && !writing
      ensures file == if old(writing) then ZipTransaction.Commit(old(Txn(file, List()))) else old(file)
    {
      hide Directory, WriteEOCD, ListOk, Carried, EndRecord, LoadDirectory;
      if writing {
        var iOffset := szCurrent;
        var nEntry := AppendDirectory();
        AppendRecord(WriteEOCD(EndRecord(nEntry, szCurrent - iOffset, iOffset)));
        Cleanup();
      }
    }
  }

  /** Whether zipfileUpdate reports success: for IGNORE it does, although nothing is inserted. */
  predicate InsertSucceeds(es: seq<Entry>, op: Op) {
    DecideRow(op.row).Some? && (op.onConflict.Abort? ==> IndexOf(es, Key(DecideRow(op.row).value.name)) == |es|)
  }

  lemma HeaderInBuffer(i: Item, off: nat)
    requires InBuffer(i)
    ensures |LfhBytes(NewEntry(i, off))| <= BUFFER_SIZE
  {
    hide Calendar.MtimeToDos;
  }

  /** Whether a transaction can be carried out with a buffer of BUFFER_SIZE bytes. */
  ghost predicate TransactionInBuffer(file: seq<Byte>, memory: Memory, ops: seq<Op>)
    requires LoadDirectory(file, true, memory).Some?
  {
    && LoadsInBuffer(file)
    && (forall i | 0 <= i < |ops| :: RowInBuffer(ops[i].row))
    && DirectoryInBuffer(Run(Txn(file, LoadDirectory(file, true, memory).value), ops, |ops|).es)
  }

  /**
   A whole transaction: some inserts, and the commit.  Where the archive can be
   read and the fields of the format are wide enough, no byte that was there
   changes, and the directory holds the old entries that are left, followed by
   the new ones in the order of their insertion, and under each path stands
   what the inserts leave there.  It reads back as that, into every memory,
   exactly if the times of the old entries that are left are inside their
   records.
   */
  method Transaction(tab: ZipfileTab, ops: seq<Op>, memory: Memory) returns (ghost pos: seq<nat>, ghost made: seq<nat>)
    requires tab.Valid() && !tab.writing && ops != [] && LoadDirectory(tab.file, true, memory).Some?
    requires TransactionInBuffer(tab.file, memory, ops)
    modifies tab
    ensures tab.Valid() && !tab.writing
    ensures var t := Txn(old(tab.file), LoadDirectory(old(tab.file), true, memory).value);
      var u := Run(t, ops, |ops|);
      && tab.file == ZipTransaction.Commit(u)
      && (WholeNames(t.es) && DistinctPaths(t.es) && (forall o | o in ops :: OpFits(o)) && CommitFits(u) ==>
            Outcome(t, ops, u, tab.file, pos, made))
  {
    hide Insert, Run, ZipTransaction.Commit, DistinctPaths, OpFits, LoadDirectory, WholeNames, CommitFits, Outcome,
      LoadsInBuffer, DirectoryInBuffer, RowInBuffer;
    ghost var t := Txn(tab.file, LoadDirectory(tab.file, true, memory).value);
    NoNodes(tab);
    UpdateTo(tab, ops, |ops|, memory);
    tab.Commit();
    pos, made := [], [];
    if WholeNames(t.es) && DistinctPaths(t.es) && (forall o | o in ops :: OpFits(o)) && CommitFits(Run(t, ops, |ops|)) {
      pos, made := TransactionKeepsArchive(t.file, memory, t.es, ops);
    }
  }

  method UpdateTo(tab: ZipfileTab, ops: seq<Op>, n: nat, memory: Memory)
    requires tab.Valid() && !tab.writing && tab.nodes == [] && 0 < n <= |ops|
    requires tab.Pending(memory).Some? && LoadsInBuffer(tab.file) && forall i | 0 <= i < n :: RowInBuffer(ops[i].row)
    modifies tab
    ensures tab.Valid() && tab.writing
    ensures Txn(tab.file, tab.List()) == Run(old(tab.Pending(memory)).value, ops, n)
    ensures forall i | 0 <= i < |tab.nodes| :: fresh(tab.nodes[i])
    decreases n
  {
    hide Insert, Run, LoadDirectory, ZipfileTab.Valid, Carried, LoadsInBuffer, RowInBuffer;
    RunStep(tab.Pending(memory).value, ops, n);
    RunOfNone(tab.Pending(memory).value, ops);
    if n > 1 {
      UpdateTo(tab, ops, n - 1, memory);
    }
    var ok := tab.Update(ops[n - 1], memory);
  }

  lemma NoNodes(tab: ZipfileTab)
    requires tab.Valid() && !tab.writing
    ensures tab.nodes == []
  {}

  lemma RunStep(t: Txn, ops: seq<Op>, n: nat)
    requires 0 < n <= |ops|
    ensures Run(t, ops, n) == Insert(Run(t, ops, n - 1), ops[n - 1])
  {}

  lemma WithoutOfAppended(es: seq<Entry>, k: nat, e: Entry)
    requires k <= |es|
    ensures Without(es, k) + [e] == if k < |es| then (es + [e])[..k] + (es + [e])[k + 1..] else es + [e]
  {}

  lemma DirectoryOfPrefix(es: seq<Entry>, n: nat)
    requires n < |es|
    ensures Directory(es[..n + 1]) == Directory(es[..n]) + CdsBytes(es[n])
  {
    assert es[..n] + [es[n]] == es[..n + 1];
    DirectoryAppend(es[..n], es[n]);
  }

  lemma DirectoryOfNone()
    ensures Directory([]) == []
  {}

  lemma AfterIsNext(s: seq<ZipfileEntry>)
    ensures forall i | 0 <= i < |s| - 1 :: After(s, i) == s[i + 1]
    ensures s != [] ==> After(s, |s| - 1) == null
  {}

  lemma CarriedWithout(s: seq<ZipfileEntry>, k: nat)
    requires k < |s|
    ensures Carried(s[..k] + s[k + 1..]) == Carried(s)[..k] + Carried(s)[k + 1..]
  {}

  lemma SkippedAt(s: seq<ZipfileEntry>, k: nat, j: nat)
    requires k + 1 < |s| && j + 1 < |s|
    ensures var t := s[..k] + s[k + 1..];
      t[j] == s[if j < k then j else j + 1] && After(t, j) == After(s, if j < k - 1 then j else j + 1)
  {}

  lemma ChainSkips(s: seq<ZipfileEntry>, k: nat)
    requires k + 1 < |s| && forall i, j | 0 <= i < j < |s| :: s[i] != s[j]
    requires forall j | 0 <= j < |s| && j != k :: s[j].pNext == After(s, if j + 1 == k then k else j)
    ensures Chained(s[..k] + s[k + 1..])
  {
    hide After;
    var t := s[..k] + s[k + 1..];
    forall j | 0 <= j < |t| ensures t[j] == s[if j < k then j else j + 1] && t[j].pNext == After(t, j) {
      SkippedAt(s, k, j);
    }
  }

  function Prepend(es: seq<Entry>, rest: Option<seq<Entry>>): Option<seq<Entry>> {
    match rest
    case None => None
    case Some(r) => Some(es + r)
  }

  lemma PrependNothing(rest: Option<seq<Entry>>)
    ensures Prepend([], rest) == rest
  {
    if rest.Some? {
      assert [] + rest.value == rest.value;
    }
  }

  lemma NextEntry(file: seq<Byte>, off: nat, n: nat, memory: Memory, es: seq<Entry>)
    requires n > 0
    ensures var e := EntryAt(file, off, memory(n));
      Prepend(es, Entries(file, off, n, memory)) ==
        if e.None? then None else Prepend(es + [e.value], Entries(file, off + RecordSize(e.value.cds), n - 1, memory))
  {
    hide EntryAt;
    var e := EntryAt(file, off, memory(n));
    if e.Some? {
      var rest := Entries(file, off + RecordSize(e.value.cds), n - 1, memory);
      if rest.Some? {
        assert es + [e.value] + rest.value == es + ([e.value] + rest.value);
      }
    }
  }

  lemma FirstInBuffer(file: seq<Byte>, off: nat, n: nat)
    requires n > 0 && RecordsInBuffer(file, off, n)
    ensures RecordInBuffer(file, off)
  {
    hide RecordAt, RecordInBuffer;
  }

  lemma NextInBuffer(file: seq<Byte>, off: nat, n: nat, behind: Behind)
    requires n > 0 && RecordsInBuffer(file, off, n) && EntryAt(file, off, behind).Some?
    ensures RecordsInBuffer(file, off + RecordSize(EntryAt(file, off, behind).value.cds), n - 1)
  {
    hide RecordAt, RecordInBuffer, UnixTime, UpToNul;
  }

  lemma NoMoreEntries(file: seq<Byte>, off: nat, memory: Memory, es: seq<Entry>)
    ensures Prepend(es, Entries(file, off, 0, memory)) == Some(es)
  {
    assert es + [] == es;
  }
}
