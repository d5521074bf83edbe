/** zipfileReadEOCD and zipfileLoadDirectory as functions of the image. */
module ZipReader {
  import opened Wrappers
  import opened Words
  import opened Fields
  import opened ZipFormat
  import opened ZipExtra
  import opened ZipDirectory

  predicate SignatureAt(b: seq<Byte>, i: nat)
    requires i + 4 <= |b|
  {
    b[i] == 0x50 && b[i + 1] == 0x4b && b[i + 2] == 0x05 && b[i + 3] == 0x06
  }

  /** The last position at or before i with the signature, or -1. */
  function LastSignature(b: seq<Byte>, i: int): (r: int)
    requires i + 4 <= |b|
    ensures -1 <= r && (r >= 0 ==> r <= i && SignatureAt(b, r))
    ensures forall j | r < j <= i && j >= 0 :: !SignatureAt(b, j)
  {
    if i < 0 then -1 else if SignatureAt(b, i) then i else LastSignature(b, i - 1)
  }

  /** The bytes that are searched: the last 64 kB. */
  function Tail(file: seq<Byte>): (b: seq<Byte>)
    ensures |b| == if |file| < BUFFER_SIZE then |file| else BUFFER_SIZE
  {
    if |file| < BUFFER_SIZE then file else file[|file| - BUFFER_SIZE..]
  }

  /** Only a file on disk may be empty; a blob needs an end record. */
  function FindEOCD(file: seq<Byte>, onDisk: bool): Option<EOCD> {
    if onDisk && file == [] then Some(EOCD(0, 0, 0, 0, 0, 0)) else
    var b := Tail(file);
    if |b| < 20 then None else
    var i := LastSignature(b, |b| - 20);
    if i < 0 then None else Some(ReadEocdFields(b[i + 4..i + 20]))
  }

  function LoadDirectory(file: seq<Byte>, onDisk: bool, memory: Memory): Option<seq<Entry>> {
    match FindEOCD(file, onDisk)
    case None => None
    case Some(eocd) => Entries(file, eocd.iOffset, eocd.nEntry, memory)
  }

  /** Exactly when the entries of an archive do not depend on what happens to be in the memory they are read into. */
  lemma LoadsAlikeExactlyWhen(file: seq<Byte>, onDisk: bool, memory: Memory)
    requires LoadDirectory(file, onDisk, memory).Some?
    ensures (forall other: Memory :: LoadDirectory(file, onDisk, other) == LoadDirectory(file, onDisk, memory))
      <==> TimesInside(LoadDirectory(file, onDisk, memory).value)
  {
    hide FindEOCD, TimesInside, Entries;
    var eocd := FindEOCD(file, onDisk).value;
    if TimesInside(LoadDirectory(file, onDisk, memory).value) {
      forall other: Memory ensures LoadDirectory(file, onDisk, other) == LoadDirectory(file, onDisk, memory) {
        InsideReadsAlike(file, eocd.iOffset, eocd.nEntry, memory, other);
      }
    } else {
      var other := ReadsOtherwise(file, eocd.iOffset, eocd.nEntry, memory);
      assert LoadDirectory(file, onDisk, other) != LoadDirectory(file, onDisk, memory);
    }
  }

  /** The directory of a file on disk can be read with a buffer of BUFFER_SIZE bytes. */
  predicate LoadsInBuffer(file: seq<Byte>) {
    match FindEOCD(file, true)
    case None => true
    case Some(eocd) => RecordsInBuffer(file, eocd.iOffset, eocd.nEntry)
  }

  method ReadEOCD(file: seq<Byte>, onDisk: bool) returns (r: Option<EOCD>)
    ensures r == FindEOCD(file, onDisk)
  {
    if onDisk && file == [] {
      return Some(EOCD(0, 0, 0, 0, 0, 0));
    }
    var b := Tail(file);
    var i: int := |b| - 20;
    while i >= 0
      invariant -1 <= i <= |b| - 20 || i == |b| - 20
      invariant |b| >= 20 ==> LastSignature(b, i) == LastSignature(b, |b| - 20)
    {
      if SignatureAt(b, i) {
        break;
      }
      i := i - 1;
    }
    if i < 0 {
      return None;
    }
    r := Some(ReadEocdFields(b[i + 4..i + 20]));
  }

  lemma SignatureBytes(e: EOCD)
    ensures var w := WriteEOCD(e); w[0] == 0x50 && w[1] == 0x4b && w[2] == 0x05 && w[3] == 0x06
  {
    assert Put(SIGNATURE_EOCD, 4) == [0x50, 0x4b, 0x05, 0x06];
    hide Put, Encode;
  }

  lemma TailKeepsEnd(before: seq<Byte>, w: seq<Byte>)
    requires |w| == EOCD_FIXED_SZ
    ensures var b := Tail(before + w); |b| >= EOCD_FIXED_SZ && b[|b| - EOCD_FIXED_SZ..] == w
  {}

  lemma EndBytes(b: seq<Byte>, w: seq<Byte>)
    requires |b| >= EOCD_FIXED_SZ == |w| && b[|b| - EOCD_FIXED_SZ..] == w
    ensures b[|b| - 18..|b| - 2] == w[4..20]
    ensures b[|b| - 22] == w[0] && b[|b| - 21] == w[1] && b[|b| - 20] == w[2] && b[|b| - 19] == w[3]
  {
    assert b[|b| - 18..|b| - 2] == b[|b| - 22..][4..20];
    assert forall j | 0 <= j < 4 :: b[|b| - 22 + j] == w[j];
  }

  lemma SearchStopsAt(b: seq<Byte>)
    requires |b| >= EOCD_FIXED_SZ
    requires b[|b| - 22] == 0x50 && b[|b| - 21] == 0x4b && b[|b| - 20] == 0x05 && b[|b| - 19] == 0x06
    ensures LastSignature(b, |b| - 20) == |b| - 22
  {
    assert LastSignature(b, |b| - 22) == |b| - 22;
    assert LastSignature(b, |b| - 21) == |b| - 22;
  }

  /** The search always stops at an end record that ends the file, whatever precedes it. */
  lemma EndRecordIsFound(before: seq<Byte>, e: EOCD, onDisk: bool)
    requires Fits(EOCD_WIDTHS, EocdFields(e))
    ensures FindEOCD(before + WriteEOCD(e), onDisk) == Some(e)
  {
    hide WriteEOCD, ReadEocdFields, Fits, LastSignature, FindEOCD, Tail;
    var w := WriteEOCD(e);
    SignatureBytes(e);
    ReadWrittenEOCD(e);
    TailKeepsEnd(before, w);
    EndBytes(Tail(before + w), w);
    SearchStopsAt(Tail(before + w));
    FoundAtEnd(before + w, w, onDisk);
  }

  lemma FoundAtEnd(file: seq<Byte>, w: seq<Byte>, onDisk: bool)
    requires var b := Tail(file); |b| >= EOCD_FIXED_SZ == |w| && LastSignature(b, |b| - 20) == |b| - 22
    requires var b := Tail(file); b[|b| - 18..|b| - 2] == w[4..20]
    ensures FindEOCD(file, onDisk) == Some(ReadEocdFields(w[4..20]))
  {
    hide ReadEocdFields, LastSignature;
    assert file != [];
  }

  lemma MiddleIsAt(a: seq<Byte>, b: seq<Byte>, c: seq<Byte>)
    ensures BytesAt(a + b + c, |a|, b) && a + b + c == a + (b + c)
  {}

  /** An image that ends in a directory and its end record loads as the entries of the directory. */
  lemma ImageLoads(body: seq<Byte>, es: seq<Entry>, e: EOCD, onDisk: bool, memory: Memory)
    requires forall x | x in es :: Sound(x) && HeaderIn(body, x)
    requires Fits(EOCD_WIDTHS, EocdFields(e)) && e.nEntry == |es| && e.iOffset == |body|
    ensures LoadDirectory(body + Directory(es) + WriteEOCD(e), onDisk, memory) == Some(es)
  {
    var file := body + Directory(es) + WriteEOCD(e);
    EndRecordIsFound(body + Directory(es), e, onDisk);
    MiddleIsAt(body, Directory(es), WriteEOCD(e));
    hide WriteEOCD, Sound, FindEOCD, Directory, HeaderIn, BytesAt;
    forall x | x in es ensures HeaderIn(file, x) {
      HeaderStays(body, Directory(es) + WriteEOCD(e), x);
    }
    DirectoryReads(file, |body|, es, memory);
  }

  lemma {:induction false} SearchGoesBack(b: seq<Byte>, i: int, k: nat)
    requires k <= i && i + 4 <= |b| && forall j | k < j <= i :: !SignatureAt(b, j)
    ensures LastSignature(b, i) == LastSignature(b, k)
    decreases i
  {
    if k < i {
      SearchGoesBack(b, i - 1, k);
    }
  }

  /** The same with an archive comment behind the record, as long as no signature begins in it. */
  lemma CommentIsPassed(before: seq<Byte>, e: EOCD, comment: seq<Byte>, onDisk: bool)
    requires Fits(EOCD_WIDTHS, EocdFields(e)) && |comment| + EOCD_FIXED_SZ <= BUFFER_SIZE
    requires var tail := WriteEOCD(e) + comment; forall j | 0 < j <= |tail| - 20 :: !SignatureAt(tail, j)
    ensures FindEOCD(before + WriteEOCD(e) + comment, onDisk) == Some(e)
  {
    hide WriteEOCD, ReadEocdFields, Fits, LastSignature, FindEOCD, Tail, SignatureAt;
    var w := WriteEOCD(e);
    var tail := w + comment;
    assert before + w + comment == before + tail;
    SignatureBytes(e);
    StartsWithSignature(w, comment);
    ReadWrittenEOCD(e);
    assert tail[4..20] == w[4..20];
    TailEndsWith(before, tail);
    LastInTail(Tail(before + tail), tail);
    FoundAt(before + tail, |Tail(before + tail)| - |tail|, tail, onDisk);
  }

  lemma StartsWithSignature(w: seq<Byte>, comment: seq<Byte>)
    requires |w| >= 4 && w[0] == 0x50 && w[1] == 0x4b && w[2] == 0x05 && w[3] == 0x06
    ensures SignatureAt(w + comment, 0)
  {}

  lemma LastInTail(b: seq<Byte>, tail: seq<Byte>)
    requires EOCD_FIXED_SZ <= |tail| <= |b| && b[|b| - |tail|..] == tail
    requires SignatureAt(tail, 0) && forall j | 0 < j <= |tail| - 20 :: !SignatureAt(tail, j)
    ensures LastSignature(b, |b| - 20) == |b| - |tail|
  {
    hide SignatureAt, LastSignature;
    var at := |b| - |tail|;
    forall j | at < j <= |b| - 20 ensures !SignatureAt(b, j) {
      SignatureMoves(b, tail, at, j - at);
    }
    SearchGoesBack(b, |b| - 20, at);
    SignatureMoves(b, tail, at, 0);
    FoundHere(b, at);
  }

  lemma FoundHere(b: seq<Byte>, at: nat)
    requires at + 4 <= |b| && SignatureAt(b, at)
    ensures LastSignature(b, at) == at
  {}

  lemma FoundAt(file: seq<Byte>, at: nat, tail: seq<Byte>, onDisk: bool)
    requires var b := Tail(file);
      |b| >= 20 && at + |tail| == |b| && |tail| >= 20 && b[at..] == tail && LastSignature(b, |b| - 20) == at
    ensures FindEOCD(file, onDisk) == Some(ReadEocdFields(tail[4..20]))
  {
    hide ReadEocdFields, LastSignature;
    var b := Tail(file);
    assert file != [] && b[at + 4..at + 20] == b[at..][4..20];
  }

  lemma TailEndsWith(before: seq<Byte>, w: seq<Byte>)
    requires |w| <= BUFFER_SIZE
    ensures var b := Tail(before + w); |b| >= |w| && b[|b| - |w|..] == w
  {}

  lemma SignatureMoves(b: seq<Byte>, w: seq<Byte>, at: nat, j: nat)
    requires at + |w| == |b| && b[at..] == w && j + 4 <= |w|
    ensures SignatureAt(b, at + j) == SignatureAt(w, j)
  {
    assert b[at + j] == w[j] && b[at + (j + 1)] == w[j + 1];
    assert b[at + (j + 2)] == w[j + 2] && b[at + (j + 3)] == w[j + 3];
  }
}
