/** Little-endian fields, and the records made of them (PKWARE APPNOTE, sections 4.3.7, 4.3.12 and 4.3.16). */
module Fields {
  import opened Words

  function Total(widths: seq<nat>): nat {
    if widths == [] then 0 else widths[0] + Total(widths[1..])
  }

  lemma {:induction false} TotalConcat(v: seq<nat>, w: seq<nat>)
    ensures Total(v + w) == Total(v) + Total(w)
  {
    if v == [] {
      assert v + w == w;
    } else {
      assert (v + w)[1..] == v[1..] + w;
      TotalConcat(v[1..], w);
    }
  }

  function Encode(widths: seq<nat>, values: seq<nat>): (b: seq<Byte>)
    requires |values| == |widths|
    ensures |b| == Total(widths)
  {
    if widths == [] then [] else Put(values[0], widths[0]) + Encode(widths[1..], values[1..])
  }

  function Decode(widths: seq<nat>, b: seq<Byte>): (values: seq<nat>)
    requires |b| == Total(widths)
    ensures |values| == |widths|
  {
    if widths == [] then [] else [Load(b[..widths[0]])] + Decode(widths[1..], b[widths[0]..])
  }

  ghost predicate Fits(widths: seq<nat>, values: seq<nat>) {
    |values| == |widths| && forall i | 0 <= i < |widths| :: values[i] < Power256(widths[i])
  }

  lemma {:induction false} LoadPut(v: nat, w: nat)
    requires v < Power256(w)
    ensures Load(Put(v, w)) == v
  {
    if w > 0 {
      LoadPut(v / 256, w - 1);
      assert Put(v, w)[1..] == Put(v / 256, w - 1);
    }
  }

  lemma {:induction false} PutLoad(b: seq<Byte>)
    ensures Put(Load(b), |b|) == b
  {
    if b != [] {
      PutLoad(b[1..]);
      Joined(Load(b[1..]), b[0]);
    }
  }

  lemma {:induction false} DecodeEncode(widths: seq<nat>, values: seq<nat>)
    requires Fits(widths, values)
    ensures Decode(widths, Encode(widths, values)) == values
  {
    if widths != [] {
      var b := Encode(widths, values);
      LoadPut(values[0], widths[0]);
      DecodeEncode(widths[1..], values[1..]);
      assert b[..widths[0]] == Put(values[0], widths[0]) && b[widths[0]..] == Encode(widths[1..], values[1..]);
    }
  }

  lemma {:induction false} EncodeDecode(widths: seq<nat>, b: seq<Byte>)
    requires |b| == Total(widths)
    ensures Encode(widths, Decode(widths, b)) == b
    ensures Fits(widths, Decode(widths, b))
  {
    if widths != [] {
      PutLoad(b[..widths[0]]);
      LoadFits(b[..widths[0]]);
      EncodeDecode(widths[1..], b[widths[0]..]);
      assert b[..widths[0]] + b[widths[0]..] == b;
    }
  }

  /** Field k of the fields stands where the widths of those before it end. */
  lemma {:induction false} EncodedAt(widths: seq<nat>, values: seq<nat>, k: nat)
    requires |values| == |widths| && k < |widths|
    ensures var off := Total(widths[..k]);
      off + widths[k] <= Total(widths) && Encode(widths, values)[off..off + widths[k]] == Put(values[k], widths[k])
  {
    hide Put;
    if k == 0 {
      assert widths[..0] == [];
    } else {
      assert widths[..k][1..] == widths[1..][..k - 1];
      EncodedAt(widths[1..], values[1..], k - 1);
      var rest, off, w := Encode(widths[1..], values[1..]), Total(widths[1..][..k - 1]), widths[k];
      assert (Put(values[0], widths[0]) + rest)[widths[0] + off..widths[0] + off + w] == rest[off..off + w];
    }
  }
}

module ZipFormat {
  import opened Wrappers
  import opened Words
  import opened Fields

  const SIGNATURE_CDS := 0x02014b50
  const SIGNATURE_LFH := 0x04034b50
  const SIGNATURE_EOCD := 0x06054b50
  const EXTRA_TIMESTAMP := 0x5455
  const LFH_FIXED_SZ := 30
  const EOCD_FIXED_SZ := 22
  const CDS_FIXED_SZ := 46
  const BUFFER_SIZE := 65536

  datatype EOCD = EOCD(iDisk: nat, iFirstDisk: nat, nEntry: nat, nEntryTotal: nat, nSize: nat, iOffset: nat)

  datatype CDS = CDS(iVersionMadeBy: nat, iVersionExtract: nat, flags: nat, iCompression: nat, mTime: nat, mDate: nat,
                     crc32: nat, szCompressed: nat, szUncompressed: nat, nFile: nat, nExtra: nat, nComment: nat,
                     iDiskStart: nat, iInternalAttr: nat, iExternalAttr: nat, iOffset: nat)

  datatype LFH = LFH(iVersionExtract: nat, flags: nat, iCompression: nat, mTime: nat, mDate: nat, crc32: nat,
                     szCompressed: nat, szUncompressed: nat, nFile: nat, nExtra: nat)

  const EOCD_WIDTHS: seq<nat> := [2, 2, 2, 2] + [4, 4]
  const CDS_WIDTHS: seq<nat> := [4] + [2, 2, 2, 2, 2, 2] + [4, 4, 4] + [2, 2, 2, 2, 2] + [4, 4]
  const LFH_WIDTHS: seq<nat> := [4] + [2, 2, 2, 2, 2] + [4, 4, 4] + [2, 2]

  lemma PartSizes()
    ensures Total([4]) == 4 && Total([2, 2]) == 4 && Total([4, 4]) == 8 && Total([4, 4, 4]) == 12
    ensures Total([2, 2, 2, 2]) == 8 && Total([2, 2, 2, 2, 2]) == 10 && Total([2, 2, 2, 2, 2, 2]) == 12
  {
    assert Total([2, 2, 2, 2]) == 8;
    assert Total([2, 2, 2, 2, 2]) == 2 + Total([2, 2, 2, 2]) by { assert [2, 2, 2, 2, 2][1..] == [2, 2, 2, 2]; }
    assert Total([2, 2, 2, 2, 2, 2]) == 2 + Total([2, 2, 2, 2, 2]) by {
      assert [2, 2, 2, 2, 2, 2][1..] == [2, 2, 2, 2, 2];
    }
  }

  lemma RecordSizes()
    ensures Total(EOCD_WIDTHS) == EOCD_FIXED_SZ - 6
    ensures Total(CDS_WIDTHS) == CDS_FIXED_SZ && Total(LFH_WIDTHS) == LFH_FIXED_SZ
  {
    PartSizes();
    hide Total;
    TotalConcat([2, 2, 2, 2], [4, 4]);
    TotalConcat([4], [2, 2, 2, 2, 2, 2]);
    TotalConcat([4] + [2, 2, 2, 2, 2, 2], [4, 4, 4]);
    TotalConcat([4] + [2, 2, 2, 2, 2, 2] + [4, 4, 4], [2, 2, 2, 2, 2]);
    TotalConcat([4] + [2, 2, 2, 2, 2, 2] + [4, 4, 4] + [2, 2, 2, 2, 2], [4, 4]);
    TotalConcat([4], [2, 2, 2, 2, 2]);
    TotalConcat([4] + [2, 2, 2, 2, 2], [4, 4, 4]);
    TotalConcat([4] + [2, 2, 2, 2, 2] + [4, 4, 4], [2, 2]);
  }

  function EocdFields(e: EOCD): seq<nat> {
    [e.iDisk, e.iFirstDisk, e.nEntry, e.nEntryTotal, e.nSize, e.iOffset]
  }

  function CdsFields(c: CDS): seq<nat> {
    [SIGNATURE_CDS, c.iVersionMadeBy, c.iVersionExtract, c.flags, c.iCompression, c.mTime, c.mDate, c.crc32,
     c.szCompressed, c.szUncompressed, c.nFile, c.nExtra, c.nComment, c.iDiskStart, c.iInternalAttr, c.iExternalAttr,
     c.iOffset]
  }

  function LfhFields(l: LFH): seq<nat> {
    [SIGNATURE_LFH, l.iVersionExtract, l.flags, l.iCompression, l.mTime, l.mDate, l.crc32,
     l.szCompressed, l.szUncompressed, l.nFile, l.nExtra]
  }

  ghost predicate CdsFits(c: CDS) {
    Fits(CDS_WIDTHS, CdsFields(c))
  }

  function CdsOf(v: seq<nat>): CDS
    requires |v| == 17
  {
    CDS(v[1], v[2], v[3], v[4], v[5], v[6], v[7], v[8], v[9], v[10], v[11], v[12], v[13], v[14], v[15], v[16])
  }

  function LfhOf(v: seq<nat>): LFH
    requires |v| == 11
  {
    LFH(v[1], v[2], v[3], v[4], v[5], v[6], v[7], v[8], v[9], v[10])
  }

  /** zipfileReadCDS on 46 bytes. */
  function ReadCDS(b: seq<Byte>): (r: Option<CDS>)
    requires |b| == CDS_FIXED_SZ
  {
    RecordSizes();
    var v := Decode(CDS_WIDTHS, b);
    if v[0] != SIGNATURE_CDS then None else Some(CdsOf(v))
  }

  /** zipfileReadLFH on 30 bytes. */
  function ReadLFH(b: seq<Byte>): (r: Option<LFH>)
    requires |b| == LFH_FIXED_SZ
  {
    RecordSizes();
    var v := Decode(LFH_WIDTHS, b);
    if v[0] != SIGNATURE_LFH then None else Some(LfhOf(v))
  }

  function WriteCDS(c: CDS): (b: seq<Byte>)
    ensures |b| == CDS_FIXED_SZ
  {
    RecordSizes();
    Encode(CDS_WIDTHS, CdsFields(c))
  }

  function WriteLFH(l: LFH): (b: seq<Byte>)
    ensures |b| == LFH_FIXED_SZ
  {
    RecordSizes();
    Encode(LFH_WIDTHS, LfhFields(l))
  }

  /** zipfileSerializeEOCD, with an empty archive comment. */
  function WriteEOCD(e: EOCD): (b: seq<Byte>)
    ensures |b| == EOCD_FIXED_SZ
  {
    RecordSizes();
    Put(SIGNATURE_EOCD, 4) + Encode(EOCD_WIDTHS, EocdFields(e)) + Put(0, 2)
  }

  /** The six fields that zipfileReadEOCD takes from the bytes after a signature. */
  function ReadEocdFields(b: seq<Byte>): EOCD
    requires |b| == EOCD_FIXED_SZ - 6
  {
    RecordSizes();
    var v := Decode(EOCD_WIDTHS, b);
    EOCD(v[0], v[1], v[2], v[3], v[4], v[5])
  }

  lemma ReadWrittenEOCD(e: EOCD)
    requires Fits(EOCD_WIDTHS, EocdFields(e))
    ensures ReadEocdFields(WriteEOCD(e)[4..20]) == e
  {
    RecordSizes();
    DecodeEncode(EOCD_WIDTHS, EocdFields(e));
    hide Decode, Encode;
    assert WriteEOCD(e)[4..20] == Encode(EOCD_WIDTHS, EocdFields(e));
  }

  lemma ReadWrittenCDS(c: CDS)
    requires CdsFits(c)
    ensures ReadCDS(WriteCDS(c)) == Some(c)
  {
    DecodeEncode(CDS_WIDTHS, CdsFields(c));
    hide Decode, Encode;
  }

  lemma FieldsOfCds(v: seq<nat>)
    requires |v| == 17 && v[0] == SIGNATURE_CDS
    ensures CdsFields(CdsOf(v)) == v
  {}

  lemma WriteReadCDS(b: seq<Byte>)
    requires |b| == CDS_FIXED_SZ && ReadCDS(b).Some?
    ensures CdsFits(ReadCDS(b).value) && WriteCDS(ReadCDS(b).value) == b
  {
    RecordSizes();
    EncodeDecode(CDS_WIDTHS, b);
    FieldsOfCds(Decode(CDS_WIDTHS, b));
    hide Encode, Decode, Total, Fits, CdsOf, CdsFields;
  }

  lemma ReadWrittenLFH(l: LFH)
    requires Fits(LFH_WIDTHS, LfhFields(l))
    ensures ReadLFH(WriteLFH(l)) == Some(l)
  {
    DecodeEncode(LFH_WIDTHS, LfhFields(l));
    hide Decode, Encode;
  }

  lemma TotalOfNone()
    ensures Total([]) == 0
  {}

  lemma OneMoreWidth(widths: seq<nat>, k: nat)
    requires k < |widths|
    ensures Total(widths[..k + 1]) == Total(widths[..k]) + widths[k]
  {
    assert widths[..k + 1] == widths[..k] + [widths[k]];
    TotalConcat(widths[..k], [widths[k]]);
    TotalOfOne(widths[k]);
  }

  lemma TotalOfOne(w: nat)
    ensures Total([w]) == w
  {
    assert [w][1..] == [];
  }

  lemma RecordSignatures()
    ensures Put(SIGNATURE_CDS, 4) == [0x50, 0x4b, 1, 2] && Put(SIGNATURE_LFH, 4) == [0x50, 0x4b, 3, 4]
    ensures Put(SIGNATURE_EOCD, 4) == [0x50, 0x4b, 5, 6] && Put(0, 2) == [0, 0]
  {
    hide Put;
    FourBytes(SIGNATURE_CDS);
    FourBytes(SIGNATURE_LFH);
    FourBytes(SIGNATURE_EOCD);
    TwoBytes(0);
  }

  lemma TwoBytes(v: nat)
    ensures Put(v, 2) == [v % 256, v / 256 % 256]
  {
    assert Put(v / 256, 1) == [v / 256 % 256] + Put(v / 256 / 256, 0);
  }

  lemma FourBytes(v: nat)
    ensures Put(v, 4) == [v % 256, v / 256 % 256, v / 0x1_0000 % 256, v / 0x100_0000 % 256]
  {
    hide Put;
    TwoBytes(v / 256 / 256);
    PutTwo(v);
    assert v / 256 / 256 == v / 0x1_0000 && v / 256 / 256 / 256 == v / 0x100_0000;
  }

  lemma PutTwo(v: nat)
    ensures Put(v, 4) == [v % 256, v / 256 % 256] + Put(v / 256 / 256, 2)
  {
    assert Put(v, 4) == [v % 256] + Put(v / 256, 3);
    assert Put(v / 256, 3) == [v / 256 % 256] + Put(v / 256 / 256, 2);
  }

  const CDS_OFFSETS: seq<nat> := [0, 4, 6, 8, 10, 12, 14, 16, 20, 24, 28, 30, 32, 34, 36, 38, 42]

  lemma {:induction false} CdsOffsets(k: nat)
    requires k < 17
    ensures Total(CDS_WIDTHS[..k]) == CDS_OFFSETS[k]
  {
    hide Total;
    if k == 0 {
      assert CDS_WIDTHS[..0] == [];
      TotalOfNone();
    } else {
      CdsOffsets(k - 1);
      CdsStep(k - 1);
      OneMoreWidth(CDS_WIDTHS, k - 1);
    }
  }

  lemma CdsStep(k: nat)
    requires k < 16
    ensures CDS_OFFSETS[k + 1] == CDS_OFFSETS[k] + CDS_WIDTHS[k]
  {}

  lemma CdsField(c: CDS, k: nat)
    requires k < 17
    ensures var off, w := CDS_OFFSETS[k], CDS_WIDTHS[k];
      off + w <= CDS_FIXED_SZ && WriteCDS(c)[off..off + w] == Put(CdsFields(c)[k], w)
  {
    hide Encode, Put, Total;
    RecordSizes();
    CdsOffsets(k);
    EncodedAt(CDS_WIDTHS, CdsFields(c), k);
  }

  /** The layout of section 4.3.12 of the APPNOTE. */
  lemma CdsLayout(c: CDS)
    ensures var b := WriteCDS(c);
      && b[..4] == [0x50, 0x4b, 1, 2] && b[4..6] == Put(c.iVersionMadeBy, 2)
      && b[6..8] == Put(c.iVersionExtract, 2) && b[8..10] == Put(c.flags, 2)
      && b[10..12] == Put(c.iCompression, 2) && b[12..14] == Put(c.mTime, 2) && b[14..16] == Put(c.mDate, 2)
      && b[16..20] == Put(c.crc32, 4) && b[20..24] == Put(c.szCompressed, 4)
      && b[24..28] == Put(c.szUncompressed, 4) && b[28..30] == Put(c.nFile, 2) && b[30..32] == Put(c.nExtra, 2)
      && b[32..34] == Put(c.nComment, 2) && b[34..36] == Put(c.iDiskStart, 2)
      && b[36..38] == Put(c.iInternalAttr, 2) && b[38..42] == Put(c.iExternalAttr, 4)
      && b[42..46] == Put(c.iOffset, 4)
  {
    RecordSignatures();
    hide WriteCDS, Put;
    CdsField(c, 0);
    CdsField(c, 1);
    CdsField(c, 2);
    CdsField(c, 3);
    CdsField(c, 4);
    CdsField(c, 5);
    CdsField(c, 6);
    CdsField(c, 7);
    CdsField(c, 8);
    CdsField(c, 9);
    CdsField(c, 10);
    CdsField(c, 11);
    CdsField(c, 12);
    CdsField(c, 13);
    CdsField(c, 14);
    CdsField(c, 15);
    CdsField(c, 16);
  }

  const LFH_OFFSETS: seq<nat> := [0, 4, 6, 8, 10, 12, 14, 18, 22, 26, 28]

  lemma {:induction false} LfhOffsets(k: nat)
    requires k < 11
    ensures Total(LFH_WIDTHS[..k]) == LFH_OFFSETS[k]
  {
    hide Total;
    if k == 0 {
      assert LFH_WIDTHS[..0] == [];
      TotalOfNone();
    } else {
      LfhOffsets(k - 1);
      LfhStep(k - 1);
      OneMoreWidth(LFH_WIDTHS, k - 1);
    }
  }

  lemma LfhStep(k: nat)
    requires k < 10
    ensures LFH_OFFSETS[k + 1] == LFH_OFFSETS[k] + LFH_WIDTHS[k]
  {}

  lemma LfhField(l: LFH, k: nat)
    requires k < 11
    ensures var off, w := LFH_OFFSETS[k], LFH_WIDTHS[k];
      off + w <= LFH_FIXED_SZ && WriteLFH(l)[off..off + w] == Put(LfhFields(l)[k], w)
  {
    hide Encode, Put, Total;
    RecordSizes();
    LfhOffsets(k);
    EncodedAt(LFH_WIDTHS, LfhFields(l), k);
  }

  /** The layout of section 4.3.7 of the APPNOTE. */
  lemma LfhLayout(l: LFH)
    ensures var b := WriteLFH(l);
      && b[..4] == [0x50, 0x4b, 3, 4] && b[4..6] == Put(l.iVersionExtract, 2) && b[6..8] == Put(l.flags, 2)
      && b[8..10] == Put(l.iCompression, 2) && b[10..12] == Put(l.mTime, 2) && b[12..14] == Put(l.mDate, 2)
      && b[14..18] == Put(l.crc32, 4) && b[18..22] == Put(l.szCompressed, 4)
      && b[22..26] == Put(l.szUncompressed, 4) && b[26..28] == Put(l.nFile, 2) && b[28..30] == Put(l.nExtra, 2)
  {
    RecordSignatures();
    hide WriteLFH, Put;
    LfhField(l, 0);
    LfhField(l, 1);
    LfhField(l, 2);
    LfhField(l, 3);
    LfhField(l, 4);
    LfhField(l, 5);
    LfhField(l, 6);
    LfhField(l, 7);
    LfhField(l, 8);
    LfhField(l, 9);
    LfhField(l, 10);
  }

  /** The layout of section 4.3.16, with an empty comment. */
  lemma EocdLayout(e: EOCD)
    ensures var b := WriteEOCD(e);
      && b[..4] == [0x50, 0x4b, 5, 6] && b[4..6] == Put(e.iDisk, 2) && b[6..8] == Put(e.iFirstDisk, 2)
      && b[8..10] == Put(e.nEntry, 2) && b[10..12] == Put(e.nEntryTotal, 2) && b[12..16] == Put(e.nSize, 4)
      && b[16..20] == Put(e.iOffset, 4) && b[20..22] == [0, 0]
  {
    hide Put, WriteEOCD;
    RecordSignatures();
    EocdEnds(e);
    EocdField(e, 0);
    EocdField(e, 1);
    EocdField(e, 2);
    EocdField(e, 3);
    EocdField(e, 4);
    EocdField(e, 5);
  }

  lemma EocdEnds(e: EOCD)
    ensures WriteEOCD(e)[..4] == Put(SIGNATURE_EOCD, 4) && WriteEOCD(e)[20..22] == Put(0, 2)
  {
    hide Encode, Put, Total;
    RecordSizes();
    MiddleParts(Put(SIGNATURE_EOCD, 4), Encode(EOCD_WIDTHS, EocdFields(e)), Put(0, 2));
  }

  const EOCD_OFFSETS: seq<nat> := [0, 2, 4, 6, 8, 12]

  lemma EocdField(e: EOCD, k: nat)
    requires k < 6
    ensures var off, w := EOCD_OFFSETS[k], EOCD_WIDTHS[k];
      off + w <= 16 && WriteEOCD(e)[4 + off..4 + off + w] == Put(EocdFields(e)[k], w)
  {
    hide Encode, Put, Total;
    RecordSizes();
    EocdOffsets(k);
    EncodedAt(EOCD_WIDTHS, EocdFields(e), k);
    MiddleParts(Put(SIGNATURE_EOCD, 4), Encode(EOCD_WIDTHS, EocdFields(e)), Put(0, 2));
  }

  lemma {:induction false} EocdOffsets(k: nat)
    requires k < 6
    ensures Total(EOCD_WIDTHS[..k]) == EOCD_OFFSETS[k]
  {
    hide Total;
    if k == 0 {
      assert EOCD_WIDTHS[..0] == [];
      TotalOfNone();
    } else {
      EocdOffsets(k - 1);
      EocdStep(k - 1);
      OneMoreWidth(EOCD_WIDTHS, k - 1);
    }
  }

  lemma EocdStep(k: nat)
    requires k < 5
    ensures EOCD_OFFSETS[k + 1] == EOCD_OFFSETS[k] + EOCD_WIDTHS[k]
  {}

  lemma MiddleParts(a: seq<Byte>, b: seq<Byte>, c: seq<Byte>)
    ensures var s := a + b + c; s[..|a|] == a && s[|a| + |b|..] == c
    ensures forall i, j | 0 <= i <= j <= |b| :: (a + b + c)[|a| + i..|a| + j] == b[i..j]
  {}
}
