/** SHA3Context of shell.c: SHA3Init, SHA3Update and SHA3Final. */
module Sha3Engine {
  import opened Arithmetic
  import opened Bits
  import opened Fips202
  import opened Words
  import opened Sponge
  import Keccak

  /** Rate in bytes for a digest of iSize bits, with the default for sizes out of range. */
  function RateOf(iSize: int): (r: nat)
    ensures r % 8 == 0 && 72 <= r <= 168
    ensures 128 <= iSize <= 512 ==> (200 - r) % 8 == 0 && iSize <= (200 - r) * 4 < iSize + 32
    ensures iSize < 128 || 512 < iSize ==> r == 136
  {
    if 128 <= iSize <= 512 then (1600 - (iSize + 31) / 32 * 32 * 2) / 8 else (1600 - 2 * 256) / 8
  }

  /** n ^ ixMask for the two masks in use. */
  function Masked(n: nat, ixMask: nat): (m: nat)
    ensures m / 8 == n / 8
  {
    if ixMask == 7 then n - n % 8 + (7 - n % 8) else n
  }

  /** Which byte of its word, counting from the least significant, memory byte k is. */
  function Significance(k: nat, bigEndian: bool): nat {
    if bigEndian then 7 - k % 8 else k % 8
  }

  /** Byte k of the union, u.x[k], read off the words u.s. */
  function MemoryByte(s: seq<Word64>, bigEndian: bool, k: nat): Byte
    requires k < 8 * |s|
  {
    ByteAt(s[k / 8], Significance(k, bigEndian))
  }

  function MemoryBytes(s: seq<Word64>, bigEndian: bool, from: nat, n: nat): (m: seq<Byte>)
    requires from + n <= 8 * |s|
    ensures |m| == n && forall i: nat | i < n :: m[i] == MemoryByte(s, bigEndian, from + i)
  {
    seq<Byte>(n, i requires 0 <= i < n => MemoryByte(s, bigEndian, from + i))
  }

  lemma MaskUndoesEndianness(n: nat, bigEndian: bool)
    ensures var m := Masked(n, if bigEndian then 7 else 0); m / 8 == n / 8 && Significance(m, bigEndian) == n % 8
  {}

  class SHA3Context {
    const bigEndian: bool
    const s: array<Word64>
    var nRate: nat
    var nLoaded: nat
    var ixMask: nat

    ghost predicate Valid()
      reads this, s
    {
      && s.Length == 200
      && nRate % 8 == 0 && 72 <= nRate <= 168
      && nLoaded < nRate
      && ixMask == if bigEndian then 7 else 0
    }

    /** The sponge that the context stands for. */
    ghost function Sponge(): Feeder
      reads this, s
      requires Valid()
    {
      Feeder(Bytes(s[..25]), nLoaded)
    }

    /** SHA3Init. */
    constructor (iSize: int, bigEndian: bool)
      ensures Valid() && fresh(s)
      ensures nRate == RateOf(iSize) && this.bigEndian == bigEndian
      ensures Sponge() == Feeder(Zeros(200), 0)
    {
      this.bigEndian := bigEndian;
      s := new Word64[200](_ => 0);
      nRate := RateOf(iSize);
      nLoaded := 0;
      ixMask := if bigEndian then 7 else 0;
      new;
      ZeroWords(s[..25]);
    }

    /** u.x[k] = v */
    method SetByte(k: nat, v: Byte)
      requires s.Length == 200 && k < 1600
      modifies s
      ensures forall j: nat | j < 1600 ::
        MemoryByte(s[..], bigEndian, j) == if j == k then v else old(MemoryByte(s[..], bigEndian, j))
      ensures forall i | 0 <= i < 200 && i != k / 8 :: s[i] == old(s[i])
    {
      var w, p := s[k / 8], Significance(k, bigEndian);
      Power256Of8();
      PutByteFits(w, p, v, 8);
      s[k / 8] := PutByte(w, p, v);
      forall j: nat | j < 1600
        ensures MemoryByte(s[..], bigEndian, j) == if j == k then v else old(MemoryByte(s[..], bigEndian, j))
      {
        if j / 8 == k / 8 {
          PutByteAt(w, p, v, Significance(j, bigEndian));
        }
      }
    }

    /** One turn of the bytewise loop of SHA3Update. */
    method AddByte(v: Byte)
      requires Valid()
      modifies this, s
      ensures Valid() && nRate == old(nRate)
      ensures Sponge() == Feed(old(Sponge()), v, nRate)
    {
      hide Feed, Permute, XorInto, Bytes, MemoryByte;
      var k := Masked(nLoaded, ixMask);
      MaskUndoesEndianness(nLoaded, bigEndian);
      XorByBytes(MemoryByte(s[..], bigEndian, k), v, 0);
      SetByte(k, XorByte(MemoryByte(s[..], bigEndian, k), v));
      ByteAdded(old(s[..]), s[..], bigEndian, nLoaded, v);
      nLoaded := nLoaded + 1;
      if nLoaded == nRate {
        KeccakF1600Step();
        nLoaded := 0;
      }
      FeedDefinition(old(Sponge()), v, nRate);
    }

    /** One turn of the loop of SHA3Update that takes in eight bytes as a word. */
    method AddWord(data: seq<Byte>)
      requires Valid() && nLoaded % 8 == 0 && |data| == 8 && !bigEndian
      modifies this, s
      ensures Valid() && nRate == old(nRate) && nLoaded % 8 == 0
      ensures Sponge() == FeedAll(old(Sponge()), data, nRate)
    {
      hide FeedAll, Permute, XorInto, Bytes;
      LoadFits(data);
      Power256Of8();
      WordAdded(s[..25], nLoaded, data);
      FeedWithinBlock(Sponge(), data, nRate);
      s[nLoaded / 8] := Xor(s[nLoaded / 8], Load(data));
      nLoaded := nLoaded + 8;
      if nLoaded >= nRate {
        KeccakF1600Step();
        nLoaded := 0;
      }
    }

    method KeccakF1600Step()
      requires s.Length == 200
      modifies s
      ensures Bytes(s[..25]) == Permute(old(Bytes(s[..25])))
    {
      LanesOfBytes(s[..25]);
      Keccak.KeccakF1600Step(s);
    }

    /**
     SHA3Update.  `aligned` says whether the caller's buffer starts at a
     multiple of eight; the word loop is compiled in on little-endian machines.
     */
    method Update(aData: seq<Byte>, aligned: bool)
      requires Valid()
      modifies this, s
      ensures Valid() && nRate == old(nRate)
      ensures Sponge() == FeedAll(old(Sponge()), aData, nRate)
    {
      hide FeedAll, Feed;
      ghost var start, rate := Sponge(), nRate;
      var i := 0;
      FeedNothing(start, rate);
      if !bigEndian && nLoaded % 8 == 0 && aligned {
        while i + 7 < |aData|
          invariant i <= |aData| && Valid() && nRate == rate && nLoaded % 8 == 0
          invariant Sponge() == FeedAll(start, aData[..i], rate)
        {
          AddWord(aData[i..i + 8]);
          FeedAllConcat(start, aData[..i], aData[i..i + 8], rate);
          assert aData[..i + 8] == aData[..i] + aData[i..i + 8];
          i := i + 8;
        }
      }
      while i < |aData|
        invariant i <= |aData| && Valid() && nRate == rate
        invariant Sponge() == FeedAll(start, aData[..i], rate)
      {
        AddByte(aData[i]);
        FeedOneMore(start, aData[..i], aData[i], rate);
        assert aData[..i + 1] == aData[..i] + [aData[i]];
        i := i + 1;
      }
      assert aData[..i] == aData;
    }

    /** SHA3Final: the nRate bytes that start where the pointer it returns points. */
    method Final() returns (out: seq<Byte>)
      requires Valid()
      modifies this, s
      ensures nRate == old(nRate)
      ensures out == FeedAll(old(Sponge()), Padding(old(nRate) - old(nLoaded)), old(nRate)).b[..old(nRate)]
    {
      hide FeedAll, Feed, Bytes, Padding, XorInto, Permute, MemoryByte, Masked;
      ghost var start := Sponge();
      FinalPaddings(start, nRate);
      if nLoaded == nRate - 1 {
        AddByte(0x86);
      } else {
        AddByte(0x06);
        nLoaded := nRate - 1;
        AddByte(0x80);
      }
      ghost var state := s[..];
      var rate := nRate;
      forall j: nat | j < rate ensures Masked(j, ixMask) < rate {
        MaskStaysBelow(j, rate, ixMask);
      }
      for i := 0 to rate
        invariant Valid() && nRate == old(nRate) && ixMask == old(ixMask)
        invariant forall j: nat | j < rate :: MemoryByte(s[..], bigEndian, j) == MemoryByte(state, bigEndian, j)
        invariant forall j: nat | j < i ::
          MemoryByte(s[..], bigEndian, rate + j) == MemoryByte(state, bigEndian, Masked(j, ixMask))
      {
        SetByte(i + rate, MemoryByte(s[..], bigEndian, Masked(i, ixMask)));
      }
      out := MemoryBytes(s[..], bigEndian, rate, rate);
      forall i: nat | i < rate ensures out[i] == Bytes(state[..25])[i] {
        ViewsAgree(state, bigEndian, i);
      }
    }
  }

  lemma MaskStaysBelow(n: nat, rate: nat, ixMask: nat)
    requires n < rate && rate % 8 == 0
    ensures Masked(n, ixMask) < rate
  {}

  lemma XorWithZero(v: nat)
    ensures XorBits(v, 0) == v
  {}

  /** Skipping the zeros of the padding, as SHA3Final does, is feeding them. */
  lemma FinalPaddings(f: Feeder, rate: nat)
    requires f.n < rate <= 200
    ensures f.n == rate - 1 ==> FeedAll(f, Padding(rate - f.n), rate) == Feed(f, 0x86, rate)
    ensures f.n < rate - 1 ==>
      FeedAll(f, Padding(rate - f.n), rate) == Feed(Feeder(Feed(f, 0x06, rate).b, rate - 1), 0x80, rate)
  {
    hide Permute;
    var room := rate - f.n;
    if room == 1 {
      FeedOneMore(f, [], 0x86, rate);
    } else {
      var g := Feed(f, 0x06, rate);
      FeedOneMore(f, [], 0x06, rate);
      FeedWithinBlock(g, Zeros(room - 2), rate);
      assert XorInto(g.b, g.n, Zeros(room - 2)) == g.b by {
        forall i | 0 <= i < 200 ensures XorByte(g.b[i], 0) == g.b[i] {
          XorWithZero(g.b[i]);
        }
      }
      hide FeedAll, Feed, XorInto;
      FeedAllConcat(f, [0x06], Zeros(room - 2), rate);
      FeedOneMore(f, [0x06] + Zeros(room - 2), 0x80, rate);
    }
  }

  lemma ZeroWords(s: State)
    requires forall i | 0 <= i < 25 :: s[i] == 0
    ensures Bytes(s) == Zeros(200)
  {
    forall i | 0 <= i < 200 ensures Bytes(s)[i] == 0 {
      ZeroByte(i % 8);
    }
  }

  lemma ZeroByte(k: nat)
    ensures ByteAt(0, k) == 0
  {}

  lemma ViewsAgree(s: seq<Word64>, bigEndian: bool, k: nat)
    requires |s| == 200 && k < 200
    ensures MemoryByte(s, bigEndian, Masked(k, if bigEndian then 7 else 0)) == Bytes(s[..25])[k]
  {
    MaskUndoesEndianness(k, bigEndian);
  }

  lemma ByteAdded(s: seq<Word64>, t: seq<Word64>, bigEndian: bool, n: nat, v: Byte)
    requires |s| == |t| == 200 && n < 200
    requires forall j: nat | j < 1600  ::
      MemoryByte(t, bigEndian, j) ==
        if j == Masked(n, if bigEndian then 7 else 0) then XorByte(MemoryByte(s, bigEndian, j), v)
        else MemoryByte(s, bigEndian, j)
    ensures Bytes(t[..25]) == XorInto(Bytes(s[..25]), n, [v])
  {
    hide MemoryByte, XorByte, Bytes;
    var mask := if bigEndian then 7 else 0;
    forall i | 0 <= i < 200 ensures Bytes(t[..25])[i] == XorInto(Bytes(s[..25]), n, [v])[i] {
      ViewsAgree(s, bigEndian, i);
      ViewsAgree(t, bigEndian, i);
      ViewsAgree(s, bigEndian, n);
    }
  }

  lemma WordAdded(s: State, n: nat, data: seq<Byte>)
    requires n % 8 == 0 && n + 8 <= 200 && |data| == 8 && Load(data) < TWO64
    ensures Bytes(s[n / 8 := Xor(s[n / 8], Load(data))]) == XorInto(Bytes(s), n, data)
  {
    forall i | 0 <= i < 200
      ensures Bytes(s[n / 8 := Xor(s[n / 8], Load(data))])[i] == XorInto(Bytes(s), n, data)[i]
    {
      if i / 8 == n / 8 {
        XorByBytes(s[n / 8], Load(data), i % 8);
        LoadAt(data, i % 8);
      }
    }
  }

  lemma FeedDefinition(f: Feeder, v: Byte, rate: nat)
    ensures Feed(f, v, rate) ==
      if f.n + 1 == rate then Feeder(Permute(XorInto(f.b, f.n, [v])), 0) else Feeder(XorInto(f.b, f.n, [v]), f.n + 1)
  {}

  lemma FeedOneMore(f: Feeder, m: seq<Byte>, v: Byte, rate: nat)
    ensures FeedAll(f, m + [v], rate) == Feed(FeedAll(f, m, rate), v, rate)
  {
    FeedAllConcat(f, m, [v], rate);
  }

  /** Section 6.1: the capacity is twice the digest. */
  lemma RateOfDigest(iSize: int)
    requires iSize == 224 || iSize == 256 || iSize == 384 || iSize == 512
    ensures 8 * RateOf(iSize) == 1600 - 2 * iSize && 0 <= iSize / 8 <= 64
  {}

  function Flatten(chunks: seq<seq<Byte>>): seq<Byte> {
    if chunks == [] then [] else chunks[0] + Flatten(chunks[1..])
  }

  lemma FlattenNothing()
    ensures Flatten([]) == []
  {}

  /** What the padding of SHA3Final leaves is the sponge of the standard on the bytes fed. */
  lemma FedAndPadded(m: seq<Byte>, rate: nat, f: Feeder)
    requires 1 < rate <= 200 && f == FeedAll(Feeder(Zeros(200), 0), m, rate)
    ensures f.n < rate && FeedAll(f, Padding(rate - f.n), rate).b[..rate] == Sha3(m, rate)
  {
    hide FeedAll, Permute, Padding, Absorb, Zeros;
    var start := Feeder(Zeros(200), 0);
    FeedKeepsCount(start, m, rate);
    FeedAllConcat(start, m, Pad(|m|, rate), rate);
    PadCompletesBlock(|m|, rate);
    FeedAllIsAbsorb(Zeros(200), m + Pad(|m|, rate), rate);
  }

  /**
   SHA3Init, any number of calls of SHA3Update and SHA3Final, as sha3Func and
   sha3QueryFunc make them: however the message is cut up and aligned, and on
   either kind of machine, the digest is that of FIPS 202.
   */
  method Hash(chunks: seq<seq<Byte>>, aligned: seq<bool>, bigEndian: bool, iSize: int) returns (digest: seq<Byte>)
    requires |aligned| == |chunks|
    requires iSize == 224 || iSize == 256 || iSize == 384 || iSize == 512
    ensures digest == Sha3(Flatten(chunks), (1600 - 2 * iSize) / 8)[..iSize / 8]
  {
    hide FeedAll, Flatten, Bytes, Zeros, Padding, Sha3, RateOf;
    var cx := new SHA3Context(iSize, bigEndian);
    var rate := cx.nRate;
    assert chunks[..0] == [];
    RateOfDigest(iSize);
    FlattenNothing();
    FeedNothing(Feeder(Zeros(200), 0), rate);
    for i := 0 to |chunks|
      invariant cx.Valid() && cx.nRate == rate && fresh(cx) && fresh(cx.s)
      invariant cx.Sponge() == FeedAll(Feeder(Zeros(200), 0), Flatten(chunks[..i]), rate)
    {
      cx.Update(chunks[i], aligned[i]);
      FeedAllConcat(Feeder(Zeros(200), 0), Flatten(chunks[..i]), chunks[i], rate);
      FlattenOneMore(chunks[..i], chunks[i]);
      assert chunks[..i + 1] == chunks[..i] + [chunks[i]];
    }
    assert chunks[..|chunks|] == chunks;
    FedAndPadded(Flatten(chunks), rate, cx.Sponge());
    digest := cx.Final();
    digest := digest[..iSize / 8];
  }

  lemma {:induction false} FlattenOneMore(chunks: seq<seq<Byte>>, c: seq<Byte>)
    ensures Flatten(chunks + [c]) == Flatten(chunks) + c
  {
    if chunks == [] {
      assert chunks + [c] == [c];
    } else {
      assert (chunks + [c])[1..] == chunks[1..] + [c];
      FlattenOneMore(chunks[1..], c);
    }
  }
}
