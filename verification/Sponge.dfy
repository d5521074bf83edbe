/** The SHA-3 sponge of FIPS 202, sections 4, 5.1 and 6.1, on byte strings. */
module Sponge {
  import opened Arithmetic
  import opened Bits
  import opened Fips202
  import opened Words

  type Block = s: seq<Byte> | |s| == 200 witness Zeros(200)

  /** The two views of the union in SHA3Context: 25 words, or 200 bytes. */
  function LaneOf(b: Block, i: nat): Word64
    requires i < 25
  {
    LoadFits(b[8 * i..8 * i + 8]);
    Power256Of8();
    Load(b[8 * i..8 * i + 8])
  }

  function Lanes(b: Block): State {
    seq(25, i requires 0 <= i < 25 => LaneOf(b, i))
  }

  function Bytes(a: State): Block {
    seq(200, i requires 0 <= i < 200 => ByteAt(a[i / 8], i % 8))
  }

  lemma LanesOfBytes(a: State)
    ensures Lanes(Bytes(a)) == a
  {
    forall i | 0 <= i < 25 ensures Lanes(Bytes(a))[i] == a[i] {
      var w := Bytes(a)[8 * i..8 * i + 8];
      forall k: nat | k < 8 ensures ByteAt(Load(w), k) == ByteAt(a[i], k) {
        LoadAt(w, k);
        assert (8 * i + k) / 8 == i && (8 * i + k) % 8 == k;
      }
      LoadFits(w);
      Power256Of8();
      SameBytes(Load(w), a[i], 8);
    }
  }

  function Permute(b: Block): Block {
    Bytes(KeccakF(Lanes(b)))
  }

  function XorByte(x: Byte, y: Byte): Byte {
    XorOfBytes(x, y);
    XorBits(x, y)
  }

  /** b with the bytes of p added from position n on. */
  function XorInto(b: Block, n: nat, p: seq<Byte>): Block {
    seq(200, i requires 0 <= i < 200 => if n <= i < n + |p| then XorByte(b[i], p[i - n]) else b[i])
  }

  /** Section 4: the sponge has taken in the blocks of m. */
  function Absorb(b: Block, m: seq<Byte>, rate: nat): Block
    requires 0 < rate
    decreases |m|
  {
    if |m| < rate then b else Absorb(Permute(XorInto(b, 0, m[..rate])), m[rate..], rate)
  }

  /** The padding that fills a block with `room` bytes left. */
  function Padding(room: nat): (p: seq<Byte>)
    requires room > 0
    ensures |p| == room
  {
    if room == 1 then [0x86] else [0x06] + Zeros(room - 2) + [0x80]
  }

  /** The domain suffix 01 and pad10*1 after n bytes, as whole bytes. */
  function Pad(n: nat, rate: nat): (p: seq<Byte>)
    requires 1 < rate
    ensures |p| == rate - n % rate
  {
    Padding(rate - n % rate)
  }

  /** Section 6.1, the first `rate` bytes of output; a digest is a prefix of them. */
  function Sha3(m: seq<Byte>, rate: nat): seq<Byte>
    requires 1 < rate <= 200
  {
    Absorb(Zeros(200), m + Pad(|m|, rate), rate)[..rate]
  }

  /** A sponge part way through a block: n bytes of it have been added. */
  datatype Feeder = Feeder(b: Block, n: nat)

  function Feed(f: Feeder, v: Byte, rate: nat): Feeder {
    var b := XorInto(f.b, f.n, [v]);
    if f.n + 1 == rate then Feeder(Permute(b), 0) else Feeder(b, f.n + 1)
  }

  function FeedAll(f: Feeder, m: seq<Byte>, rate: nat): Feeder
    decreases |m|
  {
    if m == [] then f else FeedAll(Feed(f, m[0], rate), m[1..], rate)
  }

  lemma {:induction false} FeedAllConcat(f: Feeder, m: seq<Byte>, more: seq<Byte>, rate: nat)
    ensures FeedAll(f, m + more, rate) == FeedAll(FeedAll(f, m, rate), more, rate)
    decreases |m|
  {
    if m == [] {
      assert m + more == more;
    } else {
      assert (m + more)[1..] == m[1..] + more;
      FeedAllConcat(Feed(f, m[0], rate), m[1..], more, rate);
    }
  }

  /** Bytes that stay within a block only add up; the one that fills it starts the permutation. */
  lemma {:induction false} FeedWithinBlock(f: Feeder, m: seq<Byte>, rate: nat)
    requires f.n + |m| <= rate <= 200 && f.n < rate
    ensures FeedAll(f, m, rate) ==
      if f.n + |m| == rate then Feeder(Permute(XorInto(f.b, f.n, m)), 0) else Feeder(XorInto(f.b, f.n, m), f.n + |m|)
    decreases |m|
  {
    hide Permute, XorByte;
    if m == [] {
      assert XorInto(f.b, f.n, m) == f.b;
    } else {
      var b := XorInto(f.b, f.n, [m[0]]);
      assert XorInto(b, f.n + 1, m[1..]) == XorInto(f.b, f.n, m);
      if |m| == 1 {
        assert m == [m[0]];
      } else {
        FeedWithinBlock(Feeder(b, f.n + 1), m[1..], rate);
      }
    }
  }

  lemma FeedNothing(f: Feeder, rate: nat)
    ensures FeedAll(f, [], rate) == f
  {}

  lemma FeedBlock(b: Block, m: seq<Byte>, rate: nat)
    requires 0 < rate <= 200 && rate <= |m|
    ensures FeedAll(Feeder(b, 0), m, rate) == FeedAll(Feeder(Permute(XorInto(b, 0, m[..rate])), 0), m[rate..], rate)
  {
    hide Permute, XorInto, Feed, FeedAll;
    FeedWithinBlock(Feeder(b, 0), m[..rate], rate);
    assert m == m[..rate] + m[rate..];
    FeedAllConcat(Feeder(b, 0), m[..rate], m[rate..], rate);
  }

  lemma NoBlock(n: nat, rate: nat)
    requires n < rate && n % rate == 0
    ensures n == 0
  {}

  lemma AbsorbBlock(b: Block, m: seq<Byte>, rate: nat)
    requires 0 < rate <= 200
    ensures |m| < rate ==> Absorb(b, m, rate) == b
    ensures rate <= |m| ==> Absorb(b, m, rate) == Absorb(Permute(XorInto(b, 0, m[..rate])), m[rate..], rate)
  {
    hide Permute, XorInto;
  }

  lemma {:induction false} FeedAllIsAbsorb(b: Block, m: seq<Byte>, rate: nat)
    requires 0 < rate <= 200 && |m| % rate == 0
    ensures FeedAll(Feeder(b, 0), m, rate) == Feeder(Absorb(b, m, rate), 0)
    decreases |m|
  {
    hide Permute, XorInto, Feed, FeedAll, Absorb;
    AbsorbBlock(b, m, rate);
    if |m| < rate {
      NoBlock(|m|, rate);
      FeedNothing(Feeder(b, 0), rate);
    } else {
      TakeOneOff(|m|, rate);
      FeedBlock(b, m, rate);
      var rest := m[rate..];
      assert |rest| == |m| - rate;
      FeedAllIsAbsorb(Permute(XorInto(b, 0, m[..rate])), rest, rate);
    }
  }

  lemma {:induction false} FeedKeepsCount(f: Feeder, m: seq<Byte>, rate: nat)
    requires f.n < rate
    ensures FeedAll(f, m, rate).n == (f.n + |m|) % rate
    decreases |m|
  {
    hide Permute, XorInto;
    if m != [] {
      FeedKeepsCount(Feed(f, m[0], rate), m[1..], rate);
      if f.n + 1 == rate {
        TakeOneOff(f.n + |m|, rate);
      }
    }
  }

  /** Appendix B.1: the bits of a byte string, least significant bit of each byte first. */
  function BitsOf(m: seq<Byte>): seq<bool> {
    if m == [] then [] else BitsOfByte(m[0], 8) + BitsOf(m[1..])
  }

  /** The low n bits of v, least significant first. */
  function BitsOfByte(v: nat, n: nat): (r: seq<bool>)
    ensures |r| == n
  {
    if n == 0 then [] else [v % 2 == 1] + BitsOfByte(v / 2, n - 1)
  }

  /** Algorithm 9 of section 5.1: the number of zeros is -m - 2 modulo x. */
  function Pad101(x: nat, m: nat): seq<bool>
    requires x > 0
  {
    [true] + seq((x - (m + 2) % x) % x, _ => false) + [true]
  }

  lemma {:induction false} BitsOfConcat(m: seq<Byte>, p: seq<Byte>)
    ensures BitsOf(m + p) == BitsOf(m) + BitsOf(p)
  {
    if m == [] {
      assert m + p == p;
    } else {
      assert (m + p)[1..] == m[1..] + p;
      BitsOfConcat(m[1..], p);
    }
  }

  lemma {:induction false} BitsOfNothing(n: nat)
    ensures BitsOfByte(0, n) == seq(n, _ => false)
  {
    if n > 0 {
      BitsOfNothing(n - 1);
    }
  }

  lemma {:induction false} BitsOfZeros(n: nat)
    ensures BitsOf(Zeros(n)) == seq(8 * n, _ => false)
  {
    if n > 0 {
      assert Zeros(n)[1..] == Zeros(n - 1);
      BitsOfZeros(n - 1);
      BitsOfNothing(8);
    }
  }

  lemma HalfOfJoin(v: nat, k: nat, w: nat)
    requires k > 0
    ensures (v + Pow2(k) * w) / 2 == v / 2 + Pow2(k - 1) * w && (v + Pow2(k) * w) % 2 == v % 2
  {
    assert Pow2(k) * w == 2 * (Pow2(k - 1) * w);
  }

  lemma {:induction false} BitsOfJoin(v: nat, k: nat, w: nat, n: nat)
    requires k <= n && v < Pow2(k)
    ensures BitsOfByte(v + Pow2(k) * w, n) == BitsOfByte(v, k) + BitsOfByte(w, n - k)
  {
    if k > 0 {
      HalfOfJoin(v, k, w);
      BitsOfJoin(v / 2, k - 1, w, n - 1);
    }
  }

  lemma OneByte(v: Byte)
    ensures BitsOf([v]) == BitsOfByte(v, 8)
  {
    assert BitsOf([v][1..]) == [];
  }

  lemma BitsOfEdges()
    ensures BitsOf([0x06]) == [false, true, true, false, false, false, false, false]
    ensures BitsOf([0x80]) == [false, false, false, false, false, false, false, true]
    ensures BitsOf([0x86]) == [false, true, true, false, false, false, false, true]
  {
    hide BitsOf, BitsOfByte;
    OneByte(0x06);
    OneByte(0x80);
    OneByte(0x86);
    BitsOfLow();
    TopBit(6, 0);
    TopBit(0, 1);
    TopBit(6, 1);
  }

  lemma TopBit(v: nat, w: nat)
    requires v < 128
    ensures BitsOfByte(v + 128 * w, 8) == BitsOfByte(v, 7) + BitsOfByte(w, 1)
  {
    hide BitsOfByte;
    assert Pow2(7) == 128;
    hide Pow2;
    BitsOfJoin(v, 7, w, 8);
  }

  lemma BitsOfLow()
    ensures BitsOfByte(6, 7) == [false, true, true, false, false, false, false]
    ensures BitsOfByte(0, 7) == [false, false, false, false, false, false, false]
    ensures BitsOfByte(1, 1) == [true] && BitsOfByte(0, 1) == [false]
  {
    BitsOfNothing(7);
    BitsOfNothing(4);
    assert BitsOfByte(3, 6) == [true] + BitsOfByte(1, 5) && BitsOfByte(1, 5) == [true] + BitsOfByte(0, 4);
  }

  lemma PadLength(n: nat, rate: nat)
    requires 1 < rate
    ensures var x := 8 * rate; (x - (8 * n + 2 + 2) % x) % x == 8 * (rate - n % rate) - 4
  {
    var q, r := n / rate, n % rate;
    assert 8 * n + 4 == q * (8 * rate) + (8 * r + 4) by {
      assert n == q * rate + r;
      assert q * (8 * rate) == 8 * (q * rate);
    }
    DivideUniquely(q, 8 * r + 4, 8 * rate);
    DivideUniquely(0, 8 * (rate - r) - 4, 8 * rate);
  }

  lemma BitsOfPadding(room: nat)
    requires room > 0
    ensures BitsOf(Padding(room)) == [false, true] + ([true] + seq(8 * room - 4, _ => false) + [true])
  {
    hide BitsOf;
    BitsOfEdges();
    if room > 1 {
      BitsOfConcat([0x06] + Zeros(room - 2), [0x80]);
      BitsOfConcat([0x06], Zeros(room - 2));
      BitsOfZeros(room - 2);
    }
  }

  lemma PadCompletesBlock(n: nat, rate: nat)
    requires 1 < rate
    ensures (n + |Pad(n, rate)|) % rate == 0
  {
    hide Padding;
    var q := n / rate;
    assert n == q * rate + n % rate;
    assert (q + 1) * rate == q * rate + rate;
    DivideUniquely(q + 1, 0, rate);
  }

  /** The bytes appended are the suffix 01 of section 6.1 followed by pad10*1. */
  lemma PaddingIsStandard(m: seq<Byte>, rate: nat)
    requires 1 < rate
    ensures BitsOf(m + Pad(|m|, rate)) == BitsOf(m) + ([false, true] + Pad101(8 * rate, 8 * |m| + 2))
    ensures |m + Pad(|m|, rate)| % rate == 0
  {
    hide Padding, BitsOf;
    PadLength(|m|, rate);
    BitsOfConcat(m, Pad(|m|, rate));
    BitsOfPadding(rate - |m| % rate);
    PadCompletesBlock(|m|, rate);
  }
}
