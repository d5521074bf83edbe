/** A 64-bit word as eight bytes, least significant first. */
module Words {
  import opened Arithmetic
  import opened Bits

  type Byte = b: nat | b < 256

  function Zeros(n: nat): (z: seq<Byte>)
    ensures |z| == n && forall i | 0 <= i < n :: z[i] == 0
  {
    seq(n, _ => 0)
  }

  /** The C string that a buffer holds. */
  function UpToNul(s: seq<Byte>): (r: seq<Byte>)
    ensures r <= s && 0 !in r && (0 !in s ==> r == s) && (|r| < |s| ==> s[|r|] == 0)
  {
    if s == [] || s[0] == 0 then [] else [s[0]] + UpToNul(s[1..])
  }

  function ByteAt(w: nat, k: nat): Byte {
    if k == 0 then w % 256 else ByteAt(w / 256, k - 1)
  }

  function PutByte(w: nat, k: nat, v: Byte): nat {
    if k == 0 then w / 256 * 256 + v else PutByte(w / 256, k - 1, v) * 256 + w % 256
  }

  function Load(bytes: seq<Byte>): nat {
    if bytes == [] then 0 else Load(bytes[1..]) * 256 + bytes[0]
  }

  function Power256(n: nat): (p: nat)
    ensures p > 0
  {
    if n == 0 then 1 else 256 * Power256(n - 1)
  }

  /** The n bytes of v, most significant first. */
  function BigEndian(v: nat, n: nat): (b: seq<Byte>)
    ensures |b| == n
  {
    if n == 0 then [] else BigEndian(v / 256, n - 1) + [v % 256]
  }

  /** The low n bytes of v, least significant first. */
  function Put(v: nat, n: nat): (b: seq<Byte>)
    ensures |b| == n
  {
    if n == 0 then [] else [v % 256] + Put(v / 256, n - 1)
  }

  function FromBig(b: seq<Byte>): nat {
    if b == [] then 0 else FromBig(b[..|b| - 1]) * 256 + b[|b| - 1]
  }

  lemma Joined(q: nat, v: Byte)
    ensures (q * 256 + v) / 256 == q && (q * 256 + v) % 256 == v
  {}

  lemma {:induction false} BigEndianAt(v: nat, n: nat, k: nat)
    requires k < n
    ensures BigEndian(v, n)[k] == ByteAt(v, n - 1 - k)
  {
    if k < n - 1 {
      BigEndianAt(v / 256, n - 1, k);
    }
  }

  lemma {:induction false} PutAt(v: nat, n: nat, k: nat)
    requires k < n
    ensures Put(v, n)[k] == ByteAt(v, k)
  {
    if k > 0 {
      PutAt(v / 256, n - 1, k - 1);
    }
  }

  lemma {:induction false} FromBigEndian(v: nat, n: nat)
    requires v < Power256(n)
    ensures FromBig(BigEndian(v, n)) == v
  {
    if n > 0 {
      FromBigEndian(v / 256, n - 1);
      assert BigEndian(v, n)[..n - 1] == BigEndian(v / 256, n - 1);
    }
  }

  lemma {:induction false} PutByteAt(w: nat, k: nat, v: Byte, j: nat)
    ensures ByteAt(PutByte(w, k, v), j) == if j == k then v else ByteAt(w, j)
  {
    Joined(w / 256, v);
    if k > 0 {
      Joined(PutByte(w / 256, k - 1, v), w % 256);
    }
    if k > 0 && j > 0 {
      PutByteAt(w / 256, k - 1, v, j - 1);
    }
  }

  lemma ByteBelow(q: nat, v: Byte, p: nat)
    requires q < p
    ensures q * 256 + v < 256 * p
  {}

  lemma {:induction false} PutByteFits(w: nat, k: nat, v: Byte, n: nat)
    requires k < n && w < Power256(n)
    ensures PutByte(w, k, v) < Power256(n)
  {
    var p := Power256(n - 1);
    assert Power256(n) == 256 * p;
    hide Power256;
    if k > 0 {
      PutByteFits(w / 256, k - 1, v, n - 1);
      ByteBelow(PutByte(w / 256, k - 1, v), w % 256, p);
    } else {
      ByteBelow(w / 256, v, p);
    }
  }

  lemma {:induction false} LoadAt(bytes: seq<Byte>, k: nat)
    requires k < |bytes|
    ensures ByteAt(Load(bytes), k) == bytes[k]
  {
    if k > 0 {
      LoadAt(bytes[1..], k - 1);
    }
  }

  lemma {:induction false} LoadFits(bytes: seq<Byte>)
    ensures Load(bytes) < Power256(|bytes|)
  {
    if bytes != [] {
      LoadFits(bytes[1..]);
    }
  }

  /** A word is its bytes. */
  lemma {:induction false} SameBytes(v: nat, w: nat, n: nat)
    requires v < Power256(n) && w < Power256(n)
    requires forall k: nat | k < n :: ByteAt(v, k) == ByteAt(w, k)
    ensures v == w
  {
    if n > 0 {
      forall k: nat | k < n - 1 ensures ByteAt(v / 256, k) == ByteAt(w / 256, k) {
        assert ByteAt(v, k + 1) == ByteAt(w, k + 1);
      }
      SameBytes(v / 256, w / 256, n - 1);
      assert ByteAt(v, 0) == ByteAt(w, 0);
    }
  }

  function High(a: nat, n: nat): nat {
    if n == 0 then a else High(a / 2, n - 1)
  }

  function Low(a: nat, n: nat): nat {
    if n == 0 then 0 else a % 2 + 2 * Low(a / 2, n - 1)
  }

  lemma XorHalves(a: nat, b: nat)
    ensures XorBits(a, b) / 2 == XorBits(a / 2, b / 2) && XorBits(a, b) % 2 == (a + b) % 2
  {
    if a == 0 && b == 0 {
    } else {
      assert XorBits(a, b) == (a + b) % 2 + 2 * XorBits(a / 2, b / 2);
    }
  }

  lemma {:induction false} XorOfHigh(a: nat, b: nat, n: nat)
    ensures High(XorBits(a, b), n) == XorBits(High(a, n), High(b, n))
  {
    hide XorBits;
    if n > 0 {
      XorHalves(a, b);
      XorOfHigh(a / 2, b / 2, n - 1);
    }
  }

  lemma LowStep(a: nat, n: nat)
    requires n > 0
    ensures Low(a, n) / 2 == Low(a / 2, n - 1) && Low(a, n) % 2 == a % 2
  {}

  lemma SameHalves(a: nat, b: nat)
    requires a / 2 == b / 2 && a % 2 == b % 2
    ensures a == b
  {}

  lemma {:induction false} XorOfLow(a: nat, b: nat, n: nat)
    ensures Low(XorBits(a, b), n) == XorBits(Low(a, n), Low(b, n))
  {
    if n == 0 {
    } else {
      hide XorBits, Low;
      XorHalves(a, b);
      XorOfLow(a / 2, b / 2, n - 1);
      LowStep(a, n);
      LowStep(b, n);
      LowStep(XorBits(a, b), n);
      XorHalves(Low(a, n), Low(b, n));
      SumParity(Low(a, n), Low(b, n), a, b);
      SameHalves(Low(XorBits(a, b), n), XorBits(Low(a, n), Low(b, n)));
    }
  }

  lemma SumParity(a: nat, b: nat, c: nat, d: nat)
    requires a % 2 == c % 2 && b % 2 == d % 2
    ensures (a + b) % 2 == (c + d) % 2
  {}

  lemma DoubledProduct(h: nat, p: nat)
    ensures h * (2 * p) == 2 * (h * p)
  {}

  lemma {:induction false} HighAndLow(a: nat, n: nat)
    ensures a == High(a, n) * Pow2(n) + Low(a, n) && Low(a, n) < Pow2(n)
  {
    if n > 0 {
      HighAndLow(a / 2, n - 1);
      HighAndLowStep(a, High(a / 2, n - 1), Low(a / 2, n - 1), Pow2(n - 1));
      HighLowUnfold(a, n);
      hide High, Low, Pow2;
    }
  }

  lemma HighLowUnfold(a: nat, n: nat)
    requires n > 0
    ensures High(a, n) == High(a / 2, n - 1) && Low(a, n) == a % 2 + 2 * Low(a / 2, n - 1) && Pow2(n) == 2 * Pow2(n - 1)
  {}

  lemma HighAndLowStep(a: nat, h: nat, l: nat, p: nat)
    requires a / 2 == h * p + l && l < p
    ensures a == h * (2 * p) + (a % 2 + 2 * l) && a % 2 + 2 * l < 2 * p
  {
    DoubledProduct(h, p);
    var x := h * p;
    assert a == 2 * (x + l) + a % 2;
  }

  lemma SplitAtEight(a: nat)
    ensures High(a, 8) == a / 256 && Low(a, 8) == a % 256
  {
    HighAndLow(a, 8);
    assert Pow2(8) == 256;
    Joined(High(a, 8), Low(a, 8));
    hide High, Low, Pow2;
  }

  /** Exclusive or works byte by byte. */
  lemma {:induction false} XorByBytes(a: nat, b: nat, k: nat)
    ensures XorBits(ByteAt(a, k), ByteAt(b, k)) < 256
    ensures ByteAt(XorBits(a, b), k) == XorBits(ByteAt(a, k), ByteAt(b, k))
  {
    XorOfHigh(a, b, 8);
    XorOfLow(a, b, 8);
    SplitAtEight(a);
    SplitAtEight(b);
    SplitAtEight(XorBits(a, b));
    if k > 0 {
      XorByBytes(a / 256, b / 256, k - 1);
    }
  }

  lemma XorOfBytes(x: Byte, y: Byte)
    ensures XorBits(x, y) < 256
  {
    hide XorBits;
    XorByBytes(x, y, 0);
  }

  lemma Power256Of8()
    ensures Power256(8) == TWO64
  {
    assert Power256(4) == 0x1_0000_0000;
  }

  /** Bit k of a word, counted from the least significant one. */
  function Bit(w: nat, k: nat): nat {
    High(w, k) % 2
  }

  lemma {:induction false} HighOfZero(k: nat)
    ensures High(0, k) == 0
  {
    if k > 0 {
      HighOfZero(k - 1);
    }
  }

  lemma {:induction false} XorAt(a: nat, b: nat, k: nat)
    ensures Bit(XorBits(a, b), k) == (Bit(a, k) + Bit(b, k)) % 2
  {
    hide XorBits;
    XorOfHigh(a, b, k);
    XorHalves(High(a, k), High(b, k));
  }

  lemma AndNotHalves(a: nat, b: nat)
    ensures AndNotBits(a, b) / 2 == AndNotBits(a / 2, b / 2)
    ensures AndNotBits(a, b) % 2 == if a % 2 == 0 then b % 2 else 0
  {
    if b != 0 {
      assert AndNotBits(a, b) == (if a % 2 == 0 then b % 2 else 0) + 2 * AndNotBits(a / 2, b / 2);
    }
  }

  /** ~a & b, bit by bit. */
  lemma {:induction false} AndNotAt(a: nat, b: nat, k: nat)
    ensures Bit(AndNotBits(a, b), k) == 1 <==> Bit(a, k) == 0 && Bit(b, k) == 1
  {
    hide AndNotBits;
    AndNotHalves(a, b);
    if k > 0 {
      AndNotAt(a / 2, b / 2, k - 1);
    }
  }

  lemma {:induction false} HighOfHigh(a: nat, m: nat, k: nat)
    ensures High(High(a, m), k) == High(a, m + k)
  {
    if m > 0 {
      HighOfHigh(a / 2, m - 1, k);
    }
  }

  lemma {:induction false} BitOfLow(a: nat, m: nat, k: nat)
    requires k < m
    ensures Bit(Low(a, m), k) == Bit(a, k)
  {
    LowStep(a, m);
    hide Low;
    if k > 0 {
      BitOfLow(a / 2, m - 1, k - 1);
    }
  }

  lemma HighAndLowOf(h: nat, l: nat, n: nat)
    requires l < Pow2(n)
    ensures High(h * Pow2(n) + l, n) == h && Low(h * Pow2(n) + l, n) == l
  {
    hide High, Low, Pow2;
    var a := h * Pow2(n) + l;
    HighAndLow(a, n);
    SameQuotient(High(a, n), Low(a, n), h, l, Pow2(n));
  }

  /** A rotation exchanges the upper and the lower part of the word. */
  lemma RotParts(a: Word64, n: nat)
    requires n < 64
    ensures High(Rot(a, n), n) == Low(a, 64 - n) && Low(Rot(a, n), n) == High(a, 64 - n)
  {
    RotIs(a, n);
    hide High, Low, Pow2, Rot;
    var m := 64 - n;
    HighAndLow(a, m);
    DivideUniquely(High(a, m), Low(a, m), Pow2(m));
    TopFits(a, m, n);
    HighAndLowOf(Low(a, m), High(a, m), n);
  }

  lemma RotIs(a: Word64, n: nat)
    requires n < 64
    ensures Rot(a, n) == a % Pow2(64 - n) * Pow2(n) + a / Pow2(64 - n)
  {
    hide Pow2;
  }

  /** Bit k moves to place k + n, around the end of the word. */
  lemma RotAt(a: Word64, n: nat, k: nat)
    requires n < 64 && k < 64
    ensures Bit(Rot(a, n), (k + n) % 64) == Bit(a, k)
  {
    hide High, Low, Rot;
    var m := 64 - n;
    RotParts(a, n);
    if k < m {
      HighOfHigh(Rot(a, n), n, k);
      BitOfLow(a, m, k);
    } else {
      assert (k + n) % 64 == k - m;
      BitOfLow(Rot(a, n), n, k - m);
      HighOfHigh(a, m, k - m);
    }
  }

  lemma TopFits(a: Word64, m: nat, n: nat)
    requires m + n == 64
    ensures High(a, m) < Pow2(n)
  {
    hide High, Low, Pow2;
    HighAndLow(a, m);
    Pow2Adds(m, n);
    Pow2Of64();
    if High(a, m) >= Pow2(n) {
      Times(Pow2(n), High(a, m), Pow2(m));
    }
  }
}
