/** The Keccak-f[1600] permutation as sections 3.2 and 3.4 of FIPS 202 define it. */
module Fips202 {
  import opened Bits

  type Lane = Word64

  type Coord = x: nat | x < 5

  /** Lane (x, y) of the standard is element Cell(x, y). */
  type State = s: seq<Lane> | |s| == 25 witness seq(25, _ => 0)

  function Cell(x: Coord, y: Coord): (i: nat)
    ensures i < 25
  {
    match y
    case 0 => x
    case 1 => 5 + x
    case 2 => 10 + x
    case 3 => 15 + x
    case _ => 20 + x
  }

  lemma CellIsABijection(i: nat, x: Coord, y: Coord)
    ensures i < 25 ==> i == Cell(i % 5, i / 5)
    ensures Cell(x, y) % 5 == x && Cell(x, y) / 5 == y
  {}

  /** Addition of coordinates modulo 5. */
  function Plus(x: Coord, k: Coord): Coord {
    if x + k < 5 then x + k else x + k - 5
  }

  function Twice(y: Coord): Coord {
    Plus(y, y)
  }

  function Thrice(y: Coord): Coord {
    Plus(y, Twice(y))
  }

  function At(a: State, x: Coord, y: Coord): Lane {
    a[Cell(x, y)]
  }

  function Build(f: (Coord, Coord) -> Lane): (s: State)
    ensures forall x: Coord, y: Coord :: At(s, x, y) == f(x, y)
  {
    var s := seq(25, i requires 0 <= i < 25 => f(i % 5, i / 5));
    assert forall x: Coord, y: Coord :: At(s, x, y) == f(x, y) by {
      forall x: Coord, y: Coord ensures At(s, x, y) == f(x, y) {
        CellIsABijection(0, x, y);
      }
    }
    s
  }

  lemma SameLanes(a: State, b: State)
    requires forall x: Coord, y: Coord :: At(a, x, y) == At(b, x, y)
    ensures a == b
  {
    forall i | 0 <= i < 25 ensures a[i] == b[i] {
      CellIsABijection(i, 0, 0);
      assert At(a, i % 5, i / 5) == At(b, i % 5, i / 5);
    }
  }

  function Parity(a: State, x: Coord): Lane {
    Xor(Xor(Xor(Xor(At(a, x, 0), At(a, x, 1)), At(a, x, 2)), At(a, x, 3)), At(a, x, 4))
  }

  function Mix(a: State, x: Coord): Lane {
    Xor(Parity(a, Plus(x, 4)), Rot(Parity(a, Plus(x, 1)), 1))
  }

  /** Section 3.2.1. */
  function Theta(a: State): (r: State)
    ensures forall x: Coord, y: Coord :: At(r, x, y) == Xor(At(a, x, y), Mix(a, x))
  {
    Build((x: Coord, y: Coord) => Xor(At(a, x, y), Mix(a, x)))
  }

  const RHO_OFFSETS: seq<nat> := [
    0, 1, 62, 28, 27,
    36, 44, 6, 55, 20,
    3, 10, 43, 25, 39,
    41, 45, 15, 21, 8,
    18, 2, 61, 56, 14]

  function Offset(x: Coord, y: Coord): nat {
    RHO_OFFSETS[Cell(x, y)]
  }

  /** Section 3.2.2. */
  function Rho(a: State): (r: State)
    ensures forall x: Coord, y: Coord :: At(r, x, y) == Rot(At(a, x, y), Offset(x, y))
  {
    Build((x: Coord, y: Coord) => Rot(At(a, x, y), Offset(x, y)))
  }

  /** Section 3.2.3. */
  function Pi(a: State): (r: State)
    ensures forall x: Coord, y: Coord :: At(r, x, y) == At(a, Plus(x, Thrice(y)), x)
  {
    Build((x: Coord, y: Coord) => At(a, Plus(x, Thrice(y)), x))
  }

  /** Section 3.2.4. */
  function Chi(a: State): (r: State)
    ensures forall x: Coord, y: Coord ::
      At(r, x, y) == Xor(At(a, x, y), AndNot(At(a, Plus(x, 1), y), At(a, Plus(x, 2), y)))
  {
    Build((x: Coord, y: Coord) => Xor(At(a, x, y), AndNot(At(a, Plus(x, 1), y), At(a, Plus(x, 2), y))))
  }

  /** Section 3.2.5. */
  function Iota(a: State, rc: Lane): (r: State)
    ensures forall x: Coord, y: Coord ::
      At(r, x, y) == if x == 0 && y == 0 then Xor(At(a, x, y), rc) else At(a, x, y)
  {
    a[0 := Xor(a[0], rc)]
  }

  function Round(a: State, rc: Lane): State {
    Iota(Chi(Pi(Rho(Theta(a)))), rc)
  }

  const RC: seq<Lane> := [
    0x0000000000000001, 0x0000000000008082, 0x800000000000808a, 0x8000000080008000,
    0x000000000000808b, 0x0000000080000001, 0x8000000080008081, 0x8000000000008009,
    0x000000000000008a, 0x0000000000000088, 0x0000000080008009, 0x000000008000000a,
    0x000000008000808b, 0x800000000000008b, 0x8000000000008089, 0x8000000000008003,
    0x8000000000008002, 0x8000000000000080, 0x000000000000800a, 0x800000008000000a,
    0x8000000080008081, 0x8000000000008080, 0x0000000080000001, 0x8000000080008008]

  function Rounds(a: State, n: nat): State
    requires n <= |RC|
  {
    if n == 0 then a else Round(Rounds(a, n - 1), RC[n - 1])
  }

  /** Section 3.4. */
  function KeccakF(a: State): State {
    Rounds(a, |RC|)
  }
}

/** The step mappings bit by bit, which is how sections 3.2.1 to 3.2.4 of FIPS 202 state them. */
module Fips202Bits {
  import opened Bits
  import opened Words
  import opened Fips202

  /** Bit z of lane (x, y). */
  function BitAt(a: State, x: Coord, y: Coord, z: nat): nat {
    Bit(At(a, x, y), z)
  }

  /** The sum of a column. */
  function ColumnBit(a: State, x: Coord, z: nat): nat {
    (BitAt(a, x, 0, z) + BitAt(a, x, 1, z) + BitAt(a, x, 2, z) + BitAt(a, x, 3, z) + BitAt(a, x, 4, z)) % 2
  }

  lemma ParityAt(a: State, x: Coord, z: nat)
    ensures Bit(Parity(a, x), z) == ColumnBit(a, x, z)
  {
    hide Bit, XorBits;
    XorAt(At(a, x, 0), At(a, x, 1), z);
    XorAt(Xor(At(a, x, 0), At(a, x, 1)), At(a, x, 2), z);
    XorAt(Xor(Xor(At(a, x, 0), At(a, x, 1)), At(a, x, 2)), At(a, x, 3), z);
    XorAt(Xor(Xor(Xor(At(a, x, 0), At(a, x, 1)), At(a, x, 2)), At(a, x, 3)), At(a, x, 4), z);
  }

  /** Theta adds the sums of two columns, one of them a place further down. */
  lemma ThetaAt(a: State, x: Coord, y: Coord, z: nat)
    requires z < 64
    ensures var above := (z + 1) % 64;
      BitAt(Theta(a), x, y, above) ==
        (BitAt(a, x, y, above) + ColumnBit(a, (x + 4) % 5, above) + ColumnBit(a, (x + 1) % 5, z)) % 2
  {
    hide Bit, XorBits, Theta, Parity, Rot, ColumnBit;
    var above := (z + 1) % 64;
    ParityAt(a, Plus(x, 4), above);
    ParityAt(a, Plus(x, 1), z);
    RotAt(Parity(a, Plus(x, 1)), 1, z);
    XorAt(Parity(a, Plus(x, 4)), Rot(Parity(a, Plus(x, 1)), 1), above);
    XorAt(At(a, x, y), Mix(a, x), above);
  }

  lemma RhoAt(a: State, x: Coord, y: Coord, z: nat)
    requires z < 64
    ensures BitAt(Rho(a), x, y, (z + Offset(x, y)) % 64) == BitAt(a, x, y, z)
  {
    hide Bit, Rho, Rot;
    assert Offset(x, y) < 64;
    RotAt(At(a, x, y), Offset(x, y), z);
  }

  lemma PiAt(a: State, x: Coord, y: Coord, z: nat)
    ensures BitAt(Pi(a), x, y, z) == BitAt(a, (x + 3 * y) % 5, x, z)
  {
    hide Bit, Pi;
  }

  /** Chi: a bit changes where its right neighbour is 0 and the one after that is 1. */
  lemma ChiAt(a: State, x: Coord, y: Coord, z: nat)
    ensures BitAt(Chi(a), x, y, z) == BitAt(a, x, y, z) <==>
      !(BitAt(a, (x + 1) % 5, y, z) == 0 && BitAt(a, (x + 2) % 5, y, z) == 1)
  {
    hide XorBits, AndNotBits, Chi, High;
    AndNotAt(At(a, Plus(x, 1), y), At(a, Plus(x, 2), y), z);
    XorAt(At(a, x, y), AndNot(At(a, Plus(x, 1), y), At(a, Plus(x, 2), y)), z);
  }
}

/**
 The permutation of shell.c: four rounds to a pass of the loop, in place.  A
 round leaves each lane in its column but in another row; after four rounds
 every lane is back in the row where the standard puts it.
 */
module Keccak {
  import opened Bits
  import opened Fips202

  const a00 := 0  const a01 := 1  const a02 := 2  const a03 := 3  const a04 := 4
  const a10 := 5  const a11 := 6  const a12 := 7  const a13 := 8  const a14 := 9
  const a20 := 10 const a21 := 11 const a22 := 12 const a23 := 13 const a24 := 14
  const a30 := 15 const a31 := 16 const a32 := 17 const a33 := 18 const a34 := 19
  const a40 := 20 const a41 := 21 const a42 := 22 const a43 := 23 const a44 := 24

  /** Row of memory that holds logical lane (x, y) after k rounds of a pass. */
  function Row(k: nat, x: Coord, y: Coord): Coord {
    if k == 0 then y else Row(k - 1, x, Plus(x, Twice(y)))
  }

  /** Cell of memory that holds logical lane (x, y) after k rounds of a pass. */
  function Place(k: nat, x: Coord, y: Coord): (i: nat)
    ensures i < 25
  {
    Cell(x, Row(k, x, y))
  }

  /** The state that memory s stands for after k rounds of a pass. */
  function Logical(s: seq<Lane>, k: nat): (r: State)
    requires |s| >= 25
    ensures forall x: Coord, y: Coord :: At(r, x, y) == s[Place(k, x, y)]
  {
    Build((x: Coord, y: Coord) => s[Place(k, x, y)])
  }

  /** Lane that theta, rho and pi carry to (x, y). */
  function Moved(a: State, x: Coord, y: Coord): Lane {
    var from := Plus(x, Thrice(y));
    Rot(Xor(At(a, from, x), Mix(a, from)), Offset(from, x))
  }

  /** Lane (x, y) of a round before the round constant. */
  function Stirred(a: State, x: Coord, y: Coord): Lane {
    Xor(Moved(a, x, y), AndNot(Moved(a, Plus(x, 1), y), Moved(a, Plus(x, 2), y)))
  }

  lemma MovedAt(a: State, x: Coord, y: Coord)
    ensures At(Pi(Rho(Theta(a))), x, y) == Moved(a, x, y)
  {
    hide Theta, Rho, Pi, At, Plus, Thrice, Offset, Xor, Rot, Mix;
  }

  lemma RoundLane(a: State, rc: Lane, x: Coord, y: Coord)
    ensures At(Round(a, rc), x, y) == if x == 0 && y == 0 then Xor(Stirred(a, x, y), rc) else Stirred(a, x, y)
  {
    hide Theta, Rho, Pi, Chi, Iota, At, Plus, Moved, Xor, AndNot;
    MovedAt(a, x, y);
    MovedAt(a, Plus(x, 1), y);
    MovedAt(a, Plus(x, 2), y);
  }

  function Mixes(a: State): seq<Lane> {
    [Mix(a, 0), Mix(a, 1), Mix(a, 2), Mix(a, 3), Mix(a, 4)]
  }

  lemma TwiceAndThriceCancel(x: Coord, y: Coord)
    ensures Plus(Plus(x, Twice(y)), Thrice(y)) == x
  {}

  lemma ColumnMoves(a: State, x: Coord, y: Coord)
    ensures Rot(Xor(At(a, x, Plus(x, Twice(y))), Mix(a, x)), Offset(x, Plus(x, Twice(y))))
      == Moved(a, Plus(x, Twice(y)), y)
  {
    hide Xor, Rot, Mix, Offset, At, Plus, Twice, Thrice;
    TwiceAndThriceCancel(x, y);
  }

  lemma Renumbered(a: State, t: seq<Lane>, b: seq<Lane>, shift: Coord, y: Coord)
    requires |t| == |b| == 5 && b == t[5 - shift..] + t[..5 - shift]
    requires t == [Moved(a, Plus(0, shift), y), Moved(a, Plus(1, shift), y), Moved(a, Plus(2, shift), y),
                   Moved(a, Plus(3, shift), y), Moved(a, Plus(4, shift), y)]
    ensures b == [Moved(a, 0, y), Moved(a, 1, y), Moved(a, 2, y), Moved(a, 3, y), Moved(a, 4, y)]
  {
    hide Moved;
    if shift == 0 {} else if shift == 1 {} else if shift == 2 {} else if shift == 3 {} else {}
  }

  lemma RowInjective(k: nat, x: Coord, y: Coord, z: Coord)
    requires y != z
    ensures Row(k, x, y) != Row(k, x, z)
  {
    if k > 0 {
      RowInjective(k - 1, x, Plus(x, Twice(y)), Plus(x, Twice(z)));
    }
  }

  lemma CellsOfPlanesDiffer(k: nat, x: Coord, y: Coord, w: Coord, z: Coord)
    requires x != w || y != z
    ensures Place(k, x, y) != Place(k, w, z)
  {
    if x == w {
      RowInjective(k, x, y, z);
    }
    CellIsABijection(0, x, Row(k, x, y));
    CellIsABijection(0, w, Row(k, w, z));
  }

  lemma ColumnsDiffer(k: nat, y: Coord)
    ensures forall x: Coord, w: Coord :: x != w ==> Place(k, x, y) != Place(k, w, y)
  {
    hide Place;
    forall x: Coord, w: Coord | x != w ensures Place(k, x, y) != Place(k, w, y) {
      CellsOfPlanesDiffer(k, x, y, w, y);
    }
  }

  /** Lane (x, y) of a round, with or without its constant. */
  function Result(a: State, rc: Lane, iota: bool, x: Coord, y: Coord): Lane {
    if iota && x == 0 && y == 0 then Xor(Stirred(a, x, y), rc) else Stirred(a, x, y)
  }

  /** Round k on state a has stored its first n planes; the cells of the others are untouched. */
  ghost predicate Progress(s: seq<Lane>, a: State, k: nat, n: nat, rc: Lane, iota: bool)
    requires |s| >= 25
  {
    forall x: Coord, y: Coord :: s[Place(k, x, y)] ==
      if y < n then Result(a, rc, iota, x, y) else At(a, x, Plus(x, Twice(y)))
  }

  lemma NothingDone(s: seq<Lane>, a: State, k: nat, rc: Lane)
    requires |s| >= 25 && k > 0 && a == Logical(s, k - 1)
    ensures Progress(s, a, k, 0, rc, false)
  {}

  function ChiStored(s: seq<Lane>, l0: nat, l1: nat, l2: nat, l3: nat, l4: nat, b: seq<Lane>): (t: seq<Lane>)
    requires l0 < |s| && l1 < |s| && l2 < |s| && l3 < |s| && l4 < |s| && |b| == 5
    ensures |t| == |s|
  {
    s[l0 := Xor(b[0], AndNot(b[1], b[2]))][l1 := Xor(b[1], AndNot(b[2], b[3]))][l2 := Xor(b[2], AndNot(b[3], b[4]))]
     [l3 := Xor(b[3], AndNot(b[4], b[0]))][l4 := Xor(b[4], AndNot(b[0], b[1]))]
  }

  lemma PlaneDone(s: seq<Lane>, t: seq<Lane>, a: State, k: nat, y: Coord, rc: Lane)
    requires |s| == |t| >= 25
    requires Progress(s, a, k, y, rc, y > 0)
    requires t == ChiStored(s, Place(k, 0, y), Place(k, 1, y), Place(k, 2, y), Place(k, 3, y), Place(k, 4, y),
                            [Moved(a, 0, y), Moved(a, 1, y), Moved(a, 2, y), Moved(a, 3, y), Moved(a, 4, y)])
    ensures Progress(t, a, k, y + 1, rc, y > 0)
  {
    hide Place, At, Twice, Xor, AndNot, Moved;
    ColumnsDiffer(k, y);
    assert t[Place(k, 0, y)] == Stirred(a, 0, y) && t[Place(k, 1, y)] == Stirred(a, 1, y);
    assert t[Place(k, 2, y)] == Stirred(a, 2, y) && t[Place(k, 3, y)] == Stirred(a, 3, y);
    assert t[Place(k, 4, y)] == Stirred(a, 4, y);
    hide Stirred, Plus;
    forall x: Coord, z: Coord | z != y ensures t[Place(k, x, z)] == s[Place(k, x, z)] {
      forall w: Coord ensures Place(k, w, y) != Place(k, x, z) {
        CellsOfPlanesDiffer(k, x, z, w, y);
      }
    }
  }

  lemma ReadPlane(s: seq<Lane>, a: State, k: nat, y: Coord, rc: Lane)
    requires |s| >= 25 && Progress(s, a, k, y, rc, y > 0)
    ensures forall x: Coord :: s[Place(k, x, y)] == At(a, x, Plus(x, Twice(y)))
  {}

  lemma IotaDone(s: seq<Lane>, a: State, k: nat, rc: Lane)
    requires |s| >= 25 && Progress(s, a, k, 1, rc, false)
    ensures Progress(s[a00 := Xor(s[a00], rc)], a, k, 1, rc, true)
  {
    hide Plus, Twice, Stirred, Xor, At, Place;
    CornerStays(k);
    forall x: Coord, y: Coord | x != 0 || y != 0 ensures Place(k, x, y) != 0 {
      CellsOfPlanesDiffer(k, x, y, 0, 0);
    }
  }

  lemma CornerStays(k: nat)
    ensures Place(k, 0, 0) == 0
  {
    if k > 0 {
      CornerStays(k - 1);
    }
  }

  lemma AllDone(s: seq<Lane>, a: State, k: nat, rc: Lane)
    requires |s| >= 25 && Progress(s, a, k, 5, rc, true)
    ensures Logical(s, k) == Round(a, rc)
  {
    hide Round, Stirred, Xor, At, Place;
    forall x: Coord, y: Coord ensures At(Logical(s, k), x, y) == At(Round(a, rc), x, y) {
      RoundLane(a, rc, x, y);
    }
    SameLanes(Logical(s, k), Round(a, rc));
  }

  lemma NextRow(k: nat, x: Coord, y: Coord)
    ensures Row(k + 1, x, y) == Row(k, x, Plus(x, Twice(y)))
  {}

  lemma TwoSteps(x: Coord, y: Coord)
    ensures Plus(x, Twice(Plus(x, Twice(y)))) == Plus(Thrice(x), Twice(Twice(y)))
  {}

  lemma ThreeSteps(x: Coord, y: Coord)
    ensures Plus(Thrice(x), Twice(Twice(Plus(x, Twice(y))))) == Plus(Twice(x), Thrice(y))
  {
    if y == 0 {} else if y == 1 {} else if y == 2 {} else if y == 3 {} else {}
  }

  lemma FourSteps(x: Coord, y: Coord)
    ensures Plus(Twice(x), Thrice(Plus(x, Twice(y)))) == y
  {}

  /** The row is y, x + 2y, 3x + 4y, 2x + 3y and again y, modulo 5. */
  lemma Rows(x: Coord, y: Coord)
    ensures Row(0, x, y) == y && Row(1, x, y) == Plus(x, Twice(y)) && Row(2, x, y) == Plus(Thrice(x), Twice(Twice(y)))
    ensures Row(3, x, y) == Plus(Twice(x), Thrice(y)) && Row(4, x, y) == y
  {
    assert forall z: Coord :: Row(0, x, z) == z;
    hide Row, Plus, Twice, Thrice;
    forall z: Coord ensures Row(1, x, z) == Plus(x, Twice(z)) {
      NextRow(0, x, z);
    }
    forall z: Coord ensures Row(2, x, z) == Plus(Thrice(x), Twice(Twice(z))) {
      NextRow(1, x, z);
      TwoSteps(x, z);
    }
    forall z: Coord ensures Row(3, x, z) == Plus(Twice(x), Thrice(z)) {
      NextRow(2, x, z);
      ThreeSteps(x, z);
    }
    NextRow(3, x, y);
    FourSteps(x, y);
  }

  lemma AllRows()
    ensures forall x: Coord, y: Coord :: Row(0, x, y) == y && Row(1, x, y) == Plus(x, Twice(y))
    ensures forall x: Coord, y: Coord :: Row(2, x, y) == Plus(Thrice(x), Twice(Twice(y)))
    ensures forall x: Coord, y: Coord :: Row(3, x, y) == Plus(Twice(x), Thrice(y)) && Row(4, x, y) == y
  {
    forall x: Coord, y: Coord
      ensures Row(0, x, y) == y && Row(1, x, y) == Plus(x, Twice(y)) && Row(2, x, y) == Plus(Thrice(x), Twice(Twice(y)))
      ensures Row(3, x, y) == Plus(Twice(x), Thrice(y)) && Row(4, x, y) == y
    {
      Rows(x, y);
    }
  }

  method StoreChi(s: array<Lane>, l0: nat, l1: nat, l2: nat, l3: nat, l4: nat, b: seq<Lane>)
    requires s.Length > l0 && s.Length > l1 && s.Length > l2 && s.Length > l3 && s.Length > l4 && |b| == 5
    requires l0 != l1 && l0 != l2 && l0 != l3 && l0 != l4 && l1 != l2
    requires l1 != l3 && l1 != l4 && l2 != l3 && l2 != l4 && l3 != l4
    modifies s
    ensures s[..] == ChiStored(old(s[..]), l0, l1, l2, l3, l4, b)
  {
    s[l0] := Xor(b[0], AndNot(b[1], b[2]));
    s[l1] := Xor(b[1], AndNot(b[2], b[3]));
    s[l2] := Xor(b[2], AndNot(b[3], b[4]));
    s[l3] := Xor(b[3], AndNot(b[4], b[0]));
    s[l4] := Xor(b[4], AndNot(b[0], b[1]));
  }

  lemma MixesAre(a: State, c0: Lane, c1: Lane, c2: Lane, c3: Lane, c4: Lane)
    requires c0 == Parity(a, 0) && c1 == Parity(a, 1) && c2 == Parity(a, 2) && c3 == Parity(a, 3) && c4 == Parity(a, 4)
    ensures Mixes(a) ==
      [Xor(c4, Rot(c1, 1)), Xor(c0, Rot(c2, 1)), Xor(c1, Rot(c3, 1)), Xor(c2, Rot(c4, 1)), Xor(c3, Rot(c0, 1))]
  {
    hide Xor, Rot, Parity;
  }

  method ColumnParity(s: array<Lane>, l0: nat, l1: nat, l2: nat, l3: nat, l4: nat, ghost k: nat, ghost x: Coord)
    returns (c: Lane)
    requires s.Length >= 25
    requires l0 == Place(k, x, 0) && l1 == Place(k, x, 1) && l2 == Place(k, x, 2)
    requires l3 == Place(k, x, 3) && l4 == Place(k, x, 4)
    ensures c == Parity(Logical(s[..], k), x)
  {
    hide Xor, Place;
    c := Xor(Xor(Xor(Xor(s[l0], s[l1]), s[l2]), s[l3]), s[l4]);
  }

  /**
   The ten assignments that the source writes out once per plane: cell l0 holds
   column 0, which is rotated by r0 into word `shift` of b, and so on around;
   then chi overwrites the same five cells.
   */
  method ChiRow(s: array<Lane>, l0: nat, l1: nat, l2: nat, l3: nat, l4: nat,
                r0: nat, r1: nat, r2: nat, r3: nat, r4: nat, d: seq<Lane>, shift: Coord,
                ghost a: State, ghost k: nat, ghost y: Coord, ghost rc: Lane)
    requires s.Length >= 25 && d == Mixes(a) && shift == Twice(y)
    requires l0 == Place(k, 0, y) && r0 == Offset(0, Plus(0, Twice(y)))
    requires l1 == Place(k, 1, y) && r1 == Offset(1, Plus(1, Twice(y)))
    requires l2 == Place(k, 2, y) && r2 == Offset(2, Plus(2, Twice(y)))
    requires l3 == Place(k, 3, y) && r3 == Offset(3, Plus(3, Twice(y)))
    requires l4 == Place(k, 4, y) && r4 == Offset(4, Plus(4, Twice(y)))
    requires Progress(s[..], a, k, y, rc, y > 0)
    modifies s
    ensures Progress(s[..], a, k, y + 1, rc, y > 0)
    ensures s[25..] == old(s[25..])
  {
    hide Xor, AndNot, Rot, Offset, Twice, Plus, Mix, Place, At, Moved, Progress;
    ReadPlane(s[..], a, k, y, rc);
    var t := [Rot(Xor(s[l0], d[0]), r0), Rot(Xor(s[l1], d[1]), r1), Rot(Xor(s[l2], d[2]), r2),
              Rot(Xor(s[l3], d[3]), r3), Rot(Xor(s[l4], d[4]), r4)];
    var b := t[5 - shift..] + t[..5 - shift];
    ColumnMoves(a, 0, y);
    ColumnMoves(a, 1, y);
    ColumnMoves(a, 2, y);
    ColumnMoves(a, 3, y);
    ColumnMoves(a, 4, y);
    Renumbered(a, t, b, shift, y);
    ColumnsDiffer(k, y);
    StoreChi(s, l0, l1, l2, l3, l4, b);
    PlaneDone(old(s[..]), s[..], a, k, y, rc);
  }

  method FirstRound(s: array<Lane>, rc: Lane)
    requires s.Length >= 25
    modifies s
    ensures s[25..] == old(s[25..])
    ensures Logical(s[..], 1) == Round(Logical(old(s[..]), 0), rc)
  {
    hide Xor, AndNot, Rot, Round, Stirred, Progress, Pow2, Parity, Logical, Result, At, Moved, Mix, Mixes, Row;
    AllRows();
    ghost var a := Logical(s[..], 0);
    var c0 := ColumnParity(s, a00, a10, a20, a30, a40, 0, 0);
    var c1 := ColumnParity(s, a01, a11, a21, a31, a41, 0, 1);
    var c2 := ColumnParity(s, a02, a12, a22, a32, a42, 0, 2);
    var c3 := ColumnParity(s, a03, a13, a23, a33, a43, 0, 3);
    var c4 := ColumnParity(s, a04, a14, a24, a34, a44, 0, 4);
    var d := [Xor(c4, Rot(c1, 1)), Xor(c0, Rot(c2, 1)), Xor(c1, Rot(c3, 1)), Xor(c2, Rot(c4, 1)), Xor(c3, Rot(c0, 1))];
    MixesAre(a, c0, c1, c2, c3, c4);
    NothingDone(s[..], a, 1, rc);
    ChiRow(s, a00, a11, a22, a33, a44, 0, 44, 43, 21, 14, d, 0, a, 1, 0, rc);
    IotaDone(s[..], a, 1, rc);
    s[a00] := Xor(s[a00], rc);
    ChiRow(s, a20, a31, a42, a03, a14, 3, 45, 61, 28, 20, d, 2, a, 1, 1, rc);
    ChiRow(s, a40, a01, a12, a23, a34, 18, 1, 6, 25, 8, d, 4, a, 1, 2, rc);
    ChiRow(s, a10, a21, a32, a43, a04, 36, 10, 15, 56, 27, d, 1, a, 1, 3, rc);
    ChiRow(s, a30, a41, a02, a13, a24, 41, 2, 62, 55, 39, d, 3, a, 1, 4, rc);
    AllDone(s[..], a, 1, rc);
  }

  method SecondRound(s: array<Lane>, rc: Lane)
    requires s.Length >= 25
    modifies s
    ensures s[25..] == old(s[25..])
    ensures Logical(s[..], 2) == Round(Logical(old(s[..]), 1), rc)
  {
    hide Xor, AndNot, Rot, Round, Stirred, Progress, Pow2, Parity, Logical, Result, At, Moved, Mix, Mixes, Row;
    AllRows();
    ghost var a := Logical(s[..], 1);
    var c0 := ColumnParity(s, a00, a20, a40, a10, a30, 1, 0);
    var c1 := ColumnParity(s, a11, a31, a01, a21, a41, 1, 1);
    var c2 := ColumnParity(s, a22, a42, a12, a32, a02, 1, 2);
    var c3 := ColumnParity(s, a33, a03, a23, a43, a13, 1, 3);
    var c4 := ColumnParity(s, a44, a14, a34, a04, a24, 1, 4);
    var d := [Xor(c4, Rot(c1, 1)), Xor(c0, Rot(c2, 1)), Xor(c1, Rot(c3, 1)), Xor(c2, Rot(c4, 1)), Xor(c3, Rot(c0, 1))];
    MixesAre(a, c0, c1, c2, c3, c4);
    NothingDone(s[..], a, 2, rc);
    ChiRow(s, a00, a31, a12, a43, a24, 0, 44, 43, 21, 14, d, 0, a, 2, 0, rc);
    IotaDone(s[..], a, 2, rc);
    s[a00] := Xor(s[a00], rc);
    ChiRow(s, a40, a21, a02, a33, a14, 3, 45, 61, 28, 20, d, 2, a, 2, 1, rc);
    ChiRow(s, a30, a11, a42, a23, a04, 18, 1, 6, 25, 8, d, 4, a, 2, 2, rc);
    ChiRow(s, a20, a01, a32, a13, a44, 36, 10, 15, 56, 27, d, 1, a, 2, 3, rc);
    ChiRow(s, a10, a41, a22, a03, a34, 41, 2, 62, 55, 39, d, 3, a, 2, 4, rc);
    AllDone(s[..], a, 2, rc);
  }

  method ThirdRound(s: array<Lane>, rc: Lane)
    requires s.Length >= 25
    modifies s
    ensures s[25..] == old(s[25..])
    ensures Logical(s[..], 3) == Round(Logical(old(s[..]), 2), rc)
  {
    hide Xor, AndNot, Rot, Round, Stirred, Progress, Pow2, Parity, Logical, Result, At, Moved, Mix, Mixes, Row;
    AllRows();
    ghost var a := Logical(s[..], 2);
    var c0 := ColumnParity(s, a00, a40, a30, a20, a10, 2, 0);
    var c1 := ColumnParity(s, a31, a21, a11, a01, a41, 2, 1);
    var c2 := ColumnParity(s, a12, a02, a42, a32, a22, 2, 2);
    var c3 := ColumnParity(s, a43, a33, a23, a13, a03, 2, 3);
    var c4 := ColumnParity(s, a24, a14, a04, a44, a34, 2, 4);
    var d := [Xor(c4, Rot(c1, 1)), Xor(c0, Rot(c2, 1)), Xor(c1, Rot(c3, 1)), Xor(c2, Rot(c4, 1)), Xor(c3, Rot(c0, 1))];
    MixesAre(a, c0, c1, c2, c3, c4);
    NothingDone(s[..], a, 3, rc);
    ChiRow(s, a00, a21, a42, a13, a34, 0, 44, 43, 21, 14, d, 0, a, 3, 0, rc);
    IotaDone(s[..], a, 3, rc);
    s[a00] := Xor(s[a00], rc);
    ChiRow(s, a30, a01, a22, a43, a14, 3, 45, 61, 28, 20, d, 2, a, 3, 1, rc);
    ChiRow(s, a10, a31, a02, a23, a44, 18, 1, 6, 25, 8, d, 4, a, 3, 2, rc);
    ChiRow(s, a40, a11, a32, a03, a24, 36, 10, 15, 56, 27, d, 1, a, 3, 3, rc);
    ChiRow(s, a20, a41, a12, a33, a04, 41, 2, 62, 55, 39, d, 3, a, 3, 4, rc);
    AllDone(s[..], a, 3, rc);
  }

  method FourthRound(s: array<Lane>, rc: Lane)
    requires s.Length >= 25
    modifies s
    ensures s[25..] == old(s[25..])
    ensures Logical(s[..], 4) == Round(Logical(old(s[..]), 3), rc)
  {
    hide Xor, AndNot, Rot, Round, Stirred, Progress, Pow2, Parity, Logical, Result, At, Moved, Mix, Mixes, Row;
    AllRows();
    ghost var a := Logical(s[..], 3);
    var c0 := ColumnParity(s, a00, a30, a10, a40, a20, 3, 0);
    var c1 := ColumnParity(s, a21, a01, a31, a11, a41, 3, 1);
    var c2 := ColumnParity(s, a42, a22, a02, a32, a12, 3, 2);
    var c3 := ColumnParity(s, a13, a43, a23, a03, a33, 3, 3);
    var c4 := ColumnParity(s, a34, a14, a44, a24, a04, 3, 4);
    var d := [Xor(c4, Rot(c1, 1)), Xor(c0, Rot(c2, 1)), Xor(c1, Rot(c3, 1)), Xor(c2, Rot(c4, 1)), Xor(c3, Rot(c0, 1))];
    MixesAre(a, c0, c1, c2, c3, c4);
    NothingDone(s[..], a, 4, rc);
    ChiRow(s, a00, a01, a02, a03, a04, 0, 44, 43, 21, 14, d, 0, a, 4, 0, rc);
    IotaDone(s[..], a, 4, rc);
    s[a00] := Xor(s[a00], rc);
    ChiRow(s, a10, a11, a12, a13, a14, 3, 45, 61, 28, 20, d, 2, a, 4, 1, rc);
    ChiRow(s, a20, a21, a22, a23, a24, 18, 1, 6, 25, 8, d, 4, a, 4, 2, rc);
    ChiRow(s, a30, a31, a32, a33, a34, 36, 10, 15, 56, 27, d, 1, a, 4, 3, rc);
    ChiRow(s, a40, a41, a42, a43, a44, 41, 2, 62, 55, 39, d, 3, a, 4, 4, rc);
    AllDone(s[..], a, 4, rc);
  }

  lemma WholePass(s: seq<Lane>)
    requires |s| >= 25
    ensures Logical(s, 0) == s[..25] == Logical(s, 4)
  {
    hide Round;
    forall x: Coord, y: Coord
      ensures At(Logical(s, 0), x, y) == At(s[..25], x, y) == At(Logical(s, 4), x, y)
    {
      FourRoundsRestoreRows(x, y);
    }
    SameLanes(Logical(s, 0), s[..25]);
    SameLanes(Logical(s, 4), s[..25]);
  }

  lemma FourRoundsRestoreRows(x: Coord, y: Coord)
    ensures Row(4, x, y) == Row(0, x, y) == y
  {
    Rows(x, y);
  }

  lemma NextRound(a: State, i: nat)
    requires i < 24
    ensures Rounds(a, i + 1) == Round(Rounds(a, i), RC[i])
  {
    hide Round;
  }

  method KeccakF1600Step(s: array<Lane>)
    requires s.Length >= 25
    modifies s
    ensures s[..25] == KeccakF(old(s[..25]))
    ensures s[25..] == old(s[25..])
  {
    hide Round, Logical, Rounds;
    ghost var a := s[..25];
    var i := 0;
    FirstOfRounds(a);
    while i < 24
      invariant i % 4 == 0 && i <= 24
      invariant s[..25] == Rounds(a, i)
      invariant s[25..] == old(s[25..])
    {
      WholePass(s[..]);
      FirstRound(s, RC[i]);
      NextRound(a, i);
      SecondRound(s, RC[i + 1]);
      NextRound(a, i + 1);
      ThirdRound(s, RC[i + 2]);
      NextRound(a, i + 2);
      FourthRound(s, RC[i + 3]);
      NextRound(a, i + 3);
      WholePass(s[..]);
      i := i + 4;
    }
  }

  lemma FirstOfRounds(a: State)
    ensures Rounds(a, 0) == a
  {}
}

/** The rotation counts and round constants of FIPS 202, derived as the standard derives them. */
module KeccakTables {
  import opened Bits
  import opened Fips202

  /** Section 3.2.2: the walk that rho takes through the lanes, and how far it turns each. */
  function Walk(t: nat): (Coord, Coord) {
    if t == 0 then (1, 0) else
    var (x, y) := Walk(t - 1);
    (y, Plus(Twice(x), Thrice(y)))
  }

  function Triangle(t: nat): nat {
    if t == 0 then 1 else Triangle(t - 1) + t + 1
  }

  lemma TriangleFormula(t: nat)
    ensures Triangle(t) == (t + 1) * (t + 2) / 2
  {}

  ghost predicate OffsetsFrom(t: nat, x: Coord, y: Coord, turn: nat)
    decreases 24 - t
  {
    t >= 24 || (Offset(x, y) == turn % 64 && OffsetsFrom(t + 1, y, Plus(Twice(x), Thrice(y)), turn + t + 2))
  }

  lemma {:induction false} WalkFits(t: nat)
    requires t < 24
    ensures OffsetsFrom(t, Walk(t).0, Walk(t).1, Triangle(t))
  {
    if t == 0 {
      assert OffsetsFrom(21, 2, 4, 253);
      assert OffsetsFrom(18, 2, 0, 190);
      assert OffsetsFrom(15, 4, 3, 136);
      assert OffsetsFrom(12, 4, 0, 91);
      assert OffsetsFrom(9, 3, 1, 55);
      assert OffsetsFrom(6, 3, 0, 28);
      assert OffsetsFrom(3, 1, 2, 10);
      assert OffsetsFrom(0, 1, 0, 1);
    } else {
      WalkFits(t - 1);
    }
  }

  lemma {:induction false} OffsetsFollowTheWalk(t: nat)
    requires t < 24
    ensures Offset(Walk(t).0, Walk(t).1) == (t + 1) * (t + 2) / 2 % 64
  {
    WalkFits(t);
    TriangleFormula(t);
  }

  /** The shift register of section 3.2.5, Algorithm 5. */
  datatype Register = Register(r0: bool, r1: bool, r2: bool, r3: bool, r4: bool, r5: bool, r6: bool, r7: bool)

  function Shifted(r: Register): Register {
    Register(r.r7, r.r0, r.r1, r.r2, r.r3 != r.r7, r.r4 != r.r7, r.r5 != r.r7, r.r6)
  }

  function Bit(b: bool, weight: nat): nat {
    if b then weight else 0
  }

  /** The constant of one round: seven bits of the register, at positions 2^j - 1. */
  function Constant(r: Register): nat {
    var s := Shifted(r);
    var t := Shifted(s);
    var u := Shifted(t);
    var v := Shifted(u);
    var w := Shifted(v);
    Bit(r.r0, 1) + Bit(s.r0, 2) + Bit(t.r0, 8) + Bit(u.r0, 0x80) + Bit(v.r0, 0x8000) + Bit(w.r0, 0x8000_0000)
    + Bit(Shifted(w).r0, 0x8000_0000_0000_0000)
  }

  function AfterRound(r: Register): Register {
    Shifted(Shifted(Shifted(Shifted(Shifted(Shifted(Shifted(r)))))))
  }

  function Constants(r: Register, n: nat): seq<nat>
    decreases n
  {
    if n == 0 then [] else [Constant(r)] + Constants(AfterRound(r), n - 1)
  }

  function After(r: Register, n: nat): Register
    decreases n
  {
    if n == 0 then r else After(AfterRound(r), n - 1)
  }

  lemma {:induction false} ConstantsSplit(r: Register, m: nat, n: nat)
    ensures Constants(r, m + n) == Constants(r, m) + Constants(After(r, m), n)
    ensures After(r, m + n) == After(After(r, m), n)
    decreases m
  {
    hide Constant, AfterRound;
    if m > 0 {
      ConstantsSplit(AfterRound(r), m - 1, n);
    }
  }

  function Odd(a: bool, b: bool): bool {
    a != b
  }

  /** What seven steps give, worked out bit by bit. */
  lemma SevenSteps(r: Register)
    ensures AfterRound(r) == Register(
      Odd(r.r1, Odd(r.r3, r.r4)), Odd(r.r2, Odd(r.r4, r.r5)), Odd(r.r3, Odd(r.r5, r.r6)), Odd(r.r4, Odd(r.r6, r.r7)),
      Odd(Odd(r.r1, Odd(r.r3, r.r4)), Odd(r.r5, r.r7)), Odd(Odd(r.r1, Odd(r.r2, r.r3)), Odd(r.r5, r.r6)),
      Odd(r.r1, Odd(r.r2, Odd(r.r6, r.r7))), Odd(r.r0, Odd(r.r2, Odd(r.r3, r.r7))))
  {}

  lemma SevenBits(r: Register)
    ensures Constant(r) == Bit(r.r0, 1) + Bit(r.r7, 2) + Bit(r.r6, 8) + Bit(Odd(r.r5, r.r7), 0x80)
      + Bit(Odd(r.r4, Odd(r.r6, r.r7)), 0x8000) + Bit(Odd(r.r3, Odd(r.r5, r.r6)), 0x8000_0000)
      + Bit(Odd(r.r2, Odd(r.r4, r.r5)), 0x8000_0000_0000_0000)
  {}

  /** The register before the first round, and after every four. */
  const R0 := Register(true, false, false, false, false, false, false, false)
  const R4 := Register(true, true, true, true, true, false, true, true)
  const R8 := Register(false, true, false, true, false, false, true, true)
  const R12 := Register(true, false, true, false, true, false, true, true)
  const R16 := Register(false, true, false, true, false, true, false, true)
  const R20 := Register(true, true, true, false, true, true, false, false)
  const R24 := Register(false, true, true, true, false, false, false, true)

  lemma ConstantsFrom0()
    ensures Constants(R0, 4) == [0x1, 0x8082, 0x800000000000808a, 0x8000000080008000]
    ensures After(R0, 4) == R4
  {
    hide Constants, After, Constant, AfterRound;
    FourRounds(R0);
    SevenSteps(R0);
    SevenBits(R0);
    SevenSteps(Register(false, false, false, false, false, false, false, true));
    SevenBits(Register(false, false, false, false, false, false, false, true));
    SevenSteps(Register(false, false, false, true, true, false, true, true));
    SevenBits(Register(false, false, false, true, true, false, true, true));
    SevenSteps(Register(false, true, false, true, true, false, false, false));
    SevenBits(Register(false, true, false, true, true, false, false, false));
  }

  lemma ConstantsFrom4()
    ensures Constants(R4, 4) == [0x808b, 0x80000001, 0x8000000080008081, 0x8000000000008009]
    ensures After(R4, 4) == R8
  {
    hide Constants, After, Constant, AfterRound;
    FourRounds(R4);
    SevenSteps(R4);
    SevenBits(R4);
    SevenSteps(Register(true, false, false, true, false, false, false, false));
    SevenBits(Register(true, false, false, true, false, false, false, false));
    SevenSteps(Register(true, false, true, false, true, true, false, false));
    SevenBits(Register(true, false, true, false, true, true, false, false));
    SevenSteps(Register(true, true, true, true, false, false, true, false));
    SevenBits(Register(true, true, true, true, false, false, true, false));
  }

  lemma ConstantsFrom8()
    ensures Constants(R8, 4) == [0x8a, 0x88, 0x80008009, 0x8000000a]
    ensures After(R8, 4) == R12
  {
    hide Constants, After, Constant, AfterRound;
    FourRounds(R8);
    SevenSteps(R8);
    SevenBits(R8);
    SevenSteps(Register(false, false, false, false, true, true, true, false));
    SevenBits(Register(false, false, false, false, true, true, true, false));
    SevenSteps(Register(true, false, false, false, false, false, true, false));
    SevenBits(Register(true, false, false, false, false, false, true, false));
    SevenSteps(Register(false, false, true, true, false, true, true, true));
    SevenBits(Register(false, false, true, true, false, true, true, true));
  }

  lemma ConstantsFrom12()
    ensures Constants(R12, 4) == [0x8000808b, 0x800000000000008b, 0x8000000000008089, 0x8000000000008003]
    ensures After(R12, 4) == R16
  {
    hide Constants, After, Constant, AfterRound;
    FourRounds(R12);
    SevenSteps(R12);
    SevenBits(R12);
    SevenSteps(Register(true, false, true, true, false, false, true, true));
    SevenBits(Register(true, false, true, true, false, false, true, true));
    SevenSteps(Register(true, true, false, false, false, true, true, false));
    SevenBits(Register(true, true, false, false, false, true, true, false));
    SevenSteps(Register(true, true, false, true, false, true, false, true));
    SevenBits(Register(true, true, false, true, false, true, false, true));
  }

  lemma ConstantsFrom16()
    ensures Constants(R16, 4) == [0x8000000000008002, 0x8000000000000080, 0x800a, 0x800000008000000a]
    ensures After(R16, 4) == R20
  {
    hide Constants, After, Constant, AfterRound;
    FourRounds(R16);
    SevenSteps(R16);
    SevenBits(R16);
    SevenSteps(Register(false, true, false, true, false, true, false, false));
    SevenBits(Register(false, true, false, true, false, true, false, false));
    SevenSteps(Register(false, true, false, false, true, true, true, true));
    SevenBits(Register(false, true, false, false, true, true, true, true));
    SevenSteps(Register(false, false, false, true, false, true, true, true));
    SevenBits(Register(false, false, false, true, false, true, true, true));
  }

  lemma ConstantsFrom20()
    ensures Constants(R20, 4) == [0x8000000080008081, 0x8000000000008080, 0x80000001, 0x8000000080008008]
    ensures After(R20, 4) == R24
  {
    hide Constants, After, Constant, AfterRound;
    FourRounds(R20);
    SevenSteps(R20);
    SevenBits(R20);
    SevenSteps(Register(false, true, true, true, true, true, false, false));
    SevenBits(Register(false, true, true, true, true, true, false, false));
    SevenSteps(Register(true, true, false, true, false, false, false, false));
    SevenBits(Register(true, true, false, true, false, false, false, false));
    SevenSteps(Register(false, false, true, false, false, false, true, false));
    SevenBits(Register(false, false, true, false, false, false, true, false));
  }

  lemma FourRounds(r: Register)
    ensures var s, t, u := AfterRound(r), AfterRound(AfterRound(r)), AfterRound(AfterRound(AfterRound(r)));
      Constants(r, 4) == [Constant(r), Constant(s), Constant(t), Constant(u)] && After(r, 4) == AfterRound(u)
  {
    hide Constant, AfterRound;
  }

  lemma ConstantsToTwelve()
    ensures Constants(R0, 12) == RC[..12] && After(R0, 12) == R12
  {
    hide Constants, After;
    ConstantsFrom0();
    ConstantsSplit(R0, 4, 8);
    ConstantsFrom4();
    ConstantsSplit(R4, 4, 4);
    ConstantsFrom8();
  }

  lemma ConstantsToTwentyFour()
    ensures Constants(R12, 12) == RC[12..]
  {
    hide Constants, After;
    ConstantsFrom12();
    ConstantsSplit(R12, 4, 8);
    ConstantsFrom16();
    ConstantsSplit(R16, 4, 4);
    ConstantsFrom20();
  }

  /** The round constants are those of the shift register. */
  lemma ConstantsFollowTheRegister()
    ensures RC == Constants(R0, 24)
  {
    hide Constants, After;
    ConstantsToTwelve();
    ConstantsToTwentyFour();
    ConstantsSplit(R0, 12, 12);
  }
}
