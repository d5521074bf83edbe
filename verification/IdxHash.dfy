/** IdxHash: a chained hash table whose entries are also on one list of all entries. */
module IdxHashTable {
  import opened Wrappers
  import opened Words

  const IDX_HASH_SIZE := 1023
  const TWO32 := 0x1_0000_0000

  /** Nine times the hash so far, plus the byte, in 32 bits. */
  function HashWord(z: seq<Byte>): (h: nat)
    ensures h < TWO32
  {
    if z == [] then 0 else (9 * HashWord(z[..|z| - 1]) + z[|z| - 1]) % TWO32
  }

  function Bucket(z: seq<Byte>): (h: nat)
    ensures h < IDX_HASH_SIZE
  {
    HashWord(z) % IDX_HASH_SIZE
  }

  lemma WrapInside(x: nat, y: nat)
    ensures (x % TWO32 + y) % TWO32 == (x + y) % TWO32
  {
    var q := x / TWO32;
    assert x + y == x % TWO32 + y + TWO32 * q;
  }

  lemma ShiftAndAdd(ret: nat, b: Byte)
    ensures (ret + (ret * 8 % TWO32 + b) % TWO32) % TWO32 == (9 * ret + b) % TWO32
  {
    WrapInside(ret * 8, b);
    WrapInside(ret * 8 + b, ret);
  }

  method HashString(z: seq<Byte>) returns (h: nat)
    ensures h == Bucket(z) < 1023
  {
    var ret: nat := 0;
    for i := 0 to |z|
      invariant ret == HashWord(z[..i])
    {
      assert z[..i + 1][..i] == z[..i];
      ShiftAndAdd(ret, z[i]);
      ret := (ret + (ret * 8 % TWO32 + z[i]) % TWO32) % TWO32;
    }
    assert z[..|z|] == z;
    h := ret % IDX_HASH_SIZE;
  }

  class IdxHashEntry {
    const zKey: seq<Byte>
    const zVal: Option<seq<Byte>>
    var pHashNext: IdxHashEntry?
    var pNext: IdxHashEntry?

    constructor (zKey: seq<Byte>, zVal: Option<seq<Byte>>, pHashNext: IdxHashEntry?, pNext: IdxHashEntry?)
      ensures this.zKey == zKey && this.zVal == zVal && this.pHashNext == pHashNext && this.pNext == pNext
    {
      this.zKey, this.zVal, this.pHashNext, this.pNext := zKey, zVal, pHashNext, pNext;
    }
  }

  ghost function Follower(all: seq<IdxHashEntry>, k: nat): IdxHashEntry?
    requires k < |all|
  {
    if k + 1 < |all| then all[k + 1] else null
  }

  /** The first entry from position k on that belongs to bucket h. */
  ghost function NextIn(all: seq<IdxHashEntry>, k: nat, h: nat): IdxHashEntry?
    decreases |all| - k
  {
    if k >= |all| then null else if Bucket(all[k].zKey) == h then all[k] else NextIn(all, k + 1, h)
  }

  ghost function First(all: seq<IdxHashEntry>): IdxHashEntry? {
    if all == [] then null else all[0]
  }

  ghost predicate Listed(all: seq<IdxHashEntry>)
    reads all
  {
    forall k | 0 <= k < |all| :: all[k].pNext == Follower(all, k)
  }

  ghost predicate Chained(all: seq<IdxHashEntry>)
    reads all
  {
    forall k | 0 <= k < |all| :: all[k].pHashNext == NextIn(all, k + 1, Bucket(all[k].zKey))
  }

  lemma ListedPrepended(e: IdxHashEntry, all: seq<IdxHashEntry>)
    requires Listed(all) && e.pNext == First(all)
    ensures Listed([e] + all)
  {
    var now := [e] + all;
    forall k | 0 <= k < |now| ensures now[k].pNext == Follower(now, k) {
      assert k > 0 ==> now[k] == all[k - 1] && all[k - 1].pNext == Follower(all, k - 1);
    }
  }

  lemma ChainedPrepended(e: IdxHashEntry, all: seq<IdxHashEntry>)
    requires Chained(all) && e.pHashNext == NextIn(all, 0, Bucket(e.zKey))
    ensures Chained([e] + all)
  {
    hide Bucket;
    var now := [e] + all;
    forall k | 0 <= k < |now| ensures now[k].pHashNext == NextIn(now, k + 1, Bucket(now[k].zKey)) {
      NextInPrepended(e, all, k, Bucket(now[k].zKey));
      assert k > 0 ==> now[k] == all[k - 1] && all[k - 1].pHashNext == NextIn(all, k, Bucket(all[k - 1].zKey));
    }
  }

  lemma {:induction false} NextInPrepended(e: IdxHashEntry, all: seq<IdxHashEntry>, k: nat, h: nat)
    ensures NextIn([e] + all, k + 1, h) == NextIn(all, k, h)
    decreases |all| - k
  {
    if k < |all| {
      assert ([e] + all)[k + 1] == all[k];
      NextInPrepended(e, all, k + 1, h);
    }
  }

  lemma NextInNow(e: IdxHashEntry, all: seq<IdxHashEntry>)
    ensures forall h: nat :: NextIn([e] + all, 0, h) == if Bucket(e.zKey) == h then e else NextIn(all, 0, h)
  {
    hide Bucket;
    forall h: nat ensures NextIn([e] + all, 1, h) == NextIn(all, 0, h) {
      NextInPrepended(e, all, 0, h);
    }
  }

  datatype Pair = Pair(key: seq<Byte>, val: Option<seq<Byte>>)

  ghost function PairsOf(all: seq<IdxHashEntry>): (ps: seq<Pair>)
    ensures |ps| == |all| && forall i | 0 <= i < |ps| :: ps[i] == Pair(all[i].zKey, all[i].zVal)
  {
    seq(|all|, i requires 0 <= i < |all| => Pair(all[i].zKey, all[i].zVal))
  }

  /** Position of a key, or the length of the list. */
  function IndexOf(ps: seq<Pair>, key: seq<Byte>): (k: nat)
    ensures k <= |ps| && (k < |ps| ==> ps[k].key == key)
    ensures forall j | 0 <= j < k :: ps[j].key != key
  {
    if ps == [] || ps[0].key == key then 0 else 1 + IndexOf(ps[1..], key)
  }

  ghost predicate DistinctKeys(ps: seq<Pair>) {
    forall i, j | 0 <= i < j < |ps| :: ps[i].key != ps[j].key
  }

  class IdxHash {
    var pFirst: IdxHashEntry?
    const aHash: array<IdxHashEntry?>
    /** All entries in the order of the list that begins at pFirst. */
    ghost var all: seq<IdxHashEntry>

    ghost predicate ListOk()
      reads this, all
    {
      pFirst == First(all) && Listed(all)
    }

    /** Each chain runs through the entries of its bucket, in the order of the list. */
    ghost predicate ChainsOk()
      reads this, aHash, all
    {
      && aHash.Length == IDX_HASH_SIZE
      && (forall h | 0 <= h < IDX_HASH_SIZE :: aHash[h] == NextIn(all, 0, h))
      && Chained(all)
    }

    ghost predicate Valid()
      reads this, aHash, all
    {
      ListOk() && ChainsOk() && DistinctKeys(Pairs())
    }

    ghost function Pairs(): seq<Pair>
      reads this`all
    {
      PairsOf(all)
    }

    /** idxHashInit */
    constructor ()
      ensures Valid() && Pairs() == [] && fresh(aHash)
    {
      aHash := new IdxHashEntry?[IDX_HASH_SIZE](_ => null);
      pFirst, all := null, [];
    }

    /** idxHashFind */
    method Find(zKey: seq<Byte>) returns (pEntry: IdxHashEntry?)
      requires Valid()
      ensures var k := IndexOf(Pairs(), zKey); pEntry == if k < |all| then all[k] else null
    {
      hide NextIn, Bucket, PairsOf, ListOk;
      var iHash := HashString(zKey);
      pEntry := aHash[iHash];
      ghost var k: nat := 0;
      while pEntry != null && pEntry.zKey != zKey
        invariant k <= |all| && pEntry == NextIn(all, k, iHash)
        invariant forall j | 0 <= j < k :: all[j].zKey != zKey
        decreases |all| - k
      {
        var n := NextIsAt(all, k, iHash);
        pEntry := pEntry.pHashNext;
        k := n + 1;
      }
      ghost var at := NextIsAt(all, k, iHash);
    }

    /** idxHashSearch; None stands for NULL, be it that there is no entry or that its value is NULL. */
    method Search(zKey: seq<Byte>) returns (zVal: Option<seq<Byte>>)
      requires Valid()
      ensures zVal == Lookup(Pairs(), zKey)
    {
      var pEntry := Find(zKey);
      zVal := if pEntry != null then pEntry.zVal else None;
    }

    /** idxHashAdd; `oom` says that the allocation fails. */
    method Add(zKey: seq<Byte>, zVal: Option<seq<Byte>>, oom: bool) returns (present: bool)
      requires Valid()
      modifies this, aHash
      ensures Valid()
      ensures present == (IndexOf(old(Pairs()), zKey) < |old(Pairs())|)
      ensures Pairs() == if present || oom then old(Pairs()) else [Pair(zKey, zVal)] + old(Pairs())
    {
      var pEntry := Find(zKey);
      if pEntry != null {
        return true;
      }
      if !oom {
        Prepend(zKey, zVal);
      }
      present := false;
    }

    /** The loop of idxHashClear over one chain; `freed` are the entries it frees. */
    method FreeChain(i: nat) returns (ghost freed: seq<IdxHashEntry>)
      requires ChainsOk() && i < IDX_HASH_SIZE
      ensures freed == InBuckets(all, 0, i, i + 1)
    {
      hide NextIn, Bucket, InBuckets;
      var pEntry := aHash[i];
      ghost var k: nat := 0;
      freed := [];
      while pEntry != null
        invariant k <= |all| && pEntry == NextIn(all, k, i)
        invariant freed + InBuckets(all, k, i, i + 1) == InBuckets(all, 0, i, i + 1)
        decreases |all| - k
      {
        var n := ChainStep(all, k, i);
        freed := freed + [pEntry];
        pEntry := pEntry.pHashNext;
        k := n + 1;
      }
      ghost var n := ChainStep(all, k, i);
    }

    method FreeAll() returns (ghost freed: seq<IdxHashEntry>)
      requires ChainsOk()
      ensures multiset(freed) == multiset(all)
    {
      hide InBuckets, Bucket, ChainsOk;
      freed := [];
      NoBuckets(all, 0);
      assert all[0..] == all;
      for i := 0 to IDX_HASH_SIZE
        invariant multiset(freed) == multiset(InBuckets(all, 0, 0, i))
      {
        ghost var more := FreeChain(i);
        OneMoreBucket(all, 0, i);
        freed := freed + more;
      }
    }

    /** idxHashClear: every entry is freed exactly once. */
    method Clear() returns (ghost freed: seq<IdxHashEntry>)
      requires Valid()
      modifies this, aHash
      ensures Valid() && Pairs() == []
      ensures multiset(freed) == multiset(old(all))
    {
      freed := FreeAll();
      forall i | 0 <= i < IDX_HASH_SIZE {
        aHash[i] := null;
      }
      pFirst, all := null, [];
    }

    method Prepend(zKey: seq<Byte>, zVal: Option<seq<Byte>>)
      requires Valid() && IndexOf(Pairs(), zKey) == |Pairs()|
      modifies this, aHash
      ensures Valid() && Pairs() == [Pair(zKey, zVal)] + old(Pairs())
    {
      hide NextIn, Bucket, Listed, Chained;
      var iHash := HashString(zKey);
      var pEntry := new IdxHashEntry(zKey, zVal, aHash[iHash], pFirst);
      ListedPrepended(pEntry, all);
      ChainedPrepended(pEntry, all);
      NextInNow(pEntry, all);
      aHash[iHash] := pEntry;
      pFirst := pEntry;
      all := [pEntry] + all;
    }
  }

  /** The entries from position k on that are in buckets lo up to hi. */
  ghost function InBuckets(all: seq<IdxHashEntry>, k: nat, lo: nat, hi: nat): seq<IdxHashEntry>
    decreases |all| - k
  {
    if k >= |all| then []
    else (if lo <= Bucket(all[k].zKey) < hi then [all[k]] else []) + InBuckets(all, k + 1, lo, hi)
  }

  lemma {:induction false} OneMoreBucket(all: seq<IdxHashEntry>, k: nat, h: nat)
    ensures multiset(InBuckets(all, k, 0, h + 1))
      == multiset(InBuckets(all, k, 0, h)) + multiset(InBuckets(all, k, h, h + 1))
    decreases |all| - k
  {
    hide Bucket, InBuckets;
    BucketStep(all, k, 0, h + 1);
    BucketStep(all, k, 0, h);
    BucketStep(all, k, h, h + 1);
    if k < |all| {
      OneMoreBucket(all, k + 1, h);
    }
  }

  lemma BucketStep(all: seq<IdxHashEntry>, k: nat, lo: nat, hi: nat)
    ensures multiset(InBuckets(all, k, lo, hi)) == if k >= |all| then multiset{}
      else (if lo <= Bucket(all[k].zKey) < hi then multiset{all[k]} else multiset{})
           + multiset(InBuckets(all, k + 1, lo, hi))
  {
    hide Bucket;
  }

  lemma {:induction false} NoBuckets(all: seq<IdxHashEntry>, k: nat)
    requires k <= |all|
    ensures InBuckets(all, k, 0, 0) == [] && InBuckets(all, k, 0, IDX_HASH_SIZE) == all[k..]
    decreases |all| - k
  {
    hide HashWord;
    if k < |all| {
      NoBuckets(all, k + 1);
      assert all[k..] == [all[k]] + all[k + 1..];
    }
  }

  lemma {:induction false} ChainStep(all: seq<IdxHashEntry>, k: nat, h: nat) returns (n: nat)
    requires k <= |all|
    ensures k <= n <= |all| && NextIn(all, k, h) == if n < |all| then all[n] else null
    ensures n < |all| ==> Bucket(all[n].zKey) == h
    ensures InBuckets(all, k, h, h + 1) == if n < |all| then [all[n]] + InBuckets(all, n + 1, h, h + 1) else []
    decreases |all| - k
  {
    hide Bucket;
    if k == |all| || Bucket(all[k].zKey) == h {
      n := k;
    } else {
      n := ChainStep(all, k + 1, h);
    }
  }

  /** The value under a key. */
  function Lookup(ps: seq<Pair>, key: seq<Byte>): Option<seq<Byte>> {
    var k := IndexOf(ps, key);
    if k < |ps| then ps[k].val else None
  }

  /** Where the next entry of a bucket is. */
  lemma NextIsAt(all: seq<IdxHashEntry>, k: nat, h: nat) returns (n: nat)
    requires k <= |all|
    ensures k <= n <= |all| && NextIn(all, k, h) == if n < |all| then all[n] else null
    ensures n < |all| ==> Bucket(all[n].zKey) == h
    ensures forall j | k <= j < n :: Bucket(all[j].zKey) != h
    decreases |all| - k
  {
    if k == |all| || Bucket(all[k].zKey) == h {
      n := k;
    } else {
      n := NextIsAt(all, k + 1, h);
    }
  }

  datatype Op = Add(key: seq<Byte>, val: Option<seq<Byte>>) | Clear

  function Step(ps: seq<Pair>, op: Op): seq<Pair> {
    match op
    case Add(key, val) => if IndexOf(ps, key) < |ps| then ps else [Pair(key, val)] + ps
    case Clear => []
  }

  /** The pairs of the table after the first n operations. */
  function After(ops: seq<Op>, n: nat): seq<Pair>
    requires n <= |ops|
  {
    if n == 0 then [] else Step(After(ops, n - 1), ops[n - 1])
  }

  method Perform(h: IdxHash, ops: seq<Op>)
    requires h.Valid() && h.Pairs() == []
    modifies h, h.aHash
    ensures h.Valid() && h.Pairs() == After(ops, |ops|)
  {
    hide IdxHash.Valid, NextIn, Bucket, Listed, Chained, PairsOf;
    for i := 0 to |ops|
      invariant h.Valid() && h.Pairs() == After(ops, i)
    {
      match ops[i] {
        case Add(key, val) =>
          var present := h.Add(key, val, false);
        case Clear =>
          ghost var freed := h.Clear();
      }
    }
  }

  lemma {:induction false} KeysStayDistinct(ops: seq<Op>, n: nat)
    requires n <= |ops|
    ensures DistinctKeys(After(ops, n))
  {
    if n > 0 {
      KeysStayDistinct(ops, n - 1);
    }
  }

  predicate Adds(op: Op, key: seq<Byte>) {
    op.Add? && op.key == key
  }

  predicate Has(ps: seq<Pair>, key: seq<Byte>) {
    IndexOf(ps, key) < |ps|
  }

  /** No clear among the operations from i up to n. */
  ghost predicate NotCleared(ops: seq<Op>, i: nat, n: nat) {
    forall c | i <= c < n && c < |ops| :: !ops[c].Clear?
  }

  /** Operation i adds the key, has not been undone, and every earlier one that adds it has been. */
  ghost predicate FirstSince(ops: seq<Op>, n: nat, i: nat, key: seq<Byte>) {
    && i < n <= |ops| && Adds(ops[i], key) && NotCleared(ops, i, n)
    && forall j | 0 <= j < i :: Adds(ops[j], key) ==> !NotCleared(ops, j, i)
  }

  lemma {:induction false} StaysPresent(ops: seq<Op>, i: nat, n: nat, key: seq<Byte>)
    requires i < n <= |ops| && Adds(ops[i], key) && NotCleared(ops, i, n)
    ensures Has(After(ops, n), key)
  {
    if i + 1 < n {
      StaysPresent(ops, i, n - 1, key);
    }
  }

  lemma {:induction false} AbsentWhenCleared(ops: seq<Op>, n: nat, key: seq<Byte>)
    requires n <= |ops| && forall j | 0 <= j < n :: Adds(ops[j], key) ==> !NotCleared(ops, j, n)
    ensures !Has(After(ops, n), key)
  {
    if n > 0 && ops[n - 1].Add? {
      assert NotCleared(ops, n - 1, n);
      forall j | 0 <= j < n - 1 && Adds(ops[j], key) ensures !NotCleared(ops, j, n - 1) {
        assert !NotCleared(ops, j, n);
      }
      AbsentWhenCleared(ops, n - 1, key);
    }
  }

  lemma AfterStep(ops: seq<Op>, n: nat)
    requires 0 < n <= |ops|
    ensures After(ops, n) == Step(After(ops, n - 1), ops[n - 1])
  {}

  /** What one operation does to a key: a clear apart, it keeps a key that is there and adds the operation's own. */
  lemma AddedOrKept(ps: seq<Pair>, op: Op, key: seq<Byte>)
    requires op.Add?
    ensures Has(ps, key) ==> Has(Step(ps, op), key) && Lookup(Step(ps, op), key) == Lookup(ps, key)
    ensures !Has(ps, key) && op.key == key ==> Has(Step(ps, op), key) && Lookup(Step(ps, op), key) == op.val
  {}

  /** The value under a key is the one that was added first since the table was last cleared. */
  lemma {:induction false} FirstAddWins(ops: seq<Op>, n: nat, i: nat, key: seq<Byte>)
    requires FirstSince(ops, n, i, key)
    ensures Has(After(ops, n), key) && Lookup(After(ops, n), key) == ops[i].val
  {
    hide After, Lookup;
    AfterStep(ops, n);
    AddedOrKept(After(ops, n - 1), ops[n - 1], key);
    if i + 1 < n {
      FirstAddWins(ops, n - 1, i, key);
    } else {
      AbsentWhenCleared(ops, i, key);
    }
  }

  /** A key is in the table only if some operation added it and has not been undone. */
  lemma {:induction false} PresentWasAdded(ops: seq<Op>, n: nat, key: seq<Byte>) returns (i: nat)
    requires n <= |ops| && Has(After(ops, n), key)
    ensures FirstSince(ops, n, i, key)
  {
    if Has(After(ops, n - 1), key) {
      i := PresentWasAdded(ops, n - 1, key);
    } else {
      i := n - 1;
      forall j | 0 <= j < i && Adds(ops[j], key) ensures !NotCleared(ops, j, i) {
        if NotCleared(ops, j, i) {
          StaysPresent(ops, j, i, key);
          assert false;
        }
      }
    }
  }
}
