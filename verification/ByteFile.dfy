/** A plain file of bytes: the xRead, xWrite, xTruncate and xFileSize that every VFS offers. */
module ByteFile {
  import opened Words

  /** The bytes read, filled up with zeros, and whether there were fewer than asked for. */
  datatype Reading = Reading(bytes: seq<Byte>, short: bool)

  function Extend(f: seq<Byte>, n: nat): (g: seq<Byte>)
    ensures f <= g && |g| == if |f| < n then n else |f|
    ensures forall i | |f| <= i < |g| :: g[i] == 0
  {
    if |f| < n then f + Zeros(n - |f|) else f
  }

  function WriteAt(f: seq<Byte>, off: nat, data: seq<Byte>): (g: seq<Byte>)
    ensures |g| == if data != [] && |f| < off + |data| then off + |data| else |f|
  {
    if data == [] then f else
    var g := Extend(f, off + |data|);
    g[..off] + data + g[off + |data|..]
  }

  lemma WrittenAt(f: seq<Byte>, off: nat, data: seq<Byte>)
    ensures var g := WriteAt(f, off, data); forall i | 0 <= i < |g| ::
      g[i] == if off <= i < off + |data| then data[i - off] else if i < |f| then f[i] else 0
  {
    hide Extend;
    if data != [] {
      Spliced(Extend(f, off + |data|), off, data);
    }
  }

  lemma Spliced(g: seq<Byte>, off: nat, data: seq<Byte>)
    requires off + |data| <= |g|
    ensures var h := g[..off] + data + g[off + |data|..]; |h| == |g| && forall i | 0 <= i < |g| ::
      h[i] == if off <= i < off + |data| then data[i - off] else g[i]
  {}

  function Truncate(f: seq<Byte>, n: nat): (g: seq<Byte>)
    ensures |g| == n && forall i | 0 <= i < n :: g[i] == if i < |f| then f[i] else 0
  {
    if n <= |f| then f[..n] else Extend(f, n)
  }

  function ReadAt(f: seq<Byte>, off: nat, n: nat): (r: Reading)
    ensures |r.bytes| == n && forall i | 0 <= i < n :: r.bytes[i] == if off + i < |f| then f[off + i] else 0
  {
    Reading(seq(n, i requires 0 <= i < n => if off + i < |f| then f[off + i] else 0), n > 0 && off + n > |f|)
  }

  lemma WriteInside(a: seq<Byte>, c: seq<Byte>, m: seq<Byte>, off: nat, data: seq<Byte>)
    requires off + |data| <= |c|
    ensures WriteAt(a + c + m, |a| + off, data) == a + WriteAt(c, off, data) + m
  {
    hide WriteAt;
    WrittenAt(c, off, data);
    WrittenAt(a + c + m, |a| + off, data);
  }

  lemma WriteAtEnd(f: seq<Byte>, off: nat, data: seq<Byte>)
    requires off <= |f| <= off + |data|
    ensures WriteAt(f, off, data) == f[..off] + data
  {
    hide WriteAt;
    WrittenAt(f, off, data);
  }

  lemma UpToTheWrite(a: seq<Byte>, c: seq<Byte>, m: seq<Byte>, off: nat, data: seq<Byte>)
    requires off <= |c| < off + |data|
    ensures WriteAt(a + c + m, |a| + off, data)[..|a| + off + |data|] == a + WriteAt(c, off, data)
  {
    hide WriteAt;
    WrittenAt(c, off, data);
    WrittenAt(a + c + m, |a| + off, data);
  }

  /** A write that reaches the bytes m, and then m' right after it. */
  lemma WriteBeyond(a: seq<Byte>, c: seq<Byte>, m: seq<Byte>, off: nat, data: seq<Byte>, m': seq<Byte>)
    requires off <= |c| < off + |data| && 0 < |m| == |m'|
    ensures WriteAt(WriteAt(a + c + m, |a| + off, data), |a| + off + |data|, m') == a + WriteAt(c, off, data) + m'
  {
    hide WriteAt;
    var g := WriteAt(a + c + m, |a| + off, data);
    UpToTheWrite(a, c, m, off, data);
    WriteAtEnd(g, |a| + off + |data|, m');
  }

  lemma FirstWrite(p: seq<Byte>, n: nat, data: seq<Byte>, m: seq<Byte>)
    requires |p| <= n && m != []
    ensures WriteAt(WriteAt(p, n, data), n + |data|, m) == Extend(p, n) + data + m
  {}

  lemma TruncateInside(a: seq<Byte>, c: seq<Byte>, m: seq<Byte>, n: nat, m': seq<Byte>)
    requires n <= |c| && 0 < |m| == |m'|
    ensures WriteAt(Truncate(a + c + m, |a| + n + |m|), |a| + n, m') == a + c[..n] + m'
  {}

  lemma FirstTruncate(p: seq<Byte>, n: nat, m: seq<Byte>)
    requires |p| <= n && m != []
    ensures WriteAt(Truncate(p, n + |m|), n, m) == Extend(p, n) + m
  {}
}
