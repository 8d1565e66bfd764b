/**
 Byte strings: little-endian words, concatenated parts, and reading a part
 back at the position where it was written.
 */
module Bytes {
  import opened Bits

  type byte = x: int | 0 <= x < 256

  function Zeros(n: nat): (r: seq<byte>)
    ensures |r| == n && forall i :: 0 <= i < n ==> r[i] == 0
  {
    seq(n, _ => 0)
  }

  // ---- Little-endian words ----

  function Le32(x: nat): (r: seq<byte>)
    requires x < TWO_32
    ensures |r| == 4
  {
    [x % 256, x / 256 % 256, x / 65536 % 256, x / 16777216]
  }

  function FromLe32(b: seq<byte>): (x: nat)
    requires |b| == 4
    ensures x < TWO_32
  {
    var b0: int, b1: int, b2: int, b3: int := b[0], b[1], b[2], b[3];
    b0 + 256 * b1 + 65536 * b2 + 16777216 * b3
  }

  lemma Le32RoundTrip(x: nat)
    requires x < TWO_32
    ensures FromLe32(Le32(x)) == x
  {
    assert x / 65536 == x / 256 / 256 && x / 16777216 == x / 65536 / 256;
  }

  predicate U32s(ws: seq<nat>) {
    forall i :: 0 <= i < |ws| ==> ws[i] < TWO_32
  }

  function Words(ws: seq<nat>): (r: seq<byte>)
    requires U32s(ws)
    ensures |r| == 4 * |ws|
  {
    if ws == [] then [] else Le32(ws[0]) + Words(ws[1..])
  }

  /** The i-th word of a byte string, as memory holds it. */
  function WordAt(b: seq<byte>, i: nat): (x: nat)
    requires 4 * i + 4 <= |b|
    ensures x < TWO_32
  {
    FromLe32(b[4 * i..4 * i + 4])
  }

  lemma {:induction false} WordsAt(ws: seq<nat>, rest: seq<byte>, i: nat)
    requires U32s(ws) && i < |ws|
    ensures (Words(ws) + rest)[4 * i..4 * i + 4] == Le32(ws[i])
  {
    var b := Words(ws) + rest;
    if i == 0 {
      assert b[0..4] == Le32(ws[0]);
    } else {
      WordsAt(ws[1..], rest, i - 1);
      var b' := Words(ws[1..]) + rest;
      assert b == Le32(ws[0]) + b';
      assert b[4 * i..4 * i + 4] == b'[4 * (i - 1)..4 * (i - 1) + 4];
    }
  }

  lemma WordsRoundTrip(ws: seq<nat>, rest: seq<byte>, i: nat)
    requires U32s(ws) && i < |ws|
    ensures WordAt(Words(ws) + rest, i) == ws[i]
  {
    WordsAt(ws, rest, i);
    Le32RoundTrip(ws[i]);
  }

  /** From word `w` on the bytes hold these words. */
  ghost predicate HasWords(h: seq<byte>, w: nat, ws: seq<nat>) {
    4 * (w + |ws|) <= |h| && forall f: nat :: f < |ws| ==> WordAt(h, w + f) == ws[f]
  }

  lemma Associative(x: seq<byte>, y: seq<byte>, z: seq<byte>)
    ensures (x + y) + z == x + (y + z)
  {
  }

  lemma {:induction false} WordsAppend(a: seq<nat>, b: seq<nat>)
    requires U32s(a) && U32s(b)
    ensures U32s(a + b) && Words(a + b) == Words(a) + Words(b)
  {
    if a == [] {
      assert a + b == b;
    } else {
      WordsAppend(a[1..], b);
      assert (a + b)[1..] == a[1..] + b && (a + b)[0] == a[0];
      Associative(Le32(a[0]), Words(a[1..]), Words(b));
    }
  }

  lemma ZerosAppend(m: nat, n: nat)
    ensures Zeros(m) + Zeros(n) == Zeros(m + n)
  {
  }

  // ---- Parts ----

  function Concat(parts: seq<seq<byte>>): seq<byte> {
    if parts == [] then [] else parts[0] + Concat(parts[1..])
  }

  lemma {:induction false} ConcatSplit(parts: seq<seq<byte>>, i: nat)
    requires i <= |parts|
    ensures Concat(parts) == Concat(parts[..i]) + Concat(parts[i..])
  {
    if i > 0 {
      ConcatSplit(parts[1..], i - 1);
      assert parts[..i][1..] == parts[1..][..i - 1];
      assert parts[i..] == parts[1..][i - 1..];
    } else {
      assert parts[0..] == parts;
    }
  }

  lemma ConcatSnoc(parts: seq<seq<byte>>, p: seq<byte>)
    ensures Concat(parts + [p]) == Concat(parts) + p
  {
    ConcatSplit(parts + [p], |parts|);
    assert (parts + [p])[..|parts|] == parts && (parts + [p])[|parts|..] == [p];
    assert Concat([p]) == p + Concat([]);
  }

  /** The position of part i. */
  function Start(parts: seq<seq<byte>>, i: nat): nat
    requires i <= |parts|
  {
    |Concat(parts[..i])|
  }

  /** Parts follow one another without gaps. */
  lemma StartNext(parts: seq<seq<byte>>, i: nat)
    requires i < |parts|
    ensures Start(parts, i + 1) == Start(parts, i) + |parts[i]|
    ensures Start(parts, i + 1) <= |Concat(parts)|
  {
    assert parts[..i + 1] == parts[..i] + [parts[i]];
    ConcatSnoc(parts[..i], parts[i]);
    ConcatSplit(parts, i + 1);
  }

  lemma PartAt(parts: seq<seq<byte>>, i: nat)
    requires i < |parts|
    ensures Start(parts, i) + |parts[i]| <= |Concat(parts)|
    ensures Concat(parts)[Start(parts, i)..Start(parts, i) + |parts[i]|] == parts[i]
  {
    ConcatSplit(parts, i);
    assert parts[i..][1..] == parts[i + 1..];
  }

  lemma PartIs(parts: seq<seq<byte>>, i: nat, at: nat, x: seq<byte>)
    requires i < |parts| && parts[i] == x && Start(parts, i) == at
    ensures at + |x| <= |Concat(parts)| && Concat(parts)[at..at + |x|] == x
  {
    PartAt(parts, i);
  }

  lemma ByteAt(parts: seq<seq<byte>>, i: nat, k: nat)
    requires i < |parts| && k < |parts[i]|
    ensures Start(parts, i) + k < |Concat(parts)|
    ensures Concat(parts)[Start(parts, i) + k] == parts[i][k]
  {
    PartAt(parts, i);
    var at := Start(parts, i);
    assert Concat(parts)[at..at + |parts[i]|][k] == Concat(parts)[at + k];
  }

  /** A concatenation ends in its last two parts. */
  lemma LastTwo(parts: seq<seq<byte>>, x: seq<byte>, z: seq<byte>)
    requires |parts| >= 2 && parts[|parts| - 2] == x && parts[|parts| - 1] == z
    ensures var at := Start(parts, |parts| - 2); at <= |Concat(parts)| && Concat(parts)[at..] == x + z
  {
    var i := |parts| - 2;
    ConcatSplit(parts, i);
    assert parts[i..] == [x] + [z];
    ConcatSnoc([x], z);
    assert Concat([x]) == x + Concat([]);
  }

  lemma ConcatWrapped(a: seq<byte>, b: seq<byte>, parts: seq<seq<byte>>, z: seq<byte>)
    ensures Concat([a, b] + parts + [z]) == a + b + Concat(parts) + z
  {
    ConcatSnoc([a, b] + parts, z);
    ConcatSplit([a, b] + parts, 2);
    assert ([a, b] + parts)[..2] == [a] + [b] && ([a, b] + parts)[2..] == parts;
    ConcatSnoc([a], b);
    assert Concat([a]) == a + Concat([]);
  }

  // ---- Reading a file ----

  /** fread: up to `n` bytes from `pos`, fewer at the end of the file. */
  function ReadAt(file: seq<byte>, pos: nat, n: nat): (r: seq<byte>)
    ensures |r| == if pos >= |file| then 0 else if pos + n <= |file| then n else |file| - pos
    ensures forall k :: 0 <= k < |r| ==> r[k] == file[pos + k]
  {
    if pos >= |file| then []
    else if pos + n <= |file| then file[pos..pos + n]
    else file[pos..]
  }

  // ---- Buffers ----

  /** The buffer holds `w` followed by zeros. */
  ghost predicate Holds(buf: array<byte>, w: seq<byte>)
    reads buf
  {
    |w| <= buf.Length && buf[..] == w + Zeros(buf.Length - |w|)
  }

  /** memcpy into a zeroed part of a buffer, inside its bounds. */
  method Memcpy(buf: array<byte>, off: nat, src: seq<byte>, ghost w: seq<byte>)
    requires Holds(buf, w) && |w| <= off && off + |src| <= buf.Length
    modifies buf
    ensures Holds(buf, w + Zeros(off - |w|) + src)
  {
    forall i | 0 <= i < |src| {
      buf[off + i] := src[i];
    }
    assert buf[..] == w + Zeros(off - |w|) + src + Zeros(buf.Length - off - |src|);
  }
}
