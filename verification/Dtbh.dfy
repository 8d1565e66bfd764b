/**
 DTBH images: load_dtbh_block gathers device-tree blobs, sorts their entries
 and lays header and blobs out on page boundaries; unpackdtbhimg reads the
 header page and extracts every entry.
 */
module Dtbh {
  import opened Bits
  import opened Bytes
  import opened Common

  /** "DTBH" as a little-endian word. */
  const DTBH_MAGIC: nat := 0x48425444
  const DTBH_VERSION: nat := 2
  const PLATFORM_CODE: nat := 0x50a6
  const SUBTYPE_CODE: nat := 0x217584da
  const SPACE: nat := 0x20
  const HEADER_SIZE: nat := 12
  /** First byte of every flattened device tree (its magic is d00dfeed). */
  const FDT_FIRST: byte := 0xd0

  // ---- Inputs ----

  /** One accepted .dtb file and the properties read from it. */
  datatype Dtb = Dtb(payload: seq<byte>, chip: nat, hwRev: nat, hwRevEnd: nat) {
    predicate Valid() {
      && 0 < |payload| < TWO_31 && payload[0] == FDT_FIRST
      && chip < TWO_32 && hwRev < TWO_32 && hwRevEnd < TWO_32
    }
  }

  /** The header as the gathering loop sizes it: the k-th blob adds k entries' worth. */
  function HeaderSum(n: nat): nat {
    if n == 0 then HEADER_SIZE else HeaderSum(n - 1) + 32 * n
  }

  /** hdr_sz: where the first blob is said to start. */
  function HeaderSpace(n: nat, p: nat): (r: nat)
    requires p >= 1
    ensures r >= HeaderSum(n) + 4
  {
    RoundUp(HeaderSum(n) + 4, p)
  }

  /** Where the first blob is put. */
  function BodyStart(n: nat, p: nat): (r: nat)
    requires p >= 1
    ensures r >= HEADER_SIZE + 32 * n
  {
    RoundUp(HEADER_SIZE + 32 * n, p)
  }

  function PaddedSize(d: Dtb, p: nat): (r: nat)
    requires p >= 1
    ensures |d.payload| <= r
  {
    RoundUp(|d.payload|, p)
  }

  function Padded(d: Dtb, p: nat): (r: seq<byte>)
    requires p >= 1
    ensures |r| == PaddedSize(d, p)
  {
    d.payload + Zeros(PaddedSize(d, p) - |d.payload|)
  }

  /** The room the first k blobs take. */
  function BlobSpace(dtbs: seq<Dtb>, p: nat, k: nat): (r: nat)
    requires p >= 1 && k <= |dtbs|
  {
    if k == 0 then 0 else BlobSpace(dtbs, p, k - 1) + PaddedSize(dtbs[k - 1], p)
  }

  /** Accepted inputs whose total size stays within 32 bits. */
  ghost predicate Valid(dtbs: seq<Dtb>, p: nat) {
    && IsPageSize(p) && p >= 1
    && |dtbs| >= 1
    && (forall k :: 0 <= k < |dtbs| ==> dtbs[k].Valid())
    && HeaderSpace(|dtbs|, p) + BlobSpace(dtbs, p, |dtbs|) + p <= TWO_32
  }

  // ---- Sizes ----

  lemma {:induction false} HeaderSumClosed(n: nat)
    ensures HeaderSum(n) == 12 + 16 * n * (n + 1)
  {
    if n > 0 {
      HeaderSumClosed(n - 1);
      assert 16 * n * (n + 1) == 16 * (n - 1) * n + 32 * n;
    }
  }

  function Gap(n: nat, p: nat): (g: nat)
    requires n >= 1 && p >= 1
    ensures BodyStart(n, p) + g == HeaderSpace(n, p)
  {
    GapFits(n, p);
    HeaderSpace(n, p) - BodyStart(n, p)
  }

  lemma GapFits(n: nat, p: nat)
    requires n >= 1 && p >= 1
    ensures BodyStart(n, p) <= HeaderSpace(n, p)
  {
    HeaderSumClosed(n);
    Quadratic(n);
    RoundUpIsMultiple(HeaderSum(n) + 4, p);
    RoundUpLeast(HEADER_SIZE + 32 * n, HeaderSpace(n, p), p);
  }

  lemma Quadratic(n: nat)
    requires n >= 1
    ensures 16 * n * (n + 1) >= 32 * n
    ensures n >= 64 ==> 16 * n * (n + 1) >= 1040 * n
  {
    var m := n * (n + 1);
    assert 16 * n * (n + 1) == 16 * m;
    assert m == n * n + n;
    MulAtLeast(n, n);
    if n >= 64 {
      assert n * n >= 64 * n by { assert n * (n - 64) >= 0; }
    }
  }

  /** There is no gap exactly if the header as sized fits one page. */
  lemma NoGapIffOnePage(n: nat, p: nat)
    requires n >= 1 && p >= 2048
    ensures Gap(n, p) == 0 <==> 16 + 16 * n * (n + 1) <= p
  {
    HeaderSumClosed(n);
    Quadratic(n);
    RoundingsMeet(16 + 16 * n * (n + 1), 12 + 32 * n, p);
  }

  /** Two header sizes round to the same page end exactly if the larger fits one page, unless both are far out. */
  lemma RoundingsMeet(a: nat, b: nat, p: nat)
    requires p >= 2048 && 0 < b < a
    requires b > p ==> a >= b + p
    ensures RoundUp(a, p) == RoundUp(b, p) <==> a <= p
  {
    if a <= p {
      OnePage(a, p);
      OnePage(b, p);
    } else if b <= p {
      OnePage(b, p);
    }
  }

  lemma OnePage(x: nat, p: nat)
    requires 0 < x <= p
    ensures RoundUp(x, p) == p
  {
  }

  // ---- Entries ----

  datatype Entry = Entry(chip: nat, platform: nat, subtype: nat, hwRev: nat, hwRevEnd: nat,
                         offset: nat, size: nat, space: nat)
  {
    function Fields(): seq<nat> {
      [chip, platform, subtype, hwRev, hwRevEnd, offset, size, space]
    }
  }

  function EntryFor(dtbs: seq<Dtb>, p: nat, k: nat): Entry
    requires p >= 1 && k < |dtbs|
  {
    Entry(dtbs[k].chip, PLATFORM_CODE, SUBTYPE_CODE, dtbs[k].hwRev, dtbs[k].hwRevEnd,
          HeaderSpace(|dtbs|, p) + BlobSpace(dtbs, p, k), PaddedSize(dtbs[k], p), SPACE)
  }

  /** `order` lists every blob once: position c of the sorted entries belongs to blob order[c]. */
  ghost predicate IsOrder(order: seq<nat>, n: nat) {
    && InRange(order, n)
    && (forall k :: 0 <= k < n ==> k in order)
    && (forall c, d :: 0 <= c < d < |order| ==> order[c] != order[d])
  }

  predicate InRange(order: seq<nat>, n: nat) {
    |order| == n && forall c :: 0 <= c < |order| ==> order[c] < n
  }

  function Entries(dtbs: seq<Dtb>, order: seq<nat>, p: nat): (r: seq<Entry>)
    requires p >= 1 && InRange(order, |dtbs|)
    ensures |r| == |order| && forall c :: 0 <= c < |r| ==> r[c] == EntryFor(dtbs, p, order[c])
  {
    seq(|order|, c requires 0 <= c < |order| => EntryFor(dtbs, p, order[c]))
  }

  function Flat(es: seq<Entry>): (r: seq<nat>)
    ensures |r| == 8 * |es|
  {
    if es == [] then [] else es[0].Fields() + Flat(es[1..])
  }

  lemma {:induction false} FlatAt(es: seq<Entry>, c: nat, f: nat)
    requires c < |es| && f < 8
    ensures Flat(es)[8 * c + f] == es[c].Fields()[f]
  {
    if c > 0 {
      FlatAt(es[1..], c - 1, f);
    }
  }

  // ---- The image ----

  function HeaderWords(dtbs: seq<Dtb>, order: seq<nat>, p: nat): (r: seq<nat>)
    requires p >= 1 && InRange(order, |dtbs|)
    ensures |r| == 3 + 8 * |dtbs|
  {
    [DTBH_MAGIC, DTBH_VERSION, |dtbs|] + Flat(Entries(dtbs, order, p))
  }

  function Blobs(dtbs: seq<Dtb>, p: nat): (r: seq<seq<byte>>)
    requires p >= 1
    ensures |r| == |dtbs| && forall k :: 0 <= k < |r| ==> r[k] == Padded(dtbs[k], p)
  {
    seq(|dtbs|, k requires 0 <= k < |dtbs| => Padded(dtbs[k], p))
  }

  predicate Layable(dtbs: seq<Dtb>, order: seq<nat>, p: nat) {
    p >= 1 && |dtbs| >= 1 && InRange(order, |dtbs|) && U32s(HeaderWords(dtbs, order, p))
  }

  /** The buffer: header, padding, blobs in directory order, and as many zeros as the header was oversized. */
  function ImageParts(dtbs: seq<Dtb>, order: seq<nat>, p: nat): (r: seq<seq<byte>>)
    requires Layable(dtbs, order, p)
    ensures |r| == |dtbs| + 3
  {
    var header := Words(HeaderWords(dtbs, order, p));
    [header, Zeros(BodyStart(|dtbs|, p) - |header|)] + Blobs(dtbs, p) + [Zeros(Gap(|dtbs|, p))]
  }

  function Image(dtbs: seq<Dtb>, order: seq<nat>, p: nat): seq<byte>
    requires Layable(dtbs, order, p)
  {
    Concat(ImageParts(dtbs, order, p))
  }

  lemma {:induction false} BlobSpaceMonotone(dtbs: seq<Dtb>, p: nat, j: nat, k: nat)
    requires p >= 1 && j <= k <= |dtbs|
    ensures BlobSpace(dtbs, p, j) <= BlobSpace(dtbs, p, k)
  {
    if j < k {
      BlobSpaceMonotone(dtbs, p, j, k - 1);
    }
  }

  lemma {:induction false} BlobSpaceIsMultiple(dtbs: seq<Dtb>, p: nat, k: nat)
    requires p >= 1 && k <= |dtbs|
    ensures Multiple(BlobSpace(dtbs, p, k), p)
  {
    if k > 0 {
      BlobSpaceIsMultiple(dtbs, p, k - 1);
      RoundUpIsMultiple(|dtbs[k - 1].payload|, p);
      SumOfMultiples(BlobSpace(dtbs, p, k - 1), PaddedSize(dtbs[k - 1], p), p);
    }
  }

  lemma ValidIsLayable(dtbs: seq<Dtb>, order: seq<nat>, p: nat)
    requires Valid(dtbs, p) && InRange(order, |dtbs|)
    ensures Layable(dtbs, order, p)
  {
    var ws := HeaderWords(dtbs, order, p);
    var es := Entries(dtbs, order, p);
    forall j | 0 <= j < |ws| ensures ws[j] < TWO_32 {
      if j >= 3 {
        var c, f := (j - 3) / 8, (j - 3) % 8;
        FlatAt(es, c, f);
        EntryIsU32(dtbs, p, order[c], f);
      }
    }
  }

  lemma {:induction false} EntryIsU32(dtbs: seq<Dtb>, p: nat, k: nat, f: nat)
    requires Valid(dtbs, p) && k < |dtbs| && f < 8
    ensures EntryFor(dtbs, p, k).Fields()[f] < TWO_32
  {
    BlobSpaceMonotone(dtbs, p, k + 1, |dtbs|);
  }

  lemma {:induction false} BlobPrefix(dtbs: seq<Dtb>, p: nat, k: nat)
    requires p >= 1 && k <= |dtbs|
    ensures |Concat(Blobs(dtbs, p)[..k])| == BlobSpace(dtbs, p, k)
  {
    var bs := Blobs(dtbs, p);
    if k > 0 {
      BlobPrefix(dtbs, p, k - 1);
      assert bs[..k] == bs[..k - 1] + [bs[k - 1]];
      ConcatSnoc(bs[..k - 1], bs[k - 1]);
    }
  }

  /** Blob k sits where the cursor got to, and the image fills the buffer that was allocated. */
  lemma {:induction false} BlobPosition(dtbs: seq<Dtb>, order: seq<nat>, p: nat, k: nat)
    requires Layable(dtbs, order, p) && k <= |dtbs|
    ensures Start(ImageParts(dtbs, order, p), k + 2) == BodyStart(|dtbs|, p) + BlobSpace(dtbs, p, k)
  {
    var parts := ImageParts(dtbs, order, p);
    var front := parts[..2];
    assert parts[..k + 2] == front + Blobs(dtbs, p)[..k];
    ConcatSplit(parts[..k + 2], 2);
    assert parts[..k + 2][..2] == front && parts[..k + 2][2..] == Blobs(dtbs, p)[..k];
    BlobPrefix(dtbs, p, k);
    assert front == [parts[0]] + [parts[1]];
    ConcatSnoc([parts[0]], parts[1]);
    ConcatSnoc([], parts[0]);
    assert [] + [parts[0]] == [parts[0]];
  }

  lemma {:induction false} ImageSize(dtbs: seq<Dtb>, order: seq<nat>, p: nat)
    requires Layable(dtbs, order, p)
    ensures |Image(dtbs, order, p)| == HeaderSpace(|dtbs|, p) + BlobSpace(dtbs, p, |dtbs|)
  {
    var parts := ImageParts(dtbs, order, p);
    var n := |dtbs|;
    BlobPosition(dtbs, order, p, n);
    StartNext(parts, n + 2);
    assert parts[..n + 3] == parts;
  }

  /** Each padded payload sits one fixed distance, the gap, before the offset its entry records, however the entries
      were sorted. */
  lemma {:induction false} PayloadPosition(dtbs: seq<Dtb>, order: seq<nat>, p: nat, k: nat)
    requires Layable(dtbs, order, p) && k < |dtbs|
    ensures var at := EntryFor(dtbs, p, k).offset - Gap(|dtbs|, p);
            && 0 <= at && at + PaddedSize(dtbs[k], p) <= |Image(dtbs, order, p)|
            && Image(dtbs, order, p)[at..at + PaddedSize(dtbs[k], p)] == Padded(dtbs[k], p)
  {
    OffsetBehindGap(dtbs, p, k);
    BlobAt(dtbs, order, p, k, EntryFor(dtbs, p, k).offset - Gap(|dtbs|, p));
  }

  lemma {:induction false} BlobAt(dtbs: seq<Dtb>, order: seq<nat>, p: nat, k: nat, at: nat)
    requires Layable(dtbs, order, p) && k < |dtbs| && at == BodyStart(|dtbs|, p) + BlobSpace(dtbs, p, k)
    ensures at + PaddedSize(dtbs[k], p) <= |Image(dtbs, order, p)|
    ensures Image(dtbs, order, p)[at..at + PaddedSize(dtbs[k], p)] == Padded(dtbs[k], p)
  {
    BlobPosition(dtbs, order, p, k);
    BlobPart(dtbs, order, p, k);
    PartIs(ImageParts(dtbs, order, p), k + 2, at, Padded(dtbs[k], p));
  }

  lemma {:induction false} BlobPart(dtbs: seq<Dtb>, order: seq<nat>, p: nat, k: nat)
    requires Layable(dtbs, order, p) && k < |dtbs|
    ensures ImageParts(dtbs, order, p)[k + 2] == Padded(dtbs[k], p)
    ensures |Padded(dtbs[k], p)| == PaddedSize(dtbs[k], p)
  {
  }

  lemma {:induction false} OffsetBehindGap(dtbs: seq<Dtb>, p: nat, k: nat)
    requires p >= 1 && k < |dtbs|
    ensures EntryFor(dtbs, p, k).offset - Gap(|dtbs|, p) == BodyStart(|dtbs|, p) + BlobSpace(dtbs, p, k)
  {
  }

  /** Entry ranges are page-aligned and follow one another, without gap or overlap, from the end of the header space to
      the end of the buffer. */
  lemma {:induction false} EntriesTile(dtbs: seq<Dtb>, order: seq<nat>, p: nat, k: nat)
    requires Layable(dtbs, order, p) && k < |dtbs|
    ensures var e := EntryFor(dtbs, p, k);
            && e.offset % p == 0 && e.size % p == 0 && e.size == |Padded(dtbs[k], p)|
            && (k == 0 ==> e.offset == HeaderSpace(|dtbs|, p))
            && e.offset + e.size == (if k + 1 < |dtbs| then EntryFor(dtbs, p, k + 1).offset
                                     else |Image(dtbs, order, p)|)
  {
    EntryIsAligned(dtbs, p, k);
    ImageSize(dtbs, order, p);
  }

  lemma {:induction false} EntryIsAligned(dtbs: seq<Dtb>, p: nat, k: nat)
    requires p >= 1 && k < |dtbs|
    ensures EntryFor(dtbs, p, k).offset % p == 0 && EntryFor(dtbs, p, k).size % p == 0
  {
    var e := EntryFor(dtbs, p, k);
    BlobSpaceIsMultiple(dtbs, p, k);
    RoundUpIsMultiple(HeaderSum(|dtbs|) + 4, p);
    RoundUpIsMultiple(|dtbs[k].payload|, p);
    SumOfMultiples(HeaderSpace(|dtbs|, p), BlobSpace(dtbs, p, k), p);
    MultipleIsMod(e.offset, p);
    MultipleIsMod(e.size, p);
  }

  /** Ranges of different entries do not overlap. */
  lemma EntriesDisjoint(dtbs: seq<Dtb>, p: nat, j: nat, k: nat)
    requires p >= 1 && j < k < |dtbs|
    ensures EntryFor(dtbs, p, j).offset + EntryFor(dtbs, p, j).size <= EntryFor(dtbs, p, k).offset
  {
    BlobSpaceMonotone(dtbs, p, j + 1, k);
  }

  // ---- Unpacking ----

  datatype Extracted = Extracted(entry: Entry, data: seq<byte>)

  function EntryAt(h: seq<byte>, c: nat): Entry
    requires HEADER_SIZE + 32 * (c + 1) <= |h|
  {
    var w := 3 + 8 * c;
    Entry(WordAt(h, w), WordAt(h, w + 1), WordAt(h, w + 2), WordAt(h, w + 3), WordAt(h, w + 4), WordAt(h, w + 5),
          WordAt(h, w + 6), WordAt(h, w + 7))
  }

  function ExtractAt(file: seq<byte>, h: seq<byte>, c: nat): Extracted
    requires HEADER_SIZE + 32 * (c + 1) <= |h|
  {
    var e := EntryAt(h, c);
    Extracted(e, ReadAt(file, e.offset, e.size))
  }

  function ExtractAll(file: seq<byte>, h: seq<byte>, n: nat): (r: seq<Extracted>)
    requires HEADER_SIZE + 32 * n <= |h|
    ensures |r| == n && forall c :: 0 <= c < n ==> r[c] == ExtractAt(file, h, c)
  {
    seq(n, c requires 0 <= c < n => ExtractAt(file, h, c))
  }

  /** The unpacker holds one page and looks for the entry table from there on, unchecked: `beyond` is the memory behind
      that page. None when the page cannot be read or the memory ends within the table. */
  function Unpack(file: seq<byte>, p: nat, beyond: seq<byte>): Option<seq<Extracted>> {
    if |file| < p || p == 0 || p + |beyond| < HEADER_SIZE then None
    else
      var memory := file[..p] + beyond;
      var n := WordAt(memory, 2);
      if HEADER_SIZE + 32 * n > |memory| then None else Some(ExtractAll(file, memory, n))
  }

  method ExtractEntries(file: seq<byte>, h: seq<byte>, n: nat) returns (out: seq<Extracted>)
    requires HEADER_SIZE + 32 * n <= |h|
    ensures out == ExtractAll(file, h, n)
  {
    out := [];
    var i := 0;
    while i < n
      invariant 0 <= i <= n && |out| == i
      invariant forall c :: 0 <= c < i ==> out[c] == ExtractAt(file, h, c)
    {
      var e := EntryAt(h, i);
      var data := ReadAt(file, e.offset, e.size);
      out := out + [Extracted(e, data)];
      i := i + 1;
    }
  }

  method UnpackDtbh(file: seq<byte>, p: nat, beyond: seq<byte>) returns (r: Option<seq<Extracted>>)
    ensures r == Unpack(file, p, beyond)
  {
    if |file| < p || p == 0 || p + |beyond| < HEADER_SIZE {
      return None;
    }
    var memory := file[..p] + beyond;
    var n := WordAt(memory, 2);
    if HEADER_SIZE + 32 * n > |memory| {
      return None;
    }
    var out := ExtractEntries(file, memory, n);
    r := Some(out);
  }

  // ---- Round trip ----

  /** The header of an image, seen through the first page. */
  lemma {:induction false} HeaderPage(dtbs: seq<Dtb>, order: seq<nat>, p: nat, j: nat)
    requires Layable(dtbs, order, p) && p <= |Image(dtbs, order, p)|
    requires j < 3 + 8 * |dtbs| && 4 * j + 4 <= p
    ensures WordAt(Image(dtbs, order, p)[..p], j) == HeaderWords(dtbs, order, p)[j]
  {
    var ws := HeaderWords(dtbs, order, p);
    var rest := Concat(ImageParts(dtbs, order, p)[1..]);
    WordsRoundTrip(ws, rest, j);
    WordOfPrefix(Words(ws) + rest, p, j);
  }

  lemma WordOfPrefix(b: seq<byte>, p: nat, j: nat)
    requires p <= |b| && 4 * j + 4 <= p
    ensures WordAt(b[..p], j) == WordAt(b, j)
  {
    assert b[..p][4 * j..4 * j + 4] == b[4 * j..4 * j + 4];
  }

  lemma {:induction false} EntryFieldReadBack(dtbs: seq<Dtb>, order: seq<nat>, p: nat, c: nat, f: nat)
    requires Layable(dtbs, order, p) && p <= |Image(dtbs, order, p)|
    requires c < |dtbs| && HEADER_SIZE + 32 * (c + 1) <= p && f < 8
    ensures WordAt(Image(dtbs, order, p)[..p], 3 + 8 * c + f) == EntryFor(dtbs, p, order[c]).Fields()[f]
  {
    HeaderPage(dtbs, order, p, 3 + 8 * c + f);
    FlatAt(Entries(dtbs, order, p), c, f);
  }

  lemma EntryFromFields(h: seq<byte>, c: nat, e: Entry)
    requires HEADER_SIZE + 32 * (c + 1) <= |h|
    requires forall f: nat :: f < 8 ==> WordAt(h, 3 + 8 * c + f) == e.Fields()[f]
    ensures EntryAt(h, c) == e
  {
    var w := 3 + 8 * c;
    var f := e.Fields();
    assert WordAt(h, w + 0) == f[0] && WordAt(h, w + 1) == f[1] && WordAt(h, w + 2) == f[2];
    assert WordAt(h, w + 3) == f[3] && WordAt(h, w + 4) == f[4] && WordAt(h, w + 5) == f[5];
    assert WordAt(h, w + 6) == f[6] && WordAt(h, w + 7) == f[7];
  }

  lemma EntryReadBack(dtbs: seq<Dtb>, order: seq<nat>, p: nat, c: nat)
    requires Layable(dtbs, order, p) && p <= |Image(dtbs, order, p)|
    requires c < |dtbs| && HEADER_SIZE + 32 * (c + 1) <= p
    ensures EntryAt(Image(dtbs, order, p)[..p], c) == EntryFor(dtbs, p, order[c])
  {
    forall f: nat | f < 8
      ensures WordAt(Image(dtbs, order, p)[..p], 3 + 8 * c + f) == EntryFor(dtbs, p, order[c]).Fields()[f]
    {
      EntryFieldReadBack(dtbs, order, p, c, f);
    }
    EntryFromFields(Image(dtbs, order, p)[..p], c, EntryFor(dtbs, p, order[c]));
  }

  lemma {:induction false} ImageHoldsAPage(dtbs: seq<Dtb>, order: seq<nat>, p: nat)
    requires Valid(dtbs, p) && Layable(dtbs, order, p)
    ensures 2048 <= p <= |Image(dtbs, order, p)|
  {
    PageSizes(p);
    ImageSize(dtbs, order, p);
    RoundUpLarge(HeaderSum(|dtbs|) + 4, p);
  }

  lemma RoundUpLarge(x: nat, p: nat)
    requires p >= 1 && x >= 1
    ensures RoundUp(x, p) >= p
  {
  }

  /** What is found at the place entry k points to. */
  ghost function FoundAt(dtbs: seq<Dtb>, order: seq<nat>, p: nat, k: nat): seq<byte>
    requires Layable(dtbs, order, p) && k < |dtbs|
  {
    ReadAt(Image(dtbs, order, p), EntryFor(dtbs, p, k).offset, PaddedSize(dtbs[k], p))
  }

  /** As many entries come out as were packed; those whose table entry lies within the page come out as packed, each
      with what is found at its offset. */
  ghost predicate Extracts(r: Option<seq<Extracted>>, dtbs: seq<Dtb>, order: seq<nat>, p: nat)
    requires Layable(dtbs, order, p)
  {
    && r.Some? && |r.value| == |dtbs|
    && forall c :: 0 <= c < |dtbs| && HEADER_SIZE + 32 * (c + 1) <= p ==>
         r.value[c] == Extracted(EntryFor(dtbs, p, order[c]), FoundAt(dtbs, order, p, order[c]))
  }

  /** Words within the page do not depend on the memory behind it. */
  lemma WordInPage(page: seq<byte>, beyond: seq<byte>, i: nat)
    requires 4 * i + 4 <= |page|
    ensures WordAt(page + beyond, i) == WordAt(page, i)
  {
    assert (page + beyond)[4 * i..4 * i + 4] == page[4 * i..4 * i + 4];
  }

  lemma EntryInPage(page: seq<byte>, beyond: seq<byte>, c: nat)
    requires HEADER_SIZE + 32 * (c + 1) <= |page|
    ensures EntryAt(page + beyond, c) == EntryAt(page, c)
  {
    forall f: nat | f < 8 ensures WordAt(page + beyond, 3 + 8 * c + f) == EntryAt(page, c).Fields()[f] {
      WordInPage(page, beyond, 3 + 8 * c + f);
    }
    EntryFromFields(page + beyond, c, EntryAt(page, c));
  }

  /** What the unpacker makes of a packed image, whether or not there is a gap and whatever lies behind its page. */
  lemma {:induction false} UnpackOfImage(dtbs: seq<Dtb>, order: seq<nat>, p: nat, beyond: seq<byte>)
    requires Valid(dtbs, p) && Layable(dtbs, order, p)
    ensures var r := Unpack(Image(dtbs, order, p), p, beyond);
            if HEADER_SIZE + 32 * |dtbs| > p + |beyond| then r == None else Extracts(r, dtbs, order, p)
  {
    ImageHoldsAPage(dtbs, order, p);
    HeaderPage(dtbs, order, p, 2);
    var page := Image(dtbs, order, p)[..p];
    WordInPage(page, beyond, 2);
    if HEADER_SIZE + 32 * |dtbs| <= p + |beyond| {
      forall c: nat | c < |dtbs| && HEADER_SIZE + 32 * (c + 1) <= p
        ensures EntryAt(page + beyond, c) == EntryFor(dtbs, p, order[c])
      {
        EntryReadBack(dtbs, order, p, c);
        EntryInPage(page, beyond, c);
      }
    }
  }

  /** Every entry comes out as packed, with its own payload padded to whole pages. */
  ghost predicate Recovers(r: Option<seq<Extracted>>, dtbs: seq<Dtb>, order: seq<nat>, p: nat)
    requires p >= 1 && InRange(order, |dtbs|)
  {
    && r.Some? && |r.value| == |dtbs|
    && forall c :: 0 <= c < |dtbs| ==>
         r.value[c] == Extracted(EntryFor(dtbs, p, order[c]), Padded(dtbs[order[c]], p))
  }

  ghost predicate Recovered(dtbs: seq<Dtb>, order: seq<nat>, p: nat, beyond: seq<byte>)
    requires Layable(dtbs, order, p)
  {
    Recovers(Unpack(Image(dtbs, order, p), p, beyond), dtbs, order, p)
  }

  lemma {:induction false} FoundWithoutGap(dtbs: seq<Dtb>, order: seq<nat>, p: nat, k: nat)
    requires Layable(dtbs, order, p) && Gap(|dtbs|, p) == 0 && k < |dtbs|
    ensures FoundAt(dtbs, order, p, k) == Padded(dtbs[k], p)
  {
    PayloadPosition(dtbs, order, p, k);
  }

  lemma RecoversWithoutGap(r: Option<seq<Extracted>>, dtbs: seq<Dtb>, order: seq<nat>, p: nat)
    requires Layable(dtbs, order, p) && Gap(|dtbs|, p) == 0 && Extracts(r, dtbs, order, p)
    requires HEADER_SIZE + 32 * |dtbs| <= p
    ensures Recovers(r, dtbs, order, p)
  {
    forall c | 0 <= c < |dtbs| ensures FoundAt(dtbs, order, p, order[c]) == Padded(dtbs[order[c]], p) {
      FoundWithoutGap(dtbs, order, p, order[c]);
    }
  }

  /** A string that equals itself shifted left, with zeros moving in, is all zeros. */
  lemma {:induction false} ShiftInvariantIsZero(x: seq<byte>, g: nat, j: nat)
    requires g > 0 && j < |x| && (x + Zeros(g))[g..] == x
    ensures x[j] == 0
    decreases |x| - j
  {
    assert x[j] == (x + Zeros(g))[g..][j] == (x + Zeros(g))[g + j];
    if g + j < |x| {
      ShiftInvariantIsZero(x, g, g + j);
    }
  }

  lemma LastParts(dtbs: seq<Dtb>, order: seq<nat>, p: nat)
    requires Layable(dtbs, order, p)
    ensures var n, parts := |dtbs|, ImageParts(dtbs, order, p);
            && n >= 1 && |parts| == n + 3
            && parts[n + 1] == Padded(dtbs[n - 1], p) && parts[n + 2] == Zeros(Gap(n, p))
  {
  }

  /** The image ends in the last blob and the zeros of the gap. */
  lemma {:induction false} ImageTail(dtbs: seq<Dtb>, order: seq<nat>, p: nat)
    requires Layable(dtbs, order, p)
    ensures var n := |dtbs|;
            var at := Start(ImageParts(dtbs, order, p), n + 1);
            && at <= |Image(dtbs, order, p)|
            && Image(dtbs, order, p)[at..] == Padded(dtbs[n - 1], p) + Zeros(Gap(n, p))
  {
    var n := |dtbs|;
    LastParts(dtbs, order, p);
    LastTwo(ImageParts(dtbs, order, p), Padded(dtbs[n - 1], p), Zeros(Gap(n, p)));
  }

  lemma LastOffset(dtbs: seq<Dtb>, order: seq<nat>, p: nat)
    requires Layable(dtbs, order, p)
    ensures EntryFor(dtbs, p, |dtbs| - 1).offset == Start(ImageParts(dtbs, order, p), |dtbs| + 1) + Gap(|dtbs|, p)
  {
    BlobPosition(dtbs, order, p, |dtbs| - 1);
  }

  lemma {:induction false} LastFoundWithGap(dtbs: seq<Dtb>, order: seq<nat>, p: nat)
    requires Layable(dtbs, order, p)
    ensures var n, g := |dtbs|, Gap(|dtbs|, p);
            FoundAt(dtbs, order, p, n - 1) == (Padded(dtbs[n - 1], p) + Zeros(g))[g..]
  {
    var n := |dtbs|;
    ImageTail(dtbs, order, p);
    LastOffset(dtbs, order, p);
    ReadShifted(Image(dtbs, order, p), EntryFor(dtbs, p, n - 1).offset, Padded(dtbs[n - 1], p), Gap(n, p));
  }

  lemma ReadShifted(img: seq<byte>, offset: nat, x: seq<byte>, g: nat)
    requires g <= offset && offset - g <= |img| && img[offset - g..] == x + Zeros(g)
    ensures ReadAt(img, offset, |x|) == (x + Zeros(g))[g..]
  {
    assert |img| == offset + |x|;
    assert img[offset..] == img[offset - g..][g..];
    assert img[offset..offset + |x|] == img[offset..];
  }

  /** With a gap the last blob is read shifted, and a device tree is never its own shift. */
  lemma {:induction false} LastEntryMisread(dtbs: seq<Dtb>, order: seq<nat>, p: nat)
    requires Layable(dtbs, order, p) && Gap(|dtbs|, p) > 0 && dtbs[|dtbs| - 1].Valid()
    ensures FoundAt(dtbs, order, p, |dtbs| - 1) != Padded(dtbs[|dtbs| - 1], p)
  {
    LastFoundWithGap(dtbs, order, p);
    var x, g := Padded(dtbs[|dtbs| - 1], p), Gap(|dtbs|, p);
    assert x[0] == FDT_FIRST;
    if (x + Zeros(g))[g..] == x {
      ShiftInvariantIsZero(x, g, 0);
    }
  }

  /** Every extracted entry comes with what lies at the place it names. */
  lemma ExtractedIsFound(dtbs: seq<Dtb>, order: seq<nat>, p: nat, beyond: seq<byte>, c: nat)
    requires Layable(dtbs, order, p) && c < |dtbs|
    ensures var r := Unpack(Image(dtbs, order, p), p, beyond);
            r.Some? && c < |r.value| && r.value[c].entry == EntryFor(dtbs, p, order[c]) ==>
            r.value[c].data == FoundAt(dtbs, order, p, order[c])
  {
  }

  /** With a gap the last blob is lost wherever its entry went, and whatever lies behind the page. */
  lemma {:induction false} NotRecoveredWithGap(dtbs: seq<Dtb>, order: seq<nat>, p: nat, beyond: seq<byte>)
    requires Valid(dtbs, p) && IsOrder(order, |dtbs|) && Layable(dtbs, order, p) && Gap(|dtbs|, p) > 0
    ensures !Recovered(dtbs, order, p, beyond)
  {
    LastEntryMisread(dtbs, order, p);
    ExtractedIsFound(dtbs, order, p, beyond, PositionOf(order, |dtbs| - 1));
  }

  ghost function PositionOf(order: seq<nat>, k: nat): (c: nat)
    requires k in order
    ensures c < |order| && order[c] == k
  {
    var c: nat :| c < |order| && order[c] == k;
    c
  }

  lemma {:induction false} RecoveredWithoutGap(dtbs: seq<Dtb>, order: seq<nat>, p: nat, beyond: seq<byte>)
    requires Valid(dtbs, p) && Layable(dtbs, order, p) && Gap(|dtbs|, p) == 0 && HEADER_SIZE + 32 * |dtbs| <= p
    ensures Recovered(dtbs, order, p, beyond)
  {
    UnpackOfImage(dtbs, order, p, beyond);
    RecoversWithoutGap(Unpack(Image(dtbs, order, p), p, beyond), dtbs, order, p);
  }

  /** The round trip holds exactly if the header as sized fits one page, whatever lies behind the page. */
  lemma {:induction false} RoundTripIffOnePage(dtbs: seq<Dtb>, order: seq<nat>, p: nat, beyond: seq<byte>)
    requires Valid(dtbs, p) && IsOrder(order, |dtbs|) && Layable(dtbs, order, p)
    ensures Recovered(dtbs, order, p, beyond) <==> 16 + 16 * |dtbs| * (|dtbs| + 1) <= p
  {
    PageSizes(p);
    NoGapIffOnePage(|dtbs|, p);
    if Gap(|dtbs|, p) == 0 {
      Quadratic(|dtbs|);
      RecoveredWithoutGap(dtbs, order, p, beyond);
    } else {
      NotRecoveredWithGap(dtbs, order, p, beyond);
    }
  }

  // ---- The image word by word ----

  lemma {:induction false} WordOfImage(dtbs: seq<Dtb>, order: seq<nat>, p: nat, j: nat)
    requires Layable(dtbs, order, p) && j < 3 + 8 * |dtbs|
    ensures 4 * j + 4 <= |Image(dtbs, order, p)|
    ensures Image(dtbs, order, p)[4 * j..4 * j + 4] == Le32(HeaderWords(dtbs, order, p)[j])
    ensures WordAt(Image(dtbs, order, p), j) == HeaderWords(dtbs, order, p)[j]
  {
    WordsAt(HeaderWords(dtbs, order, p), Concat(ImageParts(dtbs, order, p)[1..]), j);
    Le32RoundTrip(HeaderWords(dtbs, order, p)[j]);
  }

  /** The image starts with the characters DTBH, version 2 and the number of blobs, least significant byte first. */
  lemma {:induction false} ImageHeader(dtbs: seq<Dtb>, order: seq<nat>, p: nat)
    requires Layable(dtbs, order, p)
    ensures var img := Image(dtbs, order, p);
            |img| >= 12 && img[0..4] == [68, 84, 66, 72] && img[4..8] == [2, 0, 0, 0] && WordAt(img, 2) == |dtbs|
  {
    WordOfImage(dtbs, order, p, 2);
    WordOfImage(dtbs, order, p, 1);
    WordOfImage(dtbs, order, p, 0);
    HeaderBytes();
  }

  lemma HeaderBytes()
    ensures Le32(DTBH_MAGIC) == [68, 84, 66, 72] && Le32(DTBH_VERSION) == [2, 0, 0, 0]
  {
  }

  lemma {:induction false} EntryWord(dtbs: seq<Dtb>, order: seq<nat>, p: nat, c: nat, f: nat)
    requires Layable(dtbs, order, p) && c < |dtbs| && f < 8
    ensures 4 * (3 + 8 * c + f) + 4 <= |Image(dtbs, order, p)|
    ensures WordAt(Image(dtbs, order, p), 3 + 8 * c + f) == EntryFor(dtbs, p, order[c]).Fields()[f]
  {
    WordOfImage(dtbs, order, p, 3 + 8 * c + f);
    FlatAt(Entries(dtbs, order, p), c, f);
  }

  lemma {:induction false} EntryWords(dtbs: seq<Dtb>, order: seq<nat>, p: nat, c: nat)
    requires Layable(dtbs, order, p) && c < |dtbs|
    ensures HasWords(Image(dtbs, order, p), 3 + 8 * c, EntryFor(dtbs, p, order[c]).Fields())
  {
    EntryWord(dtbs, order, p, c, 7);
    forall f: nat | f < 8
      ensures WordAt(Image(dtbs, order, p), 3 + 8 * c + f) == EntryFor(dtbs, p, order[c]).Fields()[f]
    {
      EntryWord(dtbs, order, p, c, f);
    }
  }

  lemma FieldsOf(dtbs: seq<Dtb>, p: nat, k: nat)
    requires p >= 1 && k < |dtbs|
    ensures EntryFor(dtbs, p, k).Fields() ==
            [dtbs[k].chip, 0x50a6, 0x217584da, dtbs[k].hwRev, dtbs[k].hwRevEnd,
             HeaderSpace(|dtbs|, p) + BlobSpace(dtbs, p, k), RoundUp(|dtbs[k].payload|, p), 0x20]
  {
  }

  /** Entry c of the table belongs to the blob that was sorted there: its chip, the two fixed codes, its revisions, the
      place behind the oversized header and the blobs before it, the whole pages it fills, and the space character. */
  lemma {:induction false} ImageEntries(dtbs: seq<Dtb>, order: seq<nat>, p: nat, c: nat)
    requires Layable(dtbs, order, p) && c < |dtbs|
    ensures var d := dtbs[order[c]];
            HasWords(Image(dtbs, order, p), 3 + 8 * c,
                     [d.chip, 0x50a6, 0x217584da, d.hwRev, d.hwRevEnd,
                      HeaderSpace(|dtbs|, p) + BlobSpace(dtbs, p, order[c]), RoundUp(|d.payload|, p), 0x20])
  {
    EntryWords(dtbs, order, p, c);
    FieldsOf(dtbs, p, order[c]);
  }

  /** What comes out of the round trip, field by field: where the header fits one page, entry c has the chip and the
      revisions of the blob that was sorted there, and its data are the blob's bytes followed by zeros. */
  lemma {:induction false} FieldsComeBack(dtbs: seq<Dtb>, order: seq<nat>, p: nat, beyond: seq<byte>, c: nat)
    requires Valid(dtbs, p) && IsOrder(order, |dtbs|) && Layable(dtbs, order, p) && c < |dtbs|
    requires 16 + 16 * |dtbs| * (|dtbs| + 1) <= p
    ensures var r, d := Unpack(Image(dtbs, order, p), p, beyond), dtbs[order[c]];
            && r.Some? && |r.value| == |dtbs|
            && r.value[c].entry.chip == d.chip && r.value[c].entry.hwRev == d.hwRev
            && r.value[c].entry.hwRevEnd == d.hwRevEnd && r.value[c].entry.platform == 0x50a6
            && r.value[c].entry.subtype == 0x217584da && r.value[c].entry.space == 0x20
            && r.value[c].entry.size == |r.value[c].data| == RoundUp(|d.payload|, p)
            && d.payload <= r.value[c].data
            && forall i :: |d.payload| <= i < |r.value[c].data| ==> r.value[c].data[i] == 0
  {
    RoundTripIffOnePage(dtbs, order, p, beyond);
    RecoveredFields(Unpack(Image(dtbs, order, p), p, beyond), dtbs, order, p, c);
  }

  lemma RecoveredFields(r: Option<seq<Extracted>>, dtbs: seq<Dtb>, order: seq<nat>, p: nat, c: nat)
    requires p >= 1 && InRange(order, |dtbs|) && Recovers(r, dtbs, order, p) && c < |dtbs|
    ensures var d := dtbs[order[c]];
            && r.value[c].entry.chip == d.chip && r.value[c].entry.hwRev == d.hwRev
            && r.value[c].entry.hwRevEnd == d.hwRevEnd && r.value[c].entry.platform == 0x50a6
            && r.value[c].entry.subtype == 0x217584da && r.value[c].entry.space == 0x20
            && r.value[c].entry.size == |r.value[c].data| == RoundUp(|d.payload|, p)
            && d.payload <= r.value[c].data
            && forall i :: |d.payload| <= i < |r.value[c].data| ==> r.value[c].data[i] == 0
  {
  }

  // ---- Sorting ----

  /** dt_entry_cmp: unsigned differences returned as int. */
  function Cmp(a: Dtb, b: Dtb): int {
    if a.chip != b.chip then ToI32(ToU32(a.chip - b.chip)) else ToI32(ToU32(a.hwRev - b.hwRev))
  }

  predicate LexLe(a: Dtb, b: Dtb) {
    a.chip < b.chip || (a.chip == b.chip && a.hwRev <= b.hwRev)
  }

  /** A difference of unsigned words has the right sign exactly if it fits an int. */
  lemma DifferenceSign(a: nat, b: nat)
    requires a < TWO_32 && b < TWO_32
    ensures (ToI32(ToU32(a - b)) <= 0 <==> a <= b) <==> -TWO_31 <= a - b < TWO_31
  {
    var d := ToI32(ToU32(a - b));
    assert d == if a - b < -TWO_31 then a - b + TWO_32 else if a - b < TWO_31 then a - b else a - b - TWO_32;
  }

  ghost predicate U32Keys(dtbs: seq<Dtb>) {
    forall k :: 0 <= k < |dtbs| ==> dtbs[k].chip < TWO_32 && dtbs[k].hwRev < TWO_32
  }

  /** Two blobs whose chips, or revisions of one chip, differ by less than 2^31. */
  predicate CloseTo(a: Dtb, b: Dtb) {
    && -TWO_31 < a.chip - b.chip < TWO_31
    && (a.chip == b.chip ==> -TWO_31 < a.hwRev - b.hwRev < TWO_31)
  }

  ghost predicate Close(dtbs: seq<Dtb>) {
    forall i, j :: 0 <= i < |dtbs| && 0 <= j < |dtbs| ==> CloseTo(dtbs[i], dtbs[j])
  }

  ghost predicate AgreesWithLex(dtbs: seq<Dtb>) {
    forall i, j :: 0 <= i < |dtbs| && 0 <= j < |dtbs| ==> (Cmp(dtbs[i], dtbs[j]) <= 0 <==> LexLe(dtbs[i], dtbs[j]))
  }

  lemma CmpIsLex(a: Dtb, b: Dtb)
    requires a.chip < TWO_32 && a.hwRev < TWO_32 && b.chip < TWO_32 && b.hwRev < TWO_32
    ensures CloseTo(a, b) <==> (Cmp(a, b) <= 0 <==> LexLe(a, b)) && (Cmp(b, a) <= 0 <==> LexLe(b, a))
  {
    DifferenceSign(a.chip, b.chip);
    DifferenceSign(b.chip, a.chip);
    DifferenceSign(a.hwRev, b.hwRev);
    DifferenceSign(b.hwRev, a.hwRev);
  }

  /** Exactly when the comparator orders a list of blobs by (chip, hw_rev). */
  lemma LexIffClose(dtbs: seq<Dtb>)
    requires U32Keys(dtbs)
    ensures AgreesWithLex(dtbs) <==> Close(dtbs)
  {
    forall i, j | 0 <= i < |dtbs| && 0 <= j < |dtbs|
      ensures CloseTo(dtbs[i], dtbs[j]) <==> (Cmp(dtbs[i], dtbs[j]) <= 0 <==> LexLe(dtbs[i], dtbs[j]))
                                             && (Cmp(dtbs[j], dtbs[i]) <= 0 <==> LexLe(dtbs[j], dtbs[i]))
    {
      CmpIsLex(dtbs[i], dtbs[j]);
    }
  }

  /** What C demands of a comparator: swapping the arguments flips the sign, and "not after" is transitive. */
  ghost predicate ComparatorIsOrder(dtbs: seq<Dtb>) {
    && (forall i, j :: 0 <= i < |dtbs| && 0 <= j < |dtbs| ==>
          (Cmp(dtbs[i], dtbs[j]) < 0 <==> Cmp(dtbs[j], dtbs[i]) > 0))
    && (forall i, j, k :: 0 <= i < |dtbs| && 0 <= j < |dtbs| && 0 <= k < |dtbs| ==>
          Cmp(dtbs[i], dtbs[j]) <= 0 && Cmp(dtbs[j], dtbs[k]) <= 0 ==> Cmp(dtbs[i], dtbs[k]) <= 0)
  }

  /** What qsort promises: a permutation, sorted if the comparator is an order. */
  ghost predicate QsortResult(dtbs: seq<Dtb>, order: seq<nat>) {
    && IsOrder(order, |dtbs|)
    && (ComparatorIsOrder(dtbs) ==>
          forall c :: 0 < c < |order| ==> Cmp(dtbs[order[c - 1]], dtbs[order[c]]) <= 0)
  }

  // ---- When the comparator is an order ----

  /** How far `x` lies after `base` on the circle of 32-bit words. */
  function After(base: nat, x: nat): nat {
    (x - base) % TWO_32
  }

  /** Within half a circle from some base, wrapped differences are differences of distances. */
  lemma WrappedDifference(base: nat, x: nat, y: nat)
    requires base < TWO_32 && x < TWO_32 && y < TWO_32
    requires After(base, x) < TWO_31 && After(base, y) < TWO_31
    ensures ToI32(ToU32(x - y)) == After(base, x) - After(base, y)
  {
    assert After(base, x) == if x >= base then x - base else x - base + TWO_32;
    assert After(base, y) == if y >= base then y - base else y - base + TWO_32;
  }

  /** The sign of a wrapped difference, by distance. */
  lemma WrappedSign(x: nat, y: nat)
    requires x < TWO_32 && y < TWO_32
    ensures ToI32(ToU32(x - y)) <= 0 <==> After(x, y) <= TWO_31
    ensures (ToI32(ToU32(x - y)) < 0 <==> ToI32(ToU32(y - x)) > 0) <==> After(x, y) != TWO_31
  {
    assert After(x, y) == if y >= x then y - x else y - x + TWO_32;
  }

  /** Chips lie within half a circle, and so do the revisions of each chip. */
  ghost predicate ChipsWithin(dtbs: seq<Dtb>, base: nat) {
    base < TWO_32 && forall k :: 0 <= k < |dtbs| ==> After(base, dtbs[k].chip) < TWO_31
  }

  ghost predicate RevsWithin(dtbs: seq<Dtb>, chip: nat, base: nat) {
    base < TWO_32 && forall k :: 0 <= k < |dtbs| && dtbs[k].chip == chip ==> After(base, dtbs[k].hwRev) < TWO_31
  }

  ghost predicate RevsBounded(dtbs: seq<Dtb>, chip: nat) {
    exists base: nat :: RevsWithin(dtbs, chip, base)
  }

  ghost predicate HalfCircle(dtbs: seq<Dtb>) {
    && (exists base: nat :: ChipsWithin(dtbs, base))
    && (forall i :: 0 <= i < |dtbs| ==> RevsBounded(dtbs, dtbs[i].chip))
  }

  /** Within those bounds the comparator subtracts distances. */
  lemma CmpByDistance(dtbs: seq<Dtb>, chips: nat, revs: nat, i: nat, j: nat)
    requires U32Keys(dtbs) && i < |dtbs| && j < |dtbs| && ChipsWithin(dtbs, chips)
    requires RevsWithin(dtbs, dtbs[i].chip, revs)
    ensures var a, b := dtbs[i], dtbs[j];
            Cmp(a, b) == if a.chip != b.chip then After(chips, a.chip) - After(chips, b.chip)
                         else After(revs, a.hwRev) - After(revs, b.hwRev)
  {
    if dtbs[i].chip != dtbs[j].chip {
      WrappedDifference(chips, dtbs[i].chip, dtbs[j].chip);
    } else {
      WrappedDifference(revs, dtbs[i].hwRev, dtbs[j].hwRev);
    }
  }

  lemma SameDistance(base: nat, x: nat, y: nat)
    requires base < TWO_32 && x < TWO_32 && y < TWO_32
    ensures After(base, x) == After(base, y) <==> x == y
  {
    assert After(base, x) == if x >= base then x - base else x - base + TWO_32;
    assert After(base, y) == if y >= base then y - base else y - base + TWO_32;
  }

  lemma HalfCircleFlips(dtbs: seq<Dtb>, i: nat, j: nat)
    requires U32Keys(dtbs) && HalfCircle(dtbs) && i < |dtbs| && j < |dtbs|
    ensures Cmp(dtbs[i], dtbs[j]) == -Cmp(dtbs[j], dtbs[i])
  {
    var chips: nat :| ChipsWithin(dtbs, chips);
    assert RevsBounded(dtbs, dtbs[i].chip) && RevsBounded(dtbs, dtbs[j].chip);
    var ri: nat :| RevsWithin(dtbs, dtbs[i].chip, ri);
    var rj: nat :| RevsWithin(dtbs, dtbs[j].chip, rj);
    CmpByDistance(dtbs, chips, ri, i, j);
    CmpByDistance(dtbs, chips, if dtbs[i].chip == dtbs[j].chip then ri else rj, j, i);
  }

  lemma HalfCircleTransitive(dtbs: seq<Dtb>, i: nat, j: nat, k: nat)
    requires U32Keys(dtbs) && HalfCircle(dtbs) && i < |dtbs| && j < |dtbs| && k < |dtbs|
    requires Cmp(dtbs[i], dtbs[j]) <= 0 && Cmp(dtbs[j], dtbs[k]) <= 0
    ensures Cmp(dtbs[i], dtbs[k]) <= 0
  {
    var chips: nat :| ChipsWithin(dtbs, chips);
    assert RevsBounded(dtbs, dtbs[i].chip) && RevsBounded(dtbs, dtbs[j].chip);
    var ri: nat :| RevsWithin(dtbs, dtbs[i].chip, ri);
    var rj: nat :| RevsWithin(dtbs, dtbs[j].chip, rj);
    CmpByDistance(dtbs, chips, ri, i, j);
    CmpByDistance(dtbs, chips, if dtbs[i].chip == dtbs[j].chip then ri else rj, j, k);
    CmpByDistance(dtbs, chips, ri, i, k);
    SameDistance(chips, dtbs[i].chip, dtbs[j].chip);
    SameDistance(chips, dtbs[i].chip, dtbs[k].chip);
    SameDistance(chips, dtbs[j].chip, dtbs[k].chip);
  }

  /** An order has a least element among any of the blobs. */
  lemma {:induction false} LeastOf(dtbs: seq<Dtb>, some: seq<nat>) returns (m: nat)
    requires ComparatorIsOrder(dtbs) && some != [] && forall x: nat :: x in some ==> x < |dtbs|
    ensures m in some && m < |dtbs| && forall x: nat :: x in some ==> Cmp(dtbs[m], dtbs[x]) <= 0
    decreases |some|
  {
    var first, rest := some[0], some[1..];
    assert first in some && forall x :: x in rest ==> x in some;
    if rest == [] {
      m := first;
    } else {
      m := LeastOf(dtbs, rest);
      if Cmp(dtbs[m], dtbs[first]) > 0 {
        var l := m;
        m := first;
        forall x: nat | x in some ensures Cmp(dtbs[m], dtbs[x]) <= 0 {
          if x in rest {
            assert Cmp(dtbs[first], dtbs[l]) <= 0 && Cmp(dtbs[l], dtbs[x]) <= 0;
          }
        }
      }
    }
  }

  /** The blobs of one chip among the first `n`. */
  function OfChip(dtbs: seq<Dtb>, chip: nat, n: nat): (r: seq<nat>)
    requires n <= |dtbs|
    ensures forall k: nat :: k in r <==> k < n && dtbs[k].chip == chip
  {
    if n == 0 then [] else OfChip(dtbs, chip, n - 1) + if dtbs[n - 1].chip == chip then [n - 1] else []
  }

  lemma OrderHasChipBase(dtbs: seq<Dtb>) returns (base: nat)
    requires U32Keys(dtbs) && ComparatorIsOrder(dtbs)
    ensures ChipsWithin(dtbs, base)
  {
    if dtbs == [] {
      base := 0;
    } else {
      var m := LeastOf(dtbs, seq(|dtbs|, i => i));
      base := dtbs[m].chip;
      forall k | 0 <= k < |dtbs| ensures After(base, dtbs[k].chip) < TWO_31 {
        assert seq(|dtbs|, i => i)[k] == k;
        WrappedSign(base, dtbs[k].chip);
      }
    }
  }

  lemma OrderHasRevBase(dtbs: seq<Dtb>, i: nat) returns (base: nat)
    requires U32Keys(dtbs) && ComparatorIsOrder(dtbs) && i < |dtbs|
    ensures RevsWithin(dtbs, dtbs[i].chip, base)
  {
    var same := OfChip(dtbs, dtbs[i].chip, |dtbs|);
    assert i in same;
    var m := LeastOf(dtbs, same);
    base := dtbs[m].hwRev;
    forall k | 0 <= k < |dtbs| && dtbs[k].chip == dtbs[i].chip ensures After(base, dtbs[k].hwRev) < TWO_31 {
      assert k in same;
      LeastRevIsBase(dtbs, m, k);
    }
  }

  lemma LeastRevIsBase(dtbs: seq<Dtb>, m: nat, k: nat)
    requires U32Keys(dtbs) && ComparatorIsOrder(dtbs) && m < |dtbs| && k < |dtbs|
    requires dtbs[m].chip == dtbs[k].chip && Cmp(dtbs[m], dtbs[k]) <= 0
    ensures After(dtbs[m].hwRev, dtbs[k].hwRev) < TWO_31
  {
    WrappedSign(dtbs[m].hwRev, dtbs[k].hwRev);
  }

  lemma OrderIsHalfCircle(dtbs: seq<Dtb>)
    requires U32Keys(dtbs) && ComparatorIsOrder(dtbs)
    ensures HalfCircle(dtbs)
  {
    var chips := OrderHasChipBase(dtbs);
    assert ChipsWithin(dtbs, chips);
    forall i | 0 <= i < |dtbs| ensures RevsBounded(dtbs, dtbs[i].chip) {
      var revs := OrderHasRevBase(dtbs, i);
      assert RevsWithin(dtbs, dtbs[i].chip, revs);
    }
  }

  lemma HalfCircleIsOrder(dtbs: seq<Dtb>)
    requires U32Keys(dtbs) && HalfCircle(dtbs)
    ensures ComparatorIsOrder(dtbs)
  {
    forall i, j | 0 <= i < |dtbs| && 0 <= j < |dtbs| ensures Cmp(dtbs[i], dtbs[j]) < 0 <==> Cmp(dtbs[j], dtbs[i]) > 0 {
      HalfCircleFlips(dtbs, i, j);
    }
    forall i, j, k | 0 <= i < |dtbs| && 0 <= j < |dtbs| && 0 <= k < |dtbs|
        && Cmp(dtbs[i], dtbs[j]) <= 0 && Cmp(dtbs[j], dtbs[k]) <= 0
      ensures Cmp(dtbs[i], dtbs[k]) <= 0
    {
      HalfCircleTransitive(dtbs, i, j, k);
    }
  }

  /** Exactly when the comparator is an order on a list of blobs. */
  lemma OrderIffHalfCircle(dtbs: seq<Dtb>)
    requires U32Keys(dtbs)
    ensures ComparatorIsOrder(dtbs) <==> HalfCircle(dtbs)
  {
    if ComparatorIsOrder(dtbs) {
      OrderIsHalfCircle(dtbs);
    }
    if HalfCircle(dtbs) {
      HalfCircleIsOrder(dtbs);
    }
  }

  /** Three chips spread around the circle compare in a cycle. */
  lemma ComparatorCycle(d: Dtb)
    ensures var a, b, c := d.(chip := 0), d.(chip := 0x6000_0000), d.(chip := 0xc000_0000);
            Cmp(a, b) < 0 && Cmp(b, c) < 0 && Cmp(c, a) < 0 && !ComparatorIsOrder([a, b, c])
  {
    var a, b, c := d.(chip := 0), d.(chip := 0x6000_0000), d.(chip := 0xc000_0000);
    var s := [a, b, c];
    assert Cmp(a, b) == -0x6000_0000 && Cmp(b, c) == -0x6000_0000 && Cmp(a, c) == 0x4000_0000;
    assert Cmp(s[0], s[1]) <= 0 && Cmp(s[1], s[2]) <= 0 && Cmp(s[0], s[2]) > 0;
  }

  /** Two chips half a circle apart each compare below the other. */
  lemma ComparatorTie(d: Dtb)
    ensures var a, b := d.(chip := 0), d.(chip := TWO_31);
            Cmp(a, b) < 0 && Cmp(b, a) < 0 && !ComparatorIsOrder([a, b])
  {
    var a, b := d.(chip := 0), d.(chip := TWO_31);
    assert [a, b][0] == a && [a, b][1] == b;
  }

  // ---- What comes out sorted ----

  lemma CloseIsOrder(dtbs: seq<Dtb>)
    requires U32Keys(dtbs) && Close(dtbs)
    ensures ComparatorIsOrder(dtbs)
  {
    LexIffClose(dtbs);
    forall i, j | 0 <= i < |dtbs| && 0 <= j < |dtbs| ensures Cmp(dtbs[i], dtbs[j]) < 0 <==> Cmp(dtbs[j], dtbs[i]) > 0 {
      assert CloseTo(dtbs[i], dtbs[j]) && CloseTo(dtbs[j], dtbs[i]);
    }
  }

  /** Below 2^31 all is well. */
  lemma ComparatorIsOrderBelowSignBit(dtbs: seq<Dtb>)
    requires forall k :: 0 <= k < |dtbs| ==> dtbs[k].chip < TWO_31 && dtbs[k].hwRev < TWO_31
    ensures Close(dtbs) && ComparatorIsOrder(dtbs)
  {
    CloseIsOrder(dtbs);
  }

  lemma {:induction false} SortedPairs(dtbs: seq<Dtb>, order: seq<nat>, c: nat, d: nat)
    requires QsortResult(dtbs, order) && ComparatorIsOrder(dtbs) && c < d < |order|
    ensures Cmp(dtbs[order[c]], dtbs[order[d]]) <= 0
    decreases d - c
  {
    assert Cmp(dtbs[order[d - 1]], dtbs[order[d]]) <= 0;
    if c < d - 1 {
      SortedPairs(dtbs, order, c, d - 1);
    }
  }

  ghost predicate LexSorted(dtbs: seq<Dtb>, order: seq<nat>)
    requires InRange(order, |dtbs|)
  {
    forall c, d :: 0 <= c < d < |order| ==> LexLe(dtbs[order[c]], dtbs[order[d]])
  }

  /** Whatever qsort returns, if the comparator is an order at all: it is in (chip, hw_rev) order exactly if the keys
      are less than 2^31 apart. */
  lemma SortedIffClose(dtbs: seq<Dtb>, order: seq<nat>)
    requires U32Keys(dtbs) && QsortResult(dtbs, order) && ComparatorIsOrder(dtbs)
    ensures LexSorted(dtbs, order) <==> Close(dtbs)
  {
    LexIffClose(dtbs);
    if Close(dtbs) {
      forall c, d | 0 <= c < d < |order| ensures LexLe(dtbs[order[c]], dtbs[order[d]]) {
        SortedPairs(dtbs, order, c, d);
      }
    } else {
      var i, j :| 0 <= i < |dtbs| && 0 <= j < |dtbs| && !CloseTo(dtbs[i], dtbs[j]);
      MisorderedPair(dtbs, order, i, j);
    }
  }

  lemma MisorderedPair(dtbs: seq<Dtb>, order: seq<nat>, i: nat, j: nat)
    requires U32Keys(dtbs) && QsortResult(dtbs, order) && ComparatorIsOrder(dtbs)
    requires i < |dtbs| && j < |dtbs| && !CloseTo(dtbs[i], dtbs[j])
    ensures !LexSorted(dtbs, order)
  {
    var c, d := PositionOf(order, i), PositionOf(order, j);
    assert c != d;
    if c < d {
      SortedPairs(dtbs, order, c, d);
    } else {
      SortedPairs(dtbs, order, d, c);
    }
    FarIsBackwards(dtbs[i], dtbs[j]);
    assert Cmp(dtbs[i], dtbs[j]) < 0 <==> Cmp(dtbs[j], dtbs[i]) > 0;
  }

  /** Too far apart, an antisymmetric comparison is the wrong way round. */
  lemma FarIsBackwards(a: Dtb, b: Dtb)
    requires a.chip < TWO_32 && a.hwRev < TWO_32 && b.chip < TWO_32 && b.hwRev < TWO_32
    requires !CloseTo(a, b) && (Cmp(a, b) < 0 <==> Cmp(b, a) > 0)
    ensures Cmp(a, b) <= 0 ==> !LexLe(a, b)
    ensures Cmp(b, a) <= 0 ==> !LexLe(b, a)
  {
    DifferenceSign(a.chip, b.chip);
    DifferenceSign(b.chip, a.chip);
    DifferenceSign(a.hwRev, b.hwRev);
    DifferenceSign(b.hwRev, a.hwRev);
    WrappedSign(a.chip, b.chip);
    WrappedSign(a.hwRev, b.hwRev);
  }

  predicate EntryLexLe(a: Entry, b: Entry) {
    a.chip < b.chip || (a.chip == b.chip && a.hwRev <= b.hwRev)
  }

  lemma ValidHasU32Keys(dtbs: seq<Dtb>, p: nat)
    requires Valid(dtbs, p)
    ensures U32Keys(dtbs)
  {
  }

  /** Within one page, and with a comparator that is an order, entries come out in (chip, hw_rev) order exactly if the
      keys are less than 2^31 apart. */
  lemma {:induction false} EntriesComeOutSorted(dtbs: seq<Dtb>, order: seq<nat>, p: nat, beyond: seq<byte>)
    requires Valid(dtbs, p) && QsortResult(dtbs, order) && ComparatorIsOrder(dtbs) && Layable(dtbs, order, p)
    requires 16 + 16 * |dtbs| * (|dtbs| + 1) <= p
    ensures var r := Unpack(Image(dtbs, order, p), p, beyond);
            && r.Some? && |r.value| == |dtbs|
            && ((forall c, d :: 0 <= c < d < |dtbs| ==> EntryLexLe(r.value[c].entry, r.value[d].entry))
                <==> Close(dtbs))
  {
    RoundTripIffOnePage(dtbs, order, p, beyond);
    ValidHasU32Keys(dtbs, p);
    SortedIffClose(dtbs, order);
    RecoveredInOrder(Unpack(Image(dtbs, order, p), p, beyond), dtbs, order, p);
  }

  lemma RecoveredInOrder(r: Option<seq<Extracted>>, dtbs: seq<Dtb>, order: seq<nat>, p: nat)
    requires p >= 1 && InRange(order, |dtbs|) && Recovers(r, dtbs, order, p)
    ensures (forall c, d :: 0 <= c < d < |dtbs| ==> EntryLexLe(r.value[c].entry, r.value[d].entry))
            <==> LexSorted(dtbs, order)
  {
    forall c, d | 0 <= c < d < |dtbs|
      ensures EntryLexLe(r.value[c].entry, r.value[d].entry) <==> LexLe(dtbs[order[c]], dtbs[order[d]])
    {
    }
  }

  // ---- load_dtbh_block ----

  lemma {:induction false} FlatTakeNext(es: seq<Entry>, c: nat)
    requires c < |es|
    ensures Flat(es[..c + 1]) == Flat(es[..c]) + es[c].Fields()
  {
    if c == 0 {
      assert es[..1][1..] == [];
    } else {
      FlatTakeNext(es[1..], c - 1);
      assert es[..c + 1][1..] == es[1..][..c] && es[..c][1..] == es[1..][..c - 1];
    }
  }

  function WrittenHeader(n: nat, es: seq<Entry>): seq<nat> {
    [DTBH_MAGIC, DTBH_VERSION, n] + Flat(es)
  }

  /** `(x + pagemask) & ~pagemask` */
  method PageUp(x: nat, p: nat) returns (r: nat)
    requires IsPageSize(p) && p >= 1 && x + p <= TWO_32
    ensures r == RoundUp(x, p)
  {
    MaskUpIsRoundUp(x, p);
    r := MaskUp(x, p);
  }

  ghost predicate SmallBlobs(dtbs: seq<Dtb>, p: nat) {
    IsPageSize(p) && p >= 1 && forall k :: 0 <= k < |dtbs| ==> |dtbs[k].payload| + p <= TWO_32
  }

  lemma ValidIsSmall(dtbs: seq<Dtb>, p: nat)
    requires Valid(dtbs, p)
    ensures SmallBlobs(dtbs, p)
  {
    PageSizes(p);
  }

  /** Sizes as the gathering loop adds them up. */
  method Gather(dtbs: seq<Dtb>, p: nat) returns (hdrSz: nat, blobSz: nat)
    requires Valid(dtbs, p)
    ensures hdrSz == HeaderSpace(|dtbs|, p) && blobSz == BlobSpace(dtbs, p, |dtbs|)
  {
    ValidIsSmall(dtbs, p);
    hdrSz, blobSz := SumSizes(dtbs, p);
    HeaderFits(dtbs, p);
    hdrSz := PageUp(hdrSz + 4, p);
  }

  /** The loop over the blobs. */
  method SumSizes(dtbs: seq<Dtb>, p: nat) returns (hdrSz: nat, blobSz: nat)
    requires SmallBlobs(dtbs, p)
    ensures hdrSz == HeaderSum(|dtbs|) && blobSz == BlobSpace(dtbs, p, |dtbs|)
  {
    hdrSz, blobSz := HEADER_SIZE, 0;
    var count := 0;
    while count < |dtbs|
      invariant 0 <= count <= |dtbs|
      invariant hdrSz == HeaderSum(count) && blobSz == BlobSpace(dtbs, p, count)
    {
      var size := PageUp(|dtbs[count].payload|, p);
      blobSz := blobSz + size;
      count := count + 1;
      hdrSz := hdrSz + 32 * count;
    }
  }

  lemma HeaderFits(dtbs: seq<Dtb>, p: nat)
    requires Valid(dtbs, p)
    ensures HeaderSum(|dtbs|) + 4 + p <= TWO_32
  {
  }

  method BlobOffsets(dtbs: seq<Dtb>, p: nat, hdrSz: nat) returns (offsets: seq<nat>)
    requires SmallBlobs(dtbs, p)
    ensures |offsets| == |dtbs|
    ensures forall j {:trigger offsets[j]} :: 0 <= j < |dtbs| ==> offsets[j] == hdrSz + BlobSpace(dtbs, p, j)
  {
    offsets := [];
    var offset := hdrSz;
    var k := 0;
    while k < |dtbs|
      invariant 0 <= k <= |dtbs| && |offsets| == k
      invariant offset == hdrSz + BlobSpace(dtbs, p, k)
      invariant forall j {:trigger offsets[j]} :: 0 <= j < k ==> offsets[j] == hdrSz + BlobSpace(dtbs, p, j)
    {
      offsets := offsets + [offset];
      var size := PageUp(|dtbs[k].payload|, p);
      offset := offset + size;
      k := k + 1;
    }
  }

  /** The entries in sorted order, with the offset and padded size of their blobs. */
  method FillEntries(dtbs: seq<Dtb>, order: seq<nat>, p: nat, hdrSz: nat) returns (es: seq<Entry>)
    requires SmallBlobs(dtbs, p) && InRange(order, |dtbs|) && hdrSz == HeaderSpace(|dtbs|, p)
    ensures es == Entries(dtbs, order, p)
    ensures forall c :: 0 <= c < |order| ==>
              && es[c].chip == dtbs[order[c]].chip
              && es[c].hwRev == dtbs[order[c]].hwRev && es[c].hwRevEnd == dtbs[order[c]].hwRevEnd
  {
    var offsets := BlobOffsets(dtbs, p, hdrSz);
    es := [];
    while |es| < |order|
      invariant |es| <= |order|
      invariant forall i :: 0 <= i < |es| ==> es[i] == EntryFor(dtbs, p, order[i])
    {
      var k := order[|es|];
      var size := PageUp(|dtbs[k].payload|, p);
      es := es + [Entry(dtbs[k].chip, PLATFORM_CODE, SUBTYPE_CODE, dtbs[k].hwRev, dtbs[k].hwRevEnd, offsets[k], size,
                        SPACE)];
    }
    assert es == Entries(dtbs, order, p);
  }

  method WriteHeader(buf: array<byte>, n: nat, es: seq<Entry>) returns (offset: nat)
    requires Holds(buf, []) && |es| == n && HEADER_SIZE + 32 * n <= buf.Length
    requires U32s(WrittenHeader(n, es))
    modifies buf
    ensures offset == HEADER_SIZE + 32 * n && Holds(buf, Words(WrittenHeader(n, es)))
  {
    assert n < TWO_32 by { assert WrittenHeader(n, es)[2] == n; }
    Memcpy(buf, 0, Words([DTBH_MAGIC, DTBH_VERSION, n]), []);
    assert [] + Zeros(0) + Words([DTBH_MAGIC, DTBH_VERSION, n]) == Words(WrittenHeader(n, es[..0])) by {
      assert WrittenHeader(n, es[..0]) == [DTBH_MAGIC, DTBH_VERSION, n];
    }
    offset := HEADER_SIZE;
    var c := 0;
    while c < n
      invariant 0 <= c <= n && offset == HEADER_SIZE + 32 * c
      invariant U32s(WrittenHeader(n, es[..c])) && Holds(buf, Words(WrittenHeader(n, es[..c])))
    {
      WriteEntry(buf, n, es, c, offset);
      offset := offset + 32;
      c := c + 1;
    }
    assert es[..n] == es;
  }

  method WriteEntry(buf: array<byte>, n: nat, es: seq<Entry>, c: nat, offset: nat)
    requires c < |es| == n && offset == HEADER_SIZE + 32 * c && HEADER_SIZE + 32 * n <= buf.Length
    requires U32s(WrittenHeader(n, es)) && U32s(WrittenHeader(n, es[..c]))
    requires Holds(buf, Words(WrittenHeader(n, es[..c])))
    modifies buf
    ensures U32s(WrittenHeader(n, es[..c + 1])) && Holds(buf, Words(WrittenHeader(n, es[..c + 1])))
  {
    ghost var w := Words(WrittenHeader(n, es[..c]));
    EntryWordsFit(n, es, c);
    Memcpy(buf, offset, Words(es[c].Fields()), w);
    assert w + Zeros(0) + Words(es[c].Fields()) == Words(WrittenHeader(n, es[..c + 1]));
  }

  lemma {:induction false} EntryWordsFit(n: nat, es: seq<Entry>, c: nat)
    requires c < |es| && U32s(WrittenHeader(n, es)) && U32s(WrittenHeader(n, es[..c]))
    ensures U32s(es[c].Fields()) && U32s(WrittenHeader(n, es[..c + 1]))
    ensures Words(WrittenHeader(n, es[..c + 1])) == Words(WrittenHeader(n, es[..c])) + Words(es[c].Fields())
  {
    forall f | 0 <= f < 8 ensures es[c].Fields()[f] < TWO_32 {
      FlatAt(es, c, f);
      assert WrittenHeader(n, es)[3 + 8 * c + f] == es[c].Fields()[f];
    }
    FlatTakeNext(es, c);
    WordsAppend(WrittenHeader(n, es[..c]), es[c].Fields());
    assert WrittenHeader(n, es[..c + 1]) == WrittenHeader(n, es[..c]) + es[c].Fields();
  }

  method WriteBlob(buf: array<byte>, offset: nat, d: Dtb, p: nat, ghost w: seq<byte>)
    requires p >= 1 && Holds(buf, w) && offset == |w| && offset + PaddedSize(d, p) <= buf.Length
    modifies buf
    ensures Holds(buf, w + Padded(d, p))
  {
    Memcpy(buf, offset, d.payload, w);
    assert w + Zeros(0) + d.payload == w + d.payload;
    ghost var pad := PaddedSize(d, p) - |d.payload|;
    HoldsMoreZeros(buf, w + d.payload, offset + PaddedSize(d, p));
    assert w + Padded(d, p) == w + d.payload + Zeros(pad);
  }

  method PastBlob(offset: nat, d: Dtb, p: nat) returns (offset': nat)
    requires IsPageSize(p) && p >= 1 && |d.payload| + p <= TWO_32
    ensures offset' == offset + PaddedSize(d, p)
  {
    var size := PageUp(|d.payload|, p);
    offset' := offset + size;
  }

  method WriteNextBlob(buf: array<byte>, offset: nat, dtbs: seq<Dtb>, p: nat, k: nat, ghost head: seq<byte>)
    requires p >= 1 && k < |dtbs| && offset == |head| + BlobSpace(dtbs, p, k)
    requires |head| + BlobSpace(dtbs, p, |dtbs|) <= buf.Length
    requires Holds(buf, WithBlobs(head, dtbs, p, k))
    modifies buf
    ensures Holds(buf, WithBlobs(head, dtbs, p, k + 1))
  {
    BlobPrefix(dtbs, p, k);
    BlobSpaceMonotone(dtbs, p, k + 1, |dtbs|);
    WriteBlob(buf, offset, dtbs[k], p, WithBlobs(head, dtbs, p, k));
    BlobsTakeNext(dtbs, p, k, head);
  }

  /** The first `k` blobs behind `head`. */
  ghost function WithBlobs(head: seq<byte>, dtbs: seq<Dtb>, p: nat, k: nat): seq<byte>
    requires p >= 1 && k <= |dtbs|
  {
    head + Concat(Blobs(dtbs, p)[..k])
  }

  lemma {:induction false} WithoutBlobs(head: seq<byte>, dtbs: seq<Dtb>, p: nat)
    requires p >= 1
    ensures WithBlobs(head, dtbs, p, 0) == head
    ensures WithBlobs(head, dtbs, p, |dtbs|) == head + Concat(Blobs(dtbs, p))
  {
    assert Blobs(dtbs, p)[..|dtbs|] == Blobs(dtbs, p);
  }

  method WriteBlobs(buf: array<byte>, dtbs: seq<Dtb>, p: nat, start: nat, ghost head: seq<byte>)
    requires SmallBlobs(dtbs, p) && Holds(buf, head) && |head| == start
    requires start + BlobSpace(dtbs, p, |dtbs|) <= buf.Length
    modifies buf
    ensures Holds(buf, head + Concat(Blobs(dtbs, p)))
  {
    var offset := start;
    var k := 0;
    WithoutBlobs(head, dtbs, p);
    while k < |dtbs|
      invariant 0 <= k <= |dtbs| && offset == start + BlobSpace(dtbs, p, k)
      invariant Holds(buf, WithBlobs(head, dtbs, p, k))
    {
      WriteNextBlob(buf, offset, dtbs, p, k, head);
      offset := PastBlob(offset, dtbs[k], p);
      k := k + 1;
    }
  }

  lemma {:induction false} BlobsTakeNext(dtbs: seq<Dtb>, p: nat, k: nat, head: seq<byte>)
    requires p >= 1 && k < |dtbs|
    ensures var bs := Blobs(dtbs, p); head + Concat(bs[..k]) + Padded(dtbs[k], p) == head + Concat(bs[..k + 1])
  {
    var bs := Blobs(dtbs, p);
    assert bs[..k + 1] == bs[..k] + [bs[k]];
    ConcatSnoc(bs[..k], bs[k]);
    assert head + (Concat(bs[..k]) + bs[k]) == head + Concat(bs[..k]) + bs[k];
  }

  /** Header and padding, into a zeroed buffer. */
  method WriteFront(buf: array<byte>, n: nat, es: seq<Entry>, p: nat) returns (offset: nat)
    requires IsPageSize(p) && p >= 1 && |es| == n && U32s(WrittenHeader(n, es))
    requires Holds(buf, []) && BodyStart(n, p) <= buf.Length
    modifies buf
    ensures offset == BodyStart(n, p)
    ensures var header := Words(WrittenHeader(n, es));
            Holds(buf, header + Zeros(BodyStart(n, p) - |header|))
  {
    offset := WriteHeader(buf, n, es);
    PadToPage(n, p);
    offset := offset + (p - And(offset, p - 1));
    HoldsMoreZeros(buf, Words(WrittenHeader(n, es)), offset);
  }

  /** Everything, into a zeroed buffer of the computed size. */
  method WriteBlock(buf: array<byte>, dtbs: seq<Dtb>, order: seq<nat>, p: nat, es: seq<Entry>)
    requires SmallBlobs(dtbs, p) && Layable(dtbs, order, p) && es == Entries(dtbs, order, p)
    requires Holds(buf, []) && buf.Length == HeaderSpace(|dtbs|, p) + BlobSpace(dtbs, p, |dtbs|)
    modifies buf
    ensures buf[..] == Image(dtbs, order, p)
  {
    GapFits(|dtbs|, p);
    ghost var header := Words(HeaderWords(dtbs, order, p));
    var offset := WriteFront(buf, |dtbs|, es, p);
    WriteBlobs(buf, dtbs, p, offset, header + Zeros(offset - |header|));
    ImageIsFilled(buf, dtbs, order, p, header);
  }

  lemma {:induction false} ImageIsFilled(buf: array<byte>, dtbs: seq<Dtb>, order: seq<nat>, p: nat, header: seq<byte>)
    requires Layable(dtbs, order, p) && header == Words(HeaderWords(dtbs, order, p))
    requires buf.Length == HeaderSpace(|dtbs|, p) + BlobSpace(dtbs, p, |dtbs|)
    requires Holds(buf, header + Zeros(BodyStart(|dtbs|, p) - |header|) + Concat(Blobs(dtbs, p)))
    ensures buf[..] == Image(dtbs, order, p)
  {
    var n := |dtbs|;
    BlobPrefix(dtbs, p, n);
    assert Blobs(dtbs, p)[..n] == Blobs(dtbs, p);
    ConcatWrapped(header, Zeros(BodyStart(n, p) - |header|), Blobs(dtbs, p), Zeros(Gap(n, p)));
  }

  /** The whole block, given the order qsort put the entries in. */
  method LoadDtbhBlock(dtbs: seq<Dtb>, order: seq<nat>, p: nat) returns (buf: array<byte>)
    requires Valid(dtbs, p) && IsOrder(order, |dtbs|)
    ensures fresh(buf) && Layable(dtbs, order, p) && buf[..] == Image(dtbs, order, p)
  {
    ValidIsLayable(dtbs, order, p);
    ValidIsSmall(dtbs, p);
    var hdrSz, blobSz := Gather(dtbs, p);
    var es := FillEntries(dtbs, order, p, hdrSz);
    buf := new byte[hdrSz + blobSz](_ => 0);
    assert Holds(buf, []);
    WriteBlock(buf, dtbs, order, p, es);
  }

  lemma HoldsMoreZeros(buf: array<byte>, w: seq<byte>, offset: nat)
    requires Holds(buf, w) && |w| <= offset <= buf.Length
    ensures Holds(buf, w + Zeros(offset - |w|))
  {
    ZerosAppend(offset - |w|, buf.Length - offset);
  }

  /** The header never ends on a page boundary, so adding `pagesize - (offset & pagemask)` rounds it up. */
  lemma PadToPage(n: nat, p: nat)
    requires IsPageSize(p)
    ensures p >= 1 && And(HEADER_SIZE + 32 * n, p - 1) <= p
    ensures HEADER_SIZE + 32 * n + (p - And(HEADER_SIZE + 32 * n, p - 1)) == BodyStart(n, p)
  {
    var x := HEADER_SIZE + 32 * n;
    MaskIsMod(x, p);
    NotOnBoundary(n, p);
    RoundUpFromMod(x, p);
  }

  lemma {:induction false} RoundUpFromMod(x: nat, p: nat)
    requires p >= 1 && x % p != 0
    ensures RoundUp(x, p) == x + (p - x % p)
    decreases x
  {
    if x >= p {
      ModStep(x, p);
      RoundUpFromMod(x - p, p);
    } else {
      DivModUnique(x, p, 0, x);
    }
  }

  lemma NotOnBoundary(n: nat, p: nat)
    requires IsPageSize(p)
    ensures p >= 1 && (12 + 32 * n) % p != 0
  {
    PageSizes(p);
  }
}
