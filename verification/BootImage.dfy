/**
 Boot images: mkbootimg writes a header and page-padded sections, unpackbootimg
 finds the magic, reads the header and walks the sections.
 */
module BootImage {
  import opened Bits
  import opened Bytes
  import opened Common

  /** "ANDROID!" */
  const MAGIC: seq<byte> := [65, 78, 68, 82, 79, 73, 68, 33]
  const HEADER_SIZE: nat := 608
  const NAME_SIZE: nat := 16
  const ARGS_SIZE: nat := 512
  const ID_SIZE: nat := 32
  const SIGNATURE_SIZE: nat := 256
  const KERNEL_OFFSET: nat := 0x8000
  /** The last position where the unpacker looks for the magic. */
  const SCAN_LIMIT: nat := 512

  // ---- Header ----

  datatype Header = Header(
    kernelSize: nat, kernelAddr: nat,
    ramdiskSize: nat, ramdiskAddr: nat,
    secondSize: nat, secondAddr: nat,
    tagsAddr: nat, pageSize: nat, dtSize: nat,
    name: seq<byte>, cmdline: seq<byte>, id: seq<byte>)
  {
    function Fields(): seq<nat> {
      [kernelSize, kernelAddr, ramdiskSize, ramdiskAddr, secondSize, secondAddr, tagsAddr, pageSize, dtSize, 0]
    }

    predicate Valid() {
      U32s(Fields()) && |name| == NAME_SIZE && |cmdline| == ARGS_SIZE && |id| == ID_SIZE
    }
  }

  function Encode(h: Header): (r: seq<byte>)
    requires h.Valid()
    ensures |r| == HEADER_SIZE
  {
    MAGIC + (Words(h.Fields()) + (h.name + h.cmdline + h.id))
  }

  function Decode(b: seq<byte>): (h: Header)
    requires |b| == HEADER_SIZE
    ensures h.Valid()
  {
    var w := b[8..];
    Header(WordAt(w, 0), WordAt(w, 1), WordAt(w, 2), WordAt(w, 3), WordAt(w, 4), WordAt(w, 5), WordAt(w, 6),
           WordAt(w, 7), WordAt(w, 8), b[48..64], b[64..576], b[576..608])
  }

  /** Where the last three of five parts are found. */
  lemma FifthsAt(m: seq<byte>, w: seq<byte>, x: seq<byte>, y: seq<byte>, z: seq<byte>)
    ensures var b, i := m + (w + (x + y + z)), |m| + |w|;
            && b[|m|..] == w + (x + y + z)
            && b[i..i + |x|] == x
            && b[i + |x|..i + |x| + |y|] == y
            && b[i + |x| + |y|..i + |x| + |y| + |z|] == z
  {
  }

  lemma HeaderRoundTrip(h: Header)
    requires h.Valid()
    ensures Decode(Encode(h)) == h
  {
    var b := Encode(h);
    var rest := h.name + h.cmdline + h.id;
    var f := h.Fields();
    FifthsAt(MAGIC, Words(f), h.name, h.cmdline, h.id);
    forall i: nat | i < 10 ensures WordAt(b[8..], i) == f[i] { WordsRoundTrip(f, rest, i); }
  }

  /** A C string stored at the start of a zeroed field, and read back up to the first NUL. */
  function CString(b: seq<byte>): (s: seq<byte>)
    ensures s <= b && 0 !in s && (|s| < |b| ==> b[|s|] == 0)
  {
    if b == [] || b[0] == 0 then [] else [b[0]] + CString(b[1..])
  }

  lemma {:induction false} CStringRoundTrip(s: seq<byte>, n: nat)
    requires n > 0 && 0 !in s
    ensures CString(s + Zeros(n)) == s
  {
    if s != [] {
      CStringRoundTrip(s[1..], n);
      assert (s + Zeros(n))[1..] == s[1..] + Zeros(n);
    } else {
      assert s + Zeros(n) == Zeros(n);
    }
  }

  // ---- Packing ----

  datatype Inputs = Inputs(
    kernel: seq<byte>, ramdisk: seq<byte>, second: Option<seq<byte>>, dt: Option<seq<byte>>,
    signature: Option<seq<byte>>,
    board: seq<byte>, cmdline: seq<byte>, id: seq<byte>,
    pageSize: nat, base: nat, kernelOffset: nat, ramdiskOffset: nat, secondOffset: nat, tagsOffset: nat)
  {
    /** What the command line accepts: files below 2 GiB, a supported page size, bounded strings; mkbootimg writes
        256 bytes of any signature it is given. */
    ghost predicate Valid() {
      && Small(kernel) && Small(ramdisk) && Small(Given(second)) && Small(Given(dt))
      && (signature.Some? ==> |signature.value| >= SIGNATURE_SIZE)
      && |board| < NAME_SIZE && 0 !in board && |cmdline| <= ARGS_SIZE - 1 && 0 !in cmdline && |id| == ID_SIZE
      && IsPageSize(pageSize)
      && base < TWO_32 && kernelOffset < TWO_32 && ramdiskOffset < TWO_32
      && secondOffset < TWO_32 && tagsOffset < TWO_32
    }
  }

  predicate Small(s: seq<byte>) {
    |s| < TWO_31
  }

  function Given(s: Option<seq<byte>>): seq<byte> {
    if s.Some? then s.value else []
  }

  function MakeHeader(i: Inputs): Header
    requires |i.board| <= NAME_SIZE && |i.cmdline| <= ARGS_SIZE
  {
    Header(|i.kernel|, (i.base + i.kernelOffset) % TWO_32,
           |i.ramdisk|, (i.base + i.ramdiskOffset) % TWO_32,
           |Given(i.second)|, (i.base + i.secondOffset) % TWO_32,
           (i.base + i.tagsOffset) % TWO_32, i.pageSize, |Given(i.dt)|,
           i.board + Zeros(NAME_SIZE - |i.board|), i.cmdline + Zeros(ARGS_SIZE - |i.cmdline|), i.id)
  }

  predicate Packable(i: Inputs) {
    && |i.board| <= NAME_SIZE && |i.cmdline| <= ARGS_SIZE && MakeHeader(i).Valid()
    && (i.signature.Some? ==> |i.signature.value| >= SIGNATURE_SIZE)
  }

  lemma ValidIsPackable(i: Inputs)
    requires i.Valid()
    ensures Packable(i) && i.pageSize >= 2048
  {
    PageSizes(i.pageSize);
  }

  /** How many bytes write_padding adds after an item, in 32-bit unsigned arithmetic. */
  function Padding(size: nat, p: nat): nat {
    PadFrom(And(size, (p - 1) % TWO_32), p)
  }

  /** The distance to the page end from a place in the page. */
  function PadFrom(inPage: nat, p: nat): nat {
    if inPage == 0 then 0 else (p - inPage) % TWO_32
  }

  lemma PadFromValue(inPage: nat, p: nat)
    requires inPage < p < TWO_32
    ensures PadFrom(inPage, p) == (if inPage == 0 then 0 else p - inPage) < p
  {
  }

  /** Padding fills the item up to a page boundary. */
  lemma PaddingFillsPage(size: nat, p: nat)
    requires IsPageSize(p)
    ensures p >= 2048 && Padding(size, p) < p
    ensures Padding(size, p) == if size % p == 0 then 0 else p - size % p
  {
    PageMask(p);
    MaskIsMod(size, p);
    ModBound(size, p);
    PadFromValue(size % p, p);
  }

  lemma ModBound(size: nat, p: nat)
    requires p > 0
    ensures 0 <= size % p < p
  {
  }

  lemma PageMask(p: nat)
    requires IsPageSize(p)
    ensures 2048 <= p < TWO_32 && (p - 1) % TWO_32 == p - 1
  {
    PageSizes(p);
  }

  /** Two sizes get the same padding exactly if they end at the same place in a page. */
  lemma SamePadding(a: nat, b: nat, p: nat)
    requires IsPageSize(p)
    ensures p >= 1
    ensures Padding(a, p) == Padding(b, p) <==> a % p == b % p
  {
    PaddingFillsPage(a, p);
    PaddingFillsPage(b, p);
  }

  /** The image in the order it is written.  The padding after the second stage is that of the ramdisk's size. */
  function Parts(i: Inputs): (r: seq<seq<byte>>)
    requires Packable(i)
    ensures |r| == 11
  {
    var p := i.pageSize;
    [ Encode(MakeHeader(i)), Zeros(Padding(HEADER_SIZE, p)),
      i.kernel, Zeros(Padding(|i.kernel|, p)),
      i.ramdisk, Zeros(Padding(|i.ramdisk|, p)),
      Given(i.second), if i.second.Some? then Zeros(Padding(|i.ramdisk|, p)) else [],
      Given(i.dt), if i.dt.Some? then Zeros(Padding(|i.dt.value|, p)) else [],
      if i.signature.Some? then i.signature.value[..SIGNATURE_SIZE] else [] ]
  }

  function Image(i: Inputs): seq<byte>
    requires Packable(i)
  {
    Concat(Parts(i))
  }

  lemma WordsBehind(m: seq<byte>, k: nat, ws: seq<nat>, rest: seq<byte>)
    requires |m| == 4 * k && U32s(ws)
    ensures HasWords(m + (Words(ws) + rest), k, ws)
  {
    var b, b' := m + (Words(ws) + rest), Words(ws) + rest;
    forall f: nat | f < |ws| ensures WordAt(b, k + f) == ws[f] {
      WordsRoundTrip(ws, rest, f);
      assert b[4 * (k + f)..4 * (k + f) + 4] == b'[4 * f..4 * f + 4];
    }
  }

  lemma ImageStart(i: Inputs)
    requires Packable(i)
    ensures |Image(i)| >= HEADER_SIZE && Image(i)[..HEADER_SIZE] == Encode(MakeHeader(i))
  {
    PartAt(Parts(i), 0);
    assert Start(Parts(i), 0) == 0;
  }

  /** The header byte by byte: the characters ANDROID!, ten words, the board name and the command line filled up with
      zeros, and the id. Sizes are those of the inputs, and addresses the base plus the offset modulo 2^32. */
  lemma HeaderBytes(i: Inputs)
    requires Packable(i)
    ensures var img := Image(i);
            && |img| >= 608 && img[..8] == [65, 78, 68, 82, 79, 73, 68, 33]
            && HasWords(img[..608], 2, [|i.kernel|, (i.base + i.kernelOffset) % TWO_32,
                                        |i.ramdisk|, (i.base + i.ramdiskOffset) % TWO_32,
                                        |Given(i.second)|, (i.base + i.secondOffset) % TWO_32,
                                        (i.base + i.tagsOffset) % TWO_32, i.pageSize, |Given(i.dt)|, 0])
            && img[48..64] == i.board + Zeros(16 - |i.board|)
            && img[64..576] == i.cmdline + Zeros(512 - |i.cmdline|)
            && img[576..608] == i.id
  {
    var img, h := Image(i), MakeHeader(i);
    ImageStart(i);
    FifthsAt(MAGIC, Words(h.Fields()), h.name, h.cmdline, h.id);
    WordsBehind(MAGIC, 2, h.Fields(), h.name + h.cmdline + h.id);
    assert img[..8] == img[..608][..8] == MAGIC;
    assert img[48..64] == img[..608][48..64] && img[64..576] == img[..608][64..576];
    assert img[576..608] == img[..608][576..608];
  }

  // ---- Unpacking ----

  datatype Addresses = Addresses(base: nat, ramdiskOffset: nat, secondOffset: nat, tagsOffset: nat)

  datatype Sections = Sections(
    kernel: seq<byte>, ramdisk: seq<byte>, second: seq<byte>, dt: seq<byte>, signature: seq<byte>)

  datatype Unpacked = Unpacked(header: Header, addresses: Addresses, cmdline: seq<byte>, sections: Sections)

  predicate MagicAt(file: seq<byte>, i: nat) {
    ReadAt(file, i, 8) == MAGIC
  }

  /** The first position from `i` up to the scan limit that holds the magic. */
  function FirstMagic(file: seq<byte>, i: nat): (r: Option<nat>)
    ensures r.Some? ==> i <= r.value <= SCAN_LIMIT && MagicAt(file, r.value)
    ensures forall j: nat :: i <= j <= SCAN_LIMIT && (r.Some? ==> j < r.value) ==> !MagicAt(file, j)
    decreases SCAN_LIMIT + 1 - i
  {
    if i > SCAN_LIMIT then None else if MagicAt(file, i) then Some(i) else FirstMagic(file, i + 1)
  }

  /** The recovered addresses, in 32-bit unsigned arithmetic. */
  function Recover(h: Header): Addresses {
    Addresses((h.kernelAddr - KERNEL_OFFSET) % TWO_32,
              (h.ramdiskAddr - h.kernelAddr + KERNEL_OFFSET) % TWO_32,
              (h.secondAddr - h.kernelAddr + KERNEL_OFFSET) % TWO_32,
              (h.tagsAddr - h.kernelAddr + KERNEL_OFFSET) % TWO_32)
  }

  /** Where each section is looked for, given where the header starts. */
  function KernelAt(start: nat, p: nat): nat { start + HEADER_SIZE + Padding(HEADER_SIZE, p) }
  function After(at: nat, size: nat, p: nat): nat { at + size + Padding(size, p) }
  function RamdiskAt(h: Header, start: nat, p: nat): nat { After(KernelAt(start, p), h.kernelSize, p) }
  function SecondAt(h: Header, start: nat, p: nat): nat { After(RamdiskAt(h, start, p), h.ramdiskSize, p) }
  function DtAt(h: Header, start: nat, p: nat): nat { After(SecondAt(h, start, p), h.secondSize, p) }
  function SignatureAt(h: Header, start: nat, p: nat): nat { After(DtAt(h, start, p), h.dtSize, p) }

  function ReadSections(file: seq<byte>, h: Header, start: nat, p: nat): Sections {
    Sections(ReadAt(file, KernelAt(start, p), h.kernelSize),
             ReadAt(file, RamdiskAt(h, start, p), h.ramdiskSize),
             ReadAt(file, SecondAt(h, start, p), h.secondSize),
             ReadAt(file, DtAt(h, start, p), h.dtSize),
             ReadAt(file, SignatureAt(h, start, p), SIGNATURE_SIZE))
  }

  /** What the unpacker's scan buffer and header hold before it reads into them. */
  datatype Memory = Memory(tmp: seq<byte>, header: seq<byte>) {
    predicate Valid() {
      |tmp| == 8 && |header| == HEADER_SIZE
    }
  }

  /** A buffer after a read that may come up short: the rest keeps what it held. */
  function Filled(buffer: seq<byte>, read: seq<byte>): (r: seq<byte>)
    requires |read| <= |buffer|
    ensures |r| == |buffer|
  {
    read + buffer[|read|..]
  }

  /** The scan as the code does it, comparing the whole buffer whatever was read. */
  function Scan(file: seq<byte>, tmp: seq<byte>, i: nat): Option<nat>
    requires |tmp| == 8
    decreases SCAN_LIMIT + 1 - i
  {
    if i > SCAN_LIMIT then None
    else
      var tmp' := Filled(tmp, ReadAt(file, i, 8));
      if tmp' == MAGIC then Some(i) else Scan(file, tmp', i + 1)
  }

  /** None when the scan finds no magic.  A page size of 0 means "as the header says". */
  function Unpack(file: seq<byte>, pageSize: nat, mem: Memory): Option<Unpacked>
    requires mem.Valid()
  {
    match Scan(file, mem.tmp, 0)
    case None => None
    case Some(i) =>
      var h := Decode(Filled(mem.header, ReadAt(file, i, HEADER_SIZE)));
      var p := if pageSize == 0 then h.pageSize else pageSize;
      Some(Unpacked(h, Recover(h), CString(h.cmdline), ReadSections(file, h, i, p)))
  }

  /** Past the end of the file the buffer keeps repeating the last byte. */
  ghost predicate RepeatsLast(file: seq<byte>, tmp: seq<byte>, i: nat)
    requires |file| >= 8 && |tmp| == 8
  {
    i + 8 > |file| ==> forall k :: 0 <= k < 8 && |file| - i <= k ==> tmp[k] == file[|file| - 1]
  }

  lemma ShortReadNeverMatches(file: seq<byte>, tmp: seq<byte>, i: nat)
    requires |file| >= 8 && |tmp| == 8 && RepeatsLast(file, tmp, i)
    ensures var tmp' := Filled(tmp, ReadAt(file, i, 8));
            RepeatsLast(file, tmp', i + 1) && (tmp' == MAGIC <==> MagicAt(file, i))
  {
    var tmp' := Filled(tmp, ReadAt(file, i, 8));
    if i + 8 > |file| {
      assert tmp'[6] == file[|file| - 1] == tmp'[7];
      assert MAGIC[6] != MAGIC[7];
    } else {
      assert tmp' == ReadAt(file, i, 8);
    }
  }

  /** On a file of eight bytes or more the stale buffer makes no difference: the scan finds the first magic. */
  lemma {:induction false} ScanFindsFirstMagic(file: seq<byte>, tmp: seq<byte>, i: nat)
    requires |file| >= 8 && |tmp| == 8 && RepeatsLast(file, tmp, i)
    ensures Scan(file, tmp, i) == FirstMagic(file, i)
    decreases SCAN_LIMIT + 1 - i
  {
    if i <= SCAN_LIMIT {
      ShortReadNeverMatches(file, tmp, i);
      ScanFindsFirstMagic(file, Filled(tmp, ReadAt(file, i, 8)), i + 1);
    }
  }

  // ---- The two programs ----

  /** mkbootimg: every write appends to the output. */
  method Pack(i: Inputs) returns (out: seq<byte>)
    requires i.Valid()
    ensures Packable(i) && out == Image(i)
  {
    ValidIsPackable(i);
    out := WriteFront(i);
    out := WriteTail(i, out);
  }

  /** Header, kernel and ramdisk, each padded. */
  method WriteFront(i: Inputs) returns (out: seq<byte>)
    requires Packable(i)
    ensures out == Concat(Parts(i)[..6])
  {
    ghost var parts := Parts(i);
    var p := i.pageSize;
    assert [] == Concat(parts[..0]);
    out := WriteItem([], Encode(MakeHeader(i)), Padding(HEADER_SIZE, p), parts, 0);
    out := WriteItem(out, i.kernel, Padding(|i.kernel|, p), parts, 2);
    out := WriteItem(out, i.ramdisk, Padding(|i.ramdisk|, p), parts, 4);
  }

  /** Second stage, device tree and signature, where given. */
  method WriteTail(i: Inputs, front: seq<byte>) returns (out: seq<byte>)
    requires Packable(i) && front == Concat(Parts(i)[..6])
    ensures out == Image(i)
  {
    ghost var parts := Parts(i);
    var p := i.pageSize;
    out := WriteOptional(front, i.second, Padding(|i.ramdisk|, p), parts, 6);
    out := WriteOptional(out, i.dt, Padding(|Given(i.dt)|, p), parts, 8);
    if i.signature.Some? {
      out := Write(out, i.signature.value[..SIGNATURE_SIZE], parts, 10);
    } else {
      SkipEmpty(parts, 10);
    }
    assert parts[..11] == parts;
  }

  method WriteItem(out: seq<byte>, data: seq<byte>, padding: nat, ghost parts: seq<seq<byte>>, ghost k: nat)
    returns (out': seq<byte>)
    requires k + 1 < |parts| && data == parts[k] && Zeros(padding) == parts[k + 1] && out == Concat(parts[..k])
    ensures out' == Concat(parts[..k + 2])
  {
    out' := Write(out, data, parts, k);
    out' := Write(out', Zeros(padding), parts, k + 1);
  }

  method WriteOptional(out: seq<byte>, data: Option<seq<byte>>, padding: nat, ghost parts: seq<seq<byte>>,
                       ghost k: nat)
    returns (out': seq<byte>)
    requires k + 1 < |parts| && out == Concat(parts[..k])
    requires Given(data) == parts[k] && parts[k + 1] == if data.Some? then Zeros(padding) else []
    ensures out' == Concat(parts[..k + 2])
  {
    out' := out;
    if data.Some? {
      out' := WriteItem(out, data.value, padding, parts, k);
    } else {
      SkipEmpty(parts, k);
      SkipEmpty(parts, k + 1);
    }
  }

  method Write(out: seq<byte>, data: seq<byte>, ghost parts: seq<seq<byte>>, ghost k: nat) returns (out': seq<byte>)
    requires k < |parts| && data == parts[k] && out == Concat(parts[..k])
    ensures out' == Concat(parts[..k + 1])
  {
    out' := out + data;
    assert parts[..k + 1] == parts[..k] + [parts[k]];
    ConcatSnoc(parts[..k], parts[k]);
  }

  lemma SkipEmpty(parts: seq<seq<byte>>, k: nat)
    requires k < |parts| && parts[k] == []
    ensures Concat(parts[..k + 1]) == Concat(parts[..k])
  {
    assert parts[..k + 1] == parts[..k] + [parts[k]];
    ConcatSnoc(parts[..k], parts[k]);
  }

  lemma ScanStep(file: seq<byte>, tmp: seq<byte>, i: nat)
    requires |tmp| == 8 && i <= SCAN_LIMIT
    ensures var next := Filled(tmp, ReadAt(file, i, 8));
            Scan(file, tmp, i) == if next == MAGIC then Some(i) else Scan(file, next, i + 1)
  {
  }

  lemma ScanPastLimit(file: seq<byte>, tmp: seq<byte>, i: nat)
    requires |tmp| == 8 && i > SCAN_LIMIT
    ensures Scan(file, tmp, i) == None
  {
  }

  /** The loop of the scan, one position per turn. */
  method ScanLoop(file: seq<byte>, buffer: seq<byte>) returns (i: nat)
    requires |buffer| == 8
    ensures Scan(file, buffer, 0) == if i <= SCAN_LIMIT then Some(i) else None
  {
    ghost var found := Scan(file, buffer, 0);
    var tmp := buffer;
    i := 0;
    while i <= SCAN_LIMIT
      invariant i <= SCAN_LIMIT + 1 && |tmp| == 8
      invariant found == Scan(file, tmp, i)
    {
      ScanStep(file, tmp, i);
      tmp := Filled(tmp, ReadAt(file, i, 8));
      if tmp == MAGIC {
        return;
      }
      i := i + 1;
    }
    ScanPastLimit(file, tmp, i);
  }

  /** unpackbootimg's scan for the magic: the first hit, or one past the limit. */
  method ScanForMagic(file: seq<byte>, buffer: seq<byte>) returns (i: nat)
    requires |buffer| == 8
    ensures Scan(file, buffer, 0) == if i <= SCAN_LIMIT then Some(i) else None
    ensures |file| >= 8 ==> FirstMagic(file, 0) == if i <= SCAN_LIMIT then Some(i) else None
    ensures |file| >= 8 ==>
              (i <= 512 ==> MagicAt(file, i)) && forall j: nat :: j < i && j <= 512 ==> !MagicAt(file, j)
  {
    i := ScanLoop(file, buffer);
    if |file| >= 8 {
      ScanFindsFirstMagic(file, buffer, 0);
    }
  }

  /** One fread.  The file position stops at the end of the file; total_read, the sum of the sizes, does not. */
  method ReadNext(file: seq<byte>, pos: nat, n: nat, ghost total: nat) returns (b: seq<byte>, pos': nat)
    requires pos == Min(total, |file|)
    ensures b == ReadAt(file, total, n)
    ensures pos' == Min(total + n, |file|)
  {
    b := ReadAt(file, pos, n);
    pos' := pos + |b|;
  }

  /** A section and the padding behind it. */
  method ReadItem(file: seq<byte>, pos: nat, n: nat, p: nat, ghost total: nat) returns (b: seq<byte>, pos': nat)
    requires pos == Min(total, |file|)
    ensures b == ReadAt(file, total, n)
    ensures pos' == Min(After(total, n, p), |file|)
  {
    b, pos' := ReadNext(file, pos, n, total);
    var _, pos'' := ReadNext(file, pos', Padding(n, p), total + n);
    pos' := pos'';
  }

  method ReadAllSections(file: seq<byte>, h: Header, p: nat, pos: nat, ghost start: nat) returns (r: Sections)
    requires pos == Min(KernelAt(start, p), |file|)
    ensures r == ReadSections(file, h, start, p)
  {
    var kernel, pos1 := ReadItem(file, pos, h.kernelSize, p, KernelAt(start, p));
    var ramdisk, pos2 := ReadItem(file, pos1, h.ramdiskSize, p, RamdiskAt(h, start, p));
    var second, pos3 := ReadItem(file, pos2, h.secondSize, p, SecondAt(h, start, p));
    var dt, pos4 := ReadItem(file, pos3, h.dtSize, p, DtAt(h, start, p));
    var signature, _ := ReadNext(file, pos4, SIGNATURE_SIZE, SignatureAt(h, start, p));
    r := Sections(kernel, ramdisk, second, dt, signature);
  }

  method UnpackImage(file: seq<byte>, pageSize: nat, mem: Memory) returns (r: Option<Unpacked>)
    requires mem.Valid()
    ensures r == Unpack(file, pageSize, mem)
  {
    var i := ScanForMagic(file, mem.tmp);
    if i > SCAN_LIMIT {
      return None;
    }
    var b, pos := ReadNext(file, Min(i, |file|), HEADER_SIZE, i);
    var h := Decode(Filled(mem.header, b));
    var p := if pageSize == 0 then h.pageSize else pageSize;
    var _, pos' := ReadNext(file, pos, Padding(HEADER_SIZE, p), i + HEADER_SIZE);
    var sections := ReadAllSections(file, h, p, pos', i);
    r := Some(Unpacked(h, Recover(h), CString(h.cmdline), sections));
  }

  // ---- Unpacking what was packed ----

  /** The prefix and image together start no magic before the image does. */
  ghost predicate NoEarlierMagic(prefix: seq<byte>, image: seq<byte>) {
    forall j: nat :: j < |prefix| ==> !MagicAt(prefix + image, j)
  }

  /** The second stage's padding is what the unpacker expects. */
  predicate Aligned(i: Inputs)
    requires i.pageSize > 0
  {
    i.second.None? || |i.second.value| % i.pageSize == |i.ramdisk| % i.pageSize
  }

  lemma ReadPart(parts: seq<seq<byte>>, i: nat)
    requires i < |parts|
    ensures ReadAt(Concat(parts), Start(parts, i), |parts[i]|) == parts[i]
  {
    PartAt(parts, i);
    if parts[i] == [] {
    }
  }

  /** An item and its padding further. */
  lemma StartAfterItem(parts: seq<seq<byte>>, k: nat)
    requires k + 2 <= |parts|
    ensures Start(parts, k + 2) == Start(parts, k) + |parts[k]| + |parts[k + 1]|
  {
    StartNext(parts, k);
    StartNext(parts, k + 1);
  }

  /** The sizes of the parts of the prefixed image, up to the ramdisk. */
  lemma PartSizes(prefix: seq<byte>, i: Inputs)
    requires Packable(i)
    ensures var parts, p := [prefix] + Parts(i), i.pageSize;
            && parts[0] == prefix && parts[1..] == Parts(i)
            && |parts[1]| + |parts[2]| == HEADER_SIZE + Padding(HEADER_SIZE, p)
            && |parts[3]| + |parts[4]| == |i.kernel| + Padding(|i.kernel|, p)
            && |parts[5]| + |parts[6]| == |i.ramdisk| + Padding(|i.ramdisk|, p)
  {
  }

  /** Where the prefixed image keeps its parts. */
  lemma WrittenPositions(prefix: seq<byte>, i: Inputs)
    requires Packable(i)
    ensures var parts := [prefix] + Parts(i);
            var h, p, n := MakeHeader(i), i.pageSize, |prefix|;
            && Concat(parts) == prefix + Image(i)
            && Start(parts, 1) == n
            && Start(parts, 3) == KernelAt(n, p)
            && Start(parts, 5) == RamdiskAt(h, n, p)
            && Start(parts, 7) == SecondAt(h, n, p)
  {
    var parts := [prefix] + Parts(i);
    PartSizes(prefix, i);
    StartNext(parts, 0);
    StartAfterItem(parts, 1);
    StartAfterItem(parts, 3);
    StartAfterItem(parts, 5);
  }

  lemma FirstMagicIs(file: seq<byte>, i: nat, n: nat)
    requires i <= n <= SCAN_LIMIT && MagicAt(file, n)
    requires forall j: nat :: i <= j < n ==> !MagicAt(file, j)
    ensures FirstMagic(file, i) == Some(n)
  {
  }

  lemma HeaderStartsWithMagic(file: seq<byte>, n: nat, h: Header)
    requires h.Valid() && ReadAt(file, n, HEADER_SIZE) == Encode(h)
    ensures MagicAt(file, n)
  {
    assert file[n..n + 8] == file[n..n + HEADER_SIZE][..8] == Encode(h)[..8] == MAGIC;
  }

  lemma MagicFound(prefix: seq<byte>, i: Inputs)
    requires Packable(i) && |prefix| <= SCAN_LIMIT && NoEarlierMagic(prefix, Image(i))
    ensures FirstMagic(prefix + Image(i), 0) == Some(|prefix|)
    ensures ReadAt(prefix + Image(i), |prefix|, HEADER_SIZE) == Encode(MakeHeader(i))
  {
    var file := prefix + Image(i);
    WrittenPositions(prefix, i);
    ReadPart([prefix] + Parts(i), 1);
    HeaderStartsWithMagic(file, |prefix|, MakeHeader(i));
    FirstMagicIs(file, 0, |prefix|);
  }

  // ---- Main results ----

  /** Unpacking an image behind any prefix that hides no earlier magic, the page size given or left to the header. */
  ghost predicate Unpackable(prefix: seq<byte>, i: Inputs, pageSize: nat, mem: Memory) {
    && i.Valid() && mem.Valid() && |prefix| <= SCAN_LIMIT && (pageSize == 0 || pageSize == i.pageSize)
    && Packable(i) && NoEarlierMagic(prefix, Image(i))
  }

  lemma WholeRead(buffer: seq<byte>, read: seq<byte>)
    requires |read| == |buffer|
    ensures Filled(buffer, read) == read
  {
  }

  lemma UnpackFindsHeader(prefix: seq<byte>, i: Inputs, pageSize: nat, mem: Memory)
    requires Unpackable(prefix, i, pageSize, mem)
    ensures var h := MakeHeader(i);
            Unpack(prefix + Image(i), pageSize, mem)
            == Some(Unpacked(h, Recover(h), i.cmdline, ReadSections(prefix + Image(i), h, |prefix|, i.pageSize)))
  {
    ValidIsPackable(i);
    MagicFound(prefix, i);
    ScanFindsFirstMagic(prefix + Image(i), mem.tmp, 0);
    WholeRead(mem.header, Encode(MakeHeader(i)));
    HeaderRoundTrip(MakeHeader(i));
    CStringRoundTrip(i.cmdline, ARGS_SIZE - |i.cmdline|);
  }

  /** The kernel is looked for one page behind the magic: a page as given, or as the header says if none is given. */
  lemma KernelOnePageOn(file: seq<byte>, pageSize: nat, mem: Memory, at: nat, u: Unpacked, page: nat)
    requires mem.Valid() && |file| >= 8 && FirstMagic(file, 0) == Some(at) && Unpack(file, pageSize, mem) == Some(u)
    requires page == (if pageSize != 0 then pageSize else u.header.pageSize) && IsPageSize(page)
    ensures u.sections.kernel == ReadAt(file, at + page, u.header.kernelSize)
  {
    ScanFindsFirstMagic(file, mem.tmp, 0);
    UnpackAt(file, pageSize, mem, at, u);
    KernelReadAt(file, u.header, at, page);
  }

  lemma UnpackAt(file: seq<byte>, pageSize: nat, mem: Memory, at: nat, u: Unpacked)
    requires mem.Valid() && Scan(file, mem.tmp, 0) == Some(at) && Unpack(file, pageSize, mem) == Some(u)
    ensures u.sections == ReadSections(file, u.header, at, if pageSize != 0 then pageSize else u.header.pageSize)
  {
  }

  lemma KernelReadAt(file: seq<byte>, h: Header, at: nat, p: nat)
    requires IsPageSize(p)
    ensures ReadSections(file, h, at, p).kernel == ReadAt(file, at + p, h.kernelSize)
  {
    HeaderFillsPage(at, p);
  }

  lemma HeaderFillsPage(at: nat, p: nat)
    requires IsPageSize(p)
    ensures KernelAt(at, p) == at + p
  {
    PaddingFillsPage(608, p);
    SmallModulus(608, p);
  }

  lemma SmallModulus(a: nat, p: nat)
    requires a < p
    ensures a % p == a
  {
  }

  /** Kernel, ramdisk and second stage come back exactly, whatever their sizes. */
  lemma FrontSectionsRoundTrip(prefix: seq<byte>, i: Inputs, pageSize: nat, mem: Memory)
    requires Unpackable(prefix, i, pageSize, mem)
    ensures var u := Unpack(prefix + Image(i), pageSize, mem);
            && u.Some? && u.value.cmdline == i.cmdline && u.value.header == MakeHeader(i)
            && u.value.sections.kernel == i.kernel
            && u.value.sections.ramdisk == i.ramdisk
            && u.value.sections.second == Given(i.second)
  {
    UnpackFindsHeader(prefix, i, pageSize, mem);
    ReadFront(prefix, i);
  }

  lemma ReadFront(prefix: seq<byte>, i: Inputs)
    requires Packable(i)
    ensures var s := ReadSections(prefix + Image(i), MakeHeader(i), |prefix|, i.pageSize);
            s.kernel == i.kernel && s.ramdisk == i.ramdisk && s.second == Given(i.second)
  {
    WrittenPositions(prefix, i);
    var parts := [prefix] + Parts(i);
    ReadPart(parts, 3);
    ReadPart(parts, 5);
    ReadPart(parts, 7);
  }

  /** Where the device tree and the signature are written. */
  function DtWrittenAt(i: Inputs, start: nat): nat
    requires Packable(i)
  {
    SecondAt(MakeHeader(i), start, i.pageSize) + |Given(i.second)|
    + if i.second.Some? then Padding(|i.ramdisk|, i.pageSize) else 0
  }

  function SignatureWrittenAt(i: Inputs, start: nat): nat
    requires Packable(i)
  {
    DtWrittenAt(i, start) + |Given(i.dt)| + if i.dt.Some? then Padding(|i.dt.value|, i.pageSize) else 0
  }

  lemma WrittenBehindSecond(prefix: seq<byte>, i: Inputs)
    requires Packable(i)
    ensures Start([prefix] + Parts(i), 9) == DtWrittenAt(i, |prefix|)
    ensures Start([prefix] + Parts(i), 11) == SignatureWrittenAt(i, |prefix|)
  {
    WrittenPositions(prefix, i);
    var parts := [prefix] + Parts(i);
    StartNext(parts, 7); StartNext(parts, 8); StartNext(parts, 9); StartNext(parts, 10);
  }

  lemma PaddingOfNothing(p: nat)
    ensures Padding(0, p) == 0
  {
  }

  /** The unpacker looks for the device tree and the signature where they were written exactly if there is no second
      stage or it ends at the same place in a page as the ramdisk. */
  lemma TailPositionsAgree(i: Inputs, start: nat)
    requires i.Valid() && i.pageSize > 0 && Packable(i)
    ensures Aligned(i) <==> DtAt(MakeHeader(i), start, i.pageSize) == DtWrittenAt(i, start)
    ensures Aligned(i) <==> SignatureAt(MakeHeader(i), start, i.pageSize) == SignatureWrittenAt(i, start)
  {
    PaddingOfNothing(i.pageSize);
    if i.second.Some? {
      SamePadding(|i.second.value|, |i.ramdisk|, i.pageSize);
    }
  }

  /** Then they come back exactly. */
  lemma TailSectionsRoundTrip(prefix: seq<byte>, i: Inputs, pageSize: nat, mem: Memory)
    requires Unpackable(prefix, i, pageSize, mem) && i.pageSize > 0 && Aligned(i)
    ensures var u := Unpack(prefix + Image(i), pageSize, mem);
            && u.Some?
            && u.value.sections.dt == Given(i.dt)
            && (i.signature.Some? ==> u.value.sections.signature == i.signature.value[..256])
  {
    UnpackFindsHeader(prefix, i, pageSize, mem);
    WrittenPositions(prefix, i);
    WrittenBehindSecond(prefix, i);
    TailPositionsAgree(i, |prefix|);
    var parts := [prefix] + Parts(i);
    ReadPart(parts, 9);
    ReadPart(parts, 11);
  }

  // ---- When the device tree is lost ----

  ghost predicate DtComesBack(i: Inputs, d: seq<byte>, mem: Memory)
    requires i.Valid() && Small(d) && mem.Valid()
  {
    var j := i.(dt := Some(d));
    ValidIsPackable(j);
    var u := Unpack(Image(j), 0, mem);
    u.Some? && u.value.sections.dt == d
  }

  lemma DtPartsAt(i: Inputs)
    requires Packable(i) && i.second.Some? && i.dt.Some?
    ensures var parts := [[]] + Parts(i);
            var w := DtWrittenAt(i, 0);
            && Concat(parts) == Image(i)
            && parts[8] == Zeros(Padding(|i.ramdisk|, i.pageSize)) && Start(parts, 8) + |parts[8]| == w
            && parts[9] == i.dt.value && Start(parts, 9) == w
            && parts[10] == Zeros(Padding(|i.dt.value|, i.pageSize)) && Start(parts, 10) == w + |i.dt.value|
  {
    var parts := [[]] + Parts(i);
    WrittenPositions([], i);
    WrittenBehindSecond([], i);
    assert [] + Image(i) == Image(i);
    StartNext(parts, 8);
    StartNext(parts, 9);
  }

  lemma ItemFillsAPage(m: nat, p: nat)
    requires IsPageSize(p) && m > 0
    ensures m + Padding(m, p) >= p
  {
    if m < p {
      PaddingFillsPage(m, p);
      DivModUnique(m, p, 0, m);
    }
  }

  ghost predicate ZeroFrom(b: seq<byte>, start: nat) {
    forall i :: start <= i < |b| ==> b[i] == 0
  }

  /** Among three parts of which only the first byte of the middle one is not 0. */
  lemma ZeroAround(parts: seq<seq<byte>>, k: nat, w: nat, r: nat)
    requires k + 2 < |parts| && Start(parts, k + 1) == w == Start(parts, k) + |parts[k]|
    requires Start(parts, k + 2) == w + |parts[k + 1]|
    requires ZeroFrom(parts[k], 0) && ZeroFrom(parts[k + 1], 1) && ZeroFrom(parts[k + 2], 0)
    requires w - |parts[k]| <= r < w + |parts[k + 1]| + |parts[k + 2]| && r != w
    ensures r < |Concat(parts)| && Concat(parts)[r] == 0
  {
    if r < w {
      ByteAt(parts, k, r - Start(parts, k));
    } else if r < w + |parts[k + 1]| {
      ByteAt(parts, k + 1, r - w);
    } else {
      ByteAt(parts, k + 2, r - w - |parts[k + 1]|);
    }
  }

  /** Around the place where a device tree `1 0 0 ... 0` is written, every other byte the unpacker may start at is 0. */
  lemma MisreadByteIsZero(i: Inputs, r: nat)
    requires i.Valid() && Packable(i) && i.second.Some? && i.dt.Some? && |i.dt.value| > 0
    requires forall k :: 1 <= k < |i.dt.value| ==> i.dt.value[k] == 0
    requires var w := DtWrittenAt(i, 0);
             w - Padding(|i.ramdisk|, i.pageSize) <= r < w + i.pageSize && r != w
    ensures r < |Image(i)| && Image(i)[r] == 0
  {
    DtPartsAt(i);
    ItemFillsAPage(|i.dt.value|, i.pageSize);
    ZeroAround([[]] + Parts(i), 8, DtWrittenAt(i, 0), r);
  }

  /** Where the unpacker looks for a misaligned device tree: within a page of it, and not at it. */
  lemma MisreadPosition(i: Inputs)
    requires i.Valid() && i.pageSize > 0 && Packable(i) && !Aligned(i)
    ensures var r, w := DtAt(MakeHeader(i), 0, i.pageSize), DtWrittenAt(i, 0);
            w - Padding(|i.ramdisk|, i.pageSize) <= r < w + i.pageSize && r != w
  {
    TailPositionsAgree(i, 0);
    PaddingFillsPage(|i.second.value|, i.pageSize);
  }

  lemma FirstByteDiffers(image: seq<byte>, r: nat, d: seq<byte>)
    requires r < |image| && |d| > 0 && image[r] != d[0]
    ensures ReadAt(image, r, |d|) != d
  {
    assert ReadAt(image, r, |d|)[0] == image[r];
  }

  lemma MisalignedDtIsLost(i: Inputs, m: nat, mem: Memory)
    requires i.Valid() && 0 < m < TWO_31 && i.pageSize > 0 && !Aligned(i) && mem.Valid()
    ensures !DtComesBack(i, [1] + Zeros(m - 1), mem)
  {
    var d: seq<byte> := [1] + Zeros(m - 1);
    var j := i.(dt := Some(d));
    ValidIsPackable(j);
    assert [] + Image(j) == Image(j);
    UnpackFindsHeader([], j, 0, mem);
    var r := DtAt(MakeHeader(j), 0, j.pageSize);
    MisreadPosition(j);
    MisreadByteIsZero(j, r);
    FirstByteDiffers(Image(j), r, d);
  }

  /** For every nonempty size, every device tree of that size comes back exactly if there is no second stage or its size
      agrees with the ramdisk's modulo the page size. */
  lemma DtComesBackIffAligned(i: Inputs, m: nat, mem: Memory)
    requires i.Valid() && 0 < m < TWO_31 && i.pageSize > 0 && mem.Valid()
    ensures Aligned(i) <==> forall d: seq<byte> :: |d| == m ==> DtComesBack(i, d, mem)
  {
    if Aligned(i) {
      forall d: seq<byte> | |d| == m ensures DtComesBack(i, d, mem) {
        var j := i.(dt := Some(d));
        ValidIsPackable(j);
        assert [] + Image(j) == Image(j);
        TailSectionsRoundTrip([], j, 0, mem);
      }
    } else {
      MisalignedDtIsLost(i, m, mem);
      assert |[1] + Zeros(m - 1)| == m;
    }
  }

  // ---- When the signature is lost ----

  ghost predicate SignatureComesBack(i: Inputs, s: seq<byte>, mem: Memory)
    requires i.Valid() && |s| == SIGNATURE_SIZE && mem.Valid()
  {
    var j := i.(signature := Some(s));
    ValidIsPackable(j);
    var u := Unpack(Image(j), 0, mem);
    u.Some? && u.value.sections.signature == s
  }

  /** What is written before the signature does not depend on it. */
  ghost function BeforeSignature(i: Inputs): seq<byte>
    requires Packable(i)
  {
    Concat(Parts(i)[..10])
  }

  lemma SignaturePart(i: Inputs, s: seq<byte>)
    requires i.Valid() && |s| == SIGNATURE_SIZE
    ensures var j := i.(signature := Some(s));
            Packable(i) && Packable(j) && MakeHeader(j) == MakeHeader(i) && Parts(j) == Parts(i)[..10] + [s]
  {
    var j := i.(signature := Some(s));
    ValidIsPackable(i);
    ValidIsPackable(j);
    assert s[..SIGNATURE_SIZE] == s;
  }

  lemma BeforeSignatureSize(i: Inputs)
    requires Packable(i)
    ensures |BeforeSignature(i)| == SignatureWrittenAt(i, 0)
  {
    WrittenBehindSecond([], i);
    var parts := [[]] + Parts(i);
    assert parts[..11] == [[]] + Parts(i)[..10];
    assert Concat(parts[..11]) == BeforeSignature(i);
  }

  lemma SignatureIsLast(i: Inputs, s: seq<byte>)
    requires i.Valid() && |s| == SIGNATURE_SIZE
    ensures var j := i.(signature := Some(s));
            Packable(i) && Packable(j) && MakeHeader(j) == MakeHeader(i) && Image(j) == BeforeSignature(i) + s
  {
    SignaturePart(i, s);
    ConcatSnoc(Parts(i)[..10], s);
  }

  /** A signature that differs from what is found where the unpacker looks. */
  ghost function OtherSignature(i: Inputs): (s: seq<byte>)
    requires Packable(i)
    ensures |s| == SIGNATURE_SIZE
  {
    var before, at := BeforeSignature(i), SignatureAt(MakeHeader(i), 0, i.pageSize);
    seq(SIGNATURE_SIZE, _ => if at < |before| && before[at] == 0 then 1 else 0)
  }

  lemma MisplacedReadDiffers(before: seq<byte>, s: seq<byte>, at: nat)
    requires |s| > 0 && at != |before| && (at < |before| ==> before[at] != s[0])
    ensures ReadAt(before + s, at, |s|) != s
  {
    if at < |before| {
      assert ReadAt(before + s, at, |s|)[0] == before[at];
    }
  }

  lemma MisalignedSignatureIsLost(i: Inputs, mem: Memory)
    requires i.Valid() && i.pageSize > 0 && !Aligned(i) && mem.Valid() && Packable(i)
    ensures !SignatureComesBack(i, OtherSignature(i), mem)
  {
    var s := OtherSignature(i);
    var j := i.(signature := Some(s));
    SignatureIsLast(i, s);
    BeforeSignatureSize(i);
    assert [] + Image(j) == Image(j);
    UnpackFindsHeader([], j, 0, mem);
    TailPositionsAgree(i, 0);
    MisplacedReadDiffers(BeforeSignature(i), s, SignatureAt(MakeHeader(i), 0, i.pageSize));
  }

  /** Every signature comes back under exactly the same condition. */
  lemma SignatureComesBackIffAligned(i: Inputs, mem: Memory)
    requires i.Valid() && i.pageSize > 0 && mem.Valid()
    ensures Aligned(i) <==> forall s: seq<byte> :: |s| == SIGNATURE_SIZE ==> SignatureComesBack(i, s, mem)
  {
    ValidIsPackable(i);
    if Aligned(i) {
      forall s: seq<byte> | |s| == SIGNATURE_SIZE ensures SignatureComesBack(i, s, mem) {
        var j := i.(signature := Some(s));
        ValidIsPackable(j);
        assert [] + Image(j) == Image(j) && s[..SIGNATURE_SIZE] == s;
        TailSectionsRoundTrip([], j, 0, mem);
      }
    } else {
      MisalignedSignatureIsLost(i, mem);
    }
  }

  // ---- Addresses ----

  /** The same inputs, with other addresses. */
  function WithAddresses(i: Inputs, a: Addresses): Inputs {
    i.(base := a.base, kernelOffset := KERNEL_OFFSET, ramdiskOffset := a.ramdiskOffset,
       secondOffset := a.secondOffset, tagsOffset := a.tagsOffset)
  }

  lemma KernelAddressBack(i: Inputs)
    requires |i.board| <= NAME_SIZE && |i.cmdline| <= ARGS_SIZE
    ensures MakeHeader(WithAddresses(i, Recover(MakeHeader(i)))).kernelAddr == MakeHeader(i).kernelAddr
  {
    AddBack(MakeHeader(i).kernelAddr, 0);
  }

  lemma RamdiskAddressBack(i: Inputs)
    requires |i.board| <= NAME_SIZE && |i.cmdline| <= ARGS_SIZE
    ensures MakeHeader(WithAddresses(i, Recover(MakeHeader(i)))).ramdiskAddr == MakeHeader(i).ramdiskAddr
  {
    AddBack(MakeHeader(i).kernelAddr, MakeHeader(i).ramdiskAddr);
  }

  lemma SecondAddressBack(i: Inputs)
    requires |i.board| <= NAME_SIZE && |i.cmdline| <= ARGS_SIZE
    ensures MakeHeader(WithAddresses(i, Recover(MakeHeader(i)))).secondAddr == MakeHeader(i).secondAddr
  {
    AddBack(MakeHeader(i).kernelAddr, MakeHeader(i).secondAddr);
  }

  lemma TagsAddressBack(i: Inputs)
    requires |i.board| <= NAME_SIZE && |i.cmdline| <= ARGS_SIZE
    ensures MakeHeader(WithAddresses(i, Recover(MakeHeader(i)))).tagsAddr == MakeHeader(i).tagsAddr
  {
    AddBack(MakeHeader(i).kernelAddr, MakeHeader(i).tagsAddr);
  }

  /** Feeding the recovered base and offsets back, with the default kernel offset, reproduces all four addresses. */
  lemma AddressesReproduced(i: Inputs)
    requires |i.board| <= NAME_SIZE && |i.cmdline| <= ARGS_SIZE
    ensures MakeHeader(WithAddresses(i, Recover(MakeHeader(i)))) == MakeHeader(i)
  {
    KernelAddressBack(i);
    RamdiskAddressBack(i);
    SecondAddressBack(i);
    TagsAddressBack(i);
  }

  lemma AddBack(kernelAddr: nat, addr: nat)
    requires kernelAddr < TWO_32 && addr < TWO_32
    ensures ((kernelAddr - KERNEL_OFFSET) % TWO_32 + (addr - kernelAddr + KERNEL_OFFSET) % TWO_32) % TWO_32 == addr
    ensures ((kernelAddr - KERNEL_OFFSET) % TWO_32 + KERNEL_OFFSET) % TWO_32 == kernelAddr
  {
  }

  lemma BaseBack(base: nat, offset: nat)
    requires base < TWO_32 && offset < TWO_32
    ensures ((base + offset) % TWO_32 - KERNEL_OFFSET) % TWO_32 == base <==> offset == KERNEL_OFFSET
  {
    var k := (base + offset) % TWO_32;
    assert k == if base + offset < TWO_32 then base + offset else base + offset - TWO_32;
    var b := (k - KERNEL_OFFSET) % TWO_32;
    assert b == if k >= KERNEL_OFFSET then k - KERNEL_OFFSET else k - KERNEL_OFFSET + TWO_32;
  }

  /** The recovered base is the one given exactly if the kernel offset was the default. */
  lemma BaseRecoveredIffDefaultOffset(i: Inputs)
    requires |i.board| <= NAME_SIZE && |i.cmdline| <= ARGS_SIZE && i.base < TWO_32 && i.kernelOffset < TWO_32
    ensures Recover(MakeHeader(i)).base == i.base <==> i.kernelOffset == 0x8000
  {
    BaseBack(i.base, i.kernelOffset);
  }
}
