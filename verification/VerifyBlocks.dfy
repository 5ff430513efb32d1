/**
  Self-describing blocks: populate_hdr stamps a header and a checksum into each block of a write
  buffer, and verify_io_u checks them in a buffer that was read back.

  Layout of the header (32-bit platform, little-endian): magic 0..2, verify_type 2..4, offset 4..12,
  len 12..16, rand_seed 16..24, crc32 24..28, unique_version 28..36, then the checksum.
 */
module VerifyBlocks {
  import opened Bytes
  import opened SegmentLayout

  const FIO_HDR_MAGIC: nat := 0xacca
  const HDR_LEN: nat := 36
  const CRC_OFF: nat := 24

  const VERIFY_META: nat := 10
  const VERIFY_PATTERN: nat := 12
  const EILSEQ: nat := 84
  const EINVAL: nat := 22

  /** The verify types that store a checksum of the data: md5, the crcs and the shas. */
  predicate IsChecksum(t: nat)
  {
    1 <= t <= 9 || t == 11
  }

  /** Size of the type's own header after the common one. */
  function DigestSize(t: nat): nat
  {
    match t
    case 1 => 16
    case 2 => 8
    case 3 => 4
    case 4 => 4
    case 5 => 4
    case 6 => 2
    case 7 => 1
    case 8 => 64
    case 9 => 128
    case 10 => 20
    case 11 => 20
    case _ => 0
  }

  function HdrSize(t: nat): nat
  {
    HDR_LEN + DigestSize(t)
  }

  /** The checksum types by number, with the sizes of the common header and their own C structures. */
  lemma HeaderSizes(t: nat)
    ensures IsChecksum(t) <==> t in {1, 2, 3, 4, 5, 6, 7, 8, 9, 11}
    ensures t == 1 ==> HdrSize(t) == 36 + 4 * 4
    ensures t == 2 ==> HdrSize(t) == 36 + 8
    ensures t in {3, 4, 5} ==> HdrSize(t) == 36 + 4
    ensures t == 6 ==> HdrSize(t) == 36 + 2
    ensures t == 7 ==> HdrSize(t) == 36 + 1
    ensures t == 8 ==> HdrSize(t) == 36 + 64
    ensures t == 9 ==> HdrSize(t) == 36 + 128
    ensures t == 11 ==> HdrSize(t) == 36 + 4 * 5
  {}

  datatype Options = Options(verify: nat, verifyOffset: nat, verifyInner: bool, verifyFatal: bool,
                             randomagain: bool, minBs: nat, verifyInterval: nat)
  {
    function HdrInc(buflen: nat): nat
    {
      if randomagain then minBs
      else if verifyInterval > 0 && verifyInterval <= buflen then verifyInterval
      else buflen
    }

    /** A checksum type whose header fits the block, also at its swapped place. */
    predicate Fits(inc: nat)
    {
      && IsChecksum(verify) && HdrSize(verify) <= inc < Pow256(4)
      && (verifyOffset == 0 || (HdrSize(verify) <= verifyOffset && verifyOffset + HdrSize(verify) <= inc))
    }
  }

  /**
    The checksums, as arbitrary functions, and the outcome of a check the model does not follow: a
    meta or pattern block, or a header whose length points outside the buffer.
   */
  datatype Checks = Checks(digest: (nat, seq<byte>) -> nat, crc: seq<byte> -> nat,
                           other: (nat, seq<byte>, nat) -> bool)
  {
    function Sum(t: nat, data: seq<byte>): (r: seq<byte>)
      ensures |r| == DigestSize(t)
    {
      Encode(digest(t, data), DigestSize(t))
    }

    function Crc(data: seq<byte>): (r: seq<byte>)
      ensures |r| == 4
    {
      Encode(crc(data), 4)
    }
  }

  function VersionBytes(v: Unique): (r: seq<byte>)
    ensures |r| == 8
  {
    Encode(v.sec, 4) + Encode(v.number, 4)
  }

  // ---- one block as a value ----

  /** memswp: the header changes places with the bytes at verify_offset. */
  function Swapped(o: Options, blk: seq<byte>): (r: seq<byte>)
    requires o.Fits(|blk|)
    ensures |r| == |blk|
  {
    if o.verifyOffset == 0 then blk
    else
      var n := HdrSize(o.verify);
      Splice(Splice(blk, 0, Slice(blk, o.verifyOffset, n)), o.verifyOffset, Slice(blk, 0, n))
  }

  /** With verify_offset set, the header's bytes lie there, the bytes from there in front, and all others stay. */
  lemma SwappedPlaces(o: Options, blk: seq<byte>)
    requires o.Fits(|blk|)
    ensures o.verifyOffset == 0 ==> Swapped(o, blk) == blk
    ensures o.verifyOffset > 0 ==>
              var n, at := HdrSize(o.verify), o.verifyOffset;
              && Slice(Swapped(o, blk), 0, n) == Slice(blk, at, n) && Slice(Swapped(o, blk), at, n) == Slice(blk, 0, n)
              && Slice(Swapped(o, blk), n, at - n) == Slice(blk, n, at - n)
              && Slice(Swapped(o, blk), at + n, |blk| - at - n) == Slice(blk, at + n, |blk| - at - n)
  {
    hide Slice, Splice, DigestSize;
    if o.verifyOffset > 0 {
      var n, at := HdrSize(o.verify), o.verifyOffset;
      var head, there := Slice(blk, 0, n), Slice(blk, at, n);
      var b := Splice(blk, 0, there);
      SwapBoth(blk, there, b, head, n, at);
    }
  }

  lemma SwapBoth(blk: seq<byte>, there: seq<byte>, b: seq<byte>, head: seq<byte>, n: nat, at: nat)
    requires |there| == |head| == n <= at && at + n <= |blk| && b == Splice(blk, 0, there)
    ensures var r := Splice(b, at, head);
            && Slice(r, 0, n) == there && Slice(r, at, n) == head && Slice(r, n, at - n) == Slice(blk, n, at - n)
            && Slice(r, at + n, |blk| - at - n) == Slice(blk, at + n, |blk| - at - n)
  {
    hide Slice, Splice;
    SliceSplice(blk, 0, there, 0, n);
    SliceSplice(b, at, head, 0, n);
    SliceSplice(b, at, head, at, n);
    SliceSplice(blk, 0, there, n, at - n);
    SliceSplice(b, at, head, n, at - n);
    SliceSplice(blk, 0, there, at + n, |blk| - at - n);
    SliceSplice(b, at, head, at + n, |blk| - at - n);
  }

  /** The swap on the way out of the buffer undoes the swap on the way in. */
  lemma SwappedTwice(o: Options, blk: seq<byte>)
    requires o.Fits(|blk|)
    ensures Swapped(o, Swapped(o, blk)) == blk
  {}

  /** A block, header in front, that carries the right header and checksum. */
  ghost predicate GoodHeader(o: Options, c: Checks, h: seq<byte>, offset: nat, version: Unique)
  {
    && o.Fits(|h|) && offset < Pow256(8)
    && Slice(h, 0, 2) == Encode(FIO_HDR_MAGIC, 2)
    && Slice(h, 2, 2) == Encode(o.verify, 2)
    && Slice(h, 4, 8) == Encode(offset, 8)
    && Slice(h, 12, 4) == Encode(|h|, 4)
    && Slice(h, CRC_OFF, 4) == c.Crc(Slice(h, 0, CRC_OFF))
    && (o.verifyInner ==> Slice(h, 28, 8) == VersionBytes(version))
    && Slice(h, HDR_LEN, DigestSize(o.verify))
       == c.Sum(o.verify, Slice(h, HdrSize(o.verify), |h| - HdrSize(o.verify)))
  }

  /** A block as it lies on disk. */
  ghost predicate GoodBlock(o: Options, c: Checks, blk: seq<byte>, offset: nat, version: Unique)
  {
    o.Fits(|blk|) && GoodHeader(o, c, Swapped(o, blk), offset, version)
  }

  /** The common header, field by field in the order populate_hdr writes it, over old content. */
  function WithHeader(o: Options, c: Checks, blk: seq<byte>, offset: nat, version: Unique, seed: nat): (h: seq<byte>)
    requires o.Fits(|blk|)
    ensures |h| == |blk|
  {
    hide Encode, VersionBytes;
    var b1 := Splice(blk, 0, Encode(FIO_HDR_MAGIC, 2));
    var b2 := Splice(b1, 2, Encode(o.verify, 2));
    var b3 := Splice(b2, 4, Encode(offset, 8));
    var b4 := if o.verifyInner then Splice(b3, 28, VersionBytes(version)) else b3;
    var b5 := Splice(b4, 12, Encode(|blk|, 4));
    var b6 := Splice(b5, 16, Encode(seed, 8));
    Splice(b6, CRC_OFF, c.Crc(Slice(b6, 0, CRC_OFF)))
  }

  function WithDigest(o: Options, c: Checks, h: seq<byte>): (r: seq<byte>)
    requires o.Fits(|h|)
    ensures |r| == |h|
  {
    Splice(h, HDR_LEN, c.Sum(o.verify, Slice(h, HdrSize(o.verify), |h| - HdrSize(o.verify))))
  }

  /** What populate_hdr makes of a block. */
  function Populated(o: Options, c: Checks, blk: seq<byte>, offset: nat, version: Unique, seed: nat): (r: seq<byte>)
    requires o.Fits(|blk|)
    ensures |r| == |blk|
  {
    Swapped(o, WithDigest(o, c, WithHeader(o, c, blk, offset, version, seed)))
  }

  lemma WithHeaderFields(o: Options, c: Checks, blk: seq<byte>, offset: nat, version: Unique, seed: nat)
    requires o.Fits(|blk|)
    ensures var h := WithHeader(o, c, blk, offset, version, seed);
            && Slice(h, 0, 2) == Encode(FIO_HDR_MAGIC, 2)
            && Slice(h, 2, 2) == Encode(o.verify, 2)
            && Slice(h, 4, 8) == Encode(offset, 8)
            && Slice(h, 12, 4) == Encode(|blk|, 4)
            && Slice(h, 16, 8) == Encode(seed, 8)
            && Slice(h, CRC_OFF, 4) == c.Crc(Slice(h, 0, CRC_OFF))
            && (o.verifyInner ==> Slice(h, 28, 8) == VersionBytes(version))
            && Slice(h, HDR_LEN, |blk| - HDR_LEN) == Slice(blk, HDR_LEN, |blk| - HDR_LEN)
  {
    hide Encode, VersionBytes, Slice, Splice;
    var b1 := Splice(blk, 0, Encode(FIO_HDR_MAGIC, 2));
    var b2 := Splice(b1, 2, Encode(o.verify, 2));
    var b3 := Splice(b2, 4, Encode(offset, 8));
    var b4 := if o.verifyInner then Splice(b3, 28, VersionBytes(version)) else b3;
    var b5 := Splice(b4, 12, Encode(|blk|, 4));
    var b6 := Splice(b5, 16, Encode(seed, 8));
    FirstFields(blk, Encode(FIO_HDR_MAGIC, 2), Encode(o.verify, 2), Encode(offset, 8));
    LastFields(b4, Encode(|blk|, 4), Encode(seed, 8), c.Crc(Slice(b6, 0, CRC_OFF)));
    if o.verifyInner {
      VersionField(b3, VersionBytes(version));
    }
    PastHeader(blk, 0, Encode(FIO_HDR_MAGIC, 2));
    PastHeader(b1, 2, Encode(o.verify, 2));
    PastHeader(b2, 4, Encode(offset, 8));
    PastHeader(b3, 28, VersionBytes(version));
    PastHeader(b4, 12, Encode(|blk|, 4));
    PastHeader(b5, 16, Encode(seed, 8));
    PastHeader(b6, CRC_OFF, c.Crc(Slice(b6, 0, CRC_OFF)));
  }

  /** A header field leaves what follows the header alone. */
  lemma PastHeader(b: seq<byte>, i: nat, d: seq<byte>)
    requires i + |d| <= HDR_LEN <= |b|
    ensures Slice(Splice(b, i, d), HDR_LEN, |b| - HDR_LEN) == Slice(b, HDR_LEN, |b| - HDR_LEN)
  {
    hide Slice, Splice;
    SliceSplice(b, i, d, HDR_LEN, |b| - HDR_LEN);
  }

  lemma FirstFields(b: seq<byte>, magic: seq<byte>, verify: seq<byte>, offset: seq<byte>)
    requires |b| >= HDR_LEN && |magic| == 2 && |verify| == 2 && |offset| == 8
    ensures var r := Splice(Splice(Splice(b, 0, magic), 2, verify), 4, offset);
            Slice(r, 0, 2) == magic && Slice(r, 2, 2) == verify && Slice(r, 4, 8) == offset
  {}

  lemma VersionField(b: seq<byte>, version: seq<byte>)
    requires |b| >= HDR_LEN && |version| == 8
    ensures var r := Splice(b, 28, version);
            && Slice(r, 0, 2) == Slice(b, 0, 2) && Slice(r, 2, 2) == Slice(b, 2, 2) && Slice(r, 4, 8) == Slice(b, 4, 8)
            && Slice(r, 28, 8) == version
  {}

  lemma LastFields(b: seq<byte>, len: seq<byte>, seed: seq<byte>, crc: seq<byte>)
    requires |b| >= HDR_LEN && |len| == 4 && |seed| == 8 && |crc| == 4
    ensures var b6 := Splice(Splice(b, 12, len), 16, seed);
            var r := Splice(b6, CRC_OFF, crc);
            && Slice(r, 0, 2) == Slice(b, 0, 2) && Slice(r, 2, 2) == Slice(b, 2, 2) && Slice(r, 4, 8) == Slice(b, 4, 8)
            && Slice(r, 12, 4) == len && Slice(r, 16, 8) == seed
            && Slice(r, CRC_OFF, 4) == crc && Slice(r, 28, 8) == Slice(b, 28, 8)
            && Slice(r, 0, CRC_OFF) == Slice(b6, 0, CRC_OFF)
  {}

  /** A populated block is good for its own offset and version. */
  lemma PopulatedIsGood(o: Options, c: Checks, blk: seq<byte>, offset: nat, version: Unique, seed: nat)
    requires o.Fits(|blk|) && offset < Pow256(8)
    ensures GoodBlock(o, c, Populated(o, c, blk, offset, version, seed), offset, version)
  {
    var h := WithHeader(o, c, blk, offset, version, seed);
    var d := WithDigest(o, c, h);
    WithHeaderFields(o, c, blk, offset, version, seed);
    SwappedTwice(o, d);
    WithDigestKeeps(o, c, h);
  }

  /** The bytes of a block behind its header, once it is swapped into place. */
  function Payload(o: Options, blk: seq<byte>): seq<byte>
    requires o.Fits(|blk|)
  {
    Slice(Swapped(o, blk), HdrSize(o.verify), |blk| - HdrSize(o.verify))
  }

  /** Stamping a block keeps all its bytes behind the header. */
  lemma PopulatedKeepsData(o: Options, c: Checks, blk: seq<byte>, offset: nat, version: Unique, seed: nat)
    requires o.Fits(|blk|)
    ensures Payload(o, Populated(o, c, blk, offset, version, seed))
            == Slice(blk, HdrSize(o.verify), |blk| - HdrSize(o.verify))
  {
    hide Slice, Splice, Swapped, WithHeader, WithDigest;
    var h := WithHeader(o, c, blk, offset, version, seed);
    var hs, n := HdrSize(o.verify), |blk|;
    WithHeaderFields(o, c, blk, offset, version, seed);
    SwappedTwice(o, WithDigest(o, c, h));
    WithDigestKeeps(o, c, h);
    SliceNested(h, HDR_LEN, n - HDR_LEN, DigestSize(o.verify), n - hs);
    SliceNested(blk, HDR_LEN, n - HDR_LEN, DigestSize(o.verify), n - hs);
  }

  lemma WithDigestKeeps(o: Options, c: Checks, h: seq<byte>)
    requires o.Fits(|h|)
    ensures var d := WithDigest(o, c, h);
            && (forall i, n | 0 <= i && 0 <= n && i + n <= HDR_LEN :: Slice(d, i, n) == Slice(h, i, n))
            && Slice(d, HdrSize(o.verify), |h| - HdrSize(o.verify))
               == Slice(h, HdrSize(o.verify), |h| - HdrSize(o.verify))
            && Slice(d, HDR_LEN, DigestSize(o.verify))
               == c.Sum(o.verify, Slice(h, HdrSize(o.verify), |h| - HdrSize(o.verify)))
  {}

  // ---- populating a write buffer ----

  method PutIn(buf: array<byte>, p: nat, i: nat, d: seq<byte>, ghost base: seq<byte>, ghost b: seq<byte>)
    requires p + |b| <= |base| == buf.Length && i + |d| <= |b| && buf[..] == Splice(base, p, b)
    modifies buf
    ensures buf[..] == Splice(base, p, Splice(b, i, d))
  {
    Put(buf, p + i, d);
    SpliceNested(base, p, b, i, d);
  }

  method ReadIn(buf: array<byte>, p: nat, i: nat, n: nat, ghost base: seq<byte>,
                ghost b: seq<byte>) returns (d: seq<byte>)
    requires p + |b| <= |base| == buf.Length && i + n <= |b| && buf[..] == Splice(base, p, b)
    ensures d == Slice(b, i, n)
  {
    d := buf[p + i..p + i + n];
  }

  method MemSwp(o: Options, buf: array<byte>, p: nat, ghost base: seq<byte>, ghost b: seq<byte>)
    requires p + |b| <= |base| == buf.Length && buf[..] == Splice(base, p, b) && o.Fits(|b|) && o.verifyOffset > 0
    modifies buf
    ensures buf[..] == Splice(base, p, Swapped(o, b))
  {
    hide Splice, Slice;
    var n := HdrSize(o.verify);
    var swap := ReadIn(buf, p, 0, n, base, b);
    var second := ReadIn(buf, p, o.verifyOffset, n, base, b);
    PutIn(buf, p, 0, second, base, b);
    PutIn(buf, p, o.verifyOffset, swap, base, Splice(b, 0, second));
  }

  method PutHeader(o: Options, c: Checks, buf: array<byte>, p: nat, ghost base: seq<byte>, ghost b: seq<byte>,
                   inc: nat, offset: nat, version: Unique, seed: nat)
    requires p + |b| <= |base| == buf.Length && buf[..] == Splice(base, p, b) && |b| == inc && o.Fits(inc)
    modifies buf
    ensures buf[..] == Splice(base, p, WithHeader(o, c, b, offset, version, seed))
  {
    hide Splice, Slice;
    PutIn(buf, p, 0, Encode(FIO_HDR_MAGIC, 2), base, b);
    ghost var b1 := Splice(b, 0, Encode(FIO_HDR_MAGIC, 2));
    PutIn(buf, p, 2, Encode(o.verify, 2), base, b1);
    ghost var b2 := Splice(b1, 2, Encode(o.verify, 2));
    PutIn(buf, p, 4, Encode(offset, 8), base, b2);
    ghost var b3 := Splice(b2, 4, Encode(offset, 8));
    ghost var b4 := b3;
    if o.verifyInner {
      PutIn(buf, p, 28, VersionBytes(version), base, b3);
      b4 := Splice(b3, 28, VersionBytes(version));
    }
    PutIn(buf, p, 12, Encode(inc, 4), base, b4);
    ghost var b5 := Splice(b4, 12, Encode(inc, 4));
    PutIn(buf, p, 16, Encode(seed, 8), base, b5);
    ghost var b6 := Splice(b5, 16, Encode(seed, 8));
    var covered := ReadIn(buf, p, 0, CRC_OFF, base, b6);
    PutIn(buf, p, CRC_OFF, c.Crc(covered), base, b6);
  }

  /** Stamps header and checksum into the block of inc bytes at p. */
  method PopulateHdr(o: Options, c: Checks, buf: array<byte>, p: nat, inc: nat, offset: nat, version: Unique, seed: nat)
    requires p + inc <= buf.Length && o.Fits(inc)
    modifies buf
    ensures buf[..] == Splice(old(buf[..]), p, Populated(o, c, Slice(old(buf[..]), p, inc), offset, version, seed))
  {
    hide Splice, Slice, WithHeader, Swapped;
    ghost var base := buf[..];
    SpliceOfSlice(base, p, inc);
    PutHeader(o, c, buf, p, base, Slice(base, p, inc), inc, offset, version, seed);
    ghost var h := WithHeader(o, c, Slice(base, p, inc), offset, version, seed);
    var data := ReadIn(buf, p, HdrSize(o.verify), inc - HdrSize(o.verify), base, h);
    PutIn(buf, p, HDR_LEN, c.Sum(o.verify, data), base, h);
    SwappedNot(o, WithDigest(o, c, h));
    if o.verifyOffset > 0 {
      MemSwp(o, buf, p, base, WithDigest(o, c, h));
    }
  }

  lemma SwappedNot(o: Options, blk: seq<byte>)
    requires o.Fits(|blk|)
    ensures o.verifyOffset == 0 ==> Swapped(o, blk) == blk
  {}

  /** The first k blocks of the buffer are good, each for its own offset. */
  ghost predicate GoodUpto(o: Options, c: Checks, s: seq<byte>, inc: nat, n: nat, k: nat, offset: nat, version: Unique)
    requires |s| == n * inc && k <= n
  {
    forall j: nat | j < k :: GoodBlock(o, c, BlockOf(s, inc, n, j), offset + j * inc, version)
  }

  /** The first k blocks of the buffer carry the bytes of fill behind their headers; the rest of it is fill. */
  ghost predicate Filled(o: Options, s: seq<byte>, fill: seq<byte>, inc: nat, n: nat, k: nat)
    requires |s| == |fill| == n * inc && k <= n && o.Fits(inc)
  {
    forall j: nat | j < n ::
      if j < k
      then
        var hs := HdrSize(o.verify);
        Payload(o, BlockOf(s, inc, n, j)) == Slice(BlockOf(fill, inc, n, j), hs, inc - hs)
      else BlockOf(s, inc, n, j) == BlockOf(fill, inc, n, j)
  }

  /** Stamps block k; the blocks before it stay good. */
  method StampBlock(o: Options, c: Checks, buf: array<byte>, p: nat, inc: nat, ghost n: nat, ghost k: nat,
                    offset: nat, version: Unique, seed: nat, ghost fill: seq<byte>)
    requires k < n && p == k * inc && buf.Length == |fill| == n * inc && o.Fits(inc) && offset + p < Pow256(8)
    requires GoodUpto(o, c, buf[..], inc, n, k, offset, version) && Filled(o, buf[..], fill, inc, n, k)
    modifies buf
    ensures GoodUpto(o, c, buf[..], inc, n, k + 1, offset, version) && Filled(o, buf[..], fill, inc, n, k + 1)
  {
    hide Populated, GoodBlock, Splice, BlockOf, Slice, Options.Fits, Payload, Filled;
    BlockBounds(inc, k, n);
    ghost var before := buf[..];
    PopulateHdr(o, c, buf, p, inc, offset + p, version, seed);
    ghost var blk := Populated(o, c, Slice(before, p, inc), offset + p, version, seed);
    PopulatedIsGood(o, c, Slice(before, p, inc), offset + p, version, seed);
    FilledMore(o, before, fill, inc, n, k, blk, c, offset + p, version, seed);
    forall j: nat | j < k + 1
      ensures GoodBlock(o, c, BlockOf(buf[..], inc, n, j), offset + j * inc, version)
    {
      BlockOfSplice(before, inc, n, k, blk, j);
    }
  }

  lemma FilledMore(o: Options, s: seq<byte>, fill: seq<byte>, inc: nat, n: nat, k: nat, blk: seq<byte>,
                   c: Checks, offset: nat, version: Unique, seed: nat)
    requires k < n && |s| == |fill| == n * inc && o.Fits(inc) && Filled(o, s, fill, inc, n, k) && k * inc + inc <= |s|
    requires blk == Populated(o, c, Slice(s, k * inc, inc), offset, version, seed)
    ensures Filled(o, Splice(s, k * inc, blk), fill, inc, n, k + 1)
  {
    hide Populated, Splice, Slice, Options.Fits, Payload;
    PopulatedKeepsData(o, c, Slice(s, k * inc, inc), offset, version, seed);
    assert BlockOf(s, inc, n, k) == BlockOf(fill, inc, n, k);
    hide BlockOf;
    forall j: nat | j < n
      ensures BlockOf(Splice(s, k * inc, blk), inc, n, j) == if j == k then blk else BlockOf(s, inc, n, j)
    {
      BlockOfSplice(s, inc, n, k, blk, j);
    }
  }

  /** Fills the buffer and stamps every block of it. */
  method FillPatternHeaders(o: Options, c: Checks, buf: array<byte>, fill: seq<byte>, ghost n: nat,
                            offset: nat, version: Unique, seed: nat)
    requires buf.Length == n * o.HdrInc(buf.Length) && |fill| == buf.Length && o.Fits(o.HdrInc(buf.Length))
    requires offset + buf.Length <= Pow256(8)
    modifies buf
    ensures GoodUpto(o, c, buf[..], o.HdrInc(buf.Length), n, n, offset, version)
    ensures Filled(o, buf[..], fill, o.HdrInc(buf.Length), n, n)
  {
    hide GoodUpto, Splice, BlockOf, Options.Fits, Filled;
    Put(buf, 0, fill);
    assert buf[..] == fill;
    var inc := o.HdrInc(buf.Length);
    StepsPositive(o, inc);
    GoodNone(o, c, buf[..], inc, n, offset, version);
    FilledNone(o, buf[..], fill, inc, n);
    var p := 0;
    ghost var k := 0;
    while p < buf.Length
      invariant 0 <= k <= n && p == k * inc <= buf.Length
      invariant GoodUpto(o, c, buf[..], inc, n, k, offset, version) && Filled(o, buf[..], fill, inc, n, k)
      decreases buf.Length - p
    {
      NextBlock(inc, k, n);
      StampBlock(o, c, buf, p, inc, n, k, offset, version, seed, fill);
      p := p + inc;
      k := k + 1;
    }
    LastBlock(inc, k, n);
  }

  lemma FilledNone(o: Options, s: seq<byte>, fill: seq<byte>, inc: nat, n: nat)
    requires s == fill && |s| == n * inc && o.Fits(inc)
    ensures Filled(o, s, fill, inc, n, 0)
  {}

  lemma GoodNone(o: Options, c: Checks, s: seq<byte>, inc: nat, n: nat, offset: nat, version: Unique)
    requires |s| == n * inc
    ensures GoodUpto(o, c, s, inc, n, 0, offset, version)
  {}

  /** How many headers a buffer gets: one for each smallest block, for each verify interval, or one for all of it. */
  lemma HeaderCount(o: Options, buflen: nat, n: nat)
    requires buflen == n * o.HdrInc(buflen) && buflen > 0
    ensures o.randomagain ==> n * o.minBs == buflen
    ensures !o.randomagain && 0 < o.verifyInterval <= buflen ==> n * o.verifyInterval == buflen
    ensures !o.randomagain && (o.verifyInterval == 0 || o.verifyInterval > buflen) ==> n == 1
  {
    if !o.randomagain && (o.verifyInterval == 0 || o.verifyInterval > buflen) {
      assert n > 1 ==> n * buflen > 1 * buflen;
    }
  }

  lemma StepsPositive(o: Options, inc: nat)
    requires o.Fits(inc)
    ensures inc >= HDR_LEN
  {}

  // ---- checking a buffer that was read back ----

  /** What verify_io_u demands of the header of block k, once it is swapped into place. */
  predicate HeaderOk(o: Options, c: Checks, h: seq<byte>, buflen: nat, offset: nat, version: Unique)
    requires |h| >= HDR_LEN
  {
    && Decode(Slice(h, 0, 2)) == FIO_HDR_MAGIC
    && Decode(Slice(h, 12, 4)) <= buflen
    && Slice(h, CRC_OFF, 4) == c.Crc(Slice(h, 0, CRC_OFF))
    && Decode(Slice(h, 4, 8)) == offset
    && (o.verifyInner ==> Slice(h, 28, 8) == VersionBytes(version))
  }

  /**
    The checksum test of header number k at position p of the buffer v. The tested bytes are found
    through the length in the header itself.
   */
  predicate DigestOk(c: Checks, v: seq<byte>, p: nat, k: nat)
    requires p + HDR_LEN <= |v|
  {
    hide Decode, Slice;
    var t, len := Decode(Slice(v, p + 2, 2)), Decode(Slice(v, p + 12, 4));
    var from := k * len;
    if IsChecksum(t) && HdrSize(t) <= len && from + len <= |v| && p + HdrSize(t) <= |v| then
      Slice(v, p + HDR_LEN, DigestSize(t)) == c.Sum(t, Slice(v, from + HdrSize(t), len - HdrSize(t)))
    else if IsChecksum(t) || t == VERIFY_META || t == VERIFY_PATTERN then c.other(t, v, k)
    else false
  }

  /** The header names none of the verify types that verify_io_u knows. */
  ghost predicate UnknownType(h: seq<byte>)
    requires |h| >= HDR_LEN
  {
    var t := Decode(Slice(h, 2, 2));
    t == 0 || t > 12
  }

  function DigestResult(c: Checks, v: seq<byte>, p: nat, k: nat): (ret: nat)
    requires p + HDR_LEN <= |v|
    ensures ret == 0 <==> DigestOk(c, v, p, k)
    ensures ret in {0, 22, 84} && (ret == 22 <==> UnknownType(Slice(v, p, HDR_LEN)))
  {
    SliceNested(v, p, HDR_LEN, 2, 2);
    var t := Decode(Slice(v, p + 2, 2));
    if DigestOk(c, v, p, k) then 0
    else if IsChecksum(t) || t == VERIFY_META || t == VERIFY_PATTERN then EILSEQ
    else EINVAL
  }

  /** The buffer with its first k blocks swapped into place. */
  ghost function Opened(o: Options, s: seq<byte>, inc: nat, n: nat, k: nat): (v: seq<byte>)
    requires |s| == n * inc && k <= n && o.Fits(inc)
    ensures |v| == |s|
  {
    if k == 0 then s
    else
      var prev := Opened(o, s, inc, n, k - 1);
      BlockBounds(inc, k - 1, n);
      Splice(prev, (k - 1) * inc, Swapped(o, BlockOf(prev, inc, n, k - 1)))
  }

  lemma {:induction false} OpenedBlock(o: Options, s: seq<byte>, inc: nat, n: nat, k: nat, j: nat)
    requires |s| == n * inc && k <= n && j < n && o.Fits(inc)
    ensures BlockOf(Opened(o, s, inc, n, k), inc, n, j)
            == if j < k then Swapped(o, BlockOf(s, inc, n, j)) else BlockOf(s, inc, n, j)
  {
    hide Swapped, BlockOf, Slice, Splice, Options.Fits;
    if k > 0 {
      var prev := Opened(o, s, inc, n, k - 1);
      OpenedBlock(o, s, inc, n, k - 1, j);
      OpenedBlock(o, s, inc, n, k - 1, k - 1);
      BlockBounds(inc, k - 1, n);
      BlockOfSplice(prev, inc, n, k - 1, Swapped(o, BlockOf(prev, inc, n, k - 1)), j);
    }
  }

  ghost predicate HeaderOkAt(o: Options, c: Checks, s: seq<byte>, inc: nat, n: nat, j: nat, offset: nat,
                             version: Unique)
    requires |s| == n * inc && j < n && o.Fits(inc)
  {
    HeaderOk(o, c, Swapped(o, BlockOf(s, inc, n, j)), |s|, offset + j * inc, version)
  }

  ghost predicate DigestOkAt(o: Options, c: Checks, s: seq<byte>, inc: nat, n: nat, j: nat)
    requires |s| == n * inc && j < n && o.Fits(inc)
  {
    BlockBounds(inc, j, n);
    DigestOk(c, Opened(o, s, inc, n, j + 1), j * inc, j)
  }

  /**
    When verify_io_u returns 0. All headers must pass. Of the checksums all must pass when
    verify_fatal stops at the first failure; otherwise only the last one counts.
   */
  ghost predicate Accepted(o: Options, c: Checks, s: seq<byte>, inc: nat, n: nat, offset: nat, version: Unique)
    requires |s| == n * inc && o.Fits(inc)
  {
    && (forall j: nat | j < n :: HeaderOkAt(o, c, s, inc, n, j, offset, version))
    && if o.verifyFatal then forall j: nat | j < n :: DigestOkAt(o, c, s, inc, n, j)
       else n == 0 || DigestOkAt(o, c, s, inc, n, n - 1)
  }

  /** The state of the scan after k blocks: all headers passed, and ret tells about the checksums. */
  ghost predicate Scanned(o: Options, c: Checks, s: seq<byte>, inc: nat, n: nat, k: nat, offset: nat, version: Unique,
                          ret: nat)
    requires |s| == n * inc && o.Fits(inc) && k <= n
  {
    && (forall j: nat | j < k :: HeaderOkAt(o, c, s, inc, n, j, offset, version))
    && (ret == 0 <==> if o.verifyFatal then forall j: nat | j < k :: DigestOkAt(o, c, s, inc, n, j)
                      else k == 0 || DigestOkAt(o, c, s, inc, n, k - 1))
  }

  /** Block j of the buffer, swapped into place. */
  ghost function Placed(o: Options, s: seq<byte>, inc: nat, n: nat, j: nat): (h: seq<byte>)
    requires |s| == n * inc && j < n && o.Fits(inc)
    ensures |h| == inc
  {
    Swapped(o, BlockOf(s, inc, n, j))
  }

  /** Swaps block k into place. */
  method OpenBlock(o: Options, buf: array<byte>, p: nat, inc: nat, ghost s: seq<byte>, ghost n: nat, ghost k: nat)
    requires buf.Length == |s| == n * inc && k < n && p == k * inc && o.Fits(inc) && buf[..] == Opened(o, s, inc, n, k)
    modifies buf
    ensures buf[..] == Opened(o, s, inc, n, k + 1)
    ensures p + inc <= buf.Length && Slice(buf[..], p, inc) == Swapped(o, BlockOf(s, inc, n, k))
  {
    hide Swapped, Splice, Slice, Options.Fits;
    BlockBounds(inc, k, n);
    ghost var base := buf[..];
    ghost var b := Slice(base, p, inc);
    SpliceOfSlice(base, p, inc);
    SwappedNot(o, b);
    if o.verifyOffset > 0 {
      MemSwp(o, buf, p, base, b);
    }
    OpenedBlock(o, s, inc, n, k + 1, k);
  }

  /** verify_header, then the offset and version tests of verify_io_u. */
  method CheckHeader(o: Options, c: Checks, h: seq<byte>, buflen: nat, offset: nat, version: Unique) returns (ok: bool)
    requires |h| >= HDR_LEN
    ensures ok <==> HeaderOk(o, c, h, buflen, offset, version)
  {
    if Decode(Slice(h, 0, 2)) != FIO_HDR_MAGIC {
      return false;
    }
    if Decode(Slice(h, 12, 4)) > buflen {
      return false;
    }
    if c.Crc(Slice(h, 0, CRC_OFF)) != Slice(h, CRC_OFF, 4) {
      return false;
    }
    if Decode(Slice(h, 4, 8)) != offset {
      return false;
    }
    if o.verifyInner && Slice(h, 28, 8) != VersionBytes(version) {
      return false;
    }
    return true;
  }

  method VerifyIoU(o: Options, c: Checks, buf: array<byte>, ghost n: nat, offset: nat,
                   version: Unique) returns (ret: nat)
    requires buf.Length == n * o.HdrInc(buf.Length) && o.Fits(o.HdrInc(buf.Length))
    modifies buf
    ensures ret == 0 <==> Accepted(o, c, old(buf[..]), o.HdrInc(buf.Length), n, offset, version)
    ensures JudgedRight(o, c, old(buf[..]), o.HdrInc(buf.Length), n, offset, version, ret == 0)
    ensures Coded(o, old(buf[..]), o.HdrInc(buf.Length), n, n, ret)
  {
    hide HeaderOk, DigestOk, Opened, Swapped, BlockOf, Slice, Options.Fits, JudgedRight, Coded;
    ghost var s := buf[..];
    var inc := o.HdrInc(buf.Length);
    Judgement(o, c, s, inc, n, offset, version);
    StepsPositive(o, inc);
    OpenedNone(o, s, inc, n);
    CodedNone(o, s, inc, n);
    ret := 0;
    var p := 0;
    var k := 0;
    while p < buf.Length
      invariant 0 <= k <= n && p == k * inc <= buf.Length
      invariant buf[..] == Opened(o, s, inc, n, k) && Scanned(o, c, s, inc, n, k, offset, version, ret)
      invariant Coded(o, s, inc, n, k, ret)
      decreases buf.Length - p
    {
      NextBlock(inc, k, n);
      if ret != 0 && o.verifyFatal {
        CodedMore(o, s, inc, n, k, ret);
        return;
      }
      OpenBlock(o, buf, p, inc, s, n, k);
      var ok := CheckHeader(o, c, Slice(buf[..], p, inc), buf.Length, offset + k * inc, version);
      if !ok {
        assert !HeaderOkAt(o, c, s, inc, n, k, offset, version);
        CodedMore(o, s, inc, n, k, EILSEQ);
        return EILSEQ;
      }
      assert HeaderOkAt(o, c, s, inc, n, k, offset, version);
      ret := DigestResult(c, buf[..], p, k);
      CodedNext(o, s, inc, n, k, buf[..], p, ret);
      assert ret == 0 <==> DigestOkAt(o, c, s, inc, n, k);
      p := p + inc;
      k := k + 1;
    }
    LastBlock(inc, k, n);
  }

  /** 22 only if one of the first k blocks is of no known type; otherwise 0 or 84. */
  ghost predicate Coded(o: Options, s: seq<byte>, inc: nat, n: nat, k: nat, ret: nat)
    requires |s| == n * inc && o.Fits(inc) && k <= n
  {
    ret in {0, 22, 84} && (ret == 22 ==> exists j: nat | j < k :: UnknownType(Placed(o, s, inc, n, j)))
  }

  lemma CodedNone(o: Options, s: seq<byte>, inc: nat, n: nat)
    requires |s| == n * inc && o.Fits(inc)
    ensures Coded(o, s, inc, n, 0, 0)
  {}

  lemma CodedMore(o: Options, s: seq<byte>, inc: nat, n: nat, k: nat, ret: nat)
    requires |s| == n * inc && o.Fits(inc) && k <= n && (ret == EILSEQ || Coded(o, s, inc, n, k, ret))
    ensures Coded(o, s, inc, n, n, ret)
  {
    hide UnknownType, Placed;
  }

  lemma CodedNext(o: Options, s: seq<byte>, inc: nat, n: nat, k: nat, v: seq<byte>, p: nat, ret: nat)
    requires |s| == n * inc && o.Fits(inc) && k < n && ret in {0, 22, 84}
    requires p + inc <= |v| && Slice(v, p, inc) == Placed(o, s, inc, n, k)
    requires p + HDR_LEN <= |v| && (ret == 22 ==> UnknownType(Slice(v, p, HDR_LEN)))
    ensures Coded(o, s, inc, n, k + 1, ret)
  {
    hide Decode, Placed;
    SameType(v, p, inc);
  }

  lemma SameType(v: seq<byte>, p: nat, inc: nat)
    requires p + inc <= |v| && HDR_LEN <= inc
    ensures UnknownType(Slice(v, p, HDR_LEN)) <==> UnknownType(Slice(v, p, inc))
  {
    hide Decode, Slice;
    SliceNested(v, p, HDR_LEN, 2, 2);
    SliceNested(v, p, inc, 2, 2);
  }

  lemma OpenedNone(o: Options, s: seq<byte>, inc: nat, n: nat)
    requires |s| == n * inc && o.Fits(inc)
    ensures Opened(o, s, inc, n, 0) == s
  {}

  // ---- good data passes ----

  lemma GoodFields(o: Options, c: Checks, h: seq<byte>, offset: nat, version: Unique)
    requires GoodHeader(o, c, h, offset, version)
    ensures Decode(Slice(h, 0, 2)) == FIO_HDR_MAGIC && Decode(Slice(h, 2, 2)) == o.verify
    ensures Decode(Slice(h, 4, 8)) == offset && Decode(Slice(h, 12, 4)) == |h|
  {
    assert Pow256(2) == 65536;
    DecodeEncode(FIO_HDR_MAGIC, 2);
    DecodeEncode(o.verify, 2);
    DecodeEncode(offset, 8);
    DecodeEncode(|h|, 4);
  }

  lemma GoodDigest(o: Options, c: Checks, v: seq<byte>, inc: nat, p: nat, k: nat, offset: nat, version: Unique)
    requires p == k * inc && p + inc <= |v| && o.Fits(inc) && GoodHeader(o, c, Slice(v, p, inc), offset, version)
    ensures DigestOk(c, v, p, k)
  {
    hide Encode, Decode;
    var h := Slice(v, p, inc);
    GoodFields(o, c, h, offset, version);
    SliceNested(v, p, inc, 2, 2);
    SliceNested(v, p, inc, 12, 4);
    SliceNested(v, p, inc, HDR_LEN, DigestSize(o.verify));
    SliceNested(v, p, inc, HdrSize(o.verify), inc - HdrSize(o.verify));
  }

  lemma GoodHeaderPasses(o: Options, c: Checks, h: seq<byte>, buflen: nat, offset: nat, version: Unique)
    requires GoodHeader(o, c, h, offset, version) && |h| <= buflen
    ensures HeaderOk(o, c, h, buflen, offset, version)
  {
    hide Encode, Decode, VersionBytes;
    GoodFields(o, c, h, offset, version);
  }

  ghost predicate GoodBlockAt(o: Options, c: Checks, s: seq<byte>, inc: nat, n: nat, j: nat, offset: nat,
                              version: Unique)
    requires |s| == n * inc && j < n
  {
    GoodBlock(o, c, BlockOf(s, inc, n, j), offset + j * inc, version)
  }

  lemma GoodBlockPasses(o: Options, c: Checks, s: seq<byte>, inc: nat, n: nat, j: nat, offset: nat, version: Unique)
    requires |s| == n * inc && j < n && o.Fits(inc) && GoodBlockAt(o, c, s, inc, n, j, offset, version)
    ensures HeaderOkAt(o, c, s, inc, n, j, offset, version) && DigestOkAt(o, c, s, inc, n, j)
  {
    hide DigestOk, Opened, Swapped, HeaderOk, GoodHeader, Slice, Options.Fits;
    BlockBounds(inc, j, n);
    GoodHeaderPasses(o, c, Swapped(o, BlockOf(s, inc, n, j)), |s|, offset + j * inc, version);
    OpenedBlock(o, s, inc, n, j + 1, j);
    GoodDigest(o, c, Opened(o, s, inc, n, j + 1), inc, j * inc, j, offset + j * inc, version);
  }

  /** A buffer of good blocks is accepted. */
  lemma GoodIsAccepted(o: Options, c: Checks, s: seq<byte>, inc: nat, n: nat, offset: nat, version: Unique)
    requires |s| == n * inc && o.Fits(inc) && GoodUpto(o, c, s, inc, n, n, offset, version)
    ensures Accepted(o, c, s, inc, n, offset, version)
  {
    hide HeaderOkAt, DigestOkAt, GoodBlock;
    forall j: nat | j < n
      ensures HeaderOkAt(o, c, s, inc, n, j, offset, version) && DigestOkAt(o, c, s, inc, n, j)
    {
      GoodBlockPasses(o, c, s, inc, n, j, offset, version);
    }
  }

  // ---- the verdict in bytes ----

  /** The header's bytes say that the block is of the job's own verify type and as long as it is. */
  ghost predicate OwnKind(o: Options, h: seq<byte>)
    requires o.Fits(|h|)
  {
    Slice(h, 2, 2) == Encode(o.verify, 2) && Slice(h, 12, 4) == Encode(|h|, 4)
  }

  /** Magic, offset, header checksum and, with verify_inner, version are byte by byte those of a write there. */
  ghost predicate HeaderBytes(o: Options, c: Checks, h: seq<byte>, offset: nat, version: Unique)
    requires o.Fits(|h|)
  {
    && Slice(h, 0, 2) == Encode(0xacca, 2) && offset < Pow256(8) && Slice(h, 4, 8) == Encode(offset, 8)
    && Slice(h, 24, 4) == c.Crc(Slice(h, 0, 24))
    && (o.verifyInner ==> Slice(h, 28, 8) == VersionBytes(version))
  }

  /** The stored digest is that of the bytes behind the header. */
  ghost predicate DigestBytes(o: Options, c: Checks, h: seq<byte>)
    requires o.Fits(|h|)
  {
    Slice(h, HDR_LEN, DigestSize(o.verify)) == c.Sum(o.verify, Slice(h, HdrSize(o.verify), |h| - HdrSize(o.verify)))
  }

  lemma HeaderVerdict(o: Options, c: Checks, h: seq<byte>, buflen: nat, offset: nat, version: Unique)
    requires o.Fits(|h|) && |h| <= buflen && OwnKind(o, h)
    ensures HeaderOk(o, c, h, buflen, offset, version) <==> HeaderBytes(o, c, h, offset, version)
  {
    hide Encode, Decode, Pow256, VersionBytes;
    MagicFits();
    FieldIs(Slice(h, 0, 2), FIO_HDR_MAGIC);
    FieldIs(Slice(h, 4, 8), offset);
    FieldIs(Slice(h, 12, 4), |h|);
  }

  lemma MagicFits()
    ensures FIO_HDR_MAGIC < Pow256(2)
  {}

  lemma TypeFits(t: nat)
    requires IsChecksum(t)
    ensures t < Pow256(2)
  {}

  lemma DigestVerdict(o: Options, c: Checks, v: seq<byte>, inc: nat, p: nat, k: nat)
    requires p == k * inc && p + inc <= |v| && o.Fits(inc) && OwnKind(o, Slice(v, p, inc))
    ensures DigestOk(c, v, p, k) <==> DigestBytes(o, c, Slice(v, p, inc))
  {
    hide Encode, Decode, Slice;
    var h := Slice(v, p, inc);
    TypeFits(o.verify);
    FieldIs(Slice(h, 2, 2), o.verify);
    FieldIs(Slice(h, 12, 4), inc);
    SliceNested(v, p, inc, 2, 2);
    SliceNested(v, p, inc, 12, 4);
    SliceNested(v, p, inc, HDR_LEN, DigestSize(o.verify));
    SliceNested(v, p, inc, HdrSize(o.verify), inc - HdrSize(o.verify));
  }

  lemma BlockInBytes(o: Options, c: Checks, s: seq<byte>, inc: nat, n: nat, j: nat, offset: nat, version: Unique)
    requires |s| == n * inc && j < n && o.Fits(inc) && OwnKind(o, Placed(o, s, inc, n, j))
    ensures HeaderOkAt(o, c, s, inc, n, j, offset, version)
            <==> HeaderBytes(o, c, Placed(o, s, inc, n, j), offset + j * inc, version)
    ensures DigestOkAt(o, c, s, inc, n, j) <==> DigestBytes(o, c, Placed(o, s, inc, n, j))
  {
    hide DigestOk, Opened, Swapped, HeaderOk, Slice, Options.Fits, OwnKind, HeaderBytes, DigestBytes;
    BlockBounds(inc, j, n);
    HeaderVerdict(o, c, Placed(o, s, inc, n, j), |s|, offset + j * inc, version);
    OpenedBlock(o, s, inc, n, j + 1, j);
    DigestVerdict(o, c, Opened(o, s, inc, n, j + 1), inc, j * inc, j);
  }

  /** Block j is right in all that verify_io_u must look at. */
  ghost predicate Sound(o: Options, c: Checks, s: seq<byte>, inc: nat, n: nat, j: nat, offset: nat, version: Unique)
    requires |s| == n * inc && j < n && o.Fits(inc)
  {
    && HeaderBytes(o, c, Placed(o, s, inc, n, j), offset + j * inc, version)
    && (o.verifyFatal || j == n - 1 ==> DigestBytes(o, c, Placed(o, s, inc, n, j)))
  }

  /** Something about block j is wrong that verify_io_u must notice. */
  ghost predicate Wrong(o: Options, c: Checks, s: seq<byte>, inc: nat, n: nat, j: nat, offset: nat, version: Unique)
    requires |s| == n * inc && j < n && o.Fits(inc)
  {
    var h := Placed(o, s, inc, n, j);
    || BadHeader(o, c, h, |s|, offset + j * inc, version)
    || ((UnknownType(h) || (OwnKind(o, h) && !DigestBytes(o, c, h))) && (o.verifyFatal || j == n - 1))
  }

  /** A buffer with anything wrong is rejected; one with headers of the job's own type and length is not without. */
  ghost predicate JudgedRight(o: Options, c: Checks, s: seq<byte>, inc: nat, n: nat, offset: nat, version: Unique,
                              ok: bool)
    requires |s| == n * inc && o.Fits(inc)
  {
    && (forall j: nat | j < n && Wrong(o, c, s, inc, n, j, offset, version) :: !ok)
    && ((forall j: nat | j < n :: OwnKind(o, Placed(o, s, inc, n, j))) && offset + |s| <= Pow256(8) ==>
          (ok <==> forall j: nat | j < n :: !Wrong(o, c, s, inc, n, j, offset, version)))
  }

  lemma Judgement(o: Options, c: Checks, s: seq<byte>, inc: nat, n: nat, offset: nat, version: Unique)
    requires |s| == n * inc && o.Fits(inc)
    ensures JudgedRight(o, c, s, inc, n, offset, version, Accepted(o, c, s, inc, n, offset, version))
  {
    hide Accepted, OwnKind, Placed, Options.Fits, Wrong, Sound, Pow256;
    forall j: nat | j < n && Wrong(o, c, s, inc, n, j, offset, version)
      ensures !Accepted(o, c, s, inc, n, offset, version)
    {
      WrongIsRejected(o, c, s, inc, n, j, offset, version);
    }
    if (forall j: nat | j < n :: OwnKind(o, Placed(o, s, inc, n, j))) && offset + |s| <= Pow256(8) {
      AcceptedInBytes(o, c, s, inc, n, offset, version);
      forall j: nat | j < n
        ensures Wrong(o, c, s, inc, n, j, offset, version) != Sound(o, c, s, inc, n, j, offset, version)
      {
        NothingWrong(o, c, s, inc, n, j, offset, version);
      }
    }
  }

  lemma WrongIsRejected(o: Options, c: Checks, s: seq<byte>, inc: nat, n: nat, j: nat, offset: nat, version: Unique)
    requires |s| == n * inc && j < n && o.Fits(inc) && Wrong(o, c, s, inc, n, j, offset, version)
    ensures !Accepted(o, c, s, inc, n, offset, version)
  {
    hide Accepted, DigestBytes, OwnKind, Placed, Options.Fits, BadHeader, UnknownType;
    StepsPositive(o, inc);
    if BadHeader(o, c, Placed(o, s, inc, n, j), |s|, offset + j * inc, version) {
      BadHeaderIsRejected(o, c, s, inc, n, j, offset, version);
    } else if UnknownType(Placed(o, s, inc, n, j)) {
      UnknownIsRejected(o, c, s, inc, n, j, offset, version);
    } else {
      BadDigestIsRejected(o, c, s, inc, n, j, offset, version);
    }
  }

  lemma NothingWrong(o: Options, c: Checks, s: seq<byte>, inc: nat, n: nat, j: nat, offset: nat, version: Unique)
    requires |s| == n * inc && j < n && o.Fits(inc)
    requires OwnKind(o, Placed(o, s, inc, n, j)) && offset + |s| <= Pow256(8)
    ensures Wrong(o, c, s, inc, n, j, offset, version) != Sound(o, c, s, inc, n, j, offset, version)
  {
    hide DigestBytes, OwnKind, Placed, Options.Fits, BadHeader, HeaderBytes, Pow256, UnknownType;
    StepsPositive(o, inc);
    OwnIsKnown(o, Placed(o, s, inc, n, j));
    BlockBounds(inc, j, n);
    BadOrRight(o, c, Placed(o, s, inc, n, j), |s|, offset + j * inc, version);
  }

  lemma OwnIsKnown(o: Options, h: seq<byte>)
    requires o.Fits(|h|) && OwnKind(o, h)
    ensures !UnknownType(h)
  {
    hide Encode, Decode, Slice;
    TypeFits(o.verify);
    FieldIs(Slice(h, 2, 2), o.verify);
  }

  /** A header of no known type fails the buffer: in any block with verify_fatal, else in the last. */
  lemma UnknownIsRejected(o: Options, c: Checks, s: seq<byte>, inc: nat, n: nat, j: nat, offset: nat, version: Unique)
    requires |s| == n * inc && j < n && o.Fits(inc)
    requires UnknownType(Placed(o, s, inc, n, j)) && (o.verifyFatal || j == n - 1)
    ensures !Accepted(o, c, s, inc, n, offset, version)
  {
    hide HeaderOkAt, Opened, Swapped, Slice, UnknownType, DigestOk;
    BlockBounds(inc, j, n);
    OpenedBlock(o, s, inc, n, j + 1, j);
    var v := Opened(o, s, inc, n, j + 1);
    SameType(v, j * inc, inc);
    var ret := DigestResult(c, v, j * inc, j);
    assert !DigestOkAt(o, c, s, inc, n, j);
  }

  lemma BadOrRight(o: Options, c: Checks, h: seq<byte>, buflen: nat, offset: nat, version: Unique)
    requires o.Fits(|h|) && |h| <= buflen && OwnKind(o, h) && offset < Pow256(8)
    ensures BadHeader(o, c, h, buflen, offset, version) <==> !HeaderBytes(o, c, h, offset, version)
  {
    hide Encode, Decode, Pow256, VersionBytes, Slice;
    FieldIs(Slice(h, 12, 4), |h|);
  }

  /** Magic, length, header checksum, offset or version is wrong. */
  ghost predicate BadHeader(o: Options, c: Checks, h: seq<byte>, buflen: nat, offset: nat, version: Unique)
    requires o.Fits(|h|)
  {
    || Slice(h, 0, 2) != Encode(0xacca, 2) || Decode(Slice(h, 12, 4)) > buflen
    || Slice(h, 24, 4) != c.Crc(Slice(h, 0, 24)) || Slice(h, 4, 8) != Encode(offset, 8)
    || (o.verifyInner && Slice(h, 28, 8) != VersionBytes(version))
  }

  /** A header of which magic, length, checksum, offset or version is wrong fails the buffer, whatever else it says. */
  lemma BadHeaderIsRejected(o: Options, c: Checks, s: seq<byte>, inc: nat, n: nat, j: nat, offset: nat, version: Unique)
    requires |s| == n * inc && j < n && o.Fits(inc)
    requires BadHeader(o, c, Placed(o, s, inc, n, j), |s|, offset + j * inc, version)
    ensures !Accepted(o, c, s, inc, n, offset, version)
  {
    hide DigestOkAt, Swapped, BlockOf, Encode, Decode, VersionBytes, Slice;
    var h := Placed(o, s, inc, n, j);
    FieldIs(Slice(h, 0, 2), FIO_HDR_MAGIC);
    FieldIs(Slice(h, 4, 8), offset + j * inc);
    assert !HeaderOkAt(o, c, s, inc, n, j, offset, version);
  }

  /** A stored digest that is not that of the data fails the buffer: any block with verify_fatal, else the last. */
  lemma BadDigestIsRejected(o: Options, c: Checks, s: seq<byte>, inc: nat, n: nat, j: nat, offset: nat, version: Unique)
    requires |s| == n * inc && j < n && o.Fits(inc) && OwnKind(o, Placed(o, s, inc, n, j))
    requires !DigestBytes(o, c, Placed(o, s, inc, n, j)) && (o.verifyFatal || j == n - 1)
    ensures !Accepted(o, c, s, inc, n, offset, version)
  {
    hide DigestOkAt, HeaderOkAt, DigestBytes, OwnKind, Placed, Options.Fits;
    BlockInBytes(o, c, s, inc, n, j, offset, version);
  }

  /**
    Damage to a good buffer: with the header of block j as it was, other bytes with another digest behind it, or
    another digest in front of them, are noticed in every block with verify_fatal, else in the last.
   */
  lemma DamageIsRejected(o: Options, c: Checks, s: seq<byte>, t: seq<byte>, inc: nat, n: nat, j: nat, offset: nat,
                         version: Unique)
    requires |s| == |t| == n * inc && j < n && o.Fits(inc) && GoodUpto(o, c, s, inc, n, n, offset, version)
    requires o.verifyFatal || j == n - 1
    requires var g, h, hs := Placed(o, s, inc, n, j), Placed(o, t, inc, n, j), HdrSize(o.verify);
             && Slice(h, 0, HDR_LEN) == Slice(g, 0, HDR_LEN)
             && var same := Slice(h, HDR_LEN, DigestSize(o.verify)) == Slice(g, HDR_LEN, DigestSize(o.verify));
                var sums := c.Sum(o.verify, Slice(h, hs, inc - hs)) == c.Sum(o.verify, Slice(g, hs, inc - hs));
                same != sums
    ensures !Accepted(o, c, t, inc, n, offset, version)
  {
    hide Swapped, BlockOf, Encode, VersionBytes, Slice, Accepted, Pow256;
    var g, h := Placed(o, s, inc, n, j), Placed(o, t, inc, n, j);
    assert GoodBlock(o, c, BlockOf(s, inc, n, j), offset + j * inc, version);
    SliceNested(g, 0, HDR_LEN, 2, 2);
    SliceNested(h, 0, HDR_LEN, 2, 2);
    SliceNested(g, 0, HDR_LEN, 12, 4);
    SliceNested(h, 0, HDR_LEN, 12, 4);
    BadDigestIsRejected(o, c, t, inc, n, j, offset, version);
  }

  /** Exactly which buffers are accepted, of those whose headers are of the job's own type and length. */
  lemma AcceptedInBytes(o: Options, c: Checks, s: seq<byte>, inc: nat, n: nat, offset: nat, version: Unique)
    requires |s| == n * inc && o.Fits(inc) && forall j: nat | j < n :: OwnKind(o, Placed(o, s, inc, n, j))
    ensures Accepted(o, c, s, inc, n, offset, version)
            <==> forall j: nat | j < n :: Sound(o, c, s, inc, n, j, offset, version)
  {
    hide DigestOkAt, HeaderOkAt, DigestBytes, HeaderBytes, OwnKind, Placed, Options.Fits;
    forall j: nat | j < n
      ensures Sound(o, c, s, inc, n, j, offset, version)
              <==> && HeaderOkAt(o, c, s, inc, n, j, offset, version)
                   && (o.verifyFatal || j == n - 1 ==> DigestOkAt(o, c, s, inc, n, j))
    {
      BlockInBytes(o, c, s, inc, n, j, offset, version);
    }
    if n > 0 {
      var last := Sound(o, c, s, inc, n, n - 1, offset, version);
    }
  }

  // ---- what a bad block does ----

  lemma VersionBytesInjective(v: Unique, w: Unique)
    requires v.sec < Pow256(4) && v.number < Pow256(4) && w.sec < Pow256(4) && w.number < Pow256(4)
    requires VersionBytes(v) == VersionBytes(w)
    ensures v == w
  {
    assert VersionBytes(v)[..4] == Encode(v.sec, 4) && VersionBytes(v)[4..] == Encode(v.number, 4);
    assert VersionBytes(w)[..4] == Encode(w.sec, 4) && VersionBytes(w)[4..] == Encode(w.number, 4);
    DecodeEncode(v.sec, 4);
    DecodeEncode(v.number, 4);
    DecodeEncode(w.sec, 4);
    DecodeEncode(w.number, 4);
  }

  /** A block left over from a write with another version, intact in itself, is rejected. */
  lemma StaleBlockIsRejected(o: Options, c: Checks, s: seq<byte>, inc: nat, n: nat, j: nat,
                             offset: nat, version: Unique, stale: Unique)
    requires |s| == n * inc && j < n && o.Fits(inc) && o.verifyInner
    requires version.sec < Pow256(4) && version.number < Pow256(4) && stale.sec < Pow256(4) && stale.number < Pow256(4)
    requires version != stale && GoodBlock(o, c, BlockOf(s, inc, n, j), offset + j * inc, stale)
    ensures !Accepted(o, c, s, inc, n, offset, version)
  {
    hide DigestOkAt, Swapped, VersionBytes;
    if HeaderOkAt(o, c, s, inc, n, j, offset, version) {
      VersionBytesInjective(version, stale);
    }
  }

  /** Header h with another checksum in place of its own: the header still passes, and its checksum does not. */
  lemma SpoiledBlock(o: Options, c: Checks, h: seq<byte>, d: seq<byte>, offset: nat, version: Unique, buflen: nat)
    requires GoodHeader(o, c, h, offset, version) && |h| <= buflen && |d| == DigestSize(o.verify)
    requires d != c.Sum(o.verify, Slice(h, HdrSize(o.verify), |h| - HdrSize(o.verify)))
    ensures HeaderOk(o, c, Splice(h, HDR_LEN, d), buflen, offset, version)
    ensures !DigestOk(c, Splice(h, HDR_LEN, d), 0, 0)
  {
    var hs := HdrSize(o.verify);
    GoodFields(o, c, h, offset, version);
    SliceSplice(h, HDR_LEN, d, 0, 2);
    SliceSplice(h, HDR_LEN, d, 2, 2);
    SliceSplice(h, HDR_LEN, d, 4, 8);
    SliceSplice(h, HDR_LEN, d, 12, 4);
    SliceSplice(h, HDR_LEN, d, 0, CRC_OFF);
    SliceSplice(h, HDR_LEN, d, CRC_OFF, 4);
    SliceSplice(h, HDR_LEN, d, 28, 8);
    SliceSplice(h, HDR_LEN, d, HDR_LEN, |d|);
    SliceSplice(h, HDR_LEN, d, hs, |h| - hs);
  }

  /** The checksum test of a header at the start of a buffer looks only at the header's own block. */
  lemma FirstDigestLocal(c: Checks, h: seq<byte>, rest: seq<byte>)
    requires |h| >= HDR_LEN && IsChecksum(Decode(Slice(h, 2, 2))) && Decode(Slice(h, 12, 4)) == |h|
    requires HdrSize(Decode(Slice(h, 2, 2))) <= |h|
    ensures DigestOk(c, h + rest, 0, 0) <==> DigestOk(c, h, 0, 0)
  {
    var t := Decode(Slice(h, 2, 2));
    assert Slice(h + rest, 2, 2) == Slice(h, 2, 2);
    assert Slice(h + rest, 12, 4) == Slice(h, 12, 4);
    assert Slice(h + rest, HDR_LEN, DigestSize(t)) == Slice(h, HDR_LEN, DigestSize(t));
    assert Slice(h + rest, HdrSize(t), |h| - HdrSize(t)) == Slice(h, HdrSize(t), |h| - HdrSize(t));
  }

  lemma SpoiledFields(o: Options, c: Checks, h: seq<byte>, d: seq<byte>, offset: nat, version: Unique)
    requires GoodHeader(o, c, h, offset, version) && |d| == DigestSize(o.verify)
    ensures Decode(Slice(Splice(h, HDR_LEN, d), 2, 2)) == o.verify
    ensures Decode(Slice(Splice(h, HDR_LEN, d), 12, 4)) == |h|
    ensures IsChecksum(o.verify) && HDR_LEN <= HdrSize(o.verify) <= |h|
  {
    GoodFields(o, c, h, offset, version);
    SliceSplice(h, HDR_LEN, d, 2, 2);
    SliceSplice(h, HDR_LEN, d, 12, 4);
  }

  /** The first of n blocks is the good header h, swapped into place, with the checksum d instead of its own. */
  ghost predicate FirstSpoiled(o: Options, c: Checks, s: seq<byte>, inc: nat, n: nat, h: seq<byte>, d: seq<byte>,
                               offset: nat, version: Unique)
  {
    && n > 0 && |s| == n * inc && |h| == inc && o.Fits(inc)
    && |d| == DigestSize(o.verify) && GoodHeader(o, c, h, offset, version)
    && d != c.Sum(o.verify, Slice(h, HdrSize(o.verify), inc - HdrSize(o.verify)))
    && BlockOf(s, inc, n, 0) == Swapped(o, Splice(h, HDR_LEN, d))
  }

  lemma FirstBlockSpoiled(o: Options, c: Checks, s: seq<byte>, inc: nat, n: nat, h: seq<byte>, d: seq<byte>,
                          offset: nat, version: Unique)
    requires FirstSpoiled(o, c, s, inc, n, h, d, offset, version)
    ensures HeaderOkAt(o, c, s, inc, n, 0, offset, version) && !DigestOkAt(o, c, s, inc, n, 0)
  {
    hide HeaderOk, DigestOk, GoodHeader, Opened, Swapped, Slice, Splice;
    BlockBounds(inc, 0, n);
    var bad := Splice(h, HDR_LEN, d);
    SwappedTwice(o, bad);
    SpoiledBlock(o, c, h, d, offset, version, |s|);
    SpoiledFields(o, c, h, d, offset, version);
    OpenedBlock(o, s, inc, n, 1, 0);
    var v := Opened(o, s, inc, n, 1);
    FrontOf(v, inc, n);
    FirstDigestLocal(c, bad, v[inc..]);
  }

  lemma FrontOf(v: seq<byte>, inc: nat, n: nat)
    requires n > 0 && |v| == n * inc
    ensures inc <= |v| && v == BlockOf(v, inc, n, 0) + v[inc..]
  {
    BlockBounds(inc, 0, n);
  }

  /**
    Without verify_fatal a failed checksum is forgotten when the last block passes: whatever the number of
    blocks, a buffer of good blocks with the checksum of the first one spoiled is still accepted.
   */
  lemma FailureIsForgotten(o: Options, c: Checks, s: seq<byte>, inc: nat, n: nat, h: seq<byte>, d: seq<byte>,
                           offset: nat, version: Unique)
    requires FirstSpoiled(o, c, s, inc, n, h, d, offset, version) && n > 1 && !o.verifyFatal
    requires forall j: nat | 0 < j < n :: GoodBlock(o, c, BlockOf(s, inc, n, j), offset + j * inc, version)
    ensures Accepted(o, c, s, inc, n, offset, version) && !DigestOkAt(o, c, s, inc, n, 0)
  {
    hide HeaderOkAt, DigestOkAt, GoodBlock, BlockOf;
    FirstBlockSpoiled(o, c, s, inc, n, h, d, offset, version);
    forall j: nat | 0 < j < n
      ensures HeaderOkAt(o, c, s, inc, n, j, offset, version) && DigestOkAt(o, c, s, inc, n, j)
    {
      GoodBlockPasses(o, c, s, inc, n, j, offset, version);
    }
  }

  /** There are good buffers of any number of blocks, as far as offsets go. */
  lemma {:induction false} GoodBuffer(o: Options, c: Checks, inc: nat, n: nat, version: Unique) returns (s: seq<byte>)
    requires o.Fits(inc) && n * inc <= Pow256(8)
    ensures |s| == n * inc && GoodUpto(o, c, s, inc, n, n, 0, version)
  {
    hide GoodBlock, GoodUpto, Options.Fits, Pow256, Populated;
    if n == 0 {
      NothingGood(o, c, inc, version);
      s := [];
    } else {
      BlockBounds(inc, n - 1, n);
      var prev := GoodBuffer(o, c, inc, n - 1, version);
      StepsPositive(o, inc);
      var zero := seq(inc, _ => 0 as byte);
      var blk := Populated(o, c, zero, (n - 1) * inc, version, 0);
      PopulatedIsGood(o, c, zero, (n - 1) * inc, version, 0);
      s := prev + blk;
      AppendGood(o, c, prev, blk, inc, n, version);
    }
  }

  lemma NothingGood(o: Options, c: Checks, inc: nat, version: Unique)
    ensures GoodUpto(o, c, [], inc, 0, 0, 0, version)
  {}

  lemma AppendGood(o: Options, c: Checks, prev: seq<byte>, blk: seq<byte>, inc: nat, n: nat, version: Unique)
    requires n > 0 && |prev| == (n - 1) * inc && |blk| == inc && |prev + blk| == n * inc
    requires GoodUpto(o, c, prev, inc, n - 1, n - 1, 0, version) && GoodBlock(o, c, blk, (n - 1) * inc, version)
    ensures GoodUpto(o, c, prev + blk, inc, n, n, 0, version)
  {
    hide GoodBlock, BlockOf;
    forall j: nat | j < n
      ensures GoodBlock(o, c, BlockOf(prev + blk, inc, n, j), 0 + j * inc, version)
    {
      OneMoreBlock(prev, blk, inc, n, j);
      if j < n - 1 {
        assert GoodBlock(o, c, BlockOf(prev, inc, n - 1, j), 0 + j * inc, version);
      }
    }
  }

  lemma OneMoreBlock(prev: seq<byte>, blk: seq<byte>, inc: nat, n: nat, j: nat)
    requires j < n && |prev| == (n - 1) * inc && |blk| == inc && |prev + blk| == n * inc
    ensures BlockOf(prev + blk, inc, n, j) == if j < n - 1 then BlockOf(prev, inc, n - 1, j) else blk
  {
    if j < n - 1 {
      BlockBounds(inc, j, n - 1);
    }
  }

  /** Some other checksum of the same length. */
  lemma OtherSum(t: nat, d: seq<byte>) returns (e: seq<byte>)
    requires IsChecksum(t) && |d| == DigestSize(t)
    ensures |e| == |d| && e != d
  {
    e := d[0 := if d[0] == 0 then 1 else 0];
    assert e[0] != d[0];
  }

  /** All checksums of the buffer pass. */
  ghost predicate AllDigestsOk(o: Options, c: Checks, s: seq<byte>, inc: nat, n: nat)
    requires |s| == n * inc && o.Fits(inc)
  {
    forall j: nat | j < n :: DigestOkAt(o, c, s, inc, n, j)
  }

  lemma SomeFailureForgotten(o: Options, c: Checks, inc: nat, n: nat, version: Unique) returns (s: seq<byte>)
    requires o.Fits(inc) && n * inc <= Pow256(8) && n > 1 && !o.verifyFatal
    ensures |s| == n * inc && Accepted(o, c, s, inc, n, 0, version) && !AllDigestsOk(o, c, s, inc, n)
  {
    hide GoodHeader, Accepted, Swapped, BlockOf, Slice, Splice, Pow256, DigestOkAt;
    var good := GoodBuffer(o, c, inc, n, version);
    assert GoodBlock(o, c, BlockOf(good, inc, n, 0), 0 + 0 * inc, version);
    var h := Swapped(o, BlockOf(good, inc, n, 0));
    var d := OtherSum(o.verify, c.Sum(o.verify, Slice(h, HdrSize(o.verify), inc - HdrSize(o.verify))));
    BlockBounds(inc, 0, n);
    var blk := Swapped(o, Splice(h, HDR_LEN, d));
    s := Splice(good, 0 * inc, blk);
    forall j: nat | j < n
      ensures BlockOf(s, inc, n, j) == if j == 0 then blk else BlockOf(good, inc, n, j)
    {
      BlockOfSplice(good, inc, n, 0, blk, j);
    }
    assert forall j: nat | 0 < j < n :: GoodBlock(o, c, BlockOf(good, inc, n, j), 0 + j * inc, version);
    FailureIsForgotten(o, c, s, inc, n, h, d, 0, version);
  }

  /** Acceptance of n blocks means that all their checksums are right exactly with verify_fatal or for one block. */
  lemma AcceptanceCoversChecksums(o: Options, c: Checks, inc: nat, n: nat)
    requires o.Fits(inc) && n * inc <= Pow256(8)
    ensures (forall s: seq<byte>, offset: nat, version: Unique |
               |s| == n * inc && Accepted(o, c, s, inc, n, offset, version) :: AllDigestsOk(o, c, s, inc, n))
            <==> o.verifyFatal || n <= 1
  {
    hide HeaderOkAt, DigestOkAt;
    if !o.verifyFatal && n > 1 {
      var version := Unique(0, 0);
      var s := SomeFailureForgotten(o, c, inc, n, version);
      assert |s| == n * inc && Accepted(o, c, s, inc, n, 0, version) && !AllDigestsOk(o, c, s, inc, n);
    }
  }
}
