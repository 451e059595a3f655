/** The ICO container writer and reader of lib/image-utils.ts: the Windows
    ICONDIR header (reserved 0, type 1, image count), one 16-byte
    ICONDIRENTRY per image, then the image payloads packed back to back.
    All multi-byte fields are little-endian. */
module ImageUtils {
  import opened Wrappers
  import opened Seqs

  type byte = b: int | 0 <= b < 256

  /** A requested icon size; the writer does not validate it. */
  datatype IcoSize = IcoSize(width: int, height: int)

  /** The sizes the ICO tool offers, in ascending order. */
  const CommonIcoSizes: seq<IcoSize> := [
    IcoSize(16, 16), IcoSize(24, 24), IcoSize(32, 32), IcoSize(48, 48),
    IcoSize(64, 64), IcoSize(128, 128), IcoSize(256, 256)
  ]

  /** First four bytes of the PNG signature (section 5.2 of the PNG specification). */
  const PngSignature: seq<byte> := [0x89, 0x50, 0x4E, 0x47]

  datatype ImageFormat = Png | Bmp

  /** One extracted image: the payload blob, its sniffed type and the
      directory's dimensions. */
  datatype IcoImage = IcoImage(data: seq<byte>, format: ImageFormat, width: int, height: int)

  /** `RangeError` is what a `DataView` read past the end of the buffer throws;
      `TypeError` is what reading `width` of a missing size throws. */
  datatype IcoError = RangeError | InvalidIcoFormat | NoImagesFound | TypeError

  // -----------------------------------------------------------------------
  // Little-endian fields, as `DataView.setUint16/setUint32(…, true)` write them:
  // the value is first reduced modulo 2^16 or 2^32.

  function Le16(v: int): (r: seq<byte>)
    ensures |r| == 2
  {
    var u := v % 0x1_0000;
    [u % 256, u / 256]
  }

  function Le32(v: int): (r: seq<byte>)
    ensures |r| == 4
  {
    var u := v % 0x1_0000_0000;
    Le16(u % 0x1_0000) + Le16(u / 0x1_0000)
  }

  /** `DataView.getUint16(k, true)`. */
  function U16At(buf: seq<byte>, k: nat): (r: nat)
    requires k + 2 <= |buf|
    ensures r < 0x1_0000
  {
    buf[k] as int + 256 * (buf[k + 1] as int)
  }

  /** `DataView.getUint32(k, true)`. */
  function U32At(buf: seq<byte>, k: nat): (r: nat)
    requires k + 4 <= |buf|
    ensures r < 0x1_0000_0000
  {
    U16At(buf, k) + 0x1_0000 * U16At(buf, k + 2)
  }

  lemma Le16Reads(v: int)
    ensures U16At(Le16(v), 0) == v % 0x1_0000
  {
    var u := v % 0x1_0000;
    assert u == u % 256 + 256 * (u / 256);
  }

  lemma Le32Reads(v: int)
    ensures U32At(Le32(v), 0) == v % 0x1_0000_0000
  {
    var u := v % 0x1_0000_0000;
    var lo, hi := u % 0x1_0000, u / 0x1_0000;
    var s := Le32(v);
    assert hi < 0x1_0000;
    Le16Reads(lo);
    Le16Reads(hi);
    assert U16At(s, 0) == U16At(Le16(lo), 0) == lo;
    assert U16At(s, 2) == U16At(Le16(hi), 0) == hi;
    assert u == lo + 0x1_0000 * hi;
  }

  // -----------------------------------------------------------------------
  // Width and height bytes.

  /** What `bytes[k] = size.width === 256 ? 0 : size.width` stores: 0 for 256,
      otherwise the value modulo 256 (a `Uint8Array` slot). */
  function DimByte(d: int): byte
  {
    if d == 256 then 0 else d % 256
  }

  /** What `view.getUint8(k) || 256` reads back. */
  function DimOf(b: byte): int
  {
    if b == 0 then 256 else b
  }

  /** Every dimension in 1..256 survives the one-byte field. */
  lemma DimRoundTrip(d: int)
    requires 1 <= d <= 256
    ensures DimOf(DimByte(d)) == d
  {
  }

  /** A dimension outside 1..256 is silently reduced modulo 256 (0 and 512
      read back as 256). */
  lemma DimNotValidated(d: int)
    requires d != 256
    ensures DimByte(d) == d % 256
    ensures DimOf(DimByte(d)) == if d % 256 == 0 then 256 else d % 256
  {
  }

  // -----------------------------------------------------------------------
  // The writer's layout.

  function Header(count: int): (r: seq<byte>)
    ensures |r| == 6
  {
    Le16(0) + Le16(1) + Le16(count)
  }

  /** One directory entry: width, height, colour count 0, reserved 0,
      planes 1, 32 bits per pixel, payload size, payload offset. */
  function DirEntry(size: IcoSize, len: int, offset: int): (r: seq<byte>)
    ensures |r| == 16
  {
    [DimByte(size.width)] + [DimByte(size.height)] + [0] + [0]
      + Le16(1) + Le16(32) + Le32(len) + Le32(offset)
  }

  /** Where the writer puts payload `i`: after the header, the directory and
      every earlier payload. */
  function PayloadOffset(images: seq<seq<byte>>, i: nat): (r: nat)
    requires i <= |images|
    ensures 6 + 16 * |images| <= r <= 6 + 16 * |images| + TotalLen(images)
  {
    TotalLenPrefix(images, i);
    6 + 16 * |images| + TotalLen(images[..i])
  }

  /** The header followed by the first `i` directory entries, each pointing
      at its payload. */
  function HeaderAndDirectory(images: seq<seq<byte>>, sizes: seq<IcoSize>, i: nat): (r: seq<byte>)
    requires i <= |images| <= |sizes|
    ensures |r| == 6 + 16 * i
  {
    if i == 0 then Header(|images|)
    else HeaderAndDirectory(images, sizes, i - 1)
           + DirEntry(sizes[i - 1], |images[i - 1]|, PayloadOffset(images, i - 1))
  }

  /** The bytes `buildICOFile(images, sizes)` returns. */
  function IcoFile(images: seq<seq<byte>>, sizes: seq<IcoSize>): seq<byte>
    requires |images| <= |sizes|
  {
    HeaderAndDirectory(images, sizes, |images|) + Flatten(images)
  }

  // -----------------------------------------------------------------------
  // Writes into the preallocated buffer.

  /** `s` with `d` written over it from position `k`. */
  function Overwrite(s: seq<byte>, k: nat, d: seq<byte>): (r: seq<byte>)
    requires k + |d| <= |s|
    ensures |r| == |s|
  {
    s[..k] + d + s[k + |d|..]
  }

  /** Two writes at adjacent positions are one write of the concatenation. */
  lemma OverwriteAdjacent(s: seq<byte>, k: nat, a: seq<byte>, b: seq<byte>)
    requires k + |a| + |b| <= |s|
    ensures Overwrite(Overwrite(s, k, a), k + |a|, b) == Overwrite(s, k, a + b)
  {
  }

  /** A write leaves every slice that does not meet it unchanged. */
  lemma OverwriteOutside(s: seq<byte>, k: nat, d: seq<byte>, x: nat, y: nat)
    requires k + |d| <= |s|
    requires x <= y <= |s|
    requires y <= k || k + |d| <= x
    ensures Overwrite(s, k, d)[x..y] == s[x..y]
  {
  }

  /** A slice that ends where a write ends is the old part followed by the
      written bytes. */
  lemma OverwriteUpTo(s: seq<byte>, k: nat, d: seq<byte>, x: nat)
    requires k + |d| <= |s|
    requires x <= k
    ensures Overwrite(s, k, d)[x..k + |d|] == s[x..k] + d
  {
  }

  /** `Uint8Array.prototype.set(data, k)` (also the byte-by-byte effect of a
      `DataView` write): copies `data` into `a` from position `k`. */
  method SetBytes(a: array<byte>, k: nat, data: seq<byte>)
    requires k + |data| <= a.Length
    modifies a
    ensures a[..] == Overwrite(old(a[..]), k, data)
  {
    var j := 0;
    while j < |data|
      invariant 0 <= j <= |data|
      invariant forall x :: 0 <= x < k ==> a[x] == old(a[x])
      invariant forall x :: k + j <= x < a.Length ==> a[x] == old(a[x])
      invariant a[k..k + j] == data[..j]
    {
      a[k + j] := data[j];
      j := j + 1;
    }
    assert a[..] == a[..k] + a[k..k + |data|] + a[k + |data|..];
  }

  /** The three `setUint16` calls of the header. */
  method WriteHeader(bytes: array<byte>, count: int)
    requires 6 <= bytes.Length
    modifies bytes
    ensures bytes[..] == Overwrite(old(bytes[..]), 0, Header(count))
  {
    ghost var z := bytes[..];
    SetBytes(bytes, 0, Le16(0));            // reserved
    SetBytes(bytes, 2, Le16(1));            // type: 1 for an icon
    SetBytes(bytes, 4, Le16(count));        // number of images
    OverwriteAdjacent(z, 0, Le16(0), Le16(1));
    OverwriteAdjacent(z, 0, Le16(0) + Le16(1), Le16(count));
  }

  /** The eight field writes of one directory entry at `entryOffset`. */
  method WriteDirEntry(bytes: array<byte>, entryOffset: nat, size: IcoSize, len: int, offset: int)
    requires entryOffset + 16 <= bytes.Length
    modifies bytes
    ensures bytes[..] == Overwrite(old(bytes[..]), entryOffset, DirEntry(size, len, offset))
  {
    ghost var s0 := bytes[..];
    SetBytes(bytes, entryOffset, [DimByte(size.width)]);
    SetBytes(bytes, entryOffset + 1, [DimByte(size.height)]);
    SetBytes(bytes, entryOffset + 2, [0]);            // colour palette
    SetBytes(bytes, entryOffset + 3, [0]);            // reserved
    SetBytes(bytes, entryOffset + 4, Le16(1));        // colour planes
    SetBytes(bytes, entryOffset + 6, Le16(32));       // bits per pixel
    SetBytes(bytes, entryOffset + 8, Le32(len));      // image size
    SetBytes(bytes, entryOffset + 12, Le32(offset));  // image offset
    EntryWrites(s0, entryOffset, size, len, offset);
  }

  /** One round of the writer's loop keeps the written header-and-directory
      prefix `p` and the written payload region `f` growing by one element each. */
  lemma EntryAndPayloadWrites(s0: seq<byte>, entryOffset: nat, entry: seq<byte>,
                              dirSize: nat, offset: nat, data: seq<byte>,
                              p: seq<byte>, f: seq<byte>)
    requires entryOffset + |entry| <= dirSize <= offset
    requires offset + |data| <= |s0|
    requires s0[..entryOffset] == p
    requires s0[dirSize..offset] == f
    ensures Overwrite(Overwrite(s0, entryOffset, entry), offset, data)[..entryOffset + |entry|]
            == p + entry
    ensures Overwrite(Overwrite(s0, entryOffset, entry), offset, data)[dirSize..offset + |data|]
            == f + data
  {
    var s1 := Overwrite(s0, entryOffset, entry);
    OverwriteOutside(s1, offset, data, 0, entryOffset + |entry|);
    OverwriteUpTo(s0, entryOffset, entry, 0);
    OverwriteUpTo(s1, offset, data, dirSize);
    OverwriteOutside(s0, entryOffset, entry, dirSize, offset);
  }

  /** One round of the writer's loop: the written header-and-directory
      prefix grows by entry `i`, the written payload region by payload `i`. */
  lemma WriterStep(images: seq<seq<byte>>, sizes: seq<IcoSize>, i: nat, offset: nat,
                    s0: seq<byte>, s2: seq<byte>)
    requires |images| <= |sizes| && i < |images|
    requires offset == PayloadOffset(images, i)
    requires offset + |images[i]| <= |s0|
    requires s0[..6 + 16 * i] == HeaderAndDirectory(images, sizes, i)
    requires s0[6 + 16 * |images|..offset] == Flatten(images[..i])
    requires s2 == Overwrite(Overwrite(s0, 6 + 16 * i, DirEntry(sizes[i], |images[i]|, offset)),
                             offset, images[i])
    ensures offset + |images[i]| == PayloadOffset(images, i + 1)
    ensures s2[..6 + 16 * (i + 1)] == HeaderAndDirectory(images, sizes, i + 1)
    ensures s2[6 + 16 * |images|..offset + |images[i]|] == Flatten(images[..i + 1])
  {
    FlattenSnoc(images, i);
    EntryAndPayloadWrites(s0, 6 + 16 * i, DirEntry(sizes[i], |images[i]|, offset),
                          6 + 16 * |images|, offset, images[i],
                          HeaderAndDirectory(images, sizes, i), Flatten(images[..i]));
  }

  /** One round of `buildICOFile`'s loop: directory entry `i` at
      `6 + 16 * i` and payload `i` at the running `offset`. */
  method WriteImage(bytes: array<byte>, images: seq<seq<byte>>, sizes: seq<IcoSize>, i: nat, offset: nat)
    requires |images| <= |sizes| && i < |images|
    requires bytes.Length == 6 + 16 * |images| + TotalLen(images)
    requires offset == PayloadOffset(images, i)
    requires bytes[..6 + 16 * i] == HeaderAndDirectory(images, sizes, i)
    requires bytes[6 + 16 * |images|..offset] == Flatten(images[..i])
    modifies bytes
    ensures offset + |images[i]| == PayloadOffset(images, i + 1)
    ensures bytes[..6 + 16 * (i + 1)] == HeaderAndDirectory(images, sizes, i + 1)
    ensures bytes[6 + 16 * |images|..PayloadOffset(images, i + 1)] == Flatten(images[..i + 1])
  {
    var entryOffset := 6 + 16 * i;      // headerSize + i * dirEntrySize
    assert offset + |images[i]| <= bytes.Length by {
      TotalLenPrefix(images, i + 1);
      FlattenSnoc(images, i);
    }
    ghost var s0 := bytes[..];
    WriteDirEntry(bytes, entryOffset, sizes[i], |images[i]|, offset);
    SetBytes(bytes, offset, images[i]);     // bytes.set(imageData, offset)
    WriterStep(images, sizes, i, offset, s0, bytes[..]);
  }

  /** The loop of `buildICOFile`: every directory entry and every payload. */
  method WriteImages(bytes: array<byte>, images: seq<seq<byte>>, sizes: seq<IcoSize>)
    requires |images| <= |sizes|
    requires bytes.Length == 6 + 16 * |images| + TotalLen(images)
    requires bytes[..6] == Header(|images|)
    modifies bytes
    ensures bytes[..6 + 16 * |images|] == HeaderAndDirectory(images, sizes, |images|)
    ensures bytes[6 + 16 * |images|..] == Flatten(images)
  {
    var offset := 6 + 16 * |images|;
    var i := 0;
    while i < |images|
      invariant 0 <= i <= |images|
      invariant offset == PayloadOffset(images, i)
      invariant bytes[..6 + 16 * i] == HeaderAndDirectory(images, sizes, i)
      invariant bytes[6 + 16 * |images|..PayloadOffset(images, i)] == Flatten(images[..i])
    {
      WriteImage(bytes, images, sizes, i, offset);
      offset := offset + |images[i]|;
      i := i + 1;
    }
    FullPrefix(images);
  }

  /** `buildICOFile`: the header, then, for each image in order, its
      directory entry and its payload at the running offset. */
  method BuildIcoFile(images: seq<seq<byte>>, sizes: seq<IcoSize>) returns (r: Result<seq<byte>, IcoError>)
    ensures |images| <= |sizes| ==> r == Ok(IcoFile(images, sizes))
    ensures |sizes| < |images| ==> r == Err(TypeError)
  {
    // With fewer sizes than images, `sizes[i]` is `undefined` once `i`
    // reaches `|sizes|` and `size.width` throws; the partly written buffer
    // is never returned.
    if |sizes| < |images| {
      return Err(TypeError);
    }
    var totalSize := 6 + 16 * |images| + TotalLen(images);
    var bytes := new byte[totalSize](_ => 0);
    WriteHeader(bytes, |images|);
    WriteImages(bytes, images, sizes);
    SplitAt(bytes[..], 6 + 16 * |images|, HeaderAndDirectory(images, sizes, |images|), Flatten(images));
    return Ok(bytes[..]);
  }

  lemma FullPrefix(images: seq<seq<byte>>)
    ensures images[..|images|] == images
    ensures PayloadOffset(images, |images|) == 6 + 16 * |images| + TotalLen(images)
  {
    assert images[..|images|] == images;
  }

  /** Appending leaves a prefix of the first part unchanged. */
  lemma PrefixOfAppend(a: seq<byte>, b: seq<byte>, k: nat)
    requires k <= |a|
    ensures (a + b)[..k] == a[..k]
  {
  }

  /** The part after a prefix of known length. */
  lemma SuffixOfAppend(a: seq<byte>, b: seq<byte>)
    ensures (a + b)[|a|..] == b
  {
  }

  /** A sequence is its two halves. */
  lemma SplitAt(s: seq<byte>, k: nat, a: seq<byte>, b: seq<byte>)
    requires k <= |s|
    requires s[..k] == a && s[k..] == b
    ensures s == a + b
  {
    assert s == s[..k] + s[k..];
  }

  /** The eight field writes of one directory entry amount to writing
      `DirEntry` at the entry's position. */
  lemma EntryWrites(s: seq<byte>, k: nat, size: IcoSize, len: int, offset: int)
    requires k + 16 <= |s|
    ensures
      Overwrite(Overwrite(Overwrite(Overwrite(Overwrite(Overwrite(Overwrite(Overwrite(s,
        k, [DimByte(size.width)]), k + 1, [DimByte(size.height)]), k + 2, [0]), k + 3, [0]),
        k + 4, Le16(1)), k + 6, Le16(32)), k + 8, Le32(len)), k + 12, Le32(offset))
      == Overwrite(s, k, DirEntry(size, len, offset))
  {
    var f0, f1, f2, f3 := [DimByte(size.width)], [DimByte(size.height)], [0], [0];
    var f4, f5, f6, f7 := Le16(1), Le16(32), Le32(len), Le32(offset);
    OverwriteAdjacent(s, k, f0, f1);
    OverwriteAdjacent(s, k, f0 + f1, f2);
    OverwriteAdjacent(s, k, f0 + f1 + f2, f3);
    OverwriteAdjacent(s, k, f0 + f1 + f2 + f3, f4);
    OverwriteAdjacent(s, k, f0 + f1 + f2 + f3 + f4, f5);
    OverwriteAdjacent(s, k, f0 + f1 + f2 + f3 + f4 + f5, f6);
    OverwriteAdjacent(s, k, f0 + f1 + f2 + f3 + f4 + f5 + f6, f7);
  }

  // -----------------------------------------------------------------------
  // What the writer's output holds.

  lemma {:induction false} HeaderAndDirectoryPrefix(images: seq<seq<byte>>, sizes: seq<IcoSize>, i: nat, j: nat)
    requires i <= j <= |images| <= |sizes|
    ensures HeaderAndDirectory(images, sizes, j)[..6 + 16 * i] == HeaderAndDirectory(images, sizes, i)
    decreases j
  {
    if i < j {
      HeaderAndDirectoryPrefix(images, sizes, i, j - 1);
      PrefixOfAppend(HeaderAndDirectory(images, sizes, j - 1),
                     DirEntry(sizes[j - 1], |images[j - 1]|, PayloadOffset(images, j - 1)), 6 + 16 * i);
    }
  }

  /** The file is `6 + 16 * n` header-and-directory bytes and then every payload. */
  lemma IcoFileLength(images: seq<seq<byte>>, sizes: seq<IcoSize>)
    requires |images| <= |sizes|
    ensures |IcoFile(images, sizes)| == 6 + 16 * |images| + TotalLen(images)
  {
    FlattenLength(images);
  }

  /** Bytes 0-5 hold 0, 1 and the image count as little-endian 16-bit values. */
  lemma IcoFileHeader(images: seq<seq<byte>>, sizes: seq<IcoSize>)
    requires |images| <= |sizes|
    ensures |IcoFile(images, sizes)| >= 6
    ensures IcoFile(images, sizes)[..6] == Header(|images|)
    ensures U16At(IcoFile(images, sizes), 0) == 0
    ensures U16At(IcoFile(images, sizes), 2) == 1
    ensures U16At(IcoFile(images, sizes), 4) == |images| % 0x1_0000
  {
    var f := IcoFile(images, sizes);
    HeaderAndDirectoryPrefix(images, sizes, 0, |images|);
    assert f[..6] == Header(|images|);
    HeaderFields(|images|);
    ReadSlice16(f, 0, Header(|images|), 0);
    ReadSlice16(f, 0, Header(|images|), 2);
    ReadSlice16(f, 0, Header(|images|), 4);
  }

  lemma HeaderFields(count: int)
    ensures U16At(Header(count), 0) == 0
    ensures U16At(Header(count), 2) == 1
    ensures U16At(Header(count), 4) == count % 0x1_0000
  {
    var h := Header(count);
    Le16Reads(0);
    Le16Reads(1);
    Le16Reads(count);
    assert h[0..2] == Le16(0) && h[2..4] == Le16(1) && h[4..6] == Le16(count);
    ReadSlice16(h, 0, Le16(0), 0);
    ReadSlice16(h, 2, Le16(1), 0);
    ReadSlice16(h, 4, Le16(count), 0);
  }

  /** A 16-bit read inside a copied block reads the block. */
  lemma ReadSlice16(buf: seq<byte>, k: nat, block: seq<byte>, j: nat)
    requires k + |block| <= |buf| && buf[k..k + |block|] == block
    requires j + 2 <= |block|
    ensures U16At(buf, k + j) == U16At(block, j)
  {
    assert buf[k + j] == block[j] && buf[k + j + 1] == block[j + 1];
  }

  /** A 32-bit read inside a copied block reads the block. */
  lemma ReadSlice32(buf: seq<byte>, k: nat, block: seq<byte>, j: nat)
    requires k + |block| <= |buf| && buf[k..k + |block|] == block
    requires j + 4 <= |block|
    ensures U32At(buf, k + j) == U32At(block, j)
  {
    ReadSlice16(buf, k, block, j);
    ReadSlice16(buf, k, block, j + 2);
  }

  /** The fields of one directory entry: width and height bytes (256 stored
      as 0), colour count 0, reserved 0, planes 1, 32 bits per pixel, then the
      payload size and offset, both reduced modulo 2^32. */
  lemma DirEntryFields(size: IcoSize, len: int, offset: int)
    ensures DirEntry(size, len, offset)[0] == DimByte(size.width)
    ensures DirEntry(size, len, offset)[1] == DimByte(size.height)
    ensures DirEntry(size, len, offset)[2] == 0 && DirEntry(size, len, offset)[3] == 0
    ensures U16At(DirEntry(size, len, offset), 4) == 1
    ensures U16At(DirEntry(size, len, offset), 6) == 32
    ensures U32At(DirEntry(size, len, offset), 8) == len % 0x1_0000_0000
    ensures U32At(DirEntry(size, len, offset), 12) == offset % 0x1_0000_0000
  {
    var head := [DimByte(size.width)] + [DimByte(size.height)] + [0] + [0];
    var a := head + Le16(1);
    var b := a + Le16(32);
    var c := b + Le32(len);
    Le16Reads(1);
    Le16Reads(32);
    Le32Reads(len);
    Le32Reads(offset);
    ReadTail16(head, Le16(1));
    ReadTail16(a, Le16(32));
    ReadTail32(b, Le32(len));
    ReadTail32(c, Le32(offset));
    ReadHead16(a, Le16(32), 4);
    ReadHead16(b, Le32(len), 4);
    ReadHead16(c, Le32(offset), 4);
    ReadHead16(b, Le32(len), 6);
    ReadHead16(c, Le32(offset), 6);
    ReadHead32(c, Le32(offset), 8);
  }

  /** A 16-bit read right after `pre` reads the start of `block`. */
  lemma ReadTail16(pre: seq<byte>, block: seq<byte>)
    requires |block| >= 2
    ensures U16At(pre + block, |pre|) == U16At(block, 0)
  {
    assert (pre + block)[|pre|] == block[0] && (pre + block)[|pre| + 1] == block[1];
  }

  /** A 32-bit read right after `pre` reads the start of `block`. */
  lemma ReadTail32(pre: seq<byte>, block: seq<byte>)
    requires |block| >= 4
    ensures U32At(pre + block, |pre|) == U32At(block, 0)
  {
    ReadTail16(pre, block);
    ReadTail16(pre + block[..2], block[2..]);
    assert pre + block == pre + block[..2] + block[2..];
  }

  /** A 16-bit read inside `a` is not affected by what follows it. */
  lemma ReadHead16(a: seq<byte>, rest: seq<byte>, k: nat)
    requires k + 2 <= |a|
    ensures U16At(a + rest, k) == U16At(a, k)
  {
    assert (a + rest)[k] == a[k] && (a + rest)[k + 1] == a[k + 1];
  }

  /** A 32-bit read inside `a` is not affected by what follows it. */
  lemma ReadHead32(a: seq<byte>, rest: seq<byte>, k: nat)
    requires k + 4 <= |a|
    ensures U32At(a + rest, k) == U32At(a, k)
  {
    ReadHead16(a, rest, k);
    ReadHead16(a, rest, k + 2);
  }

  /** Entry `i` sits at `6 + 16 * i` and describes payload `i`. */
  lemma IcoFileEntry(images: seq<seq<byte>>, sizes: seq<IcoSize>, i: nat)
    requires |images| <= |sizes| && i < |images|
    ensures 6 + 16 * i + 16 <= |IcoFile(images, sizes)|
    ensures IcoFile(images, sizes)[6 + 16 * i..6 + 16 * i + 16]
            == DirEntry(sizes[i], |images[i]|, PayloadOffset(images, i))
  {
    var entry := DirEntry(sizes[i], |images[i]|, PayloadOffset(images, i));
    HeaderAndDirectoryPrefix(images, sizes, i + 1, |images|);
    BlockInPrefix(HeaderAndDirectory(images, sizes, |images|), Flatten(images),
                  HeaderAndDirectory(images, sizes, i), entry);
  }

  /** A block that a prefix of `a` ends with sits at the same place in
      `a + rest`. */
  lemma BlockInPrefix(a: seq<byte>, rest: seq<byte>, pre: seq<byte>, block: seq<byte>)
    requires |pre| + |block| <= |a| && a[..|pre| + |block|] == pre + block
    ensures (a + rest)[|pre|..|pre| + |block|] == block
  {
    forall k | 0 <= k < |block|
      ensures (a + rest)[|pre|..|pre| + |block|][k] == block[k]
    {
      assert (a + rest)[|pre| + k] == a[..|pre| + |block|][|pre| + k];
    }
  }

  /** Payloads are contiguous, in input order, right after the directory, and
      the last one ends the file. */
  lemma PayloadsContiguous(images: seq<seq<byte>>, sizes: seq<IcoSize>)
    requires |images| <= |sizes|
    ensures PayloadOffset(images, 0) == 6 + 16 * |images|
    ensures forall i :: 0 <= i < |images| ==>
              PayloadOffset(images, i + 1) == PayloadOffset(images, i) + |images[i]|
    ensures PayloadOffset(images, |images|) == |IcoFile(images, sizes)|
  {
    forall i | 0 <= i < |images|
      ensures PayloadOffset(images, i + 1) == PayloadOffset(images, i) + |images[i]|
    {
      FlattenSnoc(images, i);
    }
    FullPrefix(images);
    IcoFileLength(images, sizes);
  }

  /** Payload `i` is copied byte for byte at its offset, past the directory. */
  lemma IcoFilePayload(images: seq<seq<byte>>, sizes: seq<IcoSize>, i: nat)
    requires |images| <= |sizes| && i < |images|
    ensures 6 + 16 * |images| <= PayloadOffset(images, i)
    ensures PayloadOffset(images, i) + |images[i]| <= |IcoFile(images, sizes)|
    ensures IcoFile(images, sizes)[PayloadOffset(images, i)..PayloadOffset(images, i) + |images[i]|]
            == images[i]
  {
    var k := 6 + 16 * |images|;
    var f := IcoFile(images, sizes);
    var t := TotalLen(images[..i]);
    FlattenAt(images, i);
    assert f[k..] == Flatten(images);
    assert f[k + t..k + t + |images[i]|] == Flatten(images)[t..t + |images[i]|];
  }

  // -----------------------------------------------------------------------
  // The reader.

  /** `ArrayBuffer.prototype.slice(start, end)` for non-negative arguments:
      both ends are clamped to the buffer and an inverted range is empty. */
  function Slice(buf: seq<byte>, start: nat, end: nat): (r: seq<byte>)
    ensures end <= |buf| && start <= end ==> r == buf[start..end]
    ensures |buf| <= start ==> r == []
    ensures start <= |buf| <= end ==> r == buf[start..]
  {
    var s := if start < |buf| then start else |buf|;
    var e := if end < |buf| then end else |buf|;
    if e <= s then [] else buf[s..e]
  }

  /** The MIME type the blob is tagged with: `image/png` or `image/bmp`. */
  function FormatOf(d: seq<byte>): ImageFormat
  {
    if IsPng(d) then Png else Bmp
  }

  /** `[0x89, 0x50, 0x4E, 0x47].every((b, k) => new Uint8Array(d)[k] === b)`:
      a position past the end reads `undefined`, which matches no byte. */
  predicate IsPng(d: seq<byte>)
  {
    && 0 < |d| && d[0] == PngSignature[0]
    && 1 < |d| && d[1] == PngSignature[1]
    && 2 < |d| && d[2] == PngSignature[2]
    && 3 < |d| && d[3] == PngSignature[3]
  }

  /** The signature test accepts exactly the payloads that start with the four
      signature bytes; a shorter payload is never PNG. */
  lemma IsPngPrefix(d: seq<byte>)
    ensures IsPng(d) <==> |d| >= 4 && d[..4] == PngSignature
  {
    if IsPng(d) {
      assert d[..4] == PngSignature;
    }
  }

  /** Directory entry `i` of `buf` and the payload it points at. */
  function EntryAt(buf: seq<byte>, i: nat): IcoImage
    requires 6 + 16 * i + 16 <= |buf|
  {
    var data := EntryData(buf, 6 + 16 * i);
    IcoImage(data, FormatOf(data), DimOf(buf[6 + 16 * i]), DimOf(buf[6 + 16 * i + 1]))
  }

  /** `buffer.slice(imageOffset, imageOffset + imageSize)` for the entry at
      `entryOffset`. */
  function EntryData(buf: seq<byte>, entryOffset: nat): seq<byte>
    requires entryOffset + 16 <= |buf|
  {
    var imageSize := U32At(buf, entryOffset + 8);
    var imageOffset := U32At(buf, entryOffset + 12);
    Slice(buf, imageOffset, imageOffset + imageSize)
  }

  /** The first `n` directory entries, in directory order. */
  function Entries(buf: seq<byte>, n: nat): (r: seq<IcoImage>)
    requires 6 + 16 * n <= |buf|
    ensures |r| == n
  {
    if n == 0 then [] else Entries(buf, n - 1) + [EntryAt(buf, n - 1)]
  }

  lemma {:induction false} EntriesAt(buf: seq<byte>, n: nat, i: nat)
    requires 6 + 16 * n <= |buf| && i < n
    ensures Entries(buf, n)[i] == EntryAt(buf, i)
  {
    if i < n - 1 {
      EntriesAt(buf, n - 1, i);
    }
  }

  /** What `icoToImages` returns or throws for the bytes `buf`. Every header
      read happens before the reserved/type check, so a buffer shorter than
      the header fails with a range error whatever it holds. */
  function ReadIco(buf: seq<byte>): Result<seq<IcoImage>, IcoError>
  {
    if |buf| < 6 then Err(RangeError)
    else if U16At(buf, 0) != 0 || U16At(buf, 2) != 1 then Err(InvalidIcoFormat)
    else if |buf| < 6 + 16 * U16At(buf, 4) then Err(RangeError)
    else Ok(Entries(buf, U16At(buf, 4)))
  }

  /** One round of `icoToImages`'s loop: the entry's fields, its payload and
      the payload's signature test. */
  method ReadEntry(buf: seq<byte>, i: nat) returns (image: IcoImage)
    requires 6 + 16 * i + 16 <= |buf|
    ensures image == EntryAt(buf, i)
  {
    var entryOffset := 6 + 16 * i;
    var width := DimOf(buf[entryOffset]);             // getUint8(entryOffset) || 256
    var height := DimOf(buf[entryOffset + 1]);
    var imageSize := U32At(buf, entryOffset + 8);
    var imageOffset := U32At(buf, entryOffset + 12);
    var imageData := Slice(buf, imageOffset, imageOffset + imageSize);
    var format := FormatOf(imageData);           // isPNG ? 'image/png' : 'image/bmp'
    image := IcoImage(imageData, format, width, height);
  }

  /** `icoToImages`: validate the header, then read `count` entries in order. */
  method IcoToImages(buf: seq<byte>) returns (r: Result<seq<IcoImage>, IcoError>)
    ensures r == ReadIco(buf)
  {
    // `getUint16` at 0, 2 and 4 throws a RangeError past the end.
    if |buf| < 6 {
      return Err(RangeError);
    }
    var reserved := U16At(buf, 0);
    var typ := U16At(buf, 2);
    var count := U16At(buf, 4);
    if reserved != 0 || typ != 1 {
      return Err(InvalidIcoFormat);
    }
    var images: seq<IcoImage> := [];
    var i := 0;
    while i < count
      invariant 0 <= i <= count
      invariant 6 + 16 * i <= |buf|
      invariant images == Entries(buf, i)
    {
      var entryOffset := 6 + 16 * i;
      // The last of the entry's reads, `getUint32(entryOffset + 12)`, needs
      // 16 bytes from `entryOffset`; every one of them throws a RangeError.
      if |buf| < entryOffset + 16 {
        return Err(RangeError);
      }
      var image := ReadEntry(buf, i);
      images := images + [image];
      i := i + 1;
    }
    return Ok(images);
  }

  /** A header whose reserved field is not 0 or whose type is not 1 (a cursor
      file has type 2) is refused once the header is readable. */
  lemma ReadIcoRejectsHeader(buf: seq<byte>)
    requires |buf| >= 6
    ensures ReadIco(buf) == Err(InvalidIcoFormat) <==> U16At(buf, 0) != 0 || U16At(buf, 2) != 1
  {
  }

  /** A range error happens exactly when the buffer is shorter than the header,
      or shorter than the directory of a valid header. */
  lemma ReadIcoRangeError(buf: seq<byte>)
    ensures ReadIco(buf) == Err(RangeError) <==>
              |buf| < 6 || (U16At(buf, 0) == 0 && U16At(buf, 2) == 1 && |buf| < 6 + 16 * U16At(buf, 4))
  {
  }

  /** A successful read has one entry per directory slot, in directory order:
      dimensions read with 0 as 256 and the payload slice clamped to the end. */
  lemma ReadIcoEntries(buf: seq<byte>, i: nat)
    requires ReadIco(buf).Ok? && i < |ReadIco(buf).value|
    ensures |ReadIco(buf).value| == U16At(buf, 4)
    ensures 6 + 16 * i + 16 <= |buf|
    ensures ReadIco(buf).value[i].width == DimOf(buf[6 + 16 * i])
    ensures ReadIco(buf).value[i].height == DimOf(buf[6 + 16 * i + 1])
    ensures ReadIco(buf).value[i].data
            == Slice(buf, U32At(buf, 6 + 16 * i + 12), U32At(buf, 6 + 16 * i + 12) + U32At(buf, 6 + 16 * i + 8))
    ensures ReadIco(buf).value[i].format == (if IsPng(ReadIco(buf).value[i].data) then Png else Bmp)
  {
    EntriesAt(buf, U16At(buf, 4), i);
  }

  /** A valid header and a complete directory read as the directory's entries. */
  lemma ReadIcoValid(buf: seq<byte>)
    requires |buf| >= 6 && U16At(buf, 0) == 0 && U16At(buf, 2) == 1
    requires 6 + 16 * U16At(buf, 4) <= |buf|
    ensures ReadIco(buf) == Ok(Entries(buf, U16At(buf, 4)))
  {
  }

  /** A valid header with a count of zero reads as no images. */
  lemma ReadIcoEmpty(buf: seq<byte>)
    requires |buf| >= 6 && U16At(buf, 0) == 0 && U16At(buf, 2) == 1 && U16At(buf, 4) == 0
    ensures ReadIco(buf) == Ok([])
  {
  }

  // -----------------------------------------------------------------------
  // Reading back what the writer wrote.

  lemma ModSmall(x: int, m: int)
    requires 0 <= x < m
    ensures x % m == x
  {
  }

  /** A payload is no longer than all payloads together. */
  lemma PayloadWithinTotal(images: seq<seq<byte>>, i: nat)
    requires i < |images|
    ensures TotalLen(images[..i]) + |images[i]| <= TotalLen(images)
  {
    FlattenSnoc(images, i);
    TotalLenPrefix(images, i + 1);
  }

  /** A directory entry copied into a buffer reads back its dimension bytes
      and, when they fit in 32 bits, its size and offset unreduced. */
  lemma EntryRead(f: seq<byte>, k: nat, size: IcoSize, len: nat, off: nat)
    requires k + 16 <= |f| && f[k..k + 16] == DirEntry(size, len, off)
    requires len < 0x1_0000_0000 && off < 0x1_0000_0000
    ensures U32At(f, k + 8) == len
    ensures U32At(f, k + 12) == off
    ensures f[k] == DimByte(size.width) && f[k + 1] == DimByte(size.height)
  {
    var e := DirEntry(size, len, off);
    DirEntryFields(size, len, off);
    ReadSlice32(f, k, e, 8);
    ReadSlice32(f, k, e, 12);
    ModSmall(len, 0x1_0000_0000);
    ModSmall(off, 0x1_0000_0000);
    assert f[k] == e[0] && f[k + 1] == e[1];
  }

  /** Entry `i` of a buffer whose size and offset fields point at `data`
      reads back as `data` with the stored dimensions, 0 read as 256. */
  lemma ReadBackEntry(f: seq<byte>, i: nat, size: IcoSize, data: seq<byte>, off: nat)
    requires 6 + 16 * i + 16 <= |f|
    requires U32At(f, 6 + 16 * i + 8) == |data| && U32At(f, 6 + 16 * i + 12) == off
    requires f[6 + 16 * i] == DimByte(size.width) && f[6 + 16 * i + 1] == DimByte(size.height)
    requires off + |data| <= |f| && f[off..off + |data|] == data
    requires 1 <= size.width <= 256 && 1 <= size.height <= 256
    ensures EntryAt(f, i) == IcoImage(data, FormatOf(data), size.width, size.height)
  {
    DimRoundTrip(size.width);
    DimRoundTrip(size.height);
    assert EntryData(f, 6 + 16 * i) == data;
  }

  /** Entry `i` of a written file reads back as payload `i` with its size,
      when the size is in 1..256 and the file is shorter than 4 GiB. */
  lemma RoundTripEntry(images: seq<seq<byte>>, sizes: seq<IcoSize>, i: nat)
    requires |images| <= |sizes| && i < |images|
    requires 6 + 16 * |images| + TotalLen(images) < 0x1_0000_0000
    requires 1 <= sizes[i].width <= 256 && 1 <= sizes[i].height <= 256
    ensures 6 + 16 * i + 16 <= |IcoFile(images, sizes)|
    ensures EntryAt(IcoFile(images, sizes), i)
            == IcoImage(images[i], FormatOf(images[i]), sizes[i].width, sizes[i].height)
  {
    var f := IcoFile(images, sizes);
    var k, off, len := 6 + 16 * i, PayloadOffset(images, i), |images[i]|;
    IcoFileLength(images, sizes);
    IcoFilePayload(images, sizes, i);
    assert U32At(f, k + 8) == len && U32At(f, k + 12) == off
        && f[k] == DimByte(sizes[i].width) && f[k + 1] == DimByte(sizes[i].height) by {
      IcoFileEntry(images, sizes, i);
      EntryRead(f, k, sizes[i], len, off);
    }
    ReadBackEntry(f, i, sizes[i], images[i], off);
  }

  /** Reading what `buildICOFile` wrote gives back the payloads with their
      sizes, in order, when there are fewer than 65536 images, the file is
      shorter than 4 GiB and every dimension is in 1..256. */
  lemma RoundTrip(images: seq<seq<byte>>, sizes: seq<IcoSize>)
    requires |images| <= |sizes|
    requires |images| < 0x1_0000
    requires 6 + 16 * |images| + TotalLen(images) < 0x1_0000_0000
    requires forall i :: 0 <= i < |images| ==>
               1 <= sizes[i].width <= 256 && 1 <= sizes[i].height <= 256
    ensures ReadIco(IcoFile(images, sizes)).Ok?
    ensures |ReadIco(IcoFile(images, sizes)).value| == |images|
    ensures forall i :: 0 <= i < |images| ==>
              ReadIco(IcoFile(images, sizes)).value[i]
              == IcoImage(images[i], FormatOf(images[i]), sizes[i].width, sizes[i].height)
  {
    var f := IcoFile(images, sizes);
    var n := |images|;
    IcoFileHeader(images, sizes);
    IcoFileLength(images, sizes);
    ModSmall(n, 0x1_0000);
    ReadIcoValid(f);
    forall i | 0 <= i < n
      ensures Entries(f, n)[i] == IcoImage(images[i], FormatOf(images[i]), sizes[i].width, sizes[i].height)
    {
      EntriesAt(f, n, i);
      RoundTripEntry(images, sizes, i);
    }
  }

  // -----------------------------------------------------------------------
  // icoToPNG.

  /** A PNG payload is handed back as it is; a BMP one is redrawn through a
      canvas, which is not part of this model. */
  datatype PngBlob = Unchanged(data: seq<byte>) | RedrawnFromBmp(source: IcoImage)

  /** `images[sizeIndex] || images[0]`: an index that picks no image falls
      back to the first one. */
  function Selected(images: seq<IcoImage>, sizeIndex: int): (image: IcoImage)
    requires |images| > 0
    ensures image in images
    ensures 0 <= sizeIndex < |images| ==> image == images[sizeIndex]
    ensures !(0 <= sizeIndex < |images|) ==> image == images[0]
  {
    if 0 <= sizeIndex < |images| then images[sizeIndex] else images[0]
  }

  /** `icoToPNG`: the images of the file, the selected one, and the PNG
      blob for it. */
  method IcoToPng(buf: seq<byte>, sizeIndex: int) returns (r: Result<PngBlob, IcoError>)
    ensures ReadIco(buf).Err? ==> r == Err(ReadIco(buf).error)
    ensures r == Err(NoImagesFound) <==> ReadIco(buf) == Ok([])
    ensures ReadIco(buf).Ok? && |ReadIco(buf).value| > 0 ==>
              var image := Selected(ReadIco(buf).value, sizeIndex);
              r == Ok(if image.format == Png then Unchanged(image.data) else RedrawnFromBmp(image))
  {
    var images := IcoToImages(buf);
    if images.Err? {
      return Err(images.error);
    }
    if |images.value| == 0 {
      return Err(NoImagesFound);
    }
    var image := Selected(images.value, sizeIndex);
    if image.format == Png {
      return Ok(Unchanged(image.data));
    }
    return Ok(RedrawnFromBmp(image));
  }
}
