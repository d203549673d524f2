/** The header-reading layer of a BMP image held in memory as the bytes of
    the whole file: the 14-byte file header (Microsoft's BITMAPFILEHEADER),
    the accessors derived from it, and the dispatch on the size field that
    opens the DIB header. */
module Bmp {
  import opened Bytes

  /** Length of the file header, and the end of the DIB header's size field
      that follows it. */
  const FileHeaderLength: nat := 14
  const DibSizeEnd: nat := 18

  /** The file header as the library reads it: the signature and the two
      reserved fields stay raw 2-byte sequences, and the pixel-data offset
      is held in 16 bits although the file stores it in 32. */
  datatype FileHeader = FileHeader(
    bfType: seq<u8>,
    bfSize: u32,
    bfReserved1: seq<u8>,
    bfReserved2: seq<u8>,
    bfOffBits: u16)
  {
    predicate WellFormed() {
      |bfType| == 2 && |bfReserved1| == 2 && |bfReserved2| == 2
    }
  }

  /** Reference serialization of a file header in the on-disk layout:
      signature, 32-bit size, two reserved fields, 32-bit offset, all
      little-endian. */
  function EncodeFileHeader(h: FileHeader): (bytes: seq<u8>)
    requires h.WellFormed()
    ensures |bytes| == FileHeaderLength
    ensures bytes[..2] == h.bfType
    ensures FromLittleEndian(bytes[2..6]) == h.bfSize
    ensures bytes[6..8] == h.bfReserved1 && bytes[8..10] == h.bfReserved2
    ensures FromLittleEndian(bytes[10..14]) == h.bfOffBits
  {
    Pow256Values();
    var size, offset := ToLittleEndian(h.bfSize, 4), ToLittleEndian(h.bfOffBits, 4);
    var bytes := h.bfType + size + h.bfReserved1 + h.bfReserved2 + offset;
    assert bytes[2..6] == size && bytes[10..14] == offset;
    bytes
  }

  /** The four DIB header layouts, told apart by the header's declared size,
      and the outcome for any other size. */
  datatype DibHeaderKind =
    | BitmapCoreHeader
    | BitmapInfoHeader
    | BitmapV4Header
    | BitmapV5Header
    | Invalid
  {
    /** The size in bytes that a header of this layout declares. */
    function DeclaredSize(): u32
      requires !Invalid?
    {
      match this
      case BitmapCoreHeader => 12
      case BitmapInfoHeader => 40
      case BitmapV4Header => 108
      case BitmapV5Header => 124
    }
  }

  /** An image: the bytes of the whole file, and whether they were read
      from a file. */
  datatype BMP = BMP(contents: seq<u8>, fromFile: bool)
  {
    /** Whole kilobytes (of 1024 bytes) in a byte count, rounded down. */
    static function NumBytesToKilobytes(bytes: u32): (kb: u32)
      ensures 1024 * kb <= bytes < 1024 * (kb + 1)
    {
      bytes / 1024
    }

    /** The first 14 bytes of the file; the file must be at least that long. */
    function GetHeaderBytes(): (bytes: seq<u8>)
      requires |contents| >= FileHeaderLength
      ensures |bytes| == FileHeaderLength
      ensures contents == bytes + contents[FileHeaderLength..]
    {
      contents[..FileHeaderLength]
    }

    /** The file header decoded from the first 14 bytes. */
    function GetHeader(): (h: FileHeader)
      requires |contents| >= FileHeaderLength
      ensures h.WellFormed()
      ensures h.bfType == contents[..2]
      ensures h.bfReserved1 == contents[6..8] && h.bfReserved2 == contents[8..10]
      ensures h.bfSize == FromLittleEndian(contents[2..6])
      ensures h.bfOffBits == FromLittleEndian(contents[10..12])
    {
      var hb := GetHeaderBytes();
      assert hb[2..6] == contents[2..6] && hb[10..14][..2] == contents[10..12];
      AsU16KeepsLowBytes(hb[10..14]);
      FileHeader(
        hb[..2],
        BytesToInt(hb[2..6]),
        hb[6..8],
        hb[8..10],
        AsU16(BytesToInt(hb[10..14])))
    }

    /** The offset of the pixel data, as the file header records it. */
    function GetOffset(): (offset: u16)
      requires |contents| >= FileHeaderLength
      ensures offset == contents[10] as int + 0x100 * contents[11] as int
      ensures offset <= BytesToInt(contents[10..14])
    {
      var h := GetHeader();
      assert contents[10..12][1..][1..] == [];
      AsU16KeepsLowBytes(contents[10..14]);
      assert contents[10..14][..2] == contents[10..12];
      h.bfOffBits
    }

    /** The file size in bytes: the size the header declares, or the length
        of the buffer, which must then fit in 32 bits. */
    function GetSize(useHeader: bool): (size: u32)
      requires useHeader ==> |contents| >= FileHeaderLength
      requires !useHeader ==> |contents| < 0x1_0000_0000
      ensures useHeader ==> size == FromLittleEndian(contents[2..6])
      ensures !useHeader ==> size == |contents|
    {
      if useHeader then GetHeader().bfSize else |contents|
    }

    /** The DIB header layout named by the 32-bit size field at bytes
        [14, 18). */
    function GetDibHeader(): (kind: DibHeaderKind)
      requires |contents| >= DibSizeEnd
      ensures kind.Invalid? <==> FromLittleEndian(contents[14..18]) !in {12, 40, 108, 124}
      ensures !kind.Invalid? ==> FromLittleEndian(contents[14..18]) == kind.DeclaredSize()
    {
      match BytesToInt(contents[14..18])
      case 12 => BitmapCoreHeader
      case 40 => BitmapInfoHeader
      case 108 => BitmapV4Header
      case 124 => BitmapV5Header
      case _ => Invalid
    }
  }

  /** The kilobyte count is the byte count divided by 1024, rounded down. */
  lemma KilobytesIsFloorDivision(bytes: u32)
    ensures BMP.NumBytesToKilobytes(bytes) == bytes / 1024
  {
  }

  /** Re-encoding the decoded header reproduces the first 12 bytes and
      zeroes the two high bytes of the offset field; so the decoding is
      lossless exactly when those two bytes are zero. */
  lemma HeaderReencodes(b: BMP)
    requires |b.contents| >= FileHeaderLength
    ensures EncodeFileHeader(b.GetHeader()) == b.contents[..12] + [0, 0]
    ensures EncodeFileHeader(b.GetHeader()) == b.contents[..FileHeaderLength]
        <==> b.contents[12] == 0 && b.contents[13] == 0
  {
    var c, h := b.contents, b.GetHeader();
    var e := EncodeFileHeader(h);
    Pow256Values();
    LittleEndianRoundTrip(c[2..6]);
    assert e[2..6] == c[2..6] by {
      LittleEndianRoundTrip(e[2..6]);
    }
    ZeroExtension(c[10..12]);
    assert e[10..14] == c[10..12] + [0, 0] by {
      LittleEndianInjective(e[10..14], c[10..12] + [0, 0]);
    }
    assert e == e[..2] + e[2..6] + e[6..8] + e[8..10] + e[10..14];
    assert c[..12] + [0, 0] == c[..2] + c[2..6] + c[6..8] + c[8..10] + (c[10..12] + [0, 0]);
    if c[12] == 0 && c[13] == 0 {
      assert c[..FileHeaderLength] == c[..12] + [0, 0];
    }
    if e == c[..FileHeaderLength] {
      assert c[12] == e[12] && c[13] == e[13];
    }
  }

  /** Decoding an encoded header, followed by anything, gives the header back. */
  lemma HeaderRoundTrip(h: FileHeader, rest: seq<u8>, fromFile: bool)
    requires h.WellFormed()
    ensures BMP(EncodeFileHeader(h) + rest, fromFile).GetHeader() == h
  {
  }

  /** The file header depends on the first 14 bytes and on nothing else. */
  lemma HeaderReadsOnlyFirstBytes(a: BMP, b: BMP)
    requires |a.contents| >= FileHeaderLength && |b.contents| >= FileHeaderLength
    requires a.contents[..FileHeaderLength] == b.contents[..FileHeaderLength]
    ensures a.GetHeader() == b.GetHeader()
  {
  }

  /** Which bytes feed which field of the file header. */
  lemma HeaderFieldRanges(b: BMP)
    requires |b.contents| >= FileHeaderLength
    ensures b.GetHeader().bfType == b.contents[..2]
    ensures b.GetHeader().bfSize == BytesToInt(b.contents[2..6])
    ensures b.GetHeader().bfReserved1 == b.contents[6..8]
    ensures b.GetHeader().bfReserved2 == b.contents[8..10]
    ensures b.GetHeader().bfOffBits == BytesToInt(b.contents[10..14]) % 0x1_0000
  {
  }

  /** The offset accessor and the header agree. */
  lemma OffsetIsHeaderField(b: BMP)
    requires |b.contents| >= FileHeaderLength
    ensures b.GetOffset() == b.GetHeader().bfOffBits
    ensures b.GetOffset() < 0x1_0000
  {
  }

  /** For a file whose first 14 bytes encode h, the declared size is h's. */
  lemma DeclaredSizeOfEncodedHeader(h: FileHeader, rest: seq<u8>, fromFile: bool)
    requires h.WellFormed()
    ensures BMP(EncodeFileHeader(h) + rest, fromFile).GetSize(true) == h.bfSize
  {
  }

  /** The DIB dispatch table, one row per recognised size. */
  lemma DibDispatchTable(b: BMP)
    requires |b.contents| >= DibSizeEnd
    ensures BytesToInt(b.contents[14..18]) == 12 ==> b.GetDibHeader() == BitmapCoreHeader
    ensures BytesToInt(b.contents[14..18]) == 40 ==> b.GetDibHeader() == BitmapInfoHeader
    ensures BytesToInt(b.contents[14..18]) == 108 ==> b.GetDibHeader() == BitmapV4Header
    ensures BytesToInt(b.contents[14..18]) == 124 ==> b.GetDibHeader() == BitmapV5Header
    ensures BytesToInt(b.contents[14..18]) !in {12, 40, 108, 124} ==> b.GetDibHeader() == Invalid
  {
  }

  /** A file whose bytes [14, 18) encode a layout's declared size is
      dispatched to that layout. */
  lemma DibDispatchRoundTrip(kind: DibHeaderKind, contents: seq<u8>, fromFile: bool)
    requires !kind.Invalid?
    requires |contents| >= DibSizeEnd
    requires contents[14..18] == ToLittleEndian(kind.DeclaredSize(), 4)
    ensures BMP(contents, fromFile).GetDibHeader() == kind
  {
  }

  /** The DIB dispatch depends on bytes [14, 18) and on nothing else. */
  lemma DibReadsOnlySizeField(a: BMP, b: BMP)
    requires |a.contents| >= DibSizeEnd && |b.contents| >= DibSizeEnd
    requires a.contents[14..18] == b.contents[14..18]
    ensures a.GetDibHeader() == b.GetDibHeader()
  {
  }
}
