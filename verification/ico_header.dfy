/**
 * The Windows ICO container `CreateIconFromBitmap` builds around a PNG image: a 6-byte
 * ICONDIR (reserved 0, type 1 = icon, one image), one 16-byte ICONDIRENTRY, then the
 * PNG bytes. Every multi-byte field is little-endian, as `BitConverter.GetBytes` writes
 * it on the little-endian machines Windows Forms runs on. The PNG encoding itself is
 * not modelled: its bytes are an input.
 */
module IcoHeader {
  import opened Wrappers

  /** An 8-bit unsigned value. */
  newtype byte = x: int | 0 <= x < 0x100

  /** The size of the ICONDIR header. */
  const IconDirSize: nat := 6

  /** The size of one ICONDIRENTRY. */
  const IconDirEntrySize: nat := 16

  /** Where the image data starts: right after the header and the single entry. */
  const ImageOffset: nat := 22

  /** `BitConverter.GetBytes((short)x)` for a value that fits: low byte first. */
  function Bytes16(x: nat): seq<byte>
    requires x < 0x1_0000
  {
    [(x % 0x100) as byte, (x / 0x100) as byte]
  }

  /** `BitConverter.GetBytes(x)` for a non-negative `int`: least significant byte first. */
  function Bytes32(x: nat): seq<byte>
    requires x < 0x1_0000_0000
  {
    [(x % 0x100) as byte, (x / 0x100 % 0x100) as byte,
     (x / 0x1_0000 % 0x100) as byte, (x / 0x100_0000) as byte]
  }

  /** The little-endian 16-bit value stored at `i`. */
  function Read16(b: seq<byte>, i: nat): nat
    requires i + 2 <= |b|
  {
    b[i] as nat + 0x100 * b[i + 1] as nat
  }

  /** The little-endian 32-bit value stored at `i`. */
  function Read32(b: seq<byte>, i: nat): nat
    requires i + 4 <= |b|
  {
    b[i] as nat + 0x100 * b[i + 1] as nat + 0x1_0000 * b[i + 2] as nat + 0x100_0000 * b[i + 3] as nat
  }

  /** Reading back a written 16-bit value gives the value. */
  lemma Read16Bytes16(x: nat)
    requires x < 0x1_0000
    ensures Read16(Bytes16(x), 0) == x
  {
  }

  /** Reading back a written 32-bit value gives the value. */
  lemma Read32Bytes32(x: nat)
    requires x < 0x1_0000_0000
    ensures Read32(Bytes32(x), 0) == x
  {
    var b := Bytes32(x);
    assert b[0] as nat == x % 0x100;
    assert b[1] as nat == x / 0x100 % 0x100;
    assert b[2] as nat == x / 0x1_0000 % 0x100;
    assert b[3] as nat == x / 0x100_0000;
    assert x / 0x100 == x / 0x100 % 0x100 + 0x100 * (x / 0x1_0000);
    assert x / 0x1_0000 == x / 0x1_0000 % 0x100 + 0x100 * (x / 0x100_0000);
  }

  /** Writing the 16-bit value stored in two bytes gives those bytes. */
  lemma Bytes16Read16(b: seq<byte>, i: nat)
    requires i + 2 <= |b|
    ensures Read16(b, i) < 0x1_0000 && Bytes16(Read16(b, i)) == b[i..i + 2]
  {
  }

  /**
   * The byte a width or height is stored in: the value itself below 256, and 0 (which
   * readers take as 256) from 256 on.
   */
  function DimensionByte(d: nat): byte {
    if d >= 256 then 0 else d as byte
  }

  /** The dimension an ICO reader takes a stored byte to mean: 0 stands for 256. */
  function DimensionOf(b: byte): nat {
    if b == 0 then 256 else b as nat
  }

  /**
   * A dimension survives being stored exactly when it is between 1 and 256: a larger
   * one is read back as 256, and 0 too is read back as 256.
   */
  lemma DimensionRoundTrip(d: nat)
    ensures DimensionOf(DimensionByte(d)) == d <==> 1 <= d <= 256
  {
  }

  /**
   * The bytes of the icon `CreateIconFromBitmap` hands to `new Icon(stream)` for a
   * bitmap of the given size whose PNG encoding is `png`. A .NET array is shorter than
   * 2^31, so its length fits the 32-bit size field.
   */
  function CreateIcon(width: nat, height: nat, png: seq<byte>): seq<byte>
    requires |png| < 0x8000_0000
  {
    Bytes16(0) + Bytes16(1) + Bytes16(1)
    + [DimensionByte(width), DimensionByte(height), 0, 0]
    + Bytes16(0) + Bytes16(32)
    + Bytes32(|png|) + Bytes32(ImageOffset)
    + png
  }

  /** The fields of an ICONDIRENTRY. */
  datatype IconDirEntry = IconDirEntry(
    width: byte,
    height: byte,
    colorCount: byte,
    reserved: byte,
    planes: nat,
    bitCount: nat,
    bytesInRes: nat,
    imageOffset: nat)

  /** The fields of the ICONDIR, its first entry, and the image data that entry points to. */
  datatype IconFile = IconFile(
    reserved: nat,
    imageType: nat,
    imageCount: nat,
    entry: IconDirEntry,
    image: seq<byte>)

  /**
   * A reader of the ICO layout: the header and first entry, and the image the entry
   * points to; `None` when the bytes are too short or the entry points past the end.
   */
  function ParseIcon(b: seq<byte>): Option<IconFile> {
    if |b| < IconDirSize + IconDirEntrySize then None
    else
      var e := IconDirEntry(b[6], b[7], b[8], b[9], Read16(b, 10), Read16(b, 12), Read32(b, 14), Read32(b, 18));
      if e.imageOffset + e.bytesInRes > |b| then None
      else Some(IconFile(Read16(b, 0), Read16(b, 2), Read16(b, 4), e,
                         b[e.imageOffset..e.imageOffset + e.bytesInRes]))
  }

  /** The icon is the 22 header bytes followed by the PNG bytes, unchanged. */
  lemma CreateIconLayout(width: nat, height: nat, png: seq<byte>)
    requires |png| < 0x8000_0000
    ensures |CreateIcon(width, height, png)| == IconDirSize + IconDirEntrySize + |png|
    ensures CreateIcon(width, height, png)[ImageOffset..] == png
  {
  }

  /**
   * Reading the icon back finds one icon image with the stored width and height, no
   * palette, 0 planes, 32 bits per pixel, the PNG's length as its size, offset 22, and
   * the PNG bytes as its data.
   */
  lemma ParseCreateIcon(width: nat, height: nat, png: seq<byte>)
    requires |png| < 0x8000_0000
    ensures ParseIcon(CreateIcon(width, height, png)) == Some(IconFile(
      0, 1, 1,
      IconDirEntry(DimensionByte(width), DimensionByte(height), 0, 0, 0, 32, |png|, ImageOffset),
      png))
  {
    var b := CreateIcon(width, height, png);
    CreateIconLayout(width, height, png);
    var header := b[..ImageOffset];
    assert forall i :: 0 <= i < ImageOffset ==> b[i] == header[i];
    Read32Bytes32(|png|);
    Read32Bytes32(ImageOffset);
    assert header[14..18] == Bytes32(|png|);
    assert header[18..22] == Bytes32(ImageOffset);
    assert Read32(b, 14) == Read32(Bytes32(|png|), 0);
    assert Read32(b, 18) == Read32(Bytes32(ImageOffset), 0);
    assert b[ImageOffset..ImageOffset + |png|] == png;
  }
}
