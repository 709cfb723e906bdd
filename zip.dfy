/** The ZIP archive at the level of entry records. The byte layout of
    local headers, the central directory and DEFLATE are not modelled:
    an archive is the sequence of entries in the order they were put. */
module Zip {
  import opened Results

  newtype byte = b: int | 0 <= b < 256

  /** Compression methods of PKWARE APPNOTE section 4.4.5. */
  datatype CompressionMethod = Stored | Deflated {
    function Code(): (c: nat)
      ensures Stored? <==> c == 0
    {
      if Stored? then 0 else 8
    }
  }

  /** One archive entry: its name, its compression method, the size and
      CRC-32 declared on the entry before its data is written (None when
      the writer left them for the stream to compute), and its data.
      An entry whose compression method was never set takes the stream's default,
      `Deflated`. */
  datatype ZipEntry = ZipEntry(
    name: string,
    compression: CompressionMethod,
    declaredSize: Option<nat>,
    declaredCrc: Option<nat>,
    content: seq<byte>)

  /** A fresh `new ZipEntry(name)`: default method, nothing declared. */
  function NewEntry(name: string, content: seq<byte>): ZipEntry
  {
    ZipEntry(name, Deflated, None, None, content)
  }

  /** The encoding of 7-bit text in every ASCII-compatible charset: each
      character becomes the single byte with the same code. */
  predicate IsAscii(s: string)
  {
    forall i | 0 <= i < |s| :: s[i] as int < 128
  }

  function EncodeAscii(s: string): seq<byte>
    requires IsAscii(s)
  {
    seq(|s|, i requires 0 <= i < |s| => s[i] as int as byte)
  }

  // CRC-32 as java.util.zip.CRC32 computes it: the reflected form of the
  // polynomial 0x04C11DB7, register preset to all ones, result inverted
  // (the checksum of PKWARE APPNOTE section 4.4.7).

  const CrcPolynomial: bv32 := 0xEDB8_8320

  /** One round of the shift-and-xor division step. */
  function CrcStep(c: bv32): bv32
  {
    if c & 1 == 1 then (c >> 1) ^ CrcPolynomial else c >> 1
  }

  /** The register after one more byte: eight rounds, one per bit, low
      bit first. */
  function CrcByte(register: bv32, b: byte): bv32
  {
    var c := register ^ (b as int as bv32);
    CrcStep(CrcStep(CrcStep(CrcStep(CrcStep(CrcStep(CrcStep(CrcStep(c))))))))
  }

  /** The register after feeding `data` into it, one byte at a time. */
  function CrcUpdate(register: bv32, data: seq<byte>): bv32
    decreases |data|
  {
    if data == [] then register
    else CrcUpdate(CrcByte(register, data[0]), data[1..])
  }

  function Crc32(data: seq<byte>): bv32
  {
    CrcUpdate(0xFFFF_FFFF, data) ^ 0xFFFF_FFFF
  }

  /** The declared header fields agree with the data: this is what
      ZipOutputStream checks before it accepts a STORED entry (both
      fields must be declared) and when it closes any entry whose fields
      were declared (APPNOTE sections 4.4.7 and 4.4.9). */
  predicate HeaderMatchesContent(e: ZipEntry)
  {
    && (e.compression == Stored ==> e.declaredSize.Some? && e.declaredCrc.Some?)
    && (e.declaredSize.Some? ==> e.declaredSize.value == |e.content|)
    && (e.declaredCrc.Some? ==> e.declaredCrc.value == Crc32(e.content) as nat)
  }

  /** The output stream, reduced to the list of entries it has been given. */
  class ZipOutput {
    var entries: seq<ZipEntry>

    constructor ()
      ensures entries == []
    {
      entries := [];
    }

    /** `putNextEntry` followed by writing the entry's data. */
    method PutEntry(e: ZipEntry)
      modifies this
      ensures entries == old(entries) + [e]
    {
      entries := entries + [e];
    }
  }
}
