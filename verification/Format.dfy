/** The parsed archive of internal/format/types.go, as far as the modelled code reads or
    writes it.  Go strings are Dafny strings with one character per byte. */
module Format {
  import opened Bytes

  datatype ChecksumType =
    | ChecksumNone
    | ChecksumAdler32
    | ChecksumCRC32
    | ChecksumMD5
    | ChecksumSHA1
    | ChecksumSHA256
    | ChecksumPBKDF2SHA256XChaCha20

  datatype Checksum = Checksum(kind: ChecksumType, data: bytes)

  const NO_CHECKSUM := Checksum(ChecksumNone, [])

  datatype Compression = Stored | Zlib | BZip2 | LZMA1 | LZMA2 | UnknownCompression

  datatype Encryption = Plaintext | ARC4MD5 | ARC4SHA1 | XChaCha20

  datatype FileFilter = NoFilter | Instruction4108 | Instruction5200 | Instruction5309 | ZlibFilter

  datatype Chunk = Chunk(
    firstSlice: uint32, lastSlice: uint32, sortOffset: uint64, offset: uint64, size: uint64,
    compression: Compression, encryption: Encryption)

  datatype StoredFile = StoredFile(offset: uint64, size: uint64, checksum: Checksum, filter: FileFilter)

  datatype DataEntry = DataEntry(chunk: Chunk, file: StoredFile, uncompressedSize: uint64)

  datatype FileEntry = FileEntry(
    destination: string, languages: string, components: string, check: string,
    beforeInstall: string, afterInstall: string,
    location: uint32, additionalLocations: seq<uint32>, size: uint64, checksum: Checksum,
    bits32: bool, bits64: bool)

  datatype Language = Language(name: string, displayName: string, id: uint32, codepage: uint32)

  datatype RegistryEntry = RegistryEntry(key: string, name: string, value: string)
}
