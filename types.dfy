/** Value types of the manifest (src/meta/meta.go): Go's fixed-width integers,
    bytes, the lifecycle status and one block of a resource. */
module MetaTypes {

  /** Go's `byte`. */
  type byte = x: int | 0 <= x < 0x100

  /** Go's `int32`, used for `Info.Encode` and `Info.Type`. */
  newtype int32 = x: int | -0x8000_0000 <= x < 0x8000_0000

  /** Go's `int64`, used for sizes and block indices. */
  newtype int64 = x: int | -0x8000_0000_0000_0000 <= x < 0x8000_0000_0000_0000

  /** Lifecycle stage of a manifest (`Create`, `Uploading`, `Finish`, `Local`). */
  datatype Status = Create | Uploading | Finish | Local

  /** Values of `Info.Encode` (`Encode_None`, `Encode_Image`). */
  const EncodeNone: int32 := 0
  const EncodeImage: int32 := 1

  /** Values of `Info.Type` (`Type_URI`, `Type_Stream`). */
  const TypeURI: int32 := 0
  const TypeStream: int32 := 1

  /** One chunk of a resource: its hash, its position among the blocks and its
      data (inline bytes or a URI, depending on `Info.Type`). */
  datatype DataBlock = DataBlock(hash: seq<byte>, index: int64, data: seq<byte>)
}
