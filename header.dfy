/** The plaintext 6-byte header of the manifest file format
    (src/meta/meta.go, `EncodeToFile` and `DecodeFromStream`):

      offset 0, 4 bytes: magic tag "\x14SMF"
      offset 4, 1 byte:  version, 1
      offset 5, 1 byte:  obfuscation key, in [1, 254]

    The obfuscated payload that follows is an opaque byte sequence here. */
module Header {
  import opened MetaTypes

  /** The magic tag "\x14SMF". */
  const Magic: seq<byte> := [0x14, 0x53, 0x4D, 0x46]

  /** The version byte the encoder writes. */
  const Version: byte := 1

  /** Size of the buffer the decoder reads the header into. */
  const HeaderLength: nat := 6

  datatype Option<T> = None | Some(value: T)

  /** Reader errors, passed through unchanged. */
  datatype IoError = EOF | Failed(reason: string)

  /** Why header decoding stops. */
  datatype DecodeError = ReadError(cause: IoError) | UnknownMagic

  datatype Result<T> = Ok(value: T) | Err(error: DecodeError)

  /** A decoded frame: the key from the header and the bytes left for the
      payload decoder. */
  datatype Frame = Frame(key: byte, payload: seq<byte>)

  // ---------------------------------------------------------------------
  // Encoding
  // ---------------------------------------------------------------------

  /** The key the encoder derives from a draw `n` of `rand.Intn(254)`, that is
      `byte(n + 1)` with Go's truncating conversion to a byte. */
  function KeyFromDraw(n: int): (k: byte)
    requires 0 <= n < 254
    ensures 1 <= k <= 254
    ensures k != 0
  {
    (n + 1) % 0x100
  }

  /** The six header bytes for key `k`: the magic tag, then the version and
      the key as one two-byte write. */
  function HeaderBytes(k: byte): (h: seq<byte>)
    requires 1 <= k <= 254
    ensures |h| == HeaderLength
    ensures h[..4] == Magic && h[4] == Version
    ensures h[5] == k && h[5] != 0
  {
    Magic + [Version, k]
  }

  /** The bytes `EncodeToFile` writes: the header, then the obfuscated payload. */
  function EncodeFrame(k: byte, payload: seq<byte>): (f: seq<byte>)
    requires 1 <= k <= 254
    ensures |f| == HeaderLength + |payload|
    ensures f[..HeaderLength] == HeaderBytes(k) && f[HeaderLength..] == payload
  {
    HeaderBytes(k) + payload
  }

  // ---------------------------------------------------------------------
  // Decoding
  // ---------------------------------------------------------------------

  /** What one `Read` into the 6-byte buffer reports: the `n` bytes it
      delivered and the error, if any. */
  datatype ReadOutcome = ReadOutcome(got: seq<byte>, err: Option<IoError>)

  /** The buffer after a read that delivered `got`: the decoder ignores the
      byte count, so the bytes not delivered keep the zero `make` gave them. */
  function ZeroPadded(got: seq<byte>): (bb: seq<byte>)
    requires |got| <= HeaderLength
    ensures |bb| == HeaderLength
    ensures bb[..|got|] == got
    ensures forall j :: |got| <= j < HeaderLength ==> bb[j] == 0
  {
    got + seq(HeaderLength - |got|, _ => 0)
  }

  /** Check the magic tag of a 6-byte buffer and take the key from byte 5;
      byte 4, the version, is not looked at. */
  function ParseHeader(bb: seq<byte>): Result<byte>
    requires |bb| == HeaderLength
  {
    if bb[..4] != Magic then Err(UnknownMagic) else Ok(bb[5])
  }

  /** The header part of `DecodeFromStream`: a reader error aborts, whatever
      was delivered; otherwise the zero-padded buffer is parsed. */
  function DecodeHeader(read: ReadOutcome): Result<byte>
    requires |read.got| <= HeaderLength
  {
    match read.err
    case Some(e) => Err(ReadError(e))
    case None => ParseHeader(ZeroPadded(read.got))
  }

  function Min(a: int, b: int): int { if a <= b then a else b }

  /** One `Read` of a 6-byte buffer from a fresh in-memory reader over `src`
      (`bytes.NewReader`, as `DecodeFromUrl` uses; a regular file read from
      its start behaves the same): end of stream when `src` is empty, and
      otherwise the first bytes of `src`, up to six, with no error. */
  function ReadFromBytes(src: seq<byte>): (r: ReadOutcome)
    ensures |r.got| <= HeaderLength
  {
    if src == [] then ReadOutcome([], Some(EOF))
    else ReadOutcome(src[..Min(HeaderLength, |src|)], None)
  }

  /** `DecodeFromStream` on an in-memory source, up to the payload decoder:
      the key and the bytes the obfuscating reader is given. */
  function DecodeFromBytes(src: seq<byte>): Result<Frame> {
    match DecodeHeader(ReadFromBytes(src))
    case Err(e) => Err(e)
    case Ok(k) => Ok(Frame(k, src[|ReadFromBytes(src).got|..]))
  }

  // ---------------------------------------------------------------------
  // Properties
  // ---------------------------------------------------------------------

  /** The version byte does not influence parsing. */
  lemma ParseHeaderIgnoresVersion(bb: seq<byte>, v: byte)
    requires |bb| == HeaderLength
    ensures ParseHeader(bb[4 := v]) == ParseHeader(bb)
  {
    assert bb[4 := v][..4] == bb[..4];
  }

  /** Parsing a header the encoder built gives back its key. */
  lemma HeaderRoundTrip(k: byte)
    requires 1 <= k <= 254
    ensures ParseHeader(HeaderBytes(k)) == Ok(k)
  {
  }

  /** A short read without an error is not rejected for being short: it fails
      only on the magic tag, and when four or five bytes carry the tag the key
      comes out as the zero padding. */
  lemma ShortReadOutcome(got: seq<byte>)
    requires |got| < HeaderLength
    ensures DecodeHeader(ReadOutcome(got, None)) ==
      if |got| >= 4 && got[..4] == Magic then Ok(0) else Err(UnknownMagic)
  {
    var bb := ZeroPadded(got);
    assert bb[5] == 0;
    if |got| >= 4 {
      assert bb[..4] == got[..4] by {
        assert bb[..|got|] == got;
        assert bb[..4] == bb[..|got|][..4];
      }
    } else {
      assert bb[3] == 0;
      assert bb[..4] != Magic by { assert Magic[3] != 0; }
    }
  }

  /** One header read, for any reader: a reader error aborts with that error,
      whatever bytes came with it; otherwise the input is rejected with
      "unknown magic header" unless it delivered at least four bytes starting
      with the tag, and then the key is byte 5, or the zero padding when fewer
      than six bytes were delivered. No outcome is a short-header error. */
  lemma DecodeHeaderOutcome(read: ReadOutcome)
    requires |read.got| <= HeaderLength
    ensures read.err.Some? ==> DecodeHeader(read) == Err(ReadError(read.err.value))
    ensures read.err.None? ==>
      DecodeHeader(read) ==
        if |read.got| >= 4 && read.got[..4] == Magic
        then Ok(if |read.got| == HeaderLength then read.got[5] else 0)
        else Err(UnknownMagic)
  {
    if read.err.None? {
      if |read.got| < HeaderLength {
        ShortReadOutcome(read.got);
      } else {
        assert ZeroPadded(read.got) == read.got;
      }
    }
  }

  /** Encoding then decoding a frame from memory gives back the key the
      encoder chose and exactly the payload it wrote after the header. */
  lemma FrameRoundTrip(k: byte, payload: seq<byte>)
    requires 1 <= k <= 254
    ensures DecodeFromBytes(EncodeFrame(k, payload)) == Ok(Frame(k, payload))
  {
    var src := EncodeFrame(k, payload);
    assert ReadFromBytes(src).got == HeaderBytes(k);
    assert ZeroPadded(HeaderBytes(k)) == HeaderBytes(k);
    HeaderRoundTrip(k);
  }

  /** The key the encoder draws survives a round trip. */
  lemma DrawnKeyRoundTrip(n: int, payload: seq<byte>)
    requires 0 <= n < 254
    ensures DecodeFromBytes(EncodeFrame(KeyFromDraw(n), payload)).Ok?
    ensures DecodeFromBytes(EncodeFrame(KeyFromDraw(n), payload)).value.key == n + 1
  {
    FrameRoundTrip(KeyFromDraw(n), payload);
  }

  /** Decoding from memory fails with a reader error exactly on empty input,
      fails with "unknown magic header" exactly when the input is non-empty
      and does not start with the tag, and otherwise succeeds; the key is byte
      5 when there is one and 0 otherwise. */
  lemma DecodeFromBytesOutcome(src: seq<byte>)
    ensures src == [] ==> DecodeFromBytes(src) == Err(ReadError(EOF))
    ensures src != [] && (|src| < 4 || src[..4] != Magic) ==>
      DecodeFromBytes(src) == Err(UnknownMagic)
    ensures |src| >= 4 && src[..4] == Magic ==>
      DecodeFromBytes(src).Ok? &&
      DecodeFromBytes(src).value.key == (if |src| >= HeaderLength then src[5] else 0)
  {
    if src != [] {
      var got := ReadFromBytes(src).got;
      if |src| >= HeaderLength {
        assert got == src[..HeaderLength];
        assert ZeroPadded(got) == got;
        assert got[..4] == src[..4];
      } else {
        assert got == src;
        ShortReadOutcome(src);
      }
    }
  }
}
