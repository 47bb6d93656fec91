# Block manifest: merge rule and header framing

This project models the core of the go-storage block manifest
(`src/meta/meta.go`) and proves properties of that model:

- **The manifest and its block-merge rule.** An `Info` manifest describes a
  resource split into indexed blocks. `Info.AppendBlock` merges a `DataBlock`
  into the manifest's block list. It overwrites, in place, the first entry
  with the same index. If there is none, it appends the block. An empty list
  becomes the one-element list. The model is the class `Manifest.Info`. Its
  method `AppendBlock` keeps the source's linear scan with an early return.
  The method is proved against the function `Manifest.Appended`, which
  defines the merge structurally. Lemmas about `Appended` give the
  replace-or-append shape, length bookkeeping, that nothing else changes,
  index uniqueness, idempotence and the new index set. They also cover a
  sequence of merges (`AppendAll`).
- **The plaintext 6-byte manifest header.** The header is the magic tag
  `"\x14SMF"`, then the version byte `1`, then the obfuscation key. The
  encoder draws the key as `byte(rand.Intn(254) + 1)`, so it lies in 1..254.
  `DecodeFromStream` reads the header with one `Read` into a 6-byte buffer.
  It aborts on a reader error and rejects a wrong magic tag with
  "unknown magic header". Otherwise it takes byte 5 as the key. It never
  looks at the version byte.

Modules:

- `MetaTypes` (types.dfy): Go's `byte`, `int32` and `int64`, the `Status`
  lifecycle, the encode/type constants and `DataBlock`.
- `Manifest` (manifest.dfy): the `Info` class, the merge rule and its lemmas.
- `Header` (header.dfy): header construction and parsing, and the in-memory
  reader used to state the round trip.

Modelling decisions:

- Go's nil `Block` slice and an empty slice are both the empty sequence.
  The source tests `m.Block == nil`. An empty non-nil slice takes the loop
  and the append instead, but the result is the same `[b]`.
- The random key is a parameter. `KeyFromDraw` maps a draw of
  `rand.Intn(254)` to the key. The header builders take the key with
  `1 <= k <= 254`.
- `f.Read(bb)` is modelled by a `ReadOutcome`: the bytes delivered plus an
  optional error. The decoder ignores the byte count. Bytes not delivered
  stay zero, as `make` left them (`ZeroPadded`).
- The payload after the header (bencode through the XOR stream) is an
  opaque byte sequence. `DecodeFromBytes` returns it unchanged, next to the
  key.
- `Status` is an enumeration of its four named values. Go's `Status` is an
  exported `int` type, so a Go caller can assign any value. No code in
  src/meta/meta.go produces other values.

What `DecodeFromStream` does not have, as the code reads:

- There is no short-header error. The byte count of the read is ignored,
  and a short read with no error is parsed on the zero-padded buffer
  (`DecodeHeaderOutcome`). Some consequences:
  - A non-empty input shorter than 4 bytes fails with "unknown magic header".
  - A 4- or 5-byte input that carries the tag passes the header check with
    key 0 (`ShortReadOutcome`, `DecodeFromBytesOutcome`). The bencode
    decoder is then given an empty stream: `DecodeFromBytes` yields the
    payload `[]`.
  - An empty input fails with the reader's end-of-stream error.
- There is no version check. Byte 4 is never read
  (`ParseHeaderIgnoresVersion`).
- There is no error of its own for a bad payload. The bencode decoder's
  error is returned as it is. That decoder is not modelled.

## Model

| member | source | states |
|---|---|---|
| `Manifest.Info.constructor` | src/meta/meta.go:38-47 | the zero manifest that `new(Info)` gives: status `Create`, empty hash and name, zero sizes, encode and type 0, no blocks |
| `Manifest.Info.AppendBlock` | src/meta/meta.go:55-67 | the new block list is `Appended(old block list, b)`: `[b]` when empty; when an entry has `b`'s index, the first such entry is overwritten, length kept; otherwise `b` appended. Uniqueness of indices is kept, `b` is present, the index set gains `b.Index`. No other field changes |
| `Manifest.FirstMatch` | src/meta/meta.go:60-61 | the slot the scan stops at: an entry with the sought index, with no earlier entry having it |
| `Manifest.Appended` | src/meta/meta.go:55-67 | the merge rule on values, defined structurally: `[b]` for an empty list, the first entry with `b`'s index replaced by `b`, else `b` at the end; its contract: `b` is in the result, whose length is unchanged when the index was present and one more otherwise |
| `Manifest.AppendedReplacesFirst` | src/meta/meta.go:60-64 | when slot `i` holds the first entry with `b`'s index, the result is the old list with slot `i` set to `b`: same length, every other slot unchanged |
| `Manifest.AppendedWhenAbsent` | src/meta/meta.go:60-66 | when no entry has `b`'s index, the result is the old list followed by `b`: one longer, old list as prefix |
| `Manifest.AppendedCases` | src/meta/meta.go:55-67 | the result is either the first-match overwrite (length unchanged) or the append, decided by whether `b`'s index is present |
| `Manifest.AppendedIndices` | src/meta/meta.go:55-67 | the index set after the merge is the old set plus `b.Index` |
| `Manifest.AppendedKeepsUnique` | src/meta/meta.go:55-67 | pairwise distinct indices before the merge imply pairwise distinct indices after |
| `Manifest.AppendedIdempotent` | src/meta/meta.go:55-67 | merging the same block twice gives the same list as merging it once |
| `Manifest.AppendAll` | src/meta/meta.go:55-67 | the block list after `AppendBlock` is called with each block of a sequence in turn; its contract: the index set is the old one plus the indices of all merged blocks |
| `Manifest.AppendAllKeepsUnique` | src/meta/meta.go:55-67 | any sequence of merges into a list with distinct indices leaves the indices distinct |
| `Manifest.AppendAllFresh` | src/meta/meta.go:60-66 | merging blocks with new, pairwise distinct indices appends them in order, e.g., indices 0, 1, 2 into an empty manifest give exactly those three blocks |
| `Header.KeyFromDraw` | src/meta/meta.go:75 | the key `byte(rand.Intn(254) + 1)` lies in 1..254 and is never 0 |
| `Header.HeaderBytes` | src/meta/meta.go:77-82 | the header is 6 bytes: the magic tag, the version 1, then the key, which is non-zero |
| `Header.EncodeFrame` | src/meta/meta.go:77-84 | the encoded file is the 6-byte header followed by exactly the payload bytes |
| `Header.ZeroPadded` | src/meta/meta.go:110-112 | the 6-byte buffer after a read holds the delivered bytes first and zero in the rest |
| `Header.ReadFromBytes` | src/meta/meta.go:104 | one read from an in-memory reader delivers no more than the 6-byte buffer holds |
| `Header.ParseHeader` | src/meta/meta.go:115-118 | definition only: a 6-byte buffer whose bytes 0-3 are not the tag gives "unknown magic header", otherwise the key is byte 5; its properties are stated by `DecodeHeaderOutcome`, `ParseHeaderIgnoresVersion` and `HeaderRoundTrip` |
| `Header.DecodeHeader` | src/meta/meta.go:110-119 | definition only: a reader error aborts with that error, otherwise the zero-padded buffer is parsed; its properties are stated by `DecodeHeaderOutcome` |
| `Header.DecodeFromBytes` | src/meta/meta.go:104-120 | definition only: one header read from an in-memory reader, then the key and the rest of the input for the payload decoder; its properties are stated by `DecodeFromBytesOutcome` and `FrameRoundTrip` |
| `Header.ParseHeaderIgnoresVersion` | src/meta/meta.go:115-118 | changing byte 4 never changes the parse result |
| `Header.HeaderRoundTrip` | src/meta/meta.go:110-119 | parsing an encoder-built header yields the key it was built with |
| `Header.DecodeHeaderOutcome` | src/meta/meta.go:110-119 | for every read outcome: a reader error aborts with that error, whatever bytes came with it; otherwise "unknown magic header" unless at least four bytes starting with the tag were delivered, and then the key is byte 5, or 0 when fewer than six bytes came; no short-header error |
| `Header.ShortReadOutcome` | src/meta/meta.go:110-119 | a short read with no error is never rejected for being short: it fails only on the magic tag, and 4 or 5 bytes with the tag give key 0 |
| `Header.FrameRoundTrip` | src/meta/meta.go:109-120 | decoding an encoded frame from memory gives back the encoder's key and exactly the payload written after the header |
| `Header.DrawnKeyRoundTrip` | src/meta/meta.go:75-82 | for every draw of the random source, the decoded key is the drawn value plus one |
| `Header.DecodeFromBytesOutcome` | src/meta/meta.go:104-119 | from memory: empty input fails with end of stream; non-empty input without the tag fails with "unknown magic header"; input with the tag succeeds, with key byte 5, or 0 when the input is shorter than 6 bytes |

## Left out

- File and network I/O (`os.OpenFile`, `Close`, `http.Get`, `ioutil.ReadAll`, and the failures of `WriteString`/`Write`): side effects whose only behaviour is passing errors on. `DecodeFromFile` and `DecodeFromUrl` appear only through the in-memory read model `ReadFromBytes`.
- The bencode encoder and decoder and their errors: a foreign library whose byte format is not visible, so there is no payload round trip for `Info`.
- `NewXORWriter` / `NewXORReader`: their definition is not part of this model. The payload is an opaque byte sequence.
- `rand.Seed(time.Now().Unix())` and `rand.Intn`: wall-clock randomness. The draw is a parameter of `KeyFromDraw`.
- src/client/meta.go (the `DownloadMeta` overlay and its gob codec with fixed key 0x14): pure I/O plus a foreign codec and the foreign `bitset.BitSet`. Neither src/meta/meta.go nor src/client/meta.go updates `Downloaded` or `DownloadTotal`.
- Manifest.Info.AppendBlock: `b` is a value, so the nil-pointer panic of `*b` is not modelled. `Block` is a sequence, so aliasing through a slice's shared backing array is not modelled: the in-place write, or an `append` that reuses capacity, could be seen by other slices of the same array. Also, `*b` copies the struct shallowly, so the stored block's `Hash` and `Data` slices stay shared with the caller's.
- Header.ZeroPadded: an `io.Reader` may use the whole buffer as scratch space beyond the `n` bytes it reports. The model assumes the undelivered bytes stay zero, as they do for files and `bytes.Reader`.
- The `Hash`, `Name`, `Size`, `BlockSize`, `Encode` and `Type` fields carry no behaviour in the core. Nothing in src/meta/meta.go checks `Size` against `BlockSize` or the block count.
