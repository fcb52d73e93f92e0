// src/helpers/codec.rs: the names of the compression, content and edit
// formats, magic-byte compression detection, the first-byte MessagePack
// screen, content detection, decompression with a size cap, the hex
// editor format and the conversions between bytes and editor text.
//
// The libraries the file calls (flate2, ruzstd, zstd, snap, lz4_flex,
// serde_json, rmp_serde) are not modelled; their results arrive through a
// `Libs` value, so every statement below holds whatever they return.

module Codec {
  import opened Wrappers
  import opened Binary
  import opened Text
  import opened JsonValue

  /// The cap on decompressed data, 64 MiB.
  const MAX_DECOMPRESS_BYTES: nat := 64 * 1024 * 1024

  // ---------------------------------------------------------------------
  // Formats and their names
  // ---------------------------------------------------------------------

  /// `CompressionFormat`; `NoCompression` is the Rust `None` variant.
  datatype CompressionFormat = NoCompression | Gzip | Zstd | Snappy | Lz4

  /// `ContentFormat`.
  datatype ContentFormat = ContentBinary | ContentText | ContentJson | ContentMessagePack | ContentProtobuf

  /// `EditFormat`.
  datatype EditFormat = EditText | EditJson | EditHex | EditMessagePack | EditProtobufJson

  /// `CompressionFormat::as_str`.
  function CompressionName(f: CompressionFormat): string
  {
    match f
    case NoCompression => "None"
    case Gzip => "Gzip"
    case Zstd => "Zstd"
    case Snappy => "Snappy"
    case Lz4 => "LZ4"
  }

  /// `CompressionFormat::all`: every format, the uncompressed one first.
  const ALL_COMPRESSIONS: seq<CompressionFormat> := [NoCompression, Gzip, Zstd, Snappy, Lz4]

  /// `EditFormat::as_str`.
  function EditFormatName(f: EditFormat): string
  {
    match f
    case EditText => "Text"
    case EditJson => "JSON"
    case EditHex => "Hex"
    case EditMessagePack => "MessagePack"
    case EditProtobufJson => "Protobuf"
  }

  /// `EditFormat::all`: the formats offered for selection, which leave out
  /// the schema-bound protobuf view.
  const ALL_EDIT_FORMATS: seq<EditFormat> := [EditText, EditJson, EditHex, EditMessagePack]

  /// `EditFormat::language`: the highlighter for the editor.
  function Language(f: EditFormat): (r: string)
    ensures r == "json" <==> f in {EditJson, EditMessagePack, EditProtobufJson}
  {
    match f
    case EditJson | EditMessagePack | EditProtobufJson => "json"
    case _ => "text"
  }

  /// `str::to_lowercase` as far as comparisons with ASCII names can tell:
  /// `A`-`Z` and the Kelvin sign, the one non-ASCII letter whose lower
  /// case is ASCII, map to ASCII lower case; every other character either
  /// stays or has a lower case that is not ASCII and so matches no name.
  function Lowercase(s: string): (r: string)
  {
    seq(|s|, k requires 0 <= k < |s| => LowerChar(s[k]))
  }

  function LowerChar(c: char): char
  {
    if 'A' <= c <= 'Z' then (c as int + 32) as char else if c == '\U{212A}' then 'k' else c
  }

  /// `impl From<&str> for CompressionFormat`: case-insensitive, anything
  /// unknown means no compression.
  function CompressionFromName(s: string): (r: CompressionFormat)
  {
    match Lowercase(s)
    case "gzip" => Gzip
    case "zstd" => Zstd
    case "snappy" => Snappy
    case "lz4" => Lz4
    case _ => NoCompression
  }

  /// `impl From<&str> for EditFormat`: case-insensitive, with two spellings
  /// each for MessagePack and protobuf, and plain text for anything else.
  function EditFormatFromName(s: string): (r: EditFormat)
  {
    match Lowercase(s)
    case "json" => EditJson
    case "hex" => EditHex
    case "messagepack" => EditMessagePack
    case "msgpack" => EditMessagePack
    case "protobuf" => EditProtobufJson
    case "protobufjson" => EditProtobufJson
    case _ => EditText
  }

  /// Every compression format is recovered from its display name.
  lemma CompressionNameRoundTrip(f: CompressionFormat)
    ensures CompressionFromName(CompressionName(f)) == f
  {
    match f
    case NoCompression => assert Lowercase("None") == "none";
    case Gzip => assert Lowercase("Gzip") == "gzip";
    case Zstd => assert Lowercase("Zstd") == "zstd";
    case Snappy => assert Lowercase("Snappy") == "snappy";
    case Lz4 => assert Lowercase("LZ4") == "lz4";
  }

  /// Every edit format is recovered from its display name.
  lemma EditFormatNameRoundTrip(f: EditFormat)
    ensures EditFormatFromName(EditFormatName(f)) == f
  {
    match f
    case EditText => assert Lowercase("Text") == "text";
    case EditJson => assert Lowercase("JSON") == "json";
    case EditHex => assert Lowercase("Hex") == "hex";
    case EditMessagePack => assert Lowercase("MessagePack") == "messagepack";
    case EditProtobufJson => assert Lowercase("Protobuf") == "protobuf";
  }

  /// Both MessagePack spellings, in any case, name the same format.
  lemma MessagePackSpellings()
    ensures EditFormatFromName("msgpack") == EditMessagePack
    ensures EditFormatFromName("MessagePack") == EditMessagePack
    ensures EditFormatFromName("MSGPACK") == EditMessagePack
  {
    assert Lowercase("msgpack") == "msgpack";
    assert Lowercase("MessagePack") == "messagepack";
    assert Lowercase("MSGPACK") == "msgpack";
  }

  /// `suggest_edit_format`: the editor view for detected content.
  function SuggestEditFormat(content: ContentFormat, isUtf8: bool): (r: EditFormat)
    ensures r != EditProtobufJson <==> content != ContentProtobuf
    ensures r == EditHex <==> content == ContentBinary && !isUtf8
  {
    match content
    case ContentJson => EditJson
    case ContentMessagePack => EditMessagePack
    case ContentProtobuf => EditProtobufJson
    case ContentText => EditText
    case ContentBinary => if isUtf8 then EditText else EditHex
  }

  // ---------------------------------------------------------------------
  // The libraries
  // ---------------------------------------------------------------------

  /// One `read` into the 8 KiB buffer of a streaming decoder: the bytes
  /// read (none at the end of the data) or the decoder's error text.
  datatype ReadOutcome = Chunk(data: Bytes) | ReadFailed(message: string)

  /// The results of the libraries, as functions of their inputs.
  datatype Libs = Libs(
    /// `serde_json::from_str`, the error being serde_json's message.
    jsonFromText: string -> Result<Json>,
    /// `serde_json::from_slice`.
    jsonFromBytes: Bytes -> Result<Json>,
    /// `serde_json::to_string_pretty`.
    jsonPretty: Json -> Result<string>,
    /// `serde_json::to_vec`.
    jsonCompact: Json -> Result<Bytes>,
    /// `rmp_serde::from_slice`.
    msgpackDecode: Bytes -> Result<Json>,
    /// `rmp_serde::to_vec`.
    msgpackEncode: Json -> Result<Bytes>,
    /// Whether rmp_serde reads one whole value that ends exactly at the end
    /// of the input.
    msgpackConsumesAll: Bytes -> bool,
    /// The successive reads of the gzip, zstd or snappy streaming decoder
    /// over the input (for zstd the first may be the failure to start).
    decoderReads: (CompressionFormat, Bytes) -> seq<ReadOutcome>,
    /// `lz4_flex::block::decompress_size_prepended`.
    lz4Decompress: Bytes -> Result<Bytes>,
    /// `lz4_flex::block::compress_prepend_size`, which cannot fail.
    lz4Compress: Bytes -> Bytes,
    /// The gzip, zstd or snappy encoder over the input.
    encode: (CompressionFormat, Bytes) -> Result<Bytes>,
    /// The `Display` text of the `Utf8Error` for input that is not UTF-8.
    utf8Error: Bytes -> string)

  // ---------------------------------------------------------------------
  // Detection
  // ---------------------------------------------------------------------

  const GZIP_MAGIC: Bytes := [0x1f, 0x8b]
  const ZSTD_MAGIC: Bytes := [0x28, 0xb5, 0x2f, 0xfd]
  const SNAPPY_STREAM_ID: Bytes := [0xff, 0x06, 0x00, 0x00, 0x73, 0x4e, 0x61, 0x50, 0x70, 0x59]

  predicate StartsWith(b: Bytes, magic: Bytes)
  {
    |magic| <= |b| && b[..|magic|] == magic
  }

  /// `lz4_declared_size`: the little-endian u32 in the first four bytes.
  function Lz4DeclaredSize(b: Bytes): (r: Option<nat>)
    ensures r.None? <==> |b| < 4
    ensures r.Some? ==> r.value < 0x1_0000_0000 && r.value == LittleEndian(b[..4])
  {
    if |b| < 4 then None
    else
      LittleEndianBound(b[..4]);
      Some(LittleEndian(b[..4]))
  }

  /// A little-endian number of `n` bytes is below 256^n.
  lemma {:induction false} LittleEndianBound(b: Bytes)
    ensures LittleEndian(b) < Pow256(|b|)
    decreases |b|
  {
    if b != [] {
      LittleEndianBound(b[1..]);
    }
  }

  /// `detect_compression`: gzip (section 2.3.1 of RFC 1952), then zstd
  /// (section 3.1.1 of RFC 8878), then the Snappy framing format's stream
  /// identifier, then LZ4 when its declared size is within the cap and
  /// the block decompresses.
  function DetectCompression(b: Bytes, libs: Libs): (r: CompressionFormat)
    ensures |b| < 2 ==> r == NoCompression
    ensures StartsWith(b, GZIP_MAGIC) ==> r == Gzip
    ensures r == Gzip ==> StartsWith(b, GZIP_MAGIC)
    ensures r == Zstd <==> !StartsWith(b, GZIP_MAGIC) && StartsWith(b, ZSTD_MAGIC)
    ensures r == Snappy <==> !StartsWith(b, GZIP_MAGIC) && !StartsWith(b, ZSTD_MAGIC) && StartsWith(b, SNAPPY_STREAM_ID)
    ensures r == Lz4 <==> !StartsWith(b, GZIP_MAGIC) && !StartsWith(b, ZSTD_MAGIC) && !StartsWith(b, SNAPPY_STREAM_ID)
                          && Lz4DeclaredSize(b).Some? && Lz4DeclaredSize(b).value <= MAX_DECOMPRESS_BYTES
                          && libs.lz4Decompress(b).Ok?
  {
    if |b| < 2 then NoCompression
    else if StartsWith(b, GZIP_MAGIC) then Gzip
    else if StartsWith(b, ZSTD_MAGIC) then Zstd
    else if StartsWith(b, SNAPPY_STREAM_ID) then Snappy
    else if Lz4DeclaredSize(b).Some? && Lz4DeclaredSize(b).value <= MAX_DECOMPRESS_BYTES
            && libs.lz4Decompress(b).Ok? then Lz4
    else NoCompression
  }

  /// A MessagePack map or array marker: fixmap, fixarray, array 16/32 or
  /// map 16/32.
  predicate IsContainerMarker(x: byte)
  {
    (0x80 <= x <= 0x8f) || (0x90 <= x <= 0x9f) || x == 0xdc || x == 0xdd || x == 0xde || x == 0xdf
  }

  /// `is_valid_messagepack`: a container marker first, and one value that
  /// takes the whole input.
  predicate IsValidMessagepack(b: Bytes, libs: Libs)
  {
    b != [] && IsContainerMarker(b[0]) && libs.msgpackConsumesAll(b)
  }

  /// Trimmed text that starts and ends with matching braces or brackets.
  predicate JsonShaped(t: string)
  {
    (t != [] && t[0] == '{' && t[|t| - 1] == '}') || (t != [] && t[0] == '[' && t[|t| - 1] == ']')
  }

  /// `detect_content` on uncompressed bytes.
  function DetectContent(b: Bytes, libs: Libs): (r: ContentFormat)
    ensures b == [] ==> r == ContentText
    ensures r == ContentJson <==> b != [] && Decode(b).Some? && JsonShaped(Trim(Decode(b).value))
                                  && libs.jsonFromText(Decode(b).value).Ok?
    ensures b != [] && Decode(b).Some? ==> r in {ContentJson, ContentText}
    ensures r == ContentMessagePack <==> Decode(b).None? && IsValidMessagepack(b, libs)
    ensures r != ContentProtobuf
  {
    if b == [] then ContentText
    else match Decode(b)
      case Some(text) =>
        if JsonShaped(Trim(text)) && libs.jsonFromText(text).Ok? then ContentJson else ContentText
      case None =>
        if IsValidMessagepack(b, libs) then ContentMessagePack else ContentBinary
  }

  /// `compression_mime`.
  function CompressionMime(f: CompressionFormat): (r: Option<string>)
    ensures r.None? <==> f == NoCompression
  {
    match f
    case Gzip => Some("application/gzip")
    case Zstd => Some("application/zstd")
    case Snappy => Some("application/snappy")
    case Lz4 => Some("application/lz4")
    case NoCompression => None
  }

  /// `content_mime`: every content format has one.
  function ContentMime(f: ContentFormat): (r: Option<string>)
    ensures r.Some?
  {
    match f
    case ContentJson => Some("application/json")
    case ContentMessagePack => Some("application/msgpack")
    case ContentProtobuf => Some("application/x-protobuf")
    case ContentText => Some("text/plain")
    case ContentBinary => Some("application/octet-stream")
  }

  /// `Detection`.
  datatype Detection = Detection(compression: CompressionFormat, content: ContentFormat,
                                 mime: Option<string>, isUtf8: bool)

  /// `detect`: empty input is uncompressed UTF-8 text without a MIME
  /// type; compressed input that decompresses within the cap is described
  /// by its decompressed content and the compression's MIME type; anything
  /// else by its own content.
  function Detect(b: Bytes, libs: Libs): (r: Detection)
    ensures b == [] ==> r == Detection(NoCompression, ContentText, None, true)
    ensures r.compression == (if b == [] then NoCompression else DetectCompression(b, libs))
    ensures b != [] && r.compression != NoCompression && Decompressed(b, r.compression, MAX_DECOMPRESS_BYTES, libs).Ok? ==>
      var d := Decompressed(b, r.compression, MAX_DECOMPRESS_BYTES, libs).value;
      r == Detection(r.compression, DetectContent(d, libs), CompressionMime(r.compression), IsUtf8(d))
    ensures b != [] && (r.compression == NoCompression || Decompressed(b, r.compression, MAX_DECOMPRESS_BYTES, libs).Err?) ==>
      r == Detection(r.compression, DetectContent(b, libs), ContentMime(DetectContent(b, libs)), IsUtf8(b))
  {
    if b == [] then Detection(NoCompression, ContentText, None, true)
    else
      var compression := DetectCompression(b, libs);
      var plain := Decompressed(b, compression, MAX_DECOMPRESS_BYTES, libs);
      if compression != NoCompression && plain.Ok? then
        Detection(compression, DetectContent(plain.value, libs), CompressionMime(compression), IsUtf8(plain.value))
      else
        var content := DetectContent(b, libs);
        Detection(compression, content, ContentMime(content), IsUtf8(b))
  }

  // ---------------------------------------------------------------------
  // Decompression with a size cap, and compression
  // ---------------------------------------------------------------------

  /// The text of the error for output beyond the cap.
  function LimitError(max: nat): string
  {
    Invalid("Decompressed size exceeds limit of " + Decimal(max) + " bytes")
  }

  /// The name a decoder's errors carry.
  function FormatLabel(f: CompressionFormat): string
  {
    match f
    case Gzip => "Gzip"
    case Zstd => "Zstd"
    case Snappy => "Snappy"
    case Lz4 => "LZ4"
    case NoCompression => "None"
  }

  /// The position of the read that ends a decoder loop: the first failed
  /// or empty read, or the number of reads.
  function StopIndex(outcomes: seq<ReadOutcome>): (k: nat)
    ensures k <= |outcomes|
    ensures forall i :: 0 <= i < k ==> outcomes[i].Chunk? && outcomes[i].data != []
    ensures k < |outcomes| ==> outcomes[k].ReadFailed? || outcomes[k].data == []
  {
    if outcomes == [] || outcomes[0].ReadFailed? || outcomes[0].data == [] then 0
    else 1 + StopIndex(outcomes[1..])
  }

  /// The data of a run of successful reads, in order.
  function Concat(outcomes: seq<ReadOutcome>): (r: Bytes)
    requires forall i :: 0 <= i < |outcomes| ==> outcomes[i].Chunk?
  {
    if outcomes == [] then [] else Concat(outcomes[..|outcomes| - 1]) + outcomes[|outcomes| - 1].data
  }

  lemma {:induction false} ConcatGrows(outcomes: seq<ReadOutcome>, i: nat, j: nat)
    requires i <= j <= |outcomes| && forall k :: 0 <= k < |outcomes| ==> outcomes[k].Chunk?
    ensures |Concat(outcomes[..i])| <= |Concat(outcomes[..j])|
    decreases j - i
  {
    if i < j {
      ConcatGrows(outcomes, i, j - 1);
      assert outcomes[..j][..j - 1] == outcomes[..j - 1];
    }
  }

  /// What a decoder loop produces from its reads: every byte read up to
  /// the stop, unless that is more than `max` bytes (reported first) or
  /// the loop stopped at a failed read.
  function DrainResult(outcomes: seq<ReadOutcome>, max: nat, codecName: string): (r: Result<Bytes>)
    ensures r.Ok? ==> |r.value| <= max
    ensures r.Ok? ==> forall i :: 0 <= i < StopIndex(outcomes) ==> outcomes[i].Chunk?
  {
    var k := StopIndex(outcomes);
    var data := Concat(outcomes[..k]);
    if |data| > max then Err(LimitError(max))
    else if k < |outcomes| && outcomes[k].ReadFailed? then
      Err(Invalid(codecName + " decompression failed: " + outcomes[k].message))
    else Ok(data)
  }

  /// The chunk loop of `decompress_gzip`, `decompress_zstd` and
  /// `decompress_snappy`: read until a read returns nothing, fail on a read
  /// error, and fail as soon as the bytes so far would pass `max`.
  method Drain(outcomes: seq<ReadOutcome>, max: nat, codecName: string) returns (r: Result<Bytes>)
    ensures r == DrainResult(outcomes, max, codecName)
  {
    var stop := StopIndex(outcomes);
    var result: Bytes := [];
    var i := 0;
    while i < |outcomes|
      invariant i <= stop
      invariant result == Concat(outcomes[..stop][..i]) && |result| <= max
    {
      match outcomes[i]
      case ReadFailed(message) =>
        assert |Concat(outcomes[..stop])| <= max by {
          assert i == stop;
          assert outcomes[..stop][..i] == outcomes[..stop];
        }
        return Err(Invalid(codecName + " decompression failed: " + message));
      case Chunk(data) =>
        if |data| == 0 {
          assert outcomes[..stop][..i] == outcomes[..stop];
          break;
        }
        assert outcomes[..stop][..i + 1][..i] == outcomes[..stop][..i];
        if |result| + |data| > max {
          ConcatGrows(outcomes[..stop], i + 1, stop);
          assert outcomes[..stop][..stop] == outcomes[..stop];
          return Err(LimitError(max));
        }
        result := result + data;
        i := i + 1;
    }
    if i == |outcomes| {
      assert outcomes[..stop][..i] == outcomes[..stop];
    }
    return Ok(result);
  }

  /// `decompress` as a value.
  function Decompressed(b: Bytes, f: CompressionFormat, max: nat, libs: Libs): (r: Result<Bytes>)
    ensures f == NoCompression ==> r == Ok(b)
    ensures f != NoCompression && r.Ok? ==> |r.value| <= max
  {
    match f
    case NoCompression => Ok(b)
    case Lz4 =>
      (match libs.lz4Decompress(b)
       case Err(e) => Err(Invalid("LZ4 decompression failed: " + e))
       case Ok(data) => if |data| > max then Err(LimitError(max)) else Ok(data))
    case _ => DrainResult(libs.decoderReads(f, b), max, FormatLabel(f))
  }

  /// `decompress`: the input itself when uncompressed, otherwise the
  /// decoder's output, never more than `max` bytes.
  method Decompress(b: Bytes, f: CompressionFormat, max: nat, libs: Libs) returns (r: Result<Bytes>)
    ensures r == Decompressed(b, f, max, libs)
  {
    match f {
      case NoCompression => r := Ok(b);
      case Lz4 =>
        var data := libs.lz4Decompress(b);
        if data.Err? {
          r := Err(Invalid("LZ4 decompression failed: " + data.error));
        } else if |data.value| > max {
          r := Err(LimitError(max));
        } else {
          r := Ok(data.value);
        }
      case _ => r := Drain(libs.decoderReads(f, b), max, FormatLabel(f));
    }
  }

  /// `compress`: the input itself when uncompressed.
  function Compress(b: Bytes, f: CompressionFormat, libs: Libs): (r: Result<Bytes>)
    ensures f == NoCompression ==> r == Ok(b)
    ensures f == Lz4 ==> r.Ok?
  {
    match f
    case NoCompression => Ok(b)
    case Lz4 => Ok(libs.lz4Compress(b))
    case _ =>
      match libs.encode(f, b)
      case Ok(data) => Ok(data)
      case Err(e) => Err(Invalid(FormatLabel(f) + " compression failed: " + e))
  }

  // ---------------------------------------------------------------------
  // Hex
  // ---------------------------------------------------------------------

  function HexDigit(d: nat): (c: char)
    requires d < 16
  {
    if d < 10 then ('0' as int + d) as char else ('a' as int + (d - 10)) as char
  }

  /// `format!("{:02x}", x)`: two lower-case hex digits.
  function HexPair(x: byte): (r: string)
    ensures |r| == 2
  {
    [HexDigit(x as nat / 16), HexDigit(x as nat % 16)]
  }

  function HexPairs(b: Bytes): (r: seq<string>)
    ensures |r| == |b| && forall i :: 0 <= i < |b| ==> r[i] == HexPair(b[i])
  {
    if b == [] then [] else [HexPair(b[0])] + HexPairs(b[1..])
  }

  /// `bytes_to_hex`: the pairs joined by single spaces.
  function BytesToHex(b: Bytes): (r: string)
  {
    Join(HexPairs(b), " ")
  }

  /// The pairs written back to back, as `hex_to_bytes` also accepts.
  function PlainHex(b: Bytes): (r: string)
    ensures |r| == 2 * |b| && |r| % 2 == 0
  {
    if b == [] then [] else HexPair(b[0]) + PlainHex(b[1..])
  }

  /// Three characters per byte but the last, which has no space after it.
  lemma {:induction false} BytesToHexLength(b: Bytes)
    ensures |BytesToHex(b)| == if b == [] then 0 else 3 * |b| - 1
    decreases |b|
  {
    if |b| > 1 {
      BytesToHexLength(b[1..]);
      assert HexPairs(b)[1..] == HexPairs(b[1..]);
    }
  }

  /// The value of a hex digit in either case.
  function HexValue(c: char): (r: Option<nat>)
    ensures r.Some? ==> r.value < 16
  {
    if '0' <= c <= '9' then Some(c as int - '0' as int)
    else if 'a' <= c <= 'f' then Some(c as int - 'a' as int + 10)
    else if 'A' <= c <= 'F' then Some(c as int - 'A' as int + 10)
    else None
  }

  /// `u8::from_str_radix(pair, 16)` on two characters: two hex digits, or
  /// a `+` followed by one.
  function PairValue(p: string): (r: Option<byte>)
    requires |p| == 2
  {
    if p[0] == '+' then
      match HexValue(p[1])
      case Some(v) => Some(v as byte)
      case None => None
    else match (HexValue(p[0]), HexValue(p[1]))
      case (Some(hi), Some(lo)) => Some((hi * 16 + lo) as byte)
      case _ => None
  }

  /// The input with every whitespace character removed.
  function Clean(s: string): (r: string)
    ensures |r| <= |s|
    ensures forall k :: 0 <= k < |r| ==> !IsWhitespace(r[k])
  {
    if s == [] then []
    else if IsWhitespace(s[0]) then Clean(s[1..])
    else [s[0]] + Clean(s[1..])
  }

  function OddLengthError(): string
  {
    Invalid("Hex string must have even number of characters")
  }

  /// The error for the pair at `position` of the cleaned text; for two
  /// characters the only `ParseIntError` is an invalid digit.
  function PairError(position: nat): string
  {
    Invalid("Invalid hex character at position " + Decimal(position) + ": invalid digit found in string")
  }

  function PrependByte(x: byte, r: Result<Bytes>): Result<Bytes>
  {
    match r
    case Ok(rest) => Ok([x] + rest)
    case Err(e) => Err(e)
  }

  /// The bytes of an even-length run of pairs that starts at `position` of
  /// the cleaned text, or the error for its first invalid pair.
  function DecodePairs(c: string, position: nat): (r: Result<Bytes>)
    requires |c| % 2 == 0
    ensures r.Ok? ==> 2 * |r.value| == |c|
    decreases |c|
  {
    if c == [] then Ok([])
    else match PairValue(c[..2])
      case None => Err(PairError(position))
      case Some(x) => PrependByte(x, DecodePairs(c[2..], position + 2))
  }

  /// What `hex_to_bytes` returns.
  function HexDecode(s: string): (r: Result<Bytes>)
    ensures |Clean(s)| % 2 != 0 ==> r == Err(OddLengthError())
    ensures r.Ok? ==> 2 * |r.value| == |Clean(s)|
  {
    var c := Clean(s);
    if |c| % 2 != 0 then Err(OddLengthError()) else DecodePairs(c, 0)
  }

  function PrependAll(xs: Bytes, r: Result<Bytes>): Result<Bytes>
  {
    match r
    case Ok(rest) => Ok(xs + rest)
    case Err(e) => Err(e)
  }

  /// The bytes decoded so far, followed by the decoding of the rest from
  /// position `i` on, are the decoding of the whole cleaned text.
  predicate DecodedPrefix(c: string, i: nat, result: Bytes)
    requires |c| % 2 == 0
  {
    i <= |c| && i % 2 == 0 && DecodePairs(c, 0) == PrependAll(result, DecodePairs(c[i..], i))
  }

  lemma PrependAllByte(result: Bytes, x: byte, rest: Result<Bytes>)
    ensures PrependAll(result, PrependByte(x, rest)) == PrependAll(result + [x], rest)
  {
    if rest.Ok? {
      assert result + ([x] + rest.value) == (result + [x]) + rest.value;
    }
  }

  /// Moving one decoded byte from the rest to the prefix.
  lemma PrefixStep(whole: Result<Bytes>, result: Bytes, x: byte, rest: Result<Bytes>, tail: Result<Bytes>)
    requires whole == PrependAll(result, rest) && rest == PrependByte(x, tail)
    ensures whole == PrependAll(result + [x], tail)
  {
    PrependAllByte(result, x, tail);
  }

  lemma DecodePairsAt(c: string, i: nat)
    requires |c| % 2 == 0 && i < |c| && i % 2 == 0
    ensures PairValue(c[i..i + 2]).None? ==> DecodePairs(c[i..], i) == Err(PairError(i))
    ensures PairValue(c[i..i + 2]).Some? ==>
      DecodePairs(c[i..], i) == PrependByte(PairValue(c[i..i + 2]).value, DecodePairs(c[i + 2..], i + 2))
  {
    var d := c[i..];
    assert d[..2] == c[i..i + 2] && d[2..] == c[i + 2..];
  }

  lemma EvenStep(n: nat, i: nat)
    requires n % 2 == 0 && i % 2 == 0 && i < n
    ensures i + 2 <= n && (i + 2) % 2 == 0
  {
  }

  /// An invalid pair at `i` is the error of the whole decoding.
  lemma DecodePairsFail(c: string, i: nat, result: Bytes)
    requires |c| % 2 == 0 && i < |c| && DecodedPrefix(c, i, result)
    requires PairValue(c[i..i + 2]).None?
    ensures DecodePairs(c, 0) == Err(PairError(i))
  {
    DecodePairsAt(c, i);
  }

  /// A valid pair at `i` extends the decoded prefix by its byte.
  lemma DecodePairsAdvance(c: string, i: nat, result: Bytes)
    requires |c| % 2 == 0 && i < |c| && DecodedPrefix(c, i, result)
    requires PairValue(c[i..i + 2]).Some?
    ensures DecodedPrefix(c, i + 2, result + [PairValue(c[i..i + 2]).value])
  {
    EvenStep(|c|, i);
    DecodePairsAt(c, i);
    var x := PairValue(c[i..i + 2]).value;
    PrefixStep(DecodePairs(c, 0), result, x, DecodePairs(c[i..], i), DecodePairs(c[i + 2..], i + 2));
  }

  /// `hex_to_bytes`: drop whitespace, reject an odd digit count, then turn
  /// each pair into one byte, failing at the first invalid pair.
  method HexToBytes(hex: string) returns (r: Result<Bytes>)
    ensures r == HexDecode(hex)
  {
    var c := Clean(hex);
    if |c| % 2 != 0 {
      return Err(OddLengthError());
    }
    var result: Bytes := [];
    var i := 0;
    assert c[0..] == c;
    assert DecodePairs(c, 0) == PrependAll([], DecodePairs(c, 0)) by {
      if DecodePairs(c, 0).Ok? {
        assert [] + DecodePairs(c, 0).value == DecodePairs(c, 0).value;
      }
    }
    while i < |c|
      invariant DecodedPrefix(c, i, result)
      decreases |c| - i
    {
      match PairValue(c[i..i + 2])
      case None =>
        DecodePairsFail(c, i, result);
        return Err(PairError(i));
      case Some(x) =>
        DecodePairsAdvance(c, i, result);
        result := result + [x];
        i := i + 2;
    }
    assert c[i..] == [];
    assert result + [] == result;
    return Ok(result);
  }

  lemma {:induction false} CleanAppend(a: string, b: string)
    ensures Clean(a + b) == Clean(a) + Clean(b)
    decreases |a|
  {
    if a != [] {
      CleanAppend(a[1..], b);
      assert (a + b)[0] == a[0];
      assert (a + b)[1..] == a[1..] + b;
      if !IsWhitespace(a[0]) {
        assert [a[0]] + (Clean(a[1..]) + Clean(b)) == ([a[0]] + Clean(a[1..])) + Clean(b);
      }
    } else {
      assert a + b == b;
    }
  }

  /// A pair is two hex digits, and no hex digit is whitespace.
  lemma CleanHexPair(x: byte)
    ensures Clean(HexPair(x)) == HexPair(x)
  {
    var p := HexPair(x);
    assert !IsWhitespace(p[0]) && !IsWhitespace(p[1]);
    assert p[1..][1..] == [];
  }

  lemma {:induction false} CleanPlainHex(b: Bytes)
    ensures Clean(PlainHex(b)) == PlainHex(b)
    decreases |b|
  {
    if b != [] {
      CleanPlainHex(b[1..]);
      CleanHexPair(b[0]);
      CleanAppend(HexPair(b[0]), PlainHex(b[1..]));
    }
  }

  lemma CleanSeparated(p: string, rest: string)
    ensures Clean(p + (" " + rest)) == Clean(p) + Clean(rest)
  {
    CleanAppend(p, " " + rest);
    CleanAppend(" ", rest);
    assert Clean(" ") == [];
  }

  /// Removing the separators of `bytes_to_hex` leaves the pairs back to back.
  lemma {:induction false} CleanBytesToHex(b: Bytes)
    ensures Clean(BytesToHex(b)) == PlainHex(b)
    decreases |b|
  {
    if |b| == 1 {
      CleanHexPair(b[0]);
      assert HexPairs(b) == [HexPair(b[0])];
      assert PlainHex(b) == HexPair(b[0]) + [];
    } else if |b| > 1 {
      var p := HexPair(b[0]);
      var rest := BytesToHex(b[1..]);
      assert HexPairs(b)[1..] == HexPairs(b[1..]);
      assert BytesToHex(b) == p + (" " + rest);
      CleanBytesToHex(b[1..]);
      CleanHexPair(b[0]);
      CleanSeparated(p, rest);
    }
  }

  /// Every pair `format!("{:02x}")` writes reads back as its byte.
  lemma HexPairValue(x: byte)
    ensures PairValue(HexPair(x)) == Some(x)
  {
  }

  lemma {:induction false} DecodePlainHex(b: Bytes, position: nat)
    ensures DecodePairs(PlainHex(b), position) == Ok(b)
    decreases |b|
  {
    if b != [] {
      var c := PlainHex(b);
      HexPairValue(b[0]);
      assert c[..2] == HexPair(b[0]) && c[2..] == PlainHex(b[1..]);
      DecodePlainHex(b[1..], position + 2);
      assert [b[0]] + b[1..] == b;
    }
  }

  /// `hex_to_bytes(bytes_to_hex(b)) == b`.
  lemma HexRoundTrip(b: Bytes)
    ensures HexDecode(BytesToHex(b)) == Ok(b)
  {
    CleanBytesToHex(b);
    DecodePlainHex(b, 0);
  }

  /// The form without spaces decodes the same way.
  lemma PlainHexRoundTrip(b: Bytes)
    ensures HexDecode(PlainHex(b)) == Ok(b)
  {
    CleanPlainHex(b);
    DecodePlainHex(b, 0);
  }

  /// A byte in front adds its pair and one separator.
  lemma BytesToHexPrepend(x: byte, rest: Bytes)
    requires rest != []
    ensures BytesToHex([x] + rest) == HexPair(x) + " " + BytesToHex(rest)
  {
    assert HexPairs([x] + rest)[1..] == HexPairs(rest);
  }

  /// The bytes 00 01 fe ff are shown as `00 01 fe ff`.
  lemma HexExample()
    ensures BytesToHex([0x00, 0x01, 0xfe, 0xff]) == "00 01 fe ff"
  {
    var t2: Bytes := [0xff];
    var t1 := [0xfe] + t2;
    var t0 := [0x01] + t1;
    BytesToHexPrepend(0xfe, t2);
    BytesToHexPrepend(0x01, t1);
    BytesToHexPrepend(0x00, t0);
    assert BytesToHex(t2) == "ff";
    assert BytesToHex(t1) == "fe ff";
    assert BytesToHex(t0) == "01 fe ff";
    assert [0x00] + t0 == [0x00, 0x01, 0xfe, 0xff];
  }

  /// The UTF-8 bytes of "hello" are shown as `68 65 6c 6c 6f`.
  lemma HelloHex()
    ensures BytesToHex([0x68, 0x65, 0x6c, 0x6c, 0x6f]) == "68 65 6c 6c 6f"
  {
    var t3: Bytes := [0x6f];
    var t2 := [0x6c] + t3;
    var t1 := [0x6c] + t2;
    var t0 := [0x65] + t1;
    BytesToHexPrepend(0x6c, t3);
    BytesToHexPrepend(0x6c, t2);
    BytesToHexPrepend(0x65, t1);
    BytesToHexPrepend(0x68, t0);
    assert BytesToHex(t3) == "6f";
    assert BytesToHex(t2) == "6c 6f";
    assert BytesToHex(t1) == "6c 6c 6f";
    assert BytesToHex(t0) == "65 6c 6c 6f";
    assert [0x68] + t0 == [0x68, 0x65, 0x6c, 0x6c, 0x6f];
  }

  // ---------------------------------------------------------------------
  // Editor text
  // ---------------------------------------------------------------------

  function Utf8Text(b: Bytes, libs: Libs): (r: Result<string>)
    ensures r.Ok? <==> Decode(b).Some?
    ensures r.Ok? ==> r.value == Decode(b).value
  {
    match Decode(b)
    case Some(s) => Ok(s)
    case None => Err(Invalid("Invalid UTF-8: " + libs.utf8Error(b)))
  }

  function PrettyJson(v: Json, libs: Libs): Result<string>
  {
    match libs.jsonPretty(v)
    case Ok(s) => Ok(s)
    case Err(e) => Err(Invalid("JSON serialization failed: " + e))
  }

  /// `decode_to_text`: the editor text for bytes in a given format.
  function DecodeToText(b: Bytes, f: EditFormat, libs: Libs): (r: Result<string>)
    ensures f == EditText ==> r == Utf8Text(b, libs)
    ensures f == EditHex ==> r == Ok(BytesToHex(b))
    ensures f == EditJson && r.Ok? ==> Decode(b).Some? && libs.jsonFromText(Decode(b).value).Ok?
    ensures f == EditMessagePack && r.Ok? ==> libs.msgpackDecode(b).Ok?
    ensures f == EditProtobufJson ==> r == Err(Invalid("Protobuf decoding requires schema"))
  {
    match f
    case EditText => Utf8Text(b, libs)
    case EditJson =>
      (match Utf8Text(b, libs)
       case Err(e) => Err(e)
       case Ok(text) =>
         match libs.jsonFromText(text)
         case Err(e) => Err(Invalid("Invalid JSON: " + e))
         case Ok(v) => PrettyJson(v, libs))
    case EditHex => Ok(BytesToHex(b))
    case EditMessagePack =>
      (match libs.msgpackDecode(b)
       case Err(e) => Err(Invalid("Invalid MessagePack: " + e))
       case Ok(v) => PrettyJson(v, libs))
    case EditProtobufJson => Err(Invalid("Protobuf decoding requires schema"))
  }

  /// `encode_from_text`: the bytes for editor text in a given format.
  function EncodeFromText(text: string, f: EditFormat, libs: Libs): (r: Result<Bytes>)
    ensures f == EditText ==> r == Ok(Encode(text))
    ensures f == EditHex ==> r == HexDecode(text)
    ensures (f == EditJson || f == EditMessagePack) && r.Ok? ==> libs.jsonFromText(text).Ok?
    ensures f == EditProtobufJson ==> r == Err(Invalid("Protobuf encoding requires schema"))
  {
    match f
    case EditText => Ok(Encode(text))
    case EditJson =>
      (match libs.jsonFromText(text)
       case Err(e) => Err(Invalid("Invalid JSON: " + e))
       case Ok(v) =>
         match libs.jsonCompact(v)
         case Err(e) => Err(Invalid("JSON serialization failed: " + e))
         case Ok(bytes) => Ok(bytes))
    case EditHex => HexDecode(text)
    case EditMessagePack =>
      (match libs.jsonFromText(text)
       case Err(e) => Err(Invalid("Invalid JSON: " + e))
       case Ok(v) =>
         match libs.msgpackEncode(v)
         case Err(e) => Err(Invalid("MessagePack serialization failed: " + e))
         case Ok(bytes) => Ok(bytes))
    case EditProtobufJson => Err(Invalid("Protobuf encoding requires schema"))
  }

  /// `validate_format`: plain text is always valid, JSON-based formats
  /// need text serde_json parses, hex needs text `hex_to_bytes` accepts.
  function ValidateFormat(text: string, f: EditFormat, libs: Libs): (r: Result<()>)
    ensures f == EditText ==> r.Ok?
    ensures f == EditHex ==> (r.Ok? <==> HexDecode(text).Ok?)
    ensures f == EditHex && r.Err? ==> r.error == HexDecode(text).error
    ensures f in {EditJson, EditMessagePack, EditProtobufJson} ==> (r.Ok? <==> libs.jsonFromText(text).Ok?)
  {
    match f
    case EditText => Ok(())
    case EditHex =>
      (match HexDecode(text)
       case Err(e) => Err(e)
       case Ok(_) => Ok(()))
    case _ =>
      match libs.jsonFromText(text)
      case Err(e) => Err(Invalid("Invalid JSON: " + e))
      case Ok(_) => Ok(())
  }

  /// Bytes shown in the hex editor are saved back unchanged.
  lemma HexEditRoundTrip(b: Bytes, libs: Libs)
    ensures DecodeToText(b, EditHex, libs).Ok?
    ensures EncodeFromText(DecodeToText(b, EditHex, libs).value, EditHex, libs) == Ok(b)
  {
    HexRoundTrip(b);
  }

  /// Text saved from the text editor shows up as the same text.
  lemma TextEditRoundTrip(s: string, libs: Libs)
    ensures EncodeFromText(s, EditText, libs).Ok?
    ensures DecodeToText(EncodeFromText(s, EditText, libs).value, EditText, libs) == Ok(s)
  {
    DecodeEncode(s);
  }
}
