// The value-editing session of src/states/edit_session.rs: the raw value
// as read from Redis, what detection found out about it, and the editor
// state (format, text, working bytes, flags) that edits and format
// switches change, with explicit rollback where the source rolls back.
//
// JSON and MessagePack (de)serialisation and the compressors are the
// abstract functions of `Codec.Libs`.

module EditSessionState {
  import opened Wrappers
  import opened Binary
  import opened Codec

  datatype EditStatus = Idle | Loading | Saving

  /// The part of the session that edits and format switches change.
  datatype EditorState = EditorState(format: EditFormat, text: string, working: Bytes,
                                     dirty: bool, valid: bool, error: Option<string>)

  // ---------------------------------------------------------------------
  // Specification on values
  // ---------------------------------------------------------------------

  /// `refresh_editor_text`: the editor text for the working bytes in the
  /// current format; with `allowFallback` a failure switches to hex and
  /// records why, without it the failure marks the text invalid.
  function Refreshed(e: EditorState, allowFallback: bool, libs: Libs): (Result<()>, EditorState)
  {
    match DecodeToText(e.working, e.format, libs)
    case Ok(text) => (Ok(()), e.(text := text, valid := true, error := None))
    case Err(m) =>
      if allowFallback then
        var e1 := e.(format := EditHex);
        match DecodeToText(e.working, EditHex, libs)
        case Err(h) => (Err(h), e1)
        case Ok(text) => (Ok(()), e1.(text := text, valid := true, error := Some("Switched to Hex: " + m)))
      else (Err(m), e.(valid := false, error := Some(m)))
  }

  /// The refresh that ends a MessagePack conversion: success marks the
  /// session dirty, failure keeps whatever the refresh left.
  function Settled(step: (Result<()>, EditorState)): (Result<()>, EditorState)
  {
    if step.0.Ok? then (step.0, step.1.(dirty := true)) else step
  }

  /// `serde_json::from_slice`, and failing that `serde_json::from_str` on
  /// the bytes as UTF-8; the error is the one of the second attempt.
  function JsonOfBytes(b: Bytes, libs: Libs): (r: Result<JsonValue.Json>)
    ensures libs.jsonFromBytes(b).Ok? ==> r == libs.jsonFromBytes(b)
    ensures r.Err? ==> libs.jsonFromBytes(b).Err? && (IsUtf8(b) ==> libs.jsonFromText(Decode(b).value).Err?)
  {
    match libs.jsonFromBytes(b)
    case Ok(v) => Ok(v)
    case Err(_) =>
      match Decode(b)
      case Some(text) => libs.jsonFromText(text)
      case None => Err(libs.utf8Error(b))
  }

  predicate JsonMessagePackPair(from: EditFormat, to: EditFormat)
  {
    (from == EditJson && to == EditMessagePack) || (from == EditMessagePack && to == EditJson)
  }

  /// JSON and MessagePack both show JSON text, so switching between them
  /// re-parses and pretty-prints the text and encodes it for the target.
  function ConvertJsonMessagePack(e: EditorState, fmt: EditFormat, libs: Libs): (Result<()>, EditorState)
  {
    match libs.jsonFromText(e.text)
    case Err(m) => (Err(Invalid("Invalid JSON: " + m)), e)
    case Ok(v) =>
      match libs.jsonPretty(v)
      case Err(m) => (Err(Invalid(m)), e)
      case Ok(pretty) =>
        var e1 := e.(text := pretty);
        match EncodeFromText(pretty, fmt, libs)
        case Err(m) => (Err(m), e1)
        case Ok(bytes) =>
          (Ok(()), e1.(working := bytes, format := fmt, dirty := true, valid := true, error := None))
  }

  /// Switching to MessagePack from text or hex: the bytes the editor holds
  /// are read as JSON and packed.
  function ConvertToMessagePack(e: EditorState, libs: Libs): (Result<()>, EditorState)
  {
    match EncodeFromText(e.text, e.format, libs)
    case Err(m) => (Err(m), e)
    case Ok(bytes) =>
      match JsonOfBytes(bytes, libs)
      case Err(m) => (Err(Invalid("Cannot convert to MessagePack: " + m)), e)
      case Ok(v) =>
        match libs.msgpackEncode(v)
        case Err(m) => (Err(Invalid(m)), e)
        case Ok(packed) => Settled(Refreshed(e.(working := packed, format := EditMessagePack), false, libs))
  }

  /// Switching from MessagePack to anything but JSON: the packed value
  /// becomes compact JSON bytes first.
  function ConvertFromMessagePack(e: EditorState, fmt: EditFormat, libs: Libs): (Result<()>, EditorState)
  {
    match libs.msgpackDecode(e.working)
    case Err(m) => (Err(Invalid(m)), e)
    case Ok(v) =>
      match libs.jsonCompact(v)
      case Err(m) => (Err(Invalid(m)), e)
      case Ok(json) => Settled(Refreshed(e.(working := json, format := fmt), false, libs))
  }

  /// Every other switch goes through the bytes of the current text and
  /// restores the old state when the target format cannot show them.
  function ConvertBytes(e: EditorState, fmt: EditFormat, libs: Libs): (Result<()>, EditorState)
  {
    match EncodeFromText(e.text, e.format, libs)
    case Err(m) => (Err(m), e)
    case Ok(bytes) =>
      var step := Refreshed(e.(working := bytes, format := fmt), false, libs);
      if step.0.Err? then (step.0, e) else (step.0, step.1.(dirty := true))
  }

  /// `set_editor_format`. Each `?` returns at once with whatever has been
  /// assigned so far; only the byte-level switch restores the old state
  /// when the new format cannot show the bytes.
  function SwitchFormat(e: EditorState, fmt: EditFormat, libs: Libs): (Result<()>, EditorState)
  {
    if fmt == e.format then (Ok(()), e)
    else if JsonMessagePackPair(e.format, fmt) then ConvertJsonMessagePack(e, fmt, libs)
    else if fmt == EditMessagePack then ConvertToMessagePack(e, libs)
    else if e.format == EditMessagePack then ConvertFromMessagePack(e, fmt, libs)
    else ConvertBytes(e, fmt, libs)
  }

  /// The validity flags for the current text, as `validate` and
  /// `set_editor_text` set them.
  function Checked(e: EditorState, libs: Libs): (c: EditorState)
  {
    match ValidateFormat(e.text, e.format, libs)
    case Ok(_) => e.(valid := true, error := None)
    case Err(m) => e.(valid := false, error := Some(m))
  }

  /// `set_editor_text`.
  function EditedText(e: EditorState, text: string, libs: Libs): EditorState
  {
    if text == e.text then e else Checked(e.(text := text, dirty := true), libs)
  }

  /// `can_save`.
  predicate Saveable(e: EditorState, isPreview: bool, status: EditStatus)
  {
    e.valid && e.dirty && !isPreview && status == Idle
  }

  /// `build_save_bytes`: the recorded error when the text is invalid,
  /// otherwise the text turned into bytes and compressed.
  function SaveBytes(e: EditorState, compression: CompressionFormat, libs: Libs): (r: Result<Bytes>)
  {
    if !e.valid then Err(Invalid(if e.error.Some? then e.error.value else "Invalid data"))
    else
      match EncodeFromText(e.text, e.format, libs)
      case Err(m) => Err(m)
      case Ok(raw) => Compress(raw, compression, libs)
  }

  /// The editor state `detect_and_init` ends with for the working bytes it
  /// obtained and the format it suggested.
  function InitialEditor(e: EditorState, libs: Libs): EditorState
  {
    var step := Refreshed(e, true, libs);
    step.1.(dirty := false, valid := true, error := None)
  }

  /// The working copy `detect_and_init` makes: the raw value when it is
  /// not compressed, else its decompression within the cap.
  function WorkingBytes(raw: Bytes, compression: CompressionFormat, max: nat, libs: Libs): (r: Result<Bytes>)
    ensures compression == NoCompression ==> r == Ok(raw)
    ensures compression != NoCompression && r.Ok? ==> |r.value| <= max
  {
    if compression != NoCompression then Decompressed(raw, compression, max, libs) else Ok(raw)
  }

  /// `available_edit_formats`.
  function AvailableFormats(content: ContentFormat, text: string, libs: Libs): (r: seq<EditFormat>)
  {
    var base := if content == ContentJson || libs.jsonFromText(text).Ok? then [EditText, EditJson, EditHex]
                else [EditText, EditHex];
    if content == ContentMessagePack then base + [EditMessagePack] else base
  }

  // ---------------------------------------------------------------------
  // Properties
  // ---------------------------------------------------------------------

  /// Hex can show any bytes, so a refresh with fallback never fails and
  /// leaves valid text in the suggested format or in hex.
  lemma RefreshWithFallback(e: EditorState, libs: Libs)
    ensures Refreshed(e, true, libs).0.Ok?
    ensures Refreshed(e, true, libs).1.valid
    ensures Refreshed(e, true, libs).1.working == e.working
    ensures Refreshed(e, true, libs).1.dirty == e.dirty
    ensures DecodeToText(e.working, e.format, libs).Ok? ==>
      Refreshed(e, true, libs).1 == e.(text := DecodeToText(e.working, e.format, libs).value, valid := true, error := None)
    ensures DecodeToText(e.working, e.format, libs).Err? ==>
      Refreshed(e, true, libs).1.format == EditHex && Refreshed(e, true, libs).1.text == BytesToHex(e.working)
  {
  }

  /// After `detect_and_init` the editor shows the working bytes: in the
  /// suggested format when they can be shown that way, in hex otherwise,
  /// and hex text reads back as exactly those bytes.
  lemma InitialEditorShowsWorkingBytes(e: EditorState, working: Bytes, suggested: EditFormat, libs: Libs)
    ensures var i := InitialEditor(e.(working := working, format := suggested), libs);
      i.working == working && !i.dirty && i.valid && i.error == None
      && (i.format == suggested || i.format == EditHex)
      && (DecodeToText(working, suggested, libs).Ok? ==> i.format == suggested && i.text == DecodeToText(working, suggested, libs).value)
      && (i.format == EditHex ==> EncodeFromText(i.text, EditHex, libs) == Ok(working))
  {
    var i := InitialEditor(e.(working := working, format := suggested), libs);
    RefreshWithFallback(e.(working := working, format := suggested), libs);
    if i.format == EditHex {
      HexEditRoundTrip(working, libs);
    }
  }

  /// Switching to the current format changes nothing.
  lemma SwitchToSameFormat(e: EditorState, libs: Libs)
    ensures SwitchFormat(e, e.format, libs) == (Ok(()), e)
  {
  }

  /// Every successful switch to another format lands in that format with
  /// valid text, no error and the session marked dirty.
  lemma SwitchSuccess(e: EditorState, fmt: EditFormat, libs: Libs)
    requires fmt != e.format && SwitchFormat(e, fmt, libs).0.Ok?
    ensures var s := SwitchFormat(e, fmt, libs).1;
      s.format == fmt && s.valid && s.error == None && s.dirty
    ensures !JsonMessagePackPair(e.format, fmt) ==>
      var s := SwitchFormat(e, fmt, libs).1;
      DecodeToText(s.working, fmt, libs) == Ok(s.text)
  {
    if JsonMessagePackPair(e.format, fmt) {
      assert SwitchFormat(e, fmt, libs) == ConvertJsonMessagePack(e, fmt, libs);
    } else if fmt == EditMessagePack {
      assert SwitchFormat(e, fmt, libs) == ConvertToMessagePack(e, libs);
      var bytes := EncodeFromText(e.text, e.format, libs).value;
      var packed := libs.msgpackEncode(JsonOfBytes(bytes, libs).value).value;
      RefreshSucceeds(e.(working := packed, format := EditMessagePack), libs);
    } else if e.format == EditMessagePack {
      assert SwitchFormat(e, fmt, libs) == ConvertFromMessagePack(e, fmt, libs);
      var json := libs.jsonCompact(libs.msgpackDecode(e.working).value).value;
      RefreshSucceeds(e.(working := json, format := fmt), libs);
    } else {
      assert SwitchFormat(e, fmt, libs) == ConvertBytes(e, fmt, libs);
      RefreshSucceeds(e.(working := EncodeFromText(e.text, e.format, libs).value, format := fmt), libs);
    }
  }

  /// A refresh without fallback succeeds exactly when the format can show
  /// the working bytes, and then shows them.
  lemma RefreshSucceeds(e: EditorState, libs: Libs)
    ensures Refreshed(e, false, libs).0.Ok? <==> DecodeToText(e.working, e.format, libs).Ok?
    ensures Refreshed(e, false, libs).0.Ok? ==>
      Refreshed(e, false, libs).1 == e.(text := DecodeToText(e.working, e.format, libs).value, valid := true, error := None)
    ensures Refreshed(e, false, libs).0.Err? ==>
      Refreshed(e, false, libs).1 == e.(valid := false, error := Some(DecodeToText(e.working, e.format, libs).error))
  {
  }

  /// A failed byte-level switch restores the working bytes, the format,
  /// the text and the validity flags.
  lemma FailedSwitchRollsBack(e: EditorState, fmt: EditFormat, libs: Libs)
    requires fmt != e.format && fmt != EditMessagePack && e.format != EditMessagePack
    requires SwitchFormat(e, fmt, libs).0.Err?
    ensures SwitchFormat(e, fmt, libs).1 == e
  {
  }

  /// A switch to MessagePack from text that is not JSON fails and keeps
  /// the format.
  lemma NonJsonToMessagePackFails(e: EditorState, libs: Libs)
    requires e.format in {EditText, EditHex}
    requires EncodeFromText(e.text, e.format, libs).Ok?
    requires JsonOfBytes(EncodeFromText(e.text, e.format, libs).value, libs).Err?
    ensures SwitchFormat(e, EditMessagePack, libs).0.Err?
    ensures SwitchFormat(e, EditMessagePack, libs).1 == e
  {
  }

  /// The conversions out of MessagePack do not roll back: when the target
  /// format cannot show the JSON bytes, the session stays in the target
  /// format, holding those bytes, with the text marked invalid.
  lemma FromMessagePackKeepsTarget(e: EditorState, fmt: EditFormat, libs: Libs)
    requires e.format == EditMessagePack && fmt != EditMessagePack && fmt != EditJson
    requires libs.msgpackDecode(e.working).Ok? && libs.jsonCompact(libs.msgpackDecode(e.working).value).Ok?
    requires DecodeToText(libs.jsonCompact(libs.msgpackDecode(e.working).value).value, fmt, libs).Err?
    ensures var s := SwitchFormat(e, fmt, libs);
      s.0.Err? && s.1.format == fmt && !s.1.valid && s.1.text == e.text
      && s.1.working == libs.jsonCompact(libs.msgpackDecode(e.working).value).value
  {
  }

  /// Text switched to Hex becomes the hex dump of its UTF-8 bytes, which
  /// become the working bytes; the session is dirty and valid.
  lemma TextToHexSwitch(e: EditorState, libs: Libs)
    requires e.format == EditText
    ensures SwitchFormat(e, EditHex, libs) ==
      (Ok(()), e.(format := EditHex, text := BytesToHex(Encode(e.text)), working := Encode(e.text),
                  dirty := true, valid := true, error := None))
  {
    var b := Encode(e.text);
    assert EncodeFromText(e.text, e.format, libs) == Ok(b);
    var e2 := e.(working := b, format := EditHex);
    assert DecodeToText(b, EditHex, libs) == Ok(BytesToHex(b));
    RefreshSucceeds(e2, libs);
    assert SwitchFormat(e, EditHex, libs) == ConvertBytes(e, EditHex, libs);
  }

  /// The text "hello" switched from Text to Hex reads `68 65 6c 6c 6f`.
  lemma HelloAsHex(e: EditorState, libs: Libs)
    requires e.format == EditText && e.text == "hello"
    ensures SwitchFormat(e, EditHex, libs) ==
      (Ok(()), e.(format := EditHex, text := "68 65 6c 6c 6f", working := [0x68, 0x65, 0x6c, 0x6c, 0x6f],
                  dirty := true, valid := true, error := None))
  {
    var b: Bytes := [0x68, 0x65, 0x6c, 0x6c, 0x6f];
    EncodeAscii("hello");
    assert Encode("hello") == b;
    HelloHex();
    TextToHexSwitch(e, libs);
  }

  /// Setting the same text changes nothing; other text is stored, marks
  /// the session dirty and is validated for the current format.
  lemma EditedTextFlags(e: EditorState, text: string, libs: Libs)
    ensures text == e.text ==> EditedText(e, text, libs) == e
    ensures text != e.text ==>
      var s := EditedText(e, text, libs);
      s.text == text && s.dirty && s.format == e.format && s.working == e.working
      && (s.valid <==> ValidateFormat(text, e.format, libs).Ok?)
      && (s.error.None? <==> s.valid)
  {
  }

  /// New valid text makes an idle, non-preview session saveable; invalid
  /// text never is.
  lemma EditThenSave(e: EditorState, text: string, libs: Libs)
    requires text != e.text
    ensures ValidateFormat(text, e.format, libs).Ok? ==> Saveable(EditedText(e, text, libs), false, Idle)
    ensures ValidateFormat(text, e.format, libs).Err? ==>
      forall p, st :: !Saveable(EditedText(e, text, libs), p, st)
  {
  }

  /// Invalid text cannot be saved, and the save error is the recorded one.
  lemma InvalidNotSaved(e: EditorState, compression: CompressionFormat, libs: Libs)
    requires !e.valid
    ensures SaveBytes(e, compression, libs).Err?
    ensures e.error.Some? ==> SaveBytes(e, compression, libs) == Err(Invalid(e.error.value))
  {
  }

  /// Valid plain text saved without compression is its UTF-8 bytes, which
  /// read back as the same text.
  lemma TextSaveRoundTrip(e: EditorState, libs: Libs)
    requires e.valid && e.format == EditText
    ensures SaveBytes(e, NoCompression, libs) == Ok(Encode(e.text))
    ensures DecodeToText(SaveBytes(e, NoCompression, libs).value, EditText, libs) == Ok(e.text)
  {
    TextEditRoundTrip(e.text, libs);
  }

  /// Hex text shown for some bytes is saved, uncompressed, as those bytes.
  lemma HexSaveRoundTrip(e: EditorState, b: Bytes, libs: Libs)
    requires e.valid && e.format == EditHex && e.text == BytesToHex(b)
    ensures SaveBytes(e, NoCompression, libs) == Ok(b)
  {
    HexRoundTrip(b);
  }

  /// Text and hex are always offered, text first; JSON exactly when the
  /// content is JSON or the text parses; MessagePack exactly for
  /// MessagePack content; never protobuf JSON; no format twice.
  lemma AvailableFormatsShape(content: ContentFormat, text: string, libs: Libs)
    ensures var r := AvailableFormats(content, text, libs);
      r[0] == EditText && EditHex in r && EditProtobufJson !in r
      && (EditJson in r <==> content == ContentJson || libs.jsonFromText(text).Ok?)
      && (EditMessagePack in r <==> content == ContentMessagePack)
      && (forall i, j :: 0 <= i < j < |r| ==> r[i] != r[j])
  {
  }

  // ---------------------------------------------------------------------
  // The session
  // ---------------------------------------------------------------------

  class EditSession {
    var key: string
    var originalBytes: Bytes
    var originalLen: nat
    var compression: CompressionFormat
    var content: ContentFormat
    var mime: Option<string>
    var isPreview: bool
    var editorFormat: EditFormat
    var editorText: string
    var workingBytes: Bytes
    var saveCompression: CompressionFormat
    var dirty: bool
    var valid: bool
    var error: Option<string>
    var status: EditStatus
    var maxDecompressBytes: nat

    function State(): EditorState
      reads this
    {
      EditorState(editorFormat, editorText, workingBytes, dirty, valid, error)
    }

    /// `EditSession::new`: the defaults with the key and the raw value.
    constructor (key: string, raw: Bytes)
      ensures this.key == key && originalBytes == raw && originalLen == |raw|
      ensures compression == NoCompression && content == ContentText && mime == None && !isPreview
      ensures State() == EditorState(EditText, "", [], false, true, None)
      ensures saveCompression == NoCompression && status == Idle
      ensures maxDecompressBytes == MAX_DECOMPRESS_BYTES
    {
      this.key := key;
      originalBytes := raw;
      originalLen := |raw|;
      compression := NoCompression;
      content := ContentText;
      mime := None;
      isPreview := false;
      editorFormat := EditText;
      editorText := "";
      workingBytes := [];
      saveCompression := NoCompression;
      dirty := false;
      valid := true;
      error := None;
      status := Idle;
      maxDecompressBytes := MAX_DECOMPRESS_BYTES;
    }

    /// `refresh_editor_text`.
    method RefreshEditorText(allowFallback: bool, libs: Libs) returns (r: Result<()>)
      modifies this`editorFormat, this`editorText, this`valid, this`error
      ensures (r, State()) == Refreshed(old(State()), allowFallback, libs)
    {
      var decoded := DecodeToText(workingBytes, editorFormat, libs);
      if decoded.Ok? {
        editorText := decoded.value;
        valid := true;
        error := None;
        return Ok(());
      }
      if allowFallback {
        editorFormat := EditHex;
        var hex := DecodeToText(workingBytes, EditHex, libs);
        if hex.Err? {
          return Err(hex.error);
        }
        editorText := hex.value;
        valid := true;
        error := Some("Switched to Hex: " + decoded.error);
        return Ok(());
      }
      valid := false;
      error := Some(decoded.error);
      return Err(decoded.error);
    }

    /// The first steps of `detect_and_init`: loading, and what detection
    /// found, the save compression defaulting to the detected one.
    method ApplyDetection(libs: Libs) returns (detection: Detection)
      modifies this`status, this`compression, this`content, this`mime, this`saveCompression
      ensures detection == Detect(originalBytes, libs) && status == Loading
      ensures compression == detection.compression && content == detection.content && mime == detection.mime
      ensures saveCompression == detection.compression
    {
      status := Loading;
      detection := Detect(originalBytes, libs);
      compression := detection.compression;
      content := detection.content;
      mime := detection.mime;
      saveCompression := compression;
    }

    /// The working copy: decompressed within the session's cap when
    /// compressed, the raw value otherwise.
    method LoadWorkingBytes(libs: Libs) returns (r: Result<()>)
      modifies this`workingBytes
      ensures var w := WorkingBytes(originalBytes, compression, maxDecompressBytes, libs);
        (w.Err? ==> r == Err(w.error) && workingBytes == old(workingBytes))
        && (w.Ok? ==> r.Ok? && workingBytes == w.value)
    {
      if compression != NoCompression {
        var plain := Decompress(originalBytes, compression, maxDecompressBytes, libs);
        if plain.Err? {
          return Err(plain.error);
        }
        workingBytes := plain.value;
      } else {
        workingBytes := originalBytes;
      }
      return Ok(());
    }

    /// The last steps of `detect_and_init`: the suggested format, its text
    /// (falling back to hex), and a clean, valid, idle session.
    method FinishInit(isUtf8: bool, libs: Libs)
      modifies this`status, this`editorFormat, this`editorText, this`dirty, this`valid, this`error
      ensures status == Idle
      ensures State() == InitialEditor(old(State()).(format := SuggestEditFormat(content, isUtf8)), libs)
    {
      editorFormat := SuggestEditFormat(content, isUtf8);
      var refreshed := RefreshEditorText(true, libs);
      status := Idle;
      dirty := false;
      valid := true;
      error := None;
    }

    /// The rest of `detect_and_init` once detection is recorded: the
    /// working copy, then the suggested format and its text.
    method LoadAndShow(isUtf8: bool, libs: Libs) returns (r: Result<()>)
      modifies this`status, this`workingBytes, this`editorFormat, this`editorText, this`dirty, this`valid, this`error
      ensures var w := WorkingBytes(originalBytes, compression, maxDecompressBytes, libs);
        (w.Err? ==> r == Err(w.error) && status == old(status) && State() == old(State()))
        && (w.Ok? ==>
              r.Ok? && status == Idle
              && State() == InitialEditor(old(State()).(working := w.value, format := SuggestEditFormat(content, isUtf8)), libs))
    {
      r := LoadWorkingBytes(libs);
      if r.Err? {
        return;
      }
      ghost var loaded := State();
      FinishInit(isUtf8, libs);
      assert loaded.(format := SuggestEditFormat(content, isUtf8))
          == old(State()).(working := workingBytes, format := SuggestEditFormat(content, isUtf8));
    }

    /// `detect_and_init`: detection, decompression with the session's cap,
    /// the suggested format and its text; on success the session is idle,
    /// clean and valid. A failed decompression leaves it loading.
    method DetectAndInit(libs: Libs) returns (r: Result<()>)
      modifies this`status, this`compression, this`content, this`mime, this`saveCompression
      modifies this`workingBytes, this`editorFormat, this`editorText, this`dirty, this`valid, this`error
      ensures var d := Detect(originalBytes, libs);
        compression == d.compression && content == d.content && mime == d.mime
        && saveCompression == d.compression
      ensures var d := Detect(originalBytes, libs);
        var w := WorkingBytes(originalBytes, d.compression, maxDecompressBytes, libs);
        (w.Err? ==> r == Err(w.error) && status == Loading && State() == old(State()))
        && (w.Ok? ==>
              r.Ok? && status == Idle
              && State() == InitialEditor(old(State()).(working := w.value, format := SuggestEditFormat(d.content, d.isUtf8)), libs))
    {
      var detection := ApplyDetection(libs);
      r := LoadAndShow(detection.isUtf8, libs);
    }

    method ConvertingJsonMessagePack(fmt: EditFormat, libs: Libs) returns (r: Result<()>)
      modifies this`editorFormat, this`editorText, this`workingBytes, this`dirty, this`valid, this`error
      ensures (r, State()) == ConvertJsonMessagePack(old(State()), fmt, libs)
    {
      var value := libs.jsonFromText(editorText);
      if value.Err? {
        return Err(Invalid("Invalid JSON: " + value.error));
      }
      var pretty := libs.jsonPretty(value.value);
      if pretty.Err? {
        return Err(Invalid(pretty.error));
      }
      editorText := pretty.value;
      var bytes := EncodeFromText(editorText, fmt, libs);
      if bytes.Err? {
        return Err(bytes.error);
      }
      workingBytes := bytes.value;
      editorFormat := fmt;
      dirty := true;
      valid := true;
      error := None;
      return Ok(());
    }

    method ConvertingToMessagePack(libs: Libs) returns (r: Result<()>)
      modifies this`editorFormat, this`editorText, this`workingBytes, this`dirty, this`valid, this`error
      ensures (r, State()) == ConvertToMessagePack(old(State()), libs)
    {
      var bytes := EncodeFromText(editorText, editorFormat, libs);
      if bytes.Err? {
        return Err(bytes.error);
      }
      var value := JsonOfBytes(bytes.value, libs);
      if value.Err? {
        return Err(Invalid("Cannot convert to MessagePack: " + value.error));
      }
      var packed := libs.msgpackEncode(value.value);
      if packed.Err? {
        return Err(Invalid(packed.error));
      }
      workingBytes := packed.value;
      editorFormat := EditMessagePack;
      r := RefreshEditorText(false, libs);
      if r.Ok? {
        dirty := true;
      }
    }

    method ConvertingFromMessagePack(fmt: EditFormat, libs: Libs) returns (r: Result<()>)
      modifies this`editorFormat, this`editorText, this`workingBytes, this`dirty, this`valid, this`error
      ensures (r, State()) == ConvertFromMessagePack(old(State()), fmt, libs)
    {
      var value := libs.msgpackDecode(workingBytes);
      if value.Err? {
        return Err(Invalid(value.error));
      }
      var json := libs.jsonCompact(value.value);
      if json.Err? {
        return Err(Invalid(json.error));
      }
      workingBytes := json.value;
      editorFormat := fmt;
      r := RefreshEditorText(false, libs);
      if r.Ok? {
        dirty := true;
      }
    }

    method ConvertingBytes(fmt: EditFormat, libs: Libs) returns (r: Result<()>)
      modifies this`editorFormat, this`editorText, this`workingBytes, this`dirty, this`valid, this`error
      ensures (r, State()) == ConvertBytes(old(State()), fmt, libs)
    {
      var bytes := EncodeFromText(editorText, editorFormat, libs);
      if bytes.Err? {
        return Err(bytes.error);
      }
      var oldWorkingBytes, oldFormat, oldText, oldValid, oldError := workingBytes, editorFormat, editorText, valid, error;
      workingBytes := bytes.value;
      editorFormat := fmt;
      r := RefreshEditorText(false, libs);
      if r.Err? {
        workingBytes := oldWorkingBytes;
        editorFormat := oldFormat;
        editorText := oldText;
        valid := oldValid;
        error := oldError;
        return;
      }
      dirty := true;
    }

    /// `set_editor_format`.
    method SetEditorFormat(fmt: EditFormat, libs: Libs) returns (r: Result<()>)
      modifies this`editorFormat, this`editorText, this`workingBytes, this`dirty, this`valid, this`error
      ensures (r, State()) == SwitchFormat(old(State()), fmt, libs)
    {
      if fmt == editorFormat {
        return Ok(());
      }
      if JsonMessagePackPair(editorFormat, fmt) {
        r := ConvertingJsonMessagePack(fmt, libs);
      } else if fmt == EditMessagePack {
        r := ConvertingToMessagePack(libs);
      } else if editorFormat == EditMessagePack {
        r := ConvertingFromMessagePack(fmt, libs);
      } else {
        r := ConvertingBytes(fmt, libs);
      }
    }

    /// `set_editor_text`.
    method SetEditorText(text: string, libs: Libs)
      modifies this`editorText, this`dirty, this`valid, this`error
      ensures State() == EditedText(old(State()), text, libs)
    {
      if text == editorText {
        return;
      }
      editorText := text;
      dirty := true;
      var checked := ValidateFormat(editorText, editorFormat, libs);
      if checked.Ok? {
        valid := true;
        error := None;
      } else {
        valid := false;
        error := Some(checked.error);
      }
    }

    /// `set_save_compression`: only a different choice marks the session
    /// dirty.
    method SetSaveCompression(c: CompressionFormat)
      modifies this`saveCompression, this`dirty
      ensures saveCompression == c
      ensures dirty == (old(dirty) || c != old(saveCompression))
    {
      if c != saveCompression {
        saveCompression := c;
        dirty := true;
      }
    }

    /// `validate`.
    method Validate(libs: Libs) returns (ok: bool)
      modifies this`valid, this`error
      ensures State() == Checked(old(State()), libs)
      ensures ok == valid && (ok <==> ValidateFormat(editorText, editorFormat, libs).Ok?)
    {
      var checked := ValidateFormat(editorText, editorFormat, libs);
      if checked.Ok? {
        valid := true;
        error := None;
        return true;
      }
      valid := false;
      error := Some(checked.error);
      return false;
    }

    /// `can_save`.
    function CanSave(): (r: bool)
      reads this
      ensures r == Saveable(State(), isPreview, status)
    {
      valid && dirty && !isPreview && status == Idle
    }

    /// `build_save_bytes`, which changes nothing.
    method BuildSaveBytes(libs: Libs) returns (r: Result<Bytes>)
      ensures r == SaveBytes(State(), saveCompression, libs)
    {
      if !valid {
        return Err(Invalid(if error.Some? then error.value else "Invalid data"));
      }
      var raw := EncodeFromText(editorText, editorFormat, libs);
      if raw.Err? {
        return Err(raw.error);
      }
      r := Compress(raw.value, saveCompression, libs);
    }

    /// `available_edit_formats`.
    method AvailableEditFormats(libs: Libs) returns (formats: seq<EditFormat>)
      ensures formats == AvailableFormats(content, editorText, libs)
    {
      formats := [EditText, EditHex];
      if content == ContentJson || libs.jsonFromText(editorText).Ok? {
        formats := formats[..1] + [EditJson] + formats[1..];
      }
      if content == ContentMessagePack {
        formats := formats + [EditMessagePack];
      }
    }

    /// `would_lose_data`: only hex and MessagePack shown as plain text.
    function WouldLoseData(target: EditFormat): (r: bool)
      reads this
      ensures r ==> target == EditText && editorFormat != EditText
      ensures r <==> target == EditText && editorFormat in {EditHex, EditMessagePack}
    {
      match (editorFormat, target)
      case (EditHex, EditText) => true
      case (EditMessagePack, EditText) => true
      case _ => false
    }
  }
}
