// The protobuf schema state of src/states/server/protobuf.rs: loading .proto
// files through `protoc`, the list of message types, the selected type and
// the error order of decoding and encoding with it. The `protoc` process,
// the file system, `Path::parent` and prost_reflect are the `Toolchain`
// and `MessageCodec` functions; a dynamic message is carried as the JSON
// value prost_reflect's serde support maps it to.

module ProtobufSchemaState {
  import opened Wrappers
  import opened Binary
  import opened Sorting
  import opened JsonValue

  /// `DescriptorPool`, as the fully qualified names of its messages.
  datatype DescriptorPool = DescriptorPool(messages: seq<string>)

  datatype ProcessOutput = ProcessOutput(success: bool, stderr: Bytes)

  datatype Toolchain = Toolchain(
    /// `Path::parent`, rendered back to text.
    parent: string -> Option<string>,
    /// Runs `protoc` with the arguments; an error when it cannot be started.
    runProtoc: seq<string> -> Result<ProcessOutput>,
    /// `std::fs::read`.
    readFile: string -> Result<Bytes>,
    /// `FileDescriptorSet::decode`, as the encoded file descriptors.
    decodeDescriptorSet: Bytes -> Result<seq<Bytes>>,
    /// `DescriptorPool::from_file_descriptor_set`.
    buildPool: seq<Bytes> -> Result<DescriptorPool>)

  datatype MessageCodec = MessageCodec(
    /// `DynamicMessage::decode` for the named type.
    decodeMessage: (string, Bytes) -> Result<Json>,
    /// `serde_json::to_string_pretty` of a message.
    printMessage: Json -> Result<string>,
    /// `DynamicMessage::deserialize` from JSON text for the named type.
    parseMessage: (string, string) -> Result<Json>,
    /// `encode_to_vec`.
    encodeMessage: (string, Json) -> Bytes)

  /// The directories of the paths that have one, in path order.
  function ParentDirs(paths: seq<string>, parent: string -> Option<string>): (r: seq<string>)
    ensures forall d :: d in r <==> exists i :: 0 <= i < |paths| && parent(paths[i]) == Some(d)
  {
    if paths == [] then []
    else
      var rest := ParentDirs(paths[1..], parent);
      assert forall i :: 1 <= i < |paths| ==> paths[1..][i - 1] == paths[i];
      match parent(paths[0])
      case Some(d) => [d] + rest
      case None => rest
  }

  /// The `protoc` command line: one `-I` per include directory, then
  /// `--include_imports`, the output option, `--` and the paths as given.
  function ProtocArgs(dirs: seq<string>, output: string, paths: seq<string>): (args: seq<string>)
    ensures |args| == |dirs| + 3 + |paths|
    ensures forall i :: 0 <= i < |dirs| ==> args[i] == "-I" + dirs[i]
    ensures args[|dirs|] == "--include_imports"
    ensures args[|dirs| + 1] == "-o" + output
    ensures args[|dirs| + 2] == "--"
    ensures args[|dirs| + 3..] == paths
  {
    var includes := seq(|dirs|, i requires 0 <= i < |dirs| => "-I" + dirs[i]);
    includes + ["--include_imports", "-o" + output, "--"] + paths
  }

  /// Every path comes after `--`, so none of them is read as an option.
  lemma PathsAfterSeparator(dirs: seq<string>, output: string, paths: seq<string>, i: nat)
    requires i < |paths|
    ensures var args := ProtocArgs(dirs, output, paths);
      exists k :: 0 <= k < |dirs| + 3 + i && args[k] == "--" && args[|dirs| + 3 + i] == paths[i]
  {
    var args := ProtocArgs(dirs, output, paths);
    assert args[|dirs| + 3..][i] == paths[i];
  }

  /// The include directories: the parents of the proto paths, sorted,
  /// without repeats.
  method IncludeDirs(paths: seq<string>, parent: string -> Option<string>) returns (dirs: seq<string>)
    ensures StrictlySorted(dirs)
    ensures forall d :: d in dirs <==> exists i :: 0 <= i < |paths| && parent(paths[i]) == Some(d)
  {
    var parents := ParentDirs(paths, parent);
    var sorted := SortBy(parents, Identity);
    assert forall d :: d in sorted <==> d in parents by {
      forall d ensures d in sorted <==> d in parents {
        assert d in sorted <==> d in multiset(sorted);
      }
    }
    dirs := Dedup(sorted);
  }

  /// The selection after a reload: a selected type that is still there is
  /// kept; otherwise the first type is selected, or nothing when there are
  /// no types.
  function Reselected(selected: Option<string>, types: seq<string>): (r: Option<string>)
    ensures r.None? <==> types == []
    ensures r.Some? ==> r.value in types
    ensures selected.Some? && selected.value in types ==> r == selected
    ensures (selected.None? || selected.value !in types) && types != [] ==> r == Some(types[0])
  {
    if selected.Some? then
      if selected.value in types then selected
      else if types == [] then None else Some(types[0])
    else if types != [] then Some(types[0])
    else None
  }

  /// The checks `decode` and `encode` make before touching the message, in
  /// order: a schema, a selected type, and that type in the schema.
  function SelectedMessage(pool: Option<DescriptorPool>, selected: Option<string>): (r: Result<string>)
    ensures pool.None? ==> r == Err(Invalid("No schema loaded"))
    ensures pool.Some? && selected.None? ==> r == Err(Invalid("No message type selected"))
    ensures pool.Some? && selected.Some? && selected.value !in pool.value.messages ==>
              r == Err(Invalid("Message type '" + selected.value + "' not found"))
    ensures r.Ok? <==> pool.Some? && selected.Some? && selected.value in pool.value.messages
    ensures r.Ok? ==> r.value == selected.value
  {
    if pool.None? then Err(Invalid("No schema loaded"))
    else if selected.None? then Err(Invalid("No message type selected"))
    else if selected.value !in pool.value.messages then
      Err(Invalid("Message type '" + selected.value + "' not found"))
    else Ok(selected.value)
  }

  /// `ProtobufSchema::decode`: the bytes as pretty JSON of the selected type.
  function DecodeWith(pool: Option<DescriptorPool>, selected: Option<string>, b: Bytes, codec: MessageCodec): (r: Result<string>)
    ensures SelectedMessage(pool, selected).Err? ==> r == Err(SelectedMessage(pool, selected).error)
    ensures SelectedMessage(pool, selected).Ok? && codec.decodeMessage(selected.value, b).Err? ==>
              r == Err(Invalid("Failed to decode protobuf: " + codec.decodeMessage(selected.value, b).error))
  {
    match SelectedMessage(pool, selected)
    case Err(e) => Err(e)
    case Ok(name) =>
      match codec.decodeMessage(name, b)
      case Err(e) => Err(Invalid("Failed to decode protobuf: " + e))
      case Ok(message) =>
        match codec.printMessage(message)
        case Err(e) => Err(Invalid("Failed to serialize to JSON: " + e))
        case Ok(json) => Ok(json)
  }

  /// `ProtobufSchema::encode`: JSON text as the selected type's bytes.
  function EncodeWith(pool: Option<DescriptorPool>, selected: Option<string>, text: string, codec: MessageCodec): (r: Result<Bytes>)
    ensures SelectedMessage(pool, selected).Err? ==> r == Err(SelectedMessage(pool, selected).error)
    ensures SelectedMessage(pool, selected).Ok? ==>
              r == match codec.parseMessage(selected.value, text)
                   case Err(e) => Err(Invalid("Failed to deserialize JSON to protobuf: " + e))
                   case Ok(m) => Ok(codec.encodeMessage(selected.value, m))
  {
    match SelectedMessage(pool, selected)
    case Err(e) => Err(e)
    case Ok(name) =>
      match codec.parseMessage(name, text)
      case Err(e) => Err(Invalid("Failed to deserialize JSON to protobuf: " + e))
      case Ok(message) => Ok(codec.encodeMessage(name, message))
  }

  /// The outcome of running `protoc` and reading back what it wrote, up to
  /// the descriptor pool.
  function CompiledPool(args: seq<string>, output: string, tools: Toolchain): (r: Result<DescriptorPool>)
    ensures tools.runProtoc(args).Err? ==> r == Err(Invalid(
      "Failed to execute protoc: " + tools.runProtoc(args).error + ". Make sure protoc is installed."))
    ensures tools.runProtoc(args).Ok? && !tools.runProtoc(args).value.success ==>
              r == Err(Invalid("protoc failed: " + Lossy(tools.runProtoc(args).value.stderr)))
  {
    match tools.runProtoc(args)
    case Err(e) => Err(Invalid("Failed to execute protoc: " + e + ". Make sure protoc is installed."))
    case Ok(out) =>
      if !out.success then Err(Invalid("protoc failed: " + Lossy(out.stderr)))
      else match tools.readFile(output)
        case Err(e) => Err(Invalid("Failed to read descriptor file: " + e))
        case Ok(bytes) =>
          match tools.decodeDescriptorSet(bytes)
          case Err(e) => Err(Invalid("Failed to parse FileDescriptorSet: " + e))
          case Ok(files) =>
            match tools.buildPool(files)
            case Err(e) => Err(Invalid("Failed to create DescriptorPool: " + e))
            case Ok(pool) => Ok(pool)
  }

  /// The loops that put the include directories and the paths on the
  /// `protoc` command line.
  method BuildProtocArgs(dirs: seq<string>, output: string, paths: seq<string>) returns (args: seq<string>)
    ensures args == ProtocArgs(dirs, output, paths)
  {
    args := [];
    for i := 0 to |dirs|
      invariant args == seq(i, k requires 0 <= k < i => "-I" + dirs[k])
    {
      args := args + ["-I" + dirs[i]];
    }
    args := args + ["--include_imports", "-o" + output, "--"];
    ghost var head := args;
    for i := 0 to |paths|
      invariant args == head + paths[..i]
    {
      args := args + [paths[i]];
      assert paths[..i + 1] == paths[..i] + [paths[i]];
    }
    assert paths[..|paths|] == paths;
  }

  /// Reloading the same type list does not move the selection again.
  lemma ReselectedStable(selected: Option<string>, types: seq<string>)
    ensures Reselected(Reselected(selected, types), types) == Reselected(selected, types)
  {
  }

  /// With a codec whose decoding undoes its encoding, what `encode`
  /// produced decodes back to the same message under the same schema and
  /// selection.
  lemma EncodeThenDecode(pool: Option<DescriptorPool>, selected: Option<string>, text: string, codec: MessageCodec)
    requires EncodeWith(pool, selected, text, codec).Ok?
    requires forall name, m :: codec.decodeMessage(name, codec.encodeMessage(name, m)) == Ok(m)
    ensures var m := codec.parseMessage(selected.value, text).value;
      DecodeWith(pool, selected, EncodeWith(pool, selected, text, codec).value, codec) ==
        match codec.printMessage(m)
        case Err(e) => Err(Invalid("Failed to serialize to JSON: " + e))
        case Ok(json) => Ok(json)
  {
    var m := codec.parseMessage(selected.value, text).value;
    assert codec.decodeMessage(selected.value, codec.encodeMessage(selected.value, m)) == Ok(m);
  }

  /// Decoding and encoding fail the same way for the same schema state.
  lemma SameCheckErrors(pool: Option<DescriptorPool>, selected: Option<string>, b: Bytes, text: string, codec: MessageCodec)
    requires SelectedMessage(pool, selected).Err?
    ensures DecodeWith(pool, selected, b, codec).Err? && EncodeWith(pool, selected, text, codec).Err?
    ensures DecodeWith(pool, selected, b, codec).error == EncodeWith(pool, selected, text, codec).error
  {
  }

  class ProtobufSchema {
    var protoFiles: seq<string>
    var pool: Option<DescriptorPool>
    var messageTypes: seq<string>
    var selectedType: Option<string>

    /// `ProtobufSchema::new`: nothing loaded, nothing selected.
    constructor ()
      ensures protoFiles == [] && pool.None? && messageTypes == [] && selectedType.None?
      ensures !HasSchema()
    {
      protoFiles := [];
      pool := None;
      messageTypes := [];
      selectedType := None;
    }

    /// `has_schema`.
    function HasSchema(): (r: bool)
      reads this
      ensures r <==> pool.Some?
    {
      pool.Some?
    }

    /// `set_selected_type`: only a known type can be selected.
    method SetSelectedType(name: string)
      modifies this`selectedType
      ensures name in messageTypes ==> selectedType == Some(name)
      ensures name !in messageTypes ==> selectedType == old(selectedType)
    {
      if name in messageTypes {
        selectedType := Some(name);
      }
    }

    /// `clear`.
    method Clear()
      modifies this
      ensures protoFiles == [] && pool.None? && messageTypes == [] && selectedType.None?
      ensures !HasSchema()
    {
      protoFiles := [];
      pool := None;
      messageTypes := [];
      selectedType := None;
    }

    /// `decode` with the loaded schema and the selected type.
    function Decode(b: Bytes, codec: MessageCodec): (r: Result<string>)
      reads this
      ensures r == DecodeWith(pool, selectedType, b, codec)
    {
      DecodeWith(pool, selectedType, b, codec)
    }

    /// `encode` with the loaded schema and the selected type.
    function Encode(text: string, codec: MessageCodec): (r: Result<Bytes>)
      reads this
      ensures r == EncodeWith(pool, selectedType, text, codec)
    {
      EncodeWith(pool, selectedType, text, codec)
    }

    /// `load_proto_files`; `output` is the temporary descriptor file it
    /// names with a fresh UUID. Returns the include directories and the
    /// `protoc` arguments it used (empty when there are no paths).
    method LoadProtoFiles(paths: seq<string>, output: string, tools: Toolchain)
      returns (r: Result<()>, dirs: seq<string>, args: seq<string>)
      modifies this
      ensures paths == [] ==> r == Err(Invalid("No proto files provided")) && args == []
      ensures paths != [] ==>
                && StrictlySorted(dirs)
                && (forall d :: d in dirs <==> exists i :: 0 <= i < |paths| && tools.parent(paths[i]) == Some(d))
                && args == ProtocArgs(dirs, output, paths)
      ensures paths != [] && CompiledPool(args, output, tools).Ok? ==>
                && r.Ok? && HasSchema()
                && protoFiles == paths && pool == Some(CompiledPool(args, output, tools).value)
                && Sorted(messageTypes)
                && multiset(messageTypes) == multiset(CompiledPool(args, output, tools).value.messages)
                && selectedType == Reselected(old(selectedType), messageTypes)
      ensures paths == [] || CompiledPool(args, output, tools).Err? ==>
                && protoFiles == old(protoFiles) && pool == old(pool)
                && messageTypes == old(messageTypes) && selectedType == old(selectedType)
      ensures paths != [] && CompiledPool(args, output, tools).Err? ==>
                r == Err(CompiledPool(args, output, tools).error)
    {
      dirs, args := [], [];
      if paths == [] {
        r := Err(Invalid("No proto files provided"));
        return;
      }
      dirs := IncludeDirs(paths, tools.parent);
      args := BuildProtocArgs(dirs, output, paths);
      var compiled := CompiledPool(args, output, tools);
      if compiled.Err? {
        r := Err(compiled.error);
        return;
      }
      var types := SortBy(compiled.value.messages, Identity);
      protoFiles := paths;
      pool := Some(compiled.value);
      messageTypes := types;
      if selectedType.Some? {
        if selectedType.value !in messageTypes {
          selectedType := if messageTypes == [] then None else Some(messageTypes[0]);
        }
      } else if messageTypes != [] {
        selectedType := Some(messageTypes[0]);
      }
      r := Ok(());
    }
  }
}
