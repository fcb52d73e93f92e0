# zedis core in Dafny

This project models the core of zedis, a desktop Redis client written in Rust, and proves properties of that model. The model covers:

- **Connections.** Server configurations and connection URLs, the per-(server, database) connection pool, and topology discovery for standalone, cluster and sentinel servers. Fan-out of a command to every master, and the multi-master `DBSIZE` and `SCAN`.
- **Value encoding.** Compression and content detection, decompression with its size cap, decoding bytes to editor text and encoding text back, hex, and a schema-less protobuf reader.
- **Edit session.** The state of the value editor: its formats, switching between them with rollback, validation and the bytes it would save.
- **Server state.** The key tree, the server's list and scan state, list-value edits with optimistic updates, and the protobuf schema of a server.
- **Views.** The settings form, the selectable text component and the sidebar.

Foreign libraries are not modelled; each is a function-valued parameter. Examples are the compressors, serde_json, the MessagePack codec, protoc and prost-reflect, and the network. Asynchronous tasks are modelled as two steps: the synchronous part that starts the work, and a completion that applies its result. Imperative code stays imperative: a struct whose methods update its fields is a `class`, and a loop is a `while`/`for` with invariants proved against a specification function.

Modules, one per file, in dependency order:

- `Wrappers`, `Text`, `Binary`, `Sorting` and `Json` are shared helpers. They cover Option/Result, decimal parsing and printing, splitting and trimming, bytes and UTF-8, sorting, and a JSON value type.
- `Config` models `src/connection/config.rs`.
- `AsyncConnection` models `src/connection/async_connection.rs`.
- `Manager` models `src/connection/manager.rs`.
- `Codec` models `src/helpers/codec.rs`.
- `Protobuf` models `src/helpers/protobuf.rs`.
- `ProtobufJson` covers the JSON rendering of raw protobuf fields.
- `EditSessionState` models `src/states/edit_session.rs`.
- `KeyTrie` and `ServerState` model `src/states/server.rs`.
- `ServerList` models `src/states/server/list.rs`.
- `ProtobufSchemaState` models `src/states/server/protobuf.rs`.
- `SettingEditor` models `src/views/setting_editor.rs`.
- `SelectableText` models `src/components/selectable_text.rs`.
- `Sidebar` models `src/views/sidebar.rs`.

## Model

| member | source | states |
|---|---|---|
| Config.Address | src/connection/config.rs:33 | the address is the host, a colon, then the port in decimal |
| Config.ConnectionUrl | src/connection/config.rs:32-38 | the URL starts with `redis://` and ends with the address; with a password the part after the scheme is `:password@address`, without one it is the address alone |
| Config.GetConfig | src/connection/config.rs:60-66 | the result is the first configuration with the given name; the lookup fails exactly when no configuration has that name, with the error "Redis config not found: " followed by the name |
| AsyncConnection.ConnectionPool.constructor | src/connection/async_connection.rs:37 | the pool starts empty |
| AsyncConnection.ConnectionPool.OpenSingleConnection | src/connection/async_connection.rs:39-58 | a pooled connection for (server hash, db) that answers PING is reused and the pool is unchanged; otherwise a new connection issues SELECT only for a non-zero db and is pooled only when connecting and SELECT both succeed; a failure leaves the pool unchanged |
| AsyncConnection.CommandFor | src/connection/async_connection.rs:146 | node i gets command i, or the first command when there are fewer commands than nodes |
| AsyncConnection.RunAll | src/connection/async_connection.rs:142-159 | on success there is one reply per node, and each is what that node answered to its command; the whole query fails exactly when some node fails, with the error of a node all of whose predecessors answered |
| AsyncConnection.QueryAsyncMasters | src/connection/async_connection.rs:134-161 | no commands is an error; otherwise one reply per master in master order, and the query fails exactly when some master fails, with that master's error |
| Manager.ParseAddress | src/connection/manager.rs:74-100 | the address part is what precedes the first `@`; the result is Ok exactly when that part has a `:`, the text after its first `:` is a u16, and the text after `@`, if any, is a u16; the result is then the text before the `:`, that port and that bus port; the ip has no `:` or `@` and prefixes the input |
| Manager.BadPortRejected | src/connection/manager.rs:86-88 | a port text that is not a u16 rejects the address |
| Manager.OutOfRangePortRejected | src/connection/manager.rs:86-88 | port 99999 is rejected whatever the host |
| Manager.RoleFromFlags | src/connection/manager.rs:116-126 | the role is master if the comma-separated flags contain `master`, else slave if they contain `slave`, else fail if they contain `fail`, else unknown |
| Manager.ClusterLine | src/connection/manager.rs:106-128 | a line with fewer than 8 whitespace-separated fields is skipped; otherwise the node is the parsed second field with the role of the third, and a bad address is an error |
| Manager.ParseClusterNodes | src/connection/manager.rs:103-132 | the loop computes the per-line fold over the trimmed output's lines, stopping at the first bad address |
| Manager.KeptLines | src/connection/manager.rs:108-112 | the lines that are not skipped each have at least 8 fields |
| Manager.ClusterNodesPerKeptLine | src/connection/manager.rs:103-132 | on success there is exactly one node per line that is not skipped, in order, each parsed from its line |
| Manager.MalformedAddressFailsAll | src/connection/manager.rs:114 | one kept line with a malformed address makes the whole parse fail |
| Manager.SentinelEntry | src/connection/manager.rs:331-362 | an entry needs `ip`, a u16 `port` and `name`; it is skipped exactly when a master name is configured and differs; otherwise it yields a master node at that ip and port carrying the name |
| Manager.CollectSentinelNodes | src/connection/manager.rs:326-374 | the loop over the `SENTINEL MASTERS` reply computes the specification fold, including the ambiguity check |
| Manager.SentinelNodesAreOneMaster | src/connection/manager.rs:331-372 | after a successful sentinel discovery every entry had ip, port and name, every node is a master carrying a master name, the configured one when it is set, and all nodes share one master name |
| Manager.CollectedNodesAreMasters | src/connection/manager.rs:357-361 | every node the entry fold keeps is a master with a master name, the configured one when set |
| Manager.ServerTypeOf | src/connection/manager.rs:251-271 | a sentinel by ROLE is a sentinel; otherwise `cluster_enabled` equal to 1 means cluster, anything else standalone |
| Manager.DetectWithRetry | src/connection/manager.rs:286-298 | a successful probe decides the type over the configured URL; a failure is returned unless a password is set and the error is an authentication failure; in that case the result is the probe over the URL without the password, its type or its error |
| Manager.GetRedisNodes | src/connection/manager.rs:280-386 | discovery of the nodes and server type, equal to the specification function over configuration lookup, type detection and the per-type node lists |
| Manager.NodesOfType | src/connection/manager.rs:300-385 | the node list of each server type reports that type, and a standalone server is its one configured URL as master |
| Manager.StandaloneIsOneMaster | src/connection/manager.rs:377-384 | a standalone server yields exactly one master node at the configured connection URL |
| Manager.Masters | src/connection/manager.rs:404-408 | the masters are exactly the nodes whose role is master |
| Manager.MastersAppend | src/connection/manager.rs:404-408 | picking the masters distributes over concatenation, so they keep the nodes' order and repetitions as `filter` does |
| Manager.NodeCounts | src/connection/manager.rs:142-144 | the counts are (number of masters, number of nodes) |
| Manager.BuildClient | src/connection/manager.rs:394-413 | a client keeps all nodes and the masters among them; building fails exactly for a non-cluster type with no nodes |
| Manager.BuildClientAsWritten | src/connection/manager.rs:398-401 | as written, indexing the first node panics exactly for a non-cluster type with no nodes; otherwise it agrees with the corrected builder |
| Manager.SentinelWithoutMatchPanics | src/connection/manager.rs:348-352 | a sentinel whose only master has another name yields no nodes, and the client builder as written then panics |
| Manager.ConnectionManager.constructor | src/connection/manager.rs:273-278 | the client cache starts empty |
| Manager.ConnectionManager.GetClient | src/connection/manager.rs:388-417 | a cached client is returned unchanged; otherwise discovery and building run, and only a successful build is cached under the name |
| Manager.MasterAddrs | src/connection/manager.rs:163-170 | one address per master node, address i being that of master i |
| Manager.SumBounds | src/connection/manager.rs:177 | each summand is at most the sum |
| Manager.DbSize | src/connection/manager.rs:175-178 | the size is known exactly when every master answers DBSIZE, and it is then the sum of their counts in master order; a failure is the error of a master all of whose predecessors answered |
| Manager.DbSizeReplies | src/connection/manager.rs:175-178 | the DBSIZE fan-out through the master query succeeds exactly when every master answers, its replies are the masters' counts, each at most their sum, and a failure is the error of a master all of whose predecessors answered |
| Manager.ScanCmds | src/connection/manager.rs:217-228 | one SCAN command per cursor, each carrying that cursor, the pattern and the count |
| Manager.Scan | src/connection/manager.rs:211-239 | no cursors is an error; a failed master query is that error; on success the new cursors are the masters' cursors in order, and the keys are all masters' keys, sorted and as a multiset |
| Manager.CountMasters | src/connection/manager.rs:188-190 | the number of masters |
| Manager.FirstCursors | src/connection/manager.rs:197-199 | one cursor 0 per master |
| Manager.FirstScan | src/connection/manager.rs:197-203 | no masters is an error; otherwise it is a scan from cursor 0 on every master |
| Manager.FirstScanSendsZero | src/connection/manager.rs:197-203 | every master is sent a SCAN from cursor 0 |
| Manager.DecimalHasNoSeparator | src/connection/manager.rs:86 | a printed port holds no `:` or `@` |
| Manager.AddressRoundTrip | src/connection/manager.rs:74-100 | parsing a printed `host:port` gives back the host and port, with no bus port |
| Manager.AddressWithBusPortRoundTrip | src/connection/manager.rs:74-100 | parsing a printed `host:port@cport` gives back all three |
| Codec.Language | src/helpers/codec.rs:148-153 | the editor language is `json` exactly for the JSON, MessagePack and protobuf-JSON formats |
| Codec.CompressionNameRoundTrip | src/helpers/codec.rs:54-86 | reading a compression format's display name back, case-insensitively, gives the same format |
| Codec.EditFormatNameRoundTrip | src/helpers/codec.rs:127-166 | reading an edit format's display name back gives the same format |
| Codec.MessagePackSpellings | src/helpers/codec.rs:156-166 | `msgpack`, `MessagePack` and `MSGPACK` all name the MessagePack edit format |
| Codec.SuggestEditFormat | src/helpers/codec.rs:621-635 | the protobuf view is suggested exactly for protobuf content, and hex exactly for binary content that is not UTF-8 |
| Codec.Lz4DeclaredSize | src/helpers/codec.rs:220-226 | a size is read exactly when there are at least four bytes; it is the little-endian u32 of the first four |
| Codec.LittleEndianBound | src/helpers/codec.rs:220-226 | an n-byte little-endian number is below 256^n |
| Codec.DetectCompression | src/helpers/codec.rs:229-260 | fewer than two bytes is uncompressed; the gzip magic means gzip and only it does; zstd exactly for its magic without the gzip one; snappy exactly for its stream identifier without either earlier magic; LZ4 exactly when none of the three magics is present, the declared size is within the 64 MiB cap and the block decompresses |
| Codec.DetectContent | src/helpers/codec.rs:263-289 | empty is text; JSON exactly for non-empty UTF-8 whose trimmed text is bracketed or braced and parses; other UTF-8 is text; MessagePack exactly for non-UTF-8 that passes the container-marker screen; never protobuf |
| Codec.CompressionMime | src/helpers/codec.rs:322-330 | every compression but none has a MIME type |
| Codec.ContentMime | src/helpers/codec.rs:332-340 | every content format has a MIME type |
| Codec.Detect | src/helpers/codec.rs:178-214 | empty input is uncompressed text with no MIME type; compressed input that decompresses within the cap is described by its decompressed content and the compression's MIME type; otherwise by its own content and that content's MIME type |
| Codec.StopIndex | src/helpers/codec.rs:374-383 | the decoder loop stops at the first failed or empty read; every read before it returned data |
| Codec.ConcatGrows | src/helpers/codec.rs:389 | more reads never give fewer bytes |
| Codec.DrainResult | src/helpers/codec.rs:368-393 | what a decoder loop yields never exceeds the cap, and every read before the stop succeeded |
| Codec.Drain | src/helpers/codec.rs:368-393 | the chunk loop shared by gzip, zstd and snappy equals the specification: the size-limit error first, then a read failure, else all bytes read |
| Codec.Decompressed | src/helpers/codec.rs:347-355 | uncompressed input is returned as is; any decompressed output is within the cap |
| Codec.Decompress | src/helpers/codec.rs:347-355 | dispatch to the decoder loops and the LZ4 size check, equal to the specification |
| Codec.Compress | src/helpers/codec.rs:358-366 | uncompressed input is returned as is, and LZ4 compression cannot fail |
| Codec.HexPairs | src/helpers/codec.rs:574-576 | one two-digit pair per byte |
| Codec.PlainHex | src/helpers/codec.rs:574-576 | hex without separators has two digits per byte |
| Codec.BytesToHexLength | src/helpers/codec.rs:574-576 | the spaced hex of n bytes has 3n-1 characters, none for no bytes |
| Codec.HexValue | src/helpers/codec.rs:594 | a hex digit's value is below 16 |
| Codec.Clean | src/helpers/codec.rs:582 | the cleaned text has no whitespace |
| Codec.DecodePairs | src/helpers/codec.rs:590-600 | decoded pairs give one byte per two digits |
| Codec.HexDecode | src/helpers/codec.rs:580-601 | an odd number of digits after removing whitespace is the odd-length error; success gives one byte per two digits |
| Codec.HexToBytes | src/helpers/codec.rs:580-601 | the loop over digit pairs equals the specification, failing at the first bad pair with its position |
| Codec.DecodePairsAt | src/helpers/codec.rs:590-600 | a bad pair at an even position fails there, and a good one is prepended to the rest |
| Codec.DecodePairsFail | src/helpers/codec.rs:590-600 | a bad pair after a decoded prefix makes the whole decode fail at that position |
| Codec.DecodePairsAdvance | src/helpers/codec.rs:590-600 | a good pair extends the decoded prefix by its byte |
| Codec.CleanAppend | src/helpers/codec.rs:582 | removing whitespace distributes over concatenation |
| Codec.CleanBytesToHex | src/helpers/codec.rs:574-582 | removing the spaces from spaced hex gives plain hex |
| Codec.HexPairValue | src/helpers/codec.rs:574-598 | a printed pair parses back to its byte |
| Codec.DecodePlainHex | src/helpers/codec.rs:590-600 | plain hex decodes back to its bytes |
| Codec.HexRoundTrip | src/helpers/codec.rs:642-648 | decoding the spaced hex of any bytes gives them back |
| Codec.PlainHexRoundTrip | src/helpers/codec.rs:651-655 | hex without spaces decodes back to its bytes |
| Codec.BytesToHexPrepend | src/helpers/codec.rs:574-576 | the hex of a longer sequence is the first pair, a space, then the hex of the rest |
| Codec.HexExample | src/helpers/codec.rs:642-648 | the bytes 00 01 fe ff print as `00 01 fe ff` |
| Codec.HelloHex | src/states/edit_session.rs:498-510 | `hello` prints as `68 65 6c 6c 6f` |
| Codec.Utf8Text | src/helpers/codec.rs:503-505 | the text view succeeds exactly for UTF-8 and gives the decoded text |
| Codec.DecodeToText | src/helpers/codec.rs:501-534 | text is UTF-8 decoding; hex is spaced hex; JSON needs UTF-8 that parses; MessagePack needs bytes that decode; protobuf JSON is an error that asks for a schema |
| Codec.EncodeFromText | src/helpers/codec.rs:537-566 | text is UTF-8 encoding; hex is hex decoding; JSON and MessagePack need text that parses as JSON; protobuf JSON is an error that asks for a schema |
| Codec.ValidateFormat | src/helpers/codec.rs:604-618 | text is always valid; hex is valid exactly when it decodes, with its error; the JSON-based formats are valid exactly when the text parses |
| Codec.HexEditRoundTrip | src/helpers/codec.rs:501-566 | the hex view of any bytes encodes back to the same bytes |
| Codec.TextEditRoundTrip | src/helpers/codec.rs:501-566 | any text encoded and shown again in the text view is the same text |
| Protobuf.Terminator | src/helpers/protobuf.rs:233-244 | the byte that ends a varint has its high bit clear |
| Protobuf.TerminatorIsFirst | src/helpers/protobuf.rs:233-249 | it is the first such byte, and there is none exactly when every byte has the high bit set |
| Protobuf.DecodeVarint | src/helpers/protobuf.rs:225-250 | a decoded varint takes 1 to 10 bytes, ends at a byte with the high bit clear, and its value is the 7-bit groups, little-endian, reduced to 64 bits |
| Protobuf.DecodeVarintEnds | src/helpers/protobuf.rs:233-249 | decoding fails exactly when none of the first ten bytes ends the varint; all bytes before the last one continue it |
| Protobuf.GroupsSnoc | src/helpers/protobuf.rs:239-240 | each further byte adds its 7 bits shifted by 7 times its position |
| Protobuf.DecodeVarintSafe | src/helpers/protobuf.rs:225-250 | the loop with its 64-bit shift-or accumulator equals the specification |
| Protobuf.EncodeVarint | src/helpers/protobuf.rs:325-340 | an encoded varint has at least one byte |
| Protobuf.BuildVarint | src/helpers/protobuf.rs:325-340 | the test encoder's loop equals the specification encoder |
| Protobuf.EncodeVarintShape | src/helpers/protobuf.rs:325-340 | only the last byte of an encoded varint ends it, and its groups give back the value |
| Protobuf.EncodeVarintLength | src/helpers/protobuf.rs:325-340 | a value below 2^(7k) takes at most k bytes |
| Protobuf.EncodeVarintLengthAtLeast | src/helpers/protobuf.rs:325-340 | a value of at least 2^(7k) takes more than k bytes |
| Protobuf.VarintRoundTrip | src/helpers/protobuf.rs:380-446 | every u64 encodes in at most 10 bytes and decodes back, whatever follows it |
| Protobuf.VarintMaxTakesTenBytes | src/helpers/protobuf.rs:393-401 | the largest u64 takes exactly ten bytes and decodes back |
| Protobuf.WireTypeFromU32 | src/helpers/protobuf.rs:35-45 | a wire type exists exactly for 0 to 5, and its number is the input |
| Protobuf.FieldNumberAsWritten | src/helpers/protobuf.rs:161-168 | as written, the field number is the key shifted right by 3 and truncated to 32 bits, accepted when in 1 to 536870911 |
| Protobuf.FieldNumber | src/helpers/protobuf.rs:161-168 | the corrected check accepts exactly keys whose untruncated field number is in 1 to 536870911 |
| Protobuf.TruncatedFieldNumberAccepted | src/helpers/protobuf.rs:161-168 | the key 8·(2^32+1) is a valid varint whose field number is out of range, yet the check as written accepts it as field 1 |
| Protobuf.ReadField | src/helpers/protobuf.rs:156-213 | a field that is read consumes at least one byte and no more than the input, and is well formed |
| Protobuf.ReadValue | src/helpers/protobuf.rs:170-211 | a value read for a wire type keeps the field number, fits in the input and is well formed: fixed widths need 8 or 4 bytes, a length is at most 16 MiB and within the input, and groups are rejected |
| Protobuf.ParseMessage | src/helpers/protobuf.rs:143-222 | a parsed message is within the depth limit, came from at least two bytes and has at least one field |
| Protobuf.ParseFieldsValid | src/helpers/protobuf.rs:156-214 | every parsed field is well formed |
| Protobuf.ParseMessageValid | src/helpers/protobuf.rs:143-222 | every field of a parsed message is well formed |
| Protobuf.ReadFieldAt | src/helpers/protobuf.rs:157-211 | reading one field by cursor arithmetic equals the specification |
| Protobuf.ReadValueAt | src/helpers/protobuf.rs:170-208 | reading the value after the key, by wire type with bounds checks, equals the specification's value reading |
| Protobuf.ReadAllFields | src/helpers/protobuf.rs:153-214 | the cursor loop equals the recursive field parser |
| Protobuf.ParsedNothing | src/helpers/protobuf.rs:153-154 | the loop invariant holds before any field |
| Protobuf.ParsedAll | src/helpers/protobuf.rs:156 | when the cursor reaches the end, the fields read are the whole parse |
| Protobuf.ReadNextField | src/helpers/protobuf.rs:157-213 | one loop step keeps the invariant, or fails exactly when the whole parse fails |
| Protobuf.ParseStep | src/helpers/protobuf.rs:157-213 | a malformed field fails the parse; a field read extends the parsed prefix |
| Protobuf.ParseFieldsHead | src/helpers/protobuf.rs:157-213 | parsing from a cursor is the field there followed by the parse after it |
| Protobuf.TryParseRawProtobuf | src/helpers/protobuf.rs:143-222 | depth and length checks, then the field loop, equal the specification |
| Protobuf.LittleEndianRoundTrip | src/helpers/protobuf.rs:180-205 | little-endian bytes of a value read back as the value |
| Protobuf.FieldKey | src/helpers/protobuf.rs:342-345 | a field key is at least one byte |
| Protobuf.EncodeValue | src/helpers/protobuf.rs:347-375 | an encoded value is at least one byte |
| Protobuf.EncodeField | src/helpers/protobuf.rs:347-375 | an encoded field is at least two bytes |
| Protobuf.EncodeFields | src/helpers/protobuf.rs:347-375 | a non-empty field list encodes to at least two bytes |
| Protobuf.ReadEncodedValue | src/helpers/protobuf.rs:170-211 | reading an encoded well-formed value gives it back with its length |
| Protobuf.KeyParts | src/helpers/protobuf.rs:161-163 | a key built from a field number and wire type splits back into them |
| Protobuf.ReadFieldOfKey | src/helpers/protobuf.rs:157-211 | a field is its key's number with the value after the key |
| Protobuf.DecodeFieldKey | src/helpers/protobuf.rs:158 | an encoded key decodes to number·8 + wire type |
| Protobuf.ReadEncodedField | src/helpers/protobuf.rs:157-213 | reading an encoded well-formed field gives it back with its length |
| Protobuf.ParseEncodedFields | src/helpers/protobuf.rs:153-214 | parsing encoded well-formed fields gives them back in order |
| Protobuf.MessageRoundTrip | src/helpers/protobuf.rs:595-625 | any non-empty list of well-formed fields encodes to a message that parses back to it at any allowed depth |
| ProtobufJson.SimpleFieldRead | src/helpers/protobuf.rs:448-456 | the bytes 08 96 01 are field 1 with varint 150 |
| ProtobufJson.SimpleMessageIsLikelyProtobuf | src/helpers/protobuf.rs:448-456 | that message parses and is judged likely protobuf |
| ProtobufJson.RepeatedFieldExample | src/helpers/protobuf.rs:742-759 | three values of field 1 become the array [10, 20, 30] under key "1" |
| ProtobufJson.Base64Value | src/helpers/protobuf.rs:132-135 | every base64 digit has a value below 64 that prints as that digit |
| ProtobufJson.Base64ValueOfDigit | src/helpers/protobuf.rs:132-135 | each digit value reads back |
| ProtobufJson.Base64Quad | src/helpers/protobuf.rs:132-135 | one to three bytes print as four characters |
| ProtobufJson.Base64Length | src/helpers/protobuf.rs:132-135 | the padded encoding of n bytes has 4·ceil(n/3) characters |
| ProtobufJson.Base64QuadRoundTrip | src/helpers/protobuf.rs:132-135 | each group of four characters decodes back to its one to three bytes |
| ProtobufJson.Base64RoundTrip | src/helpers/protobuf.rs:132-135 | the standard padded base64 of any bytes decodes back to them |
| ProtobufJson.BytesText | src/helpers/protobuf.rs:116-126 | a length-delimited value that is UTF-8 with no control characters other than newline, carriage return and tab is shown as its text, anything else as `<bytes:` base64 `>` |
| ProtobufJson.FieldToJson | src/helpers/protobuf.rs:100-129 | numbers are shown as numbers, a length-delimited value as a nested object or a string, and never as an array |
| ProtobufJson.ValuesOf | src/helpers/protobuf.rs:79-94 | the values collected for a key are at most one per field and none is an array |
| ProtobufJson.ValuesOfEmpty | src/helpers/protobuf.rs:79-94 | no values are collected exactly for a key no field has |
| ProtobufJson.OccurrencesSnoc | src/helpers/protobuf.rs:79-80 | one more field with the key counts once more |
| ProtobufJson.ValuesOfCount | src/helpers/protobuf.rs:79-94 | one value is collected per field with the key |
| ProtobufJson.RepeatedFieldsBecomeArrays | src/helpers/protobuf.rs:83-93 | every field number is a key; a number seen once maps to its value, and one seen twice or more maps to the array of all its values in order |
| ProtobufJson.ValuesOfSnoc | src/helpers/protobuf.rs:79-94 | one more field appends its value under its key |
| ProtobufJson.GroupedSnoc | src/helpers/protobuf.rs:79-94 | one more field updates only its own key |
| ProtobufJson.GroupPush | src/helpers/protobuf.rs:84-90 | a second value turns a single value into a two-element array; later values are pushed on the array |
| ProtobufJson.FieldsToJson | src/helpers/protobuf.rs:76-97 | the map-building loop equals the grouped specification |
| ProtobufJson.DecodeRawToJson | src/helpers/protobuf.rs:311-314 | a JSON object exists exactly when the message parses, and it is the grouped fields |
| ProtobufJson.IndexOfExponent | src/helpers/protobuf.rs:268 | the exponent marker is the first `e` or `E`, if any |
| ProtobufJson.MaxFieldNumber | src/helpers/protobuf.rs:290 | the largest field number bounds all and is one of them |
| ProtobufJson.IsLikelyProtobuf | src/helpers/protobuf.rs:259-308 | likely protobuf exactly when there are at least two bytes, the text screens do not exclude it, it parses, no field number exceeds 10000, and it is not one short length-delimited field |
| ProtobufJson.NumericTextNotProtobuf | src/helpers/protobuf.rs:266-270 | text whose trimmed form parses as an f64 (a decimal with an optional exponent, or inf, infinity or nan) is never judged protobuf |
| ProtobufJson.DocumentTextNotProtobuf | src/helpers/protobuf.rs:272-280 | text that looks like JSON, XML or HTML is never judged protobuf |
| EditSessionState.JsonOfBytes | src/states/edit_session.rs:242-247 | the bytes are read as JSON directly, and failing that as UTF-8 text; an error means both attempts failed |
| EditSessionState.WorkingBytes | src/states/edit_session.rs:143-147 | an uncompressed value is the working copy itself; a decompressed one is within the cap |
| EditSessionState.RefreshWithFallback | src/states/edit_session.rs:168-193 | with fallback a refresh never fails and keeps the working bytes and the dirty flag; it shows the decoded text in the current format when it decodes, and hex of the working bytes otherwise |
| EditSessionState.RefreshSucceeds | src/states/edit_session.rs:168-193 | without fallback a refresh succeeds exactly when the bytes decode in the current format, showing that text; otherwise the text is marked invalid with the decoder's error and nothing else changes |
| EditSessionState.InitialEditorShowsWorkingBytes | src/states/edit_session.rs:149-158 | after initialisation the editor holds the working bytes, clean and valid, in the suggested format when they decode in it and in hex otherwise, and hex text encodes back to the working bytes |
| EditSessionState.SwitchToSameFormat | src/states/edit_session.rs:200-202 | switching to the current format changes nothing and succeeds |
| EditSessionState.SwitchSuccess | src/states/edit_session.rs:199-304 | a successful switch ends in the target format with valid, dirty text and no error; outside the JSON/MessagePack pair the text is the decoding of the new working bytes |
| EditSessionState.FailedSwitchRollsBack | src/states/edit_session.rs:281-304 | a failed switch between formats other than MessagePack restores the whole previous editor state |
| EditSessionState.NonJsonToMessagePackFails | src/states/edit_session.rs:235-262 | switching text or hex whose bytes are not JSON to MessagePack fails and changes nothing |
| EditSessionState.FromMessagePackKeepsTarget | src/states/edit_session.rs:265-280 | leaving MessagePack for a format that cannot show the JSON bytes fails but keeps the target format, marks the text invalid and keeps the JSON working bytes |
| EditSessionState.TextToHexSwitch | src/states/edit_session.rs:281-304 | switching Text to Hex always succeeds: the working bytes become the text's UTF-8 encoding, the text their hex dump, and the session is dirty and valid |
| EditSessionState.HelloAsHex | src/states/edit_session.rs:498-510 | switching the text `hello` to hex shows `68 65 6c 6c 6f`, with those five working bytes, dirty and valid |
| EditSessionState.EditedTextFlags | src/states/edit_session.rs:309-328 | the same text changes nothing; new text is stored dirty, valid exactly when it validates in the current format, with an error exactly when invalid |
| EditSessionState.EditThenSave | src/states/edit_session.rs:309-359 | after an edit the session can be saved exactly when the new text validates (outside preview, while idle) |
| EditSessionState.InvalidNotSaved | src/states/edit_session.rs:366-371 | invalid text never produces bytes, and the error saved is the recorded one |
| EditSessionState.TextSaveRoundTrip | src/states/edit_session.rs:366-381 | valid text saved without compression is its UTF-8 bytes, which show the same text again |
| EditSessionState.HexSaveRoundTrip | src/states/edit_session.rs:366-381 | hex text of some bytes saves exactly those bytes |
| EditSessionState.AvailableFormatsShape | src/states/edit_session.rs:384-398 | text first, hex always, never protobuf; JSON exactly when the content is JSON or the text parses as JSON; MessagePack exactly for MessagePack content; no repeats |
| EditSessionState.EditSession.constructor | src/states/edit_session.rs:115-123 | a new session holds the raw bytes and their length, with every other field at its default |
| EditSessionState.EditSession.RefreshEditorText | src/states/edit_session.rs:168-193 | the fields change as the refresh specification says |
| EditSessionState.EditSession.ApplyDetection | src/states/edit_session.rs:133-140 | the session is loading and records the detected compression, content and MIME type, and saves with the detected compression |
| EditSessionState.EditSession.LoadWorkingBytes | src/states/edit_session.rs:143-147 | the working bytes become the decompressed value, or stay unchanged with the decompression error |
| EditSessionState.EditSession.FinishInit | src/states/edit_session.rs:149-158 | the editor shows the working bytes in the suggested format and the session becomes idle |
| EditSessionState.EditSession.LoadAndShow | src/states/edit_session.rs:143-160 | a decompression failure returns its error and leaves the editor as it was; otherwise the editor is initialised and idle |
| EditSessionState.EditSession.DetectAndInit | src/states/edit_session.rs:132-161 | detection is recorded in every case; a decompression failure leaves the session loading with its editor unchanged; otherwise the editor shows the working bytes in the suggested format and the session is idle |
| EditSessionState.EditSession.ConvertingJsonMessagePack | src/states/edit_session.rs:208-229 | the JSON/MessagePack switch matches its specification, including the partial updates left by an early error |
| EditSessionState.EditSession.ConvertingToMessagePack | src/states/edit_session.rs:235-262 | the switch to MessagePack matches its specification |
| EditSessionState.EditSession.ConvertingFromMessagePack | src/states/edit_session.rs:265-280 | the switch from MessagePack matches its specification |
| EditSessionState.EditSession.ConvertingBytes | src/states/edit_session.rs:281-304 | the byte-level switch matches its specification, restoring the saved state on failure |
| EditSessionState.EditSession.SetEditorFormat | src/states/edit_session.rs:199-304 | the fields change as the format-switch specification says |
| EditSessionState.EditSession.SetEditorText | src/states/edit_session.rs:309-328 | the fields change as the edit specification says |
| EditSessionState.EditSession.SetSaveCompression | src/states/edit_session.rs:331-336 | the save compression is set, and the session becomes dirty when it changed |
| EditSessionState.EditSession.Validate | src/states/edit_session.rs:340-353 | the result and the valid flag say whether the text validates in the current format, and the error is recorded |
| EditSessionState.EditSession.CanSave | src/states/edit_session.rs:357-359 | saving is allowed exactly when the text is valid and dirty, outside preview, while idle |
| EditSessionState.EditSession.BuildSaveBytes | src/states/edit_session.rs:366-381 | the bytes are those of the save specification |
| EditSessionState.EditSession.AvailableEditFormats | src/states/edit_session.rs:384-398 | the list is that of the specification |
| EditSessionState.EditSession.WouldLoseData | src/states/edit_session.rs:408-414 | data may be lost exactly when switching from hex or MessagePack to text |
| KeyTrie.Insert | src/states/server.rs:70-88 | inserting keeps the node's own full path |
| KeyTrie.NodeAtStep | src/states/server.rs:82-87 | following a path goes through the child named by its first segment |
| KeyTrie.InsertKeyPaths | src/states/server.rs:70-88 | after inserting a segment list, the key paths are the old ones plus exactly that list |
| KeyTrie.NoPathsBelowLeaf | src/states/server.rs:59-65 | a new node holds no key and has no node below it |
| KeyTrie.InsertConsistent | src/states/server.rs:76-85 | inserting keeps every node's full path equal to the one its position gives it: the segment under the root, the parent's path, a colon and the segment below |
| KeyTrie.InsertNodes | src/states/server.rs:70-88 | inserting adds exactly the nodes on the way to the inserted path |
| KeyTrie.PathOfJoins | src/states/server.rs:76-80 | below a node with a non-empty path, a node's full path is that path and the segments joined by colons |
| KeyTrie.KeyNodePath | src/states/server.rs:288-290 | a key whose first segment is not empty is the full path of the node it is inserted at |
| KeyTrie.LeadingColonSharesPath | src/states/server.rs:76-80 | the keys `:a` and `a` give different paths in the tree but the same full path `a`, so their items share an id |
| KeyTrie.SortKeyOrder | src/states/server.rs:312-319 | the sibling order puts directories before leaves, then orders by id |
| KeyTrie.DirectoriesFirst | src/states/server.rs:312-319 | in a sorted list every directory precedes every leaf, and items of the same kind are in id order |
| KeyTrie.SortedShows | src/states/server.rs:297-321 | sorting the items built for the children gives the list shown for them |
| KeyTrie.ConvertChildren | src/states/server.rs:292-322 | the items are one per child, sorted, with the child's segment as label and its full path as id, expanded when everything is or when that path was expanded, and their children shown the same way |
| KeyTrie.ChildItems | src/states/server.rs:297-310 | the loop builds exactly one item per child name, and every item shows its child: label, full-path id, expansion and recursively converted children |
| KeyTrie.EmptyTrie | src/states/server.rs:282-286 | the empty root is the tree of no keys |
| KeyTrie.InsertKey | src/states/server.rs:288-290 | inserting a key split at colons into the tree of a key set gives the tree of the set with that key |
| KeyTrie.BuildTrie | src/states/server.rs:281-290 | inserting every key, in any order, gives the tree of the key set: its key paths are exactly the colon-split keys, every node lies on the way to one, and full paths are consistent |
| KeyTrie.SameShapeEqual | src/states/server.rs:70-88 | two trees with the same nodes, key marks and full paths are equal |
| KeyTrie.TrieUnique | src/states/server.rs:281-290 | the tree of a key set is unique, so it does not depend on the hash map's order |
| KeyTrie.OnKeyWayExists | src/states/server.rs:70-88 | every prefix of a key's segments is a node of the tree |
| KeyTrie.PrefixNode | src/states/server.rs:70-88 | a node exists at every prefix of a path that has one |
| ServerState.WithError | src/states/server.rs:223-235 | the new message comes last; a full log of 10 drops its oldest entry; otherwise nothing is dropped, and the log never grows past 10 |
| ServerState.ErrorLogStaysBounded | src/states/server.rs:223-235 | any number of messages keeps the log at most 10 long, exactly 10 once that many arrived, and a short log keeps all in order |
| ServerState.Extended | src/states/server.rs:210-222 | the found keys are added as unknown type; keys already there keep their type; no other key appears |
| ServerState.ExtendedIdempotent | src/states/server.rs:210-222 | adding the same keys twice is the same as once |
| ServerState.ExtendedStep | src/states/server.rs:213-218 | each loop step adds one key unless it is already there |
| ServerState.WithoutServer | src/states/server.rs:366-367 | the remaining servers are exactly those with another name |
| ServerState.WithoutServerAppend | src/states/server.rs:366-367 | removal distributes over concatenation, so the kept servers stay in order and repeated ones stay repeated, as `retain` leaves them |
| ServerState.FindServer | src/states/server.rs:395 | the position found is the first server with that name, and there is none exactly when no server has it |
| ServerState.Upserted | src/states/server.rs:390-404 | inserting a new server whose name exists fails with "server already exists"; otherwise the first entry with that name is replaced in place, or the server is appended at the end when no entry has its name; every server with another name stays |
| ServerState.FindServerPrefix | src/states/server.rs:395 | the first match is found in a list that agrees up to it |
| ServerState.RemoveThenAdd | src/states/server.rs:365-404 | after removing a name, adding a new server with that name appends it |
| ServerState.RemoveIdempotent | src/states/server.rs:365-367 | removing a name twice is the same as once |
| ServerState.RemoveServerTask | src/states/server.rs:365-373 | removal succeeds exactly when saving does, and then no server has the name |
| ServerState.UpsertServerTask | src/states/server.rs:384-408 | succeeds exactly when the upsert and the save both do, giving the upserted list in which the first entry of that name is the server stamped with the time; otherwise the upsert's "server already exists" error, else the save error |
| ServerState.ZedisServerState.constructor | src/states/server.rs:188-190 | a new state is idle, with no server, no servers, no keys, no errors and all scan state cleared |
| ServerState.ZedisServerState.ResetScan | src/states/server.rs:191-200 | the scan state is cleared, no key is counted and the tree gets the new id |
| ServerState.ZedisServerState.Reset | src/states/server.rs:201-209 | the server, version, node counts, size, latency and key are cleared with the scan state; query mode, status, servers and errors stay |
| ServerState.ZedisServerState.ExtendKeys | src/states/server.rs:210-222 | the keys are extended, and the tree id changes exactly when some key was new |
| ServerState.ZedisServerState.AddErrorMessage | src/states/server.rs:223-235 | the log becomes the bounded log with the message |
| ServerState.ZedisServerState.IsBusy | src/states/server.rs:264-266 | busy exactly when not idle |
| ServerState.ZedisServerState.ScanCount | src/states/server.rs:335-337 | the number of distinct keys found |
| ServerState.ZedisServerState.KeyTree | src/states/server.rs:276-325 | the items shown are those of the tree of the current key set |
| ServerState.ZedisServerState.CompleteServersTask | src/states/server.rs:249-262 | a task result replaces the server list, and a failure is logged under the name of its task and keeps the list |
| ServerState.ZedisServerState.RemoveServer | src/states/server.rs:365-383 | after a successful save the list is the old one without the entries of that name and the error log is unchanged; after a failed one the list is unchanged and the failure is logged under the task's name |
| ServerState.ZedisServerState.UpdateOrInsertServer | src/states/server.rs:384-418 | when both the upsert and the save succeed the list becomes the upserted one and the error log is unchanged; otherwise the list is unchanged and the upsert's or the save's error is logged under the task's name |
| ServerState.ZedisServerState.Select | src/states/server.rs:442-492 | selecting the current server changes nothing at all; another one resets the server data and the scan, records the server and mode, and for a non-empty name starts loading and scanning |
| ServerState.ZedisServerState.CompleteSelect | src/states/server.rs:468-488 | a failure is logged; a reply for a server no longer selected changes nothing else; otherwise the state becomes idle, a success records latency, size, node counts and version, and a key scan follows exactly in the all-keys mode, else scanning stops |
| ServerState.EmptyKeyTree | src/states/server.rs:276-325 | no keys show no items |
| ServerList.WrappingAdd | src/states/server/list.rs:163 | usize arithmetic stays below 2^64 |
| ServerList.WrappingUndo | src/states/server/list.rs:163-192 | an increment followed by a decrement restores the size |
| ServerList.DisplayString | src/states/server/list.rs:37-48 | no bytes show as the empty string |
| ServerList.DisplayStringCases | src/states/server/list.rs:37-48 | uncompressed bytes, and compressed bytes that fail to decompress, are shown as their own lossy UTF-8; compressed bytes that decompress are shown as the decompressed data's lossy UTF-8 |
| ServerList.DisplayStrings | src/states/server/list.rs:53-61 | one display string per item, in order |
| ServerList.Pushed | src/states/server/list.rs:153-164 | the size grows by one (wrapping) and the keyword stays; LPUSH puts the value in front of the loaded items, RPUSH appends it exactly when every item is loaded, otherwise the loaded items are unchanged, and the flag says whether the value went in |
| ServerList.PushUndone | src/states/server/list.rs:183-201 | the size shrinks by one (wrapping) and the keyword stays; a value that went in is taken off the end it went to, otherwise the loaded items are unchanged |
| ServerList.PushRollsBack | src/states/server/list.rs:146-201 | the rollback of a failed push gives back the list as it was before the push |
| ServerList.PushShowsValue | src/states/server/list.rs:153-164 | LPUSH always puts the value in front of the loaded items; RPUSH appends it exactly when every item is loaded; otherwise the loaded items are unchanged |
| ServerList.Removed | src/states/server/list.rs:126-138 | the size drops by one with usize wrapping and the keyword stays; an item inside the loaded range is taken out and the rest keep their order; an index beyond it leaves the items |
| ServerList.Replaced | src/states/server/list.rs:224-231 | size, keyword and number of items stay; an index inside the loaded range gets the new item, others leave the items unchanged |
| ServerList.UpdateTask | src/states/server/list.rs:245-277 | when the item Redis holds, shown as a display string, differs from the one the edit started from, the update is aborted with an error naming both; otherwise the outcome is that of LSET |
| ServerList.UnchangedItemPasses | src/states/server/list.rs:257-266 | an uncompressed item that still reads as the expected string passes the check |
| ServerList.ReplaceRollsBack | src/states/server/list.rs:279-290 | writing back the original item undoes a replacement |
| ServerList.Appended | src/states/server/list.rs:336-339 | the loaded items are followed by the new ones; size and keyword stay |
| ServerList.NextPage | src/states/server/list.rs:307-319 | the next page starts after the loaded items and covers 100 of them |
| ServerList.ValueSlot.constructor | src/states/server/list.rs:80-82 | the slot holds the given key and value |
| ServerList.ValueSlot.FilterListValue | src/states/server/list.rs:81-95 | with a list selected, only its keyword changes; otherwise nothing changes |
| ServerList.ValueSlot.PushListValue | src/states/server/list.rs:146-164 | with a key selected the value is marked updating and the push applied locally, mode "1" meaning LPUSH; otherwise nothing changes |
| ServerList.ValueSlot.CompletePush | src/states/server/list.rs:183-205 | the value becomes idle; a failure undoes the local push |
| ServerList.ValueSlot.RemoveListValue | src/states/server/list.rs:96-101 | with a key selected the value is marked updating; otherwise nothing changes |
| ServerList.ValueSlot.CompleteRemove | src/states/server/list.rs:125-141 | the value becomes idle, and a success removes the item locally |
| ServerList.ValueSlot.UpdateListValue | src/states/server/list.rs:213-232 | with a key selected the value is marked updating and the item replaced locally; otherwise nothing changes |
| ServerList.ValueSlot.CompleteUpdate | src/states/server/list.rs:279-295 | the value becomes idle, and a failure writes the original item back |
| ServerList.ValueSlot.UpdateListValueBytes | src/states/server/list.rs:387-405 | the previous item is remembered when there is one, and the item is replaced locally by the display string of the new bytes |
| ServerList.ValueSlot.CompleteUpdateBytes | src/states/server/list.rs:426-448 | the value becomes idle, and a failure restores the remembered item |
| ServerList.ValueSlot.LoadMoreListValue | src/states/server/list.rs:300-321 | with a list selected the value is marked loading and the next page is requested; otherwise nothing changes and no page is requested |
| ServerList.ValueSlot.CompleteLoadMore | src/states/server/list.rs:330-346 | a non-empty page is appended as display strings, and the value becomes idle |
| ServerList.FailedPushRestores | src/states/server/list.rs:146-201 | a push that fails on the server leaves the local list as before it was started |
| ServerList.FailedUpdateRestores | src/states/server/list.rs:213-298 | an update that fails leaves the local list as before it was started |
| ProtobufSchemaState.ParentDirs | src/states/server/protobuf.rs:98-102 | a directory is listed exactly when it is the parent of some given proto path |
| ProtobufSchemaState.IncludeDirs | src/states/server/protobuf.rs:97-105 | the include directories are strictly sorted, so free of repeats, and are exactly the parents of the given paths |
| ProtobufSchemaState.ProtocArgs | src/states/server/protobuf.rs:115-131 | the protoc command line is one `-I` per include directory, then `--include_imports`, `-o` with the output file, `--`, and the proto paths in order |
| ProtobufSchemaState.PathsAfterSeparator | src/states/server/protobuf.rs:125-131 | every proto path comes after the `--` separator, so a path starting with `-` cannot be read as an option |
| ProtobufSchemaState.Reselected | src/states/server/protobuf.rs:178-187 | after a load the selection is kept when still present, falls back to the first type otherwise, and is empty only when there are no types |
| ProtobufSchemaState.ReselectedStable | src/states/server/protobuf.rs:178-187 | reselecting twice gives the same selection as once |
| ProtobufSchemaState.SelectedMessage | src/states/server/protobuf.rs:194-206 | the selected type resolves only when a schema is loaded and contains it; otherwise the errors "No schema loaded", "No message type selected" or "Message type '…' not found" |
| ProtobufSchemaState.DecodeWith | src/states/server/protobuf.rs:193-218 | decoding fails with the selection error, or with "Failed to decode protobuf: …" when the bytes do not decode as the selected message |
| ProtobufSchemaState.EncodeWith | src/states/server/protobuf.rs:221-244 | encoding fails with the selection error or "Failed to deserialize JSON to protobuf: …", and otherwise yields the encoded message |
| ProtobufSchemaState.SameCheckErrors | src/states/server/protobuf.rs:194-234 | decode and encode report the same error when no message type can be resolved |
| ProtobufSchemaState.EncodeThenDecode | src/states/server/protobuf.rs:193-244 | for a codec whose decode inverts its encode, decoding what was encoded gives back the parsed message as JSON |
| ProtobufSchemaState.CompiledPool | src/states/server/protobuf.rs:134-165 | a protoc that cannot be started or that exits with failure produces the matching error text |
| ProtobufSchemaState.BuildProtocArgs | src/states/server/protobuf.rs:112-131 | the loop builds exactly the protoc command line |
| ProtobufSchemaState.ProtobufSchema.constructor | src/states/server/protobuf.rs:29-48 | a new schema state has no files, no pool, no types and no selection |
| ProtobufSchemaState.ProtobufSchema.HasSchema | src/states/server/protobuf.rs:68-70 | a schema is present exactly when a pool is loaded |
| ProtobufSchemaState.ProtobufSchema.SetSelectedType | src/states/server/protobuf.rs:61-65 | only a known message type can be selected; any other name leaves the selection unchanged |
| ProtobufSchemaState.ProtobufSchema.Clear | src/states/server/protobuf.rs:247-252 | clearing empties files, pool, types and selection |
| ProtobufSchemaState.ProtobufSchema.Decode | src/states/server/protobuf.rs:193-218 | decodes bytes with the loaded pool and the selected type |
| ProtobufSchemaState.ProtobufSchema.Encode | src/states/server/protobuf.rs:221-244 | encodes JSON text with the loaded pool and the selected type |
| ProtobufSchemaState.ProtobufSchema.LoadProtoFiles | src/states/server/protobuf.rs:90-190 | no paths gives "No proto files provided"; include directories are sorted, unique and exactly the parents; on success the message types are a sorted permutation of the pool's messages and the selection is reselected; on failure nothing changes |
| SettingEditor.CredentialLine | src/views/setting_editor.rs:41-44 | a credential is written as `user:password`, or just the password when there is no user |
| SettingEditor.CredentialLines | src/views/setting_editor.rs:39-45 | one line per credential, in order |
| SettingEditor.CredentialsToText | src/views/setting_editor.rs:38-47 | the lines are joined with newlines |
| SettingEditor.ParsedLines | src/views/setting_editor.rs:51-54 | every kept credential comes from some trimmed line, and when every line parses all are kept in order |
| SettingEditor.TextToCredentials | src/views/setting_editor.rs:50-55 | at most one credential per line, each parsed from a trimmed line |
| SettingEditor.LinesOfJoin | src/views/setting_editor.rs:38-55 | splitting joined non-empty lines that hold no line break gives the lines back |
| SettingEditor.LineEndsClean | src/views/setting_editor.rs:52 | a trimmed non-empty line does not end in a carriage return |
| SettingEditor.CredentialsRoundTrip | src/views/setting_editor.rs:38-55 | writing credentials to text and reading it back gives the same credentials when each line parses back to its credential |
| SettingEditor.SavedMaxDepth | src/views/setting_editor.rs:93-98 | the saved depth is the parsed 64-bit value, 0 when it does not parse, and a negative value wraps to a large word-sized value |
| SettingEditor.MinusOneDepth | src/views/setting_editor.rs:95-97 | "-1" is saved as the largest word-sized value |
| SettingEditor.Stepped | src/views/setting_editor.rs:102-119 | a step saturates at the 16-bit bounds, changes nothing there or on unparsable text, and otherwise moves the value by one |
| SettingEditor.SavedTruncateLength | src/views/setting_editor.rs:134-147 | a truncate length is saved only when it parses as a word-sized number of at least 10 |
| SelectableText.SelectedOf | src/components/selectable_text.rs:66-78 | a non-empty selection in range yields the text between its two ends, whichever comes first |
| SelectableText.SelectionSymmetric | src/components/selectable_text.rs:66-78 | dragging backwards selects the same text as dragging forwards |
| SelectableText.SelectionGrows | src/components/selectable_text.rs:66-78 | dragging further from the anchor extends the selected text |
| SelectableText.SelectableTextState.constructor | src/components/selectable_text.rs:49-56 | a new text has no selection and is not selecting |
| SelectableText.SelectableTextState.SelectedText | src/components/selectable_text.rs:66-78 | the selected text of the current state |
| SelectableText.SelectableTextState.SetText | src/components/selectable_text.rs:59-63 | replacing the text drops the selection |
| SelectableText.SelectableTextState.Copy | src/components/selectable_text.rs:80-84 | copy puts the selected text, if any, on the clipboard |
| SelectableText.SelectableTextState.MouseDown | src/components/selectable_text.rs:245-257 | pressing inside the text starts an empty selection at the hit index; anything else changes nothing |
| SelectableText.SelectableTextState.MouseMove | src/components/selectable_text.rs:260-279 | while selecting, the moving end follows the mouse and the anchor stays |
| SelectableText.SelectableTextState.MouseUp | src/components/selectable_text.rs:281-295 | releasing ends selecting |
| SelectableText.SelectableTextState.ClickOutside | src/components/selectable_text.rs:297-312 | a press outside the text clears an existing selection |
| SelectableText.DragAndCopy | src/components/selectable_text.rs:241-295 | press, drag and release between two positions then copy gives exactly the text between them |
| Sidebar.OpenedNames | src/views/sidebar.rs:146-161 | the listed entries are exactly the id and name of the opened servers, in server order |
| Sidebar.OpenedNamesPrefix | src/views/sidebar.rs:146-161 | listing a concatenation of server lists lists each part in turn |
| Sidebar.HomeEntry | src/views/sidebar.rs:146-161 | the home entry has an empty id and name |
| Sidebar.ClickTarget | src/views/sidebar.rs:620-750 | clicking the current item does nothing; otherwise it navigates to home for the empty id and to the editor for a server |
| Sidebar.ClickTwice | src/views/sidebar.rs:739-750 | clicking the same item again after navigating does nothing |
| Sidebar.OptionalText | src/views/sidebar.rs:331-409 | an empty form field is stored as absent, any other as its text |
| Sidebar.PortOrDefault | src/views/sidebar.rs:325 | the port is the parsed 16-bit number, or 6379 when it does not parse |
| Sidebar.Submitted | src/views/sidebar.rs:322-440 | an empty name or host rejects the form; otherwise every field follows the form, TLS files are kept only with TLS enabled, and non-editable fields come from the current server |
| Sidebar.FormOf | src/views/sidebar.rs:246-298 | the form is pre-filled from the server, the port written in decimal and left empty when it is 0 |
| Sidebar.OptionalTextOf | src/views/sidebar.rs:331-409 | pre-filling and reading back an optional field is the identity for non-empty values |
| Sidebar.UnchangedFormRoundTrip | src/views/sidebar.rs:246-448 | submitting the pre-filled form unchanged gives back the same server, except that port 0 is saved as 6379 |
| Sidebar.SubmitPlan | src/views/sidebar.rs:441-464 | a submitted server is stored, and a reconnect is planned exactly when its hash differs from the original |
| Sidebar.UnchangedFormKeepsConnection | src/views/sidebar.rs:175-464 | for a server with a non-zero port, an unchanged form stores the same server and does not reconnect |
| Sidebar.UnchangedFormPortZero | src/views/sidebar.rs:256-325 | for a server with port 0 an unchanged form stores port 6379 and reconnects exactly when that changes the hash |
| Sidebar.SidebarState.constructor | src/views/sidebar.rs:56-69 | the default sidebar state has no entries and no selected server |
| Sidebar.SidebarState.UpdateServerNames | src/views/sidebar.rs:146-161 | the list is the home entry followed by the opened servers |

## Left out

- Networking, async runtimes and concurrency are not modelled: server replies are inputs, an async task is split into the call that starts it and a completion that takes its result, and `try_join_all` is modelled as a sequence of replies in master order.
- The client libraries (redis client construction, serde_json, rmp_serde, the compression codecs, protoc, prost-reflect, uuid, `Path::parent`, `PresetCredential::from_str`, `RedisServer::get_hash`) are function-valued parameters or the `Libs`, `Toolchain`, `MessageCodec` and `Network` bundles; their own behaviour and error texts are not modelled.
- Manager.BuildClient: the client libraries' own failures (opening a bad URL, a cluster client with no nodes) are not modelled.
- Manager.BuildClient: returns the "no nodes" error where the source panics on `nodes[0]` (Manager.BuildClientAsWritten models the panic); the same holds for Manager.ConnectionManager.GetClient, which builds through it.
- Manager.Scan: requires at least one master when cursors are given, since the source indexes the first reply and would panic with none.
- Manager.GetRedisNodes: the sentinel master name is a parameter standing in for the configured `master_name`, which this revision of the configuration does not carry.
- ServerList.PushUndone: undoing a push on a list emptied meanwhile keeps the empty list, where `Vec::remove(0)` would panic.
- ServerList.WrappingAdd: `usize` arithmetic wraps modulo 2^64 as in a release build; a debug build's overflow panic is not modelled.
- Logging (`info!`, `debug!`, `error!`), UI notifications, events, `cx.notify()` and rendering are left out; list tasks' error logging is not modelled.
- `ping`, `fetch_list_value_for_edit` and the connection cache removal are not part of this model.
- The query mode and key-type enumerations are reduced to the cases the modelled operations distinguish, and the value-slot selection (`try_get_mut_key_value`) is reduced to "a key and a value are present".
- The sidebar calls `update_or_insrt_server` with two arguments while the server state in this revision takes more; Sidebar.SubmitPlan therefore states what is stored and whether to reconnect, without being wired to ServerState.ZedisServerState.UpdateOrInsertServer.
- KeyTrie: the key tree is a value rebuilt by functions rather than a structure updated in place.
- ServerState.ZedisServerState.ResetScan: the key-tree id the source draws with `Uuid::now_v7()` is the `treeId` parameter here, and likewise for ServerState.ZedisServerState.Reset and ServerState.ZedisServerState.ExtendKeys; its randomness is not modelled.
- JSON output is a value: key order and pretty-printing of ProtobufJson.DecodeRawToJson are not modelled.
- `to_lowercase` is modelled for ASCII letters and the Kelvin sign; other Unicode case folding is not.
- Manager.DbSize: the sum is unbounded; the overflow of `u64` addition in `Iterator::sum` (a panic in a debug build, wrap-around in a release build) is not modelled.
- Manager.DbSize: `try_join_all` reports whichever failure completes first; the model reports the failure of the first failing master in master order.
- Protobuf.ReadField: uses the corrected field-number check Protobuf.FieldNumber rather than the truncating one at src/helpers/protobuf.rs:161-166 (Protobuf.FieldNumberAsWritten), so keys whose field number exceeds 32 bits are rejected; the same holds for Protobuf.ReadFieldAt, Protobuf.ReadAllFields, Protobuf.ParseMessage, Protobuf.TryParseRawProtobuf, ProtobufJson.IsLikelyProtobuf and ProtobufJson.DecodeRawToJson, which build on it.
- Codec.HexToBytes: byte slicing of non-ASCII text (which would panic on a char boundary in Rust) is modelled on characters.
- SelectableText: positions are character indices rather than byte offsets, and the click-outside handler uses the current selection rather than the one seen at paint time.
- SettingEditor: saving the key separator on blur stores the text as is and is not modelled.
- ProtobufSchemaState.ProtobufSchema.LoadProtoFiles: the temporary descriptor file path is the `output` parameter, and removing that file afterwards is not modelled.
- Parse and UTF-8 error messages from the standard library are abstracted to fixed texts or parameters.
- A deserializer accepting trailing input after a value is library behaviour and is not modelled.

## Findings

| source | as written | input that shows it | evidently intended | confidence | as-written member | corrected member |
|---|---|---|---|---|---|---|
| src/connection/manager.rs:398-401 | for a non-cluster server the client is opened from `nodes[0]`, which panics when discovery returned no nodes | a sentinel whose only master is named "other" while "mymaster" is configured | return the "no nodes" error instead of panicking | not executed | Manager.SentinelWithoutMatchPanics | Manager.BuildClient |
| src/helpers/protobuf.rs:161-168 | the field number is `(key >> 3) as u32`, so the upper bits of a large key are dropped before the range check | the key 8·(2^32+1), whose field number 2^32+1 is accepted as field 1 | reject field numbers above 536870911 | not executed | Protobuf.TruncatedFieldNumberAccepted | Protobuf.FieldNumber |
