// src/helpers/protobuf.rs: schema-less decoding of the protobuf wire format
// (varints, field keys, the four value encodings) into fields and nested
// messages. The likely-protobuf heuristic and the conversion to JSON are
// in protobuf_json.dfy.

module Protobuf {
  import opened Wrappers
  import opened Binary
  import opened Text

  const MAX_PARSE_DEPTH: nat := 64
  const MAX_FIELD_SIZE: nat := 16 * 1024 * 1024
  const MAX_FIELD_NUMBER: nat := 536870911
  const U32_BOUND: nat := 0x1_0000_0000
  const U64_MAX: nat := 0xFFFF_FFFF_FFFF_FFFF

  function Pow2(n: nat): (p: nat)
    ensures p >= 1
  {
    if n == 0 then 1 else 2 * Pow2(n - 1)
  }

  lemma {:induction false} Pow2Add(a: nat, b: nat)
    ensures Pow2(a + b) == Pow2(a) * Pow2(b)
    decreases a
  {
    if a > 0 {
      Pow2Add(a - 1, b);
    }
  }

  lemma Pow2Small()
    ensures Pow2(3) == 8 && Pow2(4) == 16
  {
    assert Pow2(1) == 2;
    assert Pow2(2) == 4;
    assert Pow2(3) == 8;
  }

  lemma Pow2Seven()
    ensures Pow2(7) == 128 && Pow2(16) == 0x1_0000
  {
    Pow2Small();
    Pow2Add(4, 3);
    Pow2Add(4, 4);
    Pow2Add(8, 8);
  }

  lemma Pow2Values()
    ensures Pow2(7) == 128 && Pow2(64) == U64_BOUND
  {
    Pow2Seven();
    Pow2Add(16, 16);
    Pow2Add(32, 32);
  }

  lemma Pow256Values()
    ensures Pow256(4) == U32_BOUND && Pow256(8) == U64_BOUND
  {
    assert Pow256(1) == 256;
    assert Pow256(2) == 0x1_0000;
    assert Pow256(3) == 0x100_0000;
    assert Pow256(4) == 0x1_0000_0000;
    assert Pow256(5) == 0x100_0000_0000;
    assert Pow256(6) == 0x1_0000_0000_0000;
    assert Pow256(7) == 0x100_0000_0000_0000;
  }

  // ---------------------------------------------------------------------
  // Varints

  /// The value of the 7-bit groups of `b`, least significant group first.
  function Groups(b: Bytes): nat
  {
    if b == [] then 0 else (b[0] as int % 128) + 128 * Groups(b[1..])
  }

  /// Position of the first byte whose continuation bit is clear.
  function Terminator(b: Bytes): (r: Option<nat>)
    ensures r.Some? ==> r.value < |b| && b[r.value] < 128
  {
    if b == [] then None
    else if b[0] < 128 then Some(0)
    else match Terminator(b[1..])
      case None => None
      case Some(t) => Some(t + 1)
  }

  /// Every byte before the terminator carries the continuation bit, and
  /// there is no terminator exactly when every byte carries it.
  lemma {:induction false} TerminatorIsFirst(b: Bytes)
    ensures Terminator(b).Some? ==> forall j :: 0 <= j < Terminator(b).value ==> b[j] >= 128
    ensures Terminator(b).None? <==> forall j :: 0 <= j < |b| ==> b[j] >= 128
  {
    if b != [] && b[0] >= 128 {
      TerminatorIsFirst(b[1..]);
      assert forall j :: 1 <= j < |b| ==> b[j] == b[1..][j - 1];
    }
  }

  /// A varint at the head of `b`: its value truncated to 64 bits and the
  /// number of bytes it takes, which is at most ten.
  function DecodeVarint(b: Bytes): (r: Option<(nat, nat)>)
    ensures r.Some? ==> 1 <= r.value.1 <= 10 && r.value.1 <= |b| && r.value.0 < U64_BOUND
    ensures r.Some? ==> b[r.value.1 - 1] < 128
    ensures r.Some? ==> r.value.0 == Groups(b[..r.value.1]) % U64_BOUND
  {
    match Terminator(b)
    case None => None
    case Some(t) => if t >= 10 then None else Some((Groups(b[..t + 1]) % U64_BOUND, t + 1))
  }

  /// A varint ends at the first byte without the continuation bit, and
  /// decoding fails exactly when none of the first ten bytes lacks it.
  lemma DecodeVarintEnds(b: Bytes)
    ensures DecodeVarint(b).None? <==> forall j :: 0 <= j < |b| && j < 10 ==> b[j] >= 128
    ensures DecodeVarint(b).Some? ==> forall j :: 0 <= j < DecodeVarint(b).value.1 - 1 ==> b[j] >= 128
  {
    TerminatorIsFirst(b);
  }

  /// `Groups` of a non-empty prefix: its first group plus 128 times the rest.
  lemma GroupsHead(b: Bytes, k: nat)
    requires 1 <= k <= |b|
    ensures Groups(b[..k]) == b[0] as int % 128 + 128 * Groups(b[1..][..k - 1])
  {
    assert b[..k][1..] == b[1..][..k - 1];
  }

  lemma ShiftGroup(h: int, w: int, g: int, p: int)
    ensures h + 128 * (w + g * p) == (h + 128 * w) + g * (128 * p)
  {
    assert 128 * (g * p) == g * (128 * p);
  }

  lemma {:induction false} GroupsSnoc(b: Bytes, i: nat)
    requires i < |b|
    ensures Groups(b[..i + 1]) == Groups(b[..i]) + (b[i] as int % 128) * Pow2(7 * i)
    decreases i
  {
    if i == 0 {
      assert b[..1][1..] == [];
    } else {
      var t := b[1..];
      var g := b[i] as int % 128;
      var p := Pow2(7 * (i - 1));
      GroupsSnoc(t, i - 1);
      GroupsHead(b, i + 1);
      GroupsHead(b, i);
      assert t[i - 1] == b[i];
      Pow2Add(7, 7 * (i - 1));
      Pow2Seven();
      ShiftGroup(b[0] as int % 128, Groups(t[..i - 1]), g, p);
    }
  }

  lemma MulMonotone(a: int, b: int, m: int)
    requires a <= b && m > 0
    ensures a * m <= b * m
    decreases b - a
  {
    if a < b {
      MulMonotone(a + 1, b, m);
      assert (a + 1) * m == a * m + m;
    }
  }

  lemma MulGap(a: int, b: int, m: int)
    requires m > 0
    ensures a < b ==> a * m + m <= b * m
  {
    if a < b {
      assert (a + 1) * m == a * m + m;
      MulMonotone(a + 1, b, m);
    }
  }

  lemma ModUnique(a: int, k: int, r: int, m: int)
    requires m > 0 && a == k * m + r && 0 <= r < m
    ensures a % m == r
  {
    var k2, r2 := a / m, a % m;
    assert k * m + r == k2 * m + r2;
    MulGap(k, k2, m);
    MulGap(k2, k, m);
  }

  lemma ModAddLeft(x: nat, y: nat, m: nat)
    requires m > 0
    ensures (x % m + y) % m == (x + y) % m
  {
    var z := x % m + y;
    ModUnique(z, z / m, z % m, m);
    ModUnique(x + y, x / m + z / m, z % m, m);
  }

  /// `decode_varint_safe`. The 7-bit groups never overlap, so OR-ing each
  /// shifted group into the result adds it; bits shifted past bit 63 are
  /// lost, which the reduction modulo 2^64 expresses.
  method DecodeVarintSafe(b: Bytes) returns (r: Option<(nat, nat)>)
    ensures r == DecodeVarint(b)
  {
    if |b| == 0 {
      return None;
    }
    var result: nat := 0;
    var shift: nat := 0;
    var i: nat := 0;
    TerminatorIsFirst(b);
    while i < |b|
      invariant i <= |b| && i <= 10 && shift == 7 * i
      invariant result == Groups(b[..i]) % U64_BOUND
      invariant forall j :: 0 <= j < i ==> b[j] >= 128
    {
      if i >= 10 {
        return None;
      }
      var value := b[i] as int % 128;
      GroupsSnoc(b, i);
      ModAddLeft(Groups(b[..i]), value * Pow2(shift), U64_BOUND);
      result := (result + value * Pow2(shift)) % U64_BOUND;
      if b[i] < 128 {
        return Some((result, i + 1));
      }
      shift := shift + 7;
      i := i + 1;
    }
    return None;
  }

  /// The encoder the test suite builds its inputs with: seven bits at a
  /// time, the continuation bit on every byte but the last.
  function EncodeVarint(v: nat): (r: Bytes)
    ensures |r| >= 1
  {
    if v < 128 then [v as byte] else [(v % 128 + 128) as byte] + EncodeVarint(v / 128)
  }

  /// `build_varint`, the loop that computes `EncodeVarint`.
  method BuildVarint(v: nat) returns (r: Bytes)
    ensures r == EncodeVarint(v)
  {
    r := [];
    var value := v;
    while true
      invariant r + EncodeVarint(value) == EncodeVarint(v)
      decreases value
    {
      var b := value % 128;
      value := value / 128;
      if value != 0 {
        b := b + 128;
      }
      r := r + [b as byte];
      if value == 0 {
        break;
      }
    }
  }

  lemma {:induction false} EncodeVarintShape(v: nat, rest: Bytes)
    ensures Terminator(EncodeVarint(v) + rest) == Some(|EncodeVarint(v)| - 1)
    ensures Groups(EncodeVarint(v)) == v
    decreases v
  {
    var e := EncodeVarint(v);
    if v >= 128 {
      EncodeVarintShape(v / 128, rest);
      assert (e + rest)[1..] == EncodeVarint(v / 128) + rest;
      assert e[1..] == EncodeVarint(v / 128);
    }
  }

  lemma {:induction false} EncodeVarintLength(v: nat, k: nat)
    requires 1 <= k && v < Pow2(7 * k)
    ensures |EncodeVarint(v)| <= k
    decreases k
  {
    if v >= 128 {
      Pow2Values();
      if k == 1 {
        assert false;
      }
      Pow2Add(7, 7 * (k - 1));
      EncodeVarintLength(v / 128, k - 1);
    }
  }

  lemma {:induction false} EncodeVarintLengthAtLeast(v: nat, k: nat)
    requires Pow2(7 * k) <= v
    ensures |EncodeVarint(v)| > k
    decreases k
  {
    if k > 0 {
      Pow2Values();
      Pow2Add(7, 7 * (k - 1));
      EncodeVarintLengthAtLeast(v / 128, k - 1);
    }
  }

  lemma Pow2Seventy()
    ensures Pow2(70) == U64_BOUND * 64
  {
    Pow2Values();
    Pow2Small();
    Pow2Add(3, 3);
    Pow2Add(64, 6);
  }

  /// Decoding an encoded 64-bit value gives it back, whatever follows it,
  /// and the encoding never takes more than ten bytes.
  lemma VarintRoundTrip(v: nat, rest: Bytes)
    requires v < U64_BOUND
    ensures |EncodeVarint(v)| <= 10
    ensures DecodeVarint(EncodeVarint(v) + rest) == Some((v, |EncodeVarint(v)|))
  {
    var e := EncodeVarint(v);
    Pow2Seventy();
    EncodeVarintLength(v, 10);
    EncodeVarintShape(v, rest);
    var t := |e| - 1;
    assert Terminator(e + rest) == Some(t) && t < 10;
    assert (e + rest)[..t + 1] == e;
    assert Groups(e) % U64_BOUND == v;
  }

  /// `u64::MAX` takes exactly ten bytes and decodes back.
  lemma VarintMaxTakesTenBytes()
    ensures |EncodeVarint(U64_MAX)| == 10
    ensures DecodeVarint(EncodeVarint(U64_MAX)) == Some((U64_MAX, 10))
  {
    var v := U64_MAX;
    Pow2Values();
    Pow2Add(63, 1);
    EncodeVarintLengthAtLeast(v, 9);
    VarintRoundTrip(v, []);
    assert EncodeVarint(v) + [] == EncodeVarint(v);
  }

  // ---------------------------------------------------------------------
  // Field keys

  datatype WireType = Varint | Fixed64 | LengthDelimited | StartGroup | EndGroup | Fixed32

  function WireNumber(w: WireType): nat
  {
    match w
    case Varint => 0
    case Fixed64 => 1
    case LengthDelimited => 2
    case StartGroup => 3
    case EndGroup => 4
    case Fixed32 => 5
  }

  /// `WireType::from_u32`: the six wire types numbered 0 to 5.
  function WireTypeFromU32(v: nat): (r: Option<WireType>)
    ensures r.Some? <==> v <= 5
    ensures r.Some? ==> WireNumber(r.value) == v
  {
    match v
    case 0 => Some(Varint)
    case 1 => Some(Fixed64)
    case 2 => Some(LengthDelimited)
    case 3 => Some(StartGroup)
    case 4 => Some(EndGroup)
    case 5 => Some(Fixed32)
    case _ => None
  }

  /// The field-number check as written: the key shifted right by three is
  /// cast to `u32`, which keeps its low 32 bits, and only then compared
  /// with the valid range.
  function FieldNumberAsWritten(key: nat): (r: Option<nat>)
    ensures r.Some? ==> 1 <= r.value <= MAX_FIELD_NUMBER
    ensures r.Some? ==> r.value == (key / 8) % U32_BOUND
  {
    var n := (key / 8) % U32_BOUND;
    if n == 0 || n > MAX_FIELD_NUMBER then None else Some(n)
  }

  /// The field number of a key when it lies in 1..=536870911, compared
  /// before any narrowing.
  function FieldNumber(key: nat): (r: Option<nat>)
    ensures r.Some? <==> 1 <= key / 8 <= MAX_FIELD_NUMBER
    ensures r.Some? ==> r.value == key / 8
  {
    var n := key / 8;
    if n == 0 || n > MAX_FIELD_NUMBER then None else Some(n)
  }

  /// A key whose field number is 2^32 + 1 decodes as a varint, and the
  /// narrowed check accepts it as field 1, although its field number is
  /// out of range; the unnarrowed check rejects it.
  lemma TruncatedFieldNumberAccepted()
    ensures var key := (U32_BOUND + 1) * 8;
      && key / 8 > MAX_FIELD_NUMBER
      && DecodeVarint(EncodeVarint(key)) == Some((key, |EncodeVarint(key)|))
      && FieldNumberAsWritten(key) == Some(1)
      && FieldNumber(key) == None
  {
    var key := (U32_BOUND + 1) * 8;
    VarintRoundTrip(key, []);
    assert EncodeVarint(key) + [] == EncodeVarint(key);
  }

  // ---------------------------------------------------------------------
  // Messages

  /// `ProtoField`.
  datatype ProtoField =
    | VarintValue(v: nat)
    | Fixed64Value(v: nat)
    | Fixed32Value(v: nat)
    | LengthDelimitedValue(data: Bytes)

  type Field = (nat, ProtoField)

  /// What the parser can produce: a valid field number, values that fit
  /// their width and length-delimited data no longer than 16 MiB.
  predicate ValidField(f: Field)
  {
    && 1 <= f.0 <= MAX_FIELD_NUMBER
    && match f.1
       case VarintValue(v) => v < U64_BOUND
       case Fixed64Value(v) => v < U64_BOUND
       case Fixed32Value(v) => v < U32_BOUND
       case LengthDelimitedValue(data) => |data| <= MAX_FIELD_SIZE
  }

  predicate ValidFields(fs: seq<Field>)
  {
    forall i :: 0 <= i < |fs| ==> ValidField(fs[i])
  }

  /// The outcome of reading one field: its number, its value and the
  /// number of bytes it takes, or the failure to read one.
  datatype FieldRead = Malformed | Read(num: nat, value: ProtoField, size: nat)

  /// One iteration of the parser's loop as a value: the field at the head
  /// of `s` and the number of bytes it takes.
  function ReadField(s: Bytes): (r: FieldRead)
    ensures r.Read? ==> 0 < r.size <= |s| && ValidField((r.num, r.value))
  {
    match DecodeVarint(s)
    case None => Malformed
    case Some((key, n)) =>
      match WireTypeFromU32(key % 8)
      case None => Malformed
      case Some(wire) =>
        match FieldNumber(key)
        case None => Malformed
        case Some(num) =>
          match ReadValue(s[n..], num, wire)
          case Malformed => Malformed
          case Read(_, f, m) => Read(num, f, n + m)
  }

  /// The value of field `num`, of wire type `wire`, at the head of `s`, and
  /// the number of bytes it takes.
  function ReadValue(s: Bytes, num: nat, wire: WireType): (r: FieldRead)
    requires 1 <= num <= MAX_FIELD_NUMBER
    ensures r.Read? ==> r.num == num && 0 < r.size <= |s| && ValidField((r.num, r.value))
  {
    match wire
    case Varint =>
      (match DecodeVarint(s)
       case None => Malformed
       case Some((v, l)) => Read(num, VarintValue(v), l))
    case Fixed64 =>
      if 8 > |s| then Malformed
      else
        Pow256Values();
        Read(num, Fixed64Value(LittleEndian(s[..8])), 8)
    case LengthDelimited =>
      (match DecodeVarint(s)
       case None => Malformed
       case Some((len, l)) =>
         if len > MAX_FIELD_SIZE || l + len > |s| then Malformed
         else Read(num, LengthDelimitedValue(s[l..l + len]), l + len))
    case Fixed32 =>
      if 4 > |s| then Malformed
      else
        Pow256Values();
        Read(num, Fixed32Value(LittleEndian(s[..4])), 4)
    case _ => Malformed
  }

  function Prepend(fs: seq<Field>, r: Option<seq<Field>>): Option<seq<Field>>
  {
    match r
    case None => None
    case Some(rest) => Some(fs + rest)
  }

  /// The fields of `s` in order, or None when one of them is malformed.
  function ParseFields(s: Bytes): (r: Option<seq<Field>>)
    decreases |s|, 1
  {
    if s == [] then Some([]) else ParseFieldsFrom(s)
  }

  /// The fields of a non-empty `s`: the field at its head, then the rest.
  function ParseFieldsFrom(s: Bytes): (r: Option<seq<Field>>)
    requires s != []
    decreases |s|, 0
  {
    match ReadField(s)
    case Malformed => None
    case Read(num, f, n) => Prepend([(num, f)], ParseFields(s[n..]))
  }

  /// `try_parse_raw_protobuf_with_depth` as a value: nothing beyond depth
  /// 64, nothing from fewer than two bytes, every byte consumed by
  /// well-formed fields, and at least one field.
  function ParseMessage(b: Bytes, depth: nat): (r: Option<seq<Field>>)
    ensures r.Some? ==> depth <= MAX_PARSE_DEPTH && |b| >= 2 && r.value != []
  {
    if depth > MAX_PARSE_DEPTH || |b| < 2 then None
    else match ParseFields(b)
      case None => None
      case Some(fs) => if fs == [] then None else Some(fs)
  }

  /// Every field the parser returns is well-formed: its number is in
  /// range and its value fits its wire type.
  lemma {:induction false} ParseFieldsValid(s: Bytes)
    ensures ParseFields(s).Some? ==> ValidFields(ParseFields(s).value)
    decreases |s|
  {
    if s != [] && ReadField(s).Read? {
      var num, f, n := ReadField(s).num, ReadField(s).value, ReadField(s).size;
      ParseFieldsValid(s[n..]);
      if ParseFields(s[n..]).Some? {
        var rest := ParseFields(s[n..]).value;
        assert ParseFields(s).value == [(num, f)] + rest;
        assert forall i :: 0 < i < |rest| + 1 ==> ([(num, f)] + rest)[i] == rest[i - 1];
      }
    }
  }

  lemma ParseMessageValid(b: Bytes, depth: nat)
    ensures ParseMessage(b, depth).Some? ==> ValidFields(ParseMessage(b, depth).value)
  {
    ParseFieldsValid(b);
  }

  /// Reading one more field extends the fields read so far.
  lemma PrependExtend(whole: Option<seq<Field>>, fields: seq<Field>, mid: Option<seq<Field>>,
                      x: Field, tail: Option<seq<Field>>)
    requires whole == Prepend(fields, mid) && mid == Prepend([x], tail)
    ensures whole == Prepend(fields + [x], tail)
  {
    if tail.Some? {
      assert fields + ([x] + tail.value) == (fields + [x]) + tail.value;
    }
  }

  /// The body of the parser's loop: reads the field at the head of `s`,
  /// the input from the cursor on.
  method ReadFieldAt(s: Bytes) returns (r: FieldRead)
    ensures r == ReadField(s)
  {
    var key := DecodeVarintSafe(s);
    if key.None? {
      return Malformed;
    }
    var c := key.value.1;
    var wire := WireTypeFromU32(key.value.0 % 8);
    if wire.None? {
      return Malformed;
    }
    var num := FieldNumber(key.value.0);
    if num.None? {
      return Malformed;
    }
    var v := ReadValueAt(s[c..], num.value, wire.value);
    if v.Malformed? {
      return Malformed;
    }
    return Read(num.value, v.value, c + v.size);
  }

  /// The value part of the loop body, on the bytes after the key.
  method ReadValueAt(rest: Bytes, num: nat, wire: WireType) returns (r: FieldRead)
    requires 1 <= num <= MAX_FIELD_NUMBER
    ensures r == ReadValue(rest, num, wire)
  {
    match wire {
      case Varint =>
        var v := DecodeVarintSafe(rest);
        if v.None? {
          return Malformed;
        }
        return Read(num, VarintValue(v.value.0), v.value.1);
      case Fixed64 =>
        if 8 > |rest| {
          return Malformed;
        }
        Pow256Values();
        return Read(num, Fixed64Value(LittleEndian(rest[..8])), 8);
      case LengthDelimited =>
        var len := DecodeVarintSafe(rest);
        if len.None? {
          return Malformed;
        }
        var start := len.value.1;
        if len.value.0 > MAX_FIELD_SIZE {
          return Malformed;
        }
        var end := start + len.value.0;
        if end > |rest| {
          return Malformed;
        }
        return Read(num, LengthDelimitedValue(rest[start..end]), end);
      case Fixed32 =>
        if 4 > |rest| {
          return Malformed;
        }
        Pow256Values();
        return Read(num, Fixed32Value(LittleEndian(rest[..4])), 4);
      case _ =>
        return Malformed;
    }
  }

  /// The parser's loop invariant: the fields read before `cursor`,
  /// followed by the parse of the rest, make up `whole`.
  ghost predicate ParsedPrefix(b: Bytes, cursor: nat, whole: Option<seq<Field>>, fields: seq<Field>)
  {
    cursor <= |b| && whole == Prepend(fields, ParseFields(b[cursor..]))
  }

  /// The loop of `try_parse_raw_protobuf_with_depth`: reads fields until
  /// the input is used up, and gives up at the first malformed one.
  method ReadAllFields(b: Bytes) returns (r: Option<seq<Field>>)
    ensures r == ParseFields(b)
  {
    var fields: seq<Field> := [];
    var cursor: nat := 0;
    ghost var whole := ParseFields(b);
    ParsedNothing(b);
    while cursor < |b|
      invariant ParsedPrefix(b, cursor, whole, fields)
      decreases |b| - cursor
    {
      var read := ReadNextField(b, cursor, whole, fields);
      if read.Malformed? {
        return None;
      }
      fields := fields + [(read.num, read.value)];
      cursor := cursor + read.size;
    }
    ParsedAll(b, cursor, whole, fields);
    return Some(fields);
  }

  lemma ParsedNothing(b: Bytes)
    ensures ParsedPrefix(b, 0, ParseFields(b), [])
  {
    assert b[0..] == b;
    if ParseFields(b).Some? {
      assert [] + ParseFields(b).value == ParseFields(b).value;
    }
  }

  lemma ParsedAll(b: Bytes, cursor: nat, whole: Option<seq<Field>>, fields: seq<Field>)
    requires ParsedPrefix(b, cursor, whole, fields) && cursor >= |b|
    ensures whole == Some(fields)
  {
    assert b[cursor..] == [];
    assert fields + [] == fields;
  }

  /// The body of the parser's loop: reads the field at the cursor, which
  /// extends the fields read so far, or finds that the input is malformed.
  method ReadNextField(b: Bytes, cursor: nat, ghost whole: Option<seq<Field>>, ghost fields: seq<Field>)
    returns (r: FieldRead)
    requires cursor < |b| && ParsedPrefix(b, cursor, whole, fields)
    ensures r.Malformed? ==> whole.None?
    ensures r.Read? ==> r.size > 0 && ParsedPrefix(b, cursor + r.size, whole, fields + [(r.num, r.value)])
  {
    r := ReadFieldAt(b[cursor..]);
    ParseStep(b, cursor, whole, fields, r);
  }

  /// One step of the parser's loop keeps the fields read so far a prefix
  /// of the parse of the whole input, or finds that the whole input fails.
  lemma ParseStep(b: Bytes, cursor: nat, whole: Option<seq<Field>>, fields: seq<Field>, r: FieldRead)
    requires cursor < |b| && ParsedPrefix(b, cursor, whole, fields)
    requires r == ReadField(b[cursor..])
    ensures r.Malformed? ==> whole.None?
    ensures r.Read? ==> r.size > 0 && ParsedPrefix(b, cursor + r.size, whole, fields + [(r.num, r.value)])
  {
    ParseFieldsHead(b, cursor, r);
    if r.Read? {
      PrependExtend(whole, fields, ParseFields(b[cursor..]), (r.num, r.value), ParseFields(b[cursor + r.size..]));
    }
  }

  /// The parse of the input from `cursor` on fails when no field can be
  /// read there, and otherwise starts with the field read there.
  lemma ParseFieldsHead(b: Bytes, cursor: nat, r: FieldRead)
    requires cursor < |b| && r == ReadField(b[cursor..])
    ensures r.Malformed? ==> ParseFields(b[cursor..]).None?
    ensures r.Read? ==> r.size > 0 && cursor + r.size <= |b|
    ensures r.Read? ==> ParseFields(b[cursor..]) == Prepend([(r.num, r.value)], ParseFields(b[cursor + r.size..]))
  {
    if r.Read? {
      assert b[cursor..][r.size..] == b[cursor + r.size..];
    }
  }

  /// `try_parse_raw_protobuf_with_depth`.
  method TryParseRawProtobuf(b: Bytes, depth: nat) returns (r: Option<seq<Field>>)
    ensures r == ParseMessage(b, depth)
  {
    if depth > MAX_PARSE_DEPTH {
      return None;
    }
    if |b| < 2 {
      return None;
    }
    var fields := ReadAllFields(b);
    if fields.None? || fields.value == [] {
      return None;
    }
    return fields;
  }

  // ---------------------------------------------------------------------
  // The encoders the test suite builds messages with

  /// `to_le_bytes`: `n` bytes, least significant first.
  function LittleEndianBytes(v: nat, n: nat): (r: Bytes)
    ensures |r| == n
  {
    if n == 0 then [] else [(v % 256) as byte] + LittleEndianBytes(v / 256, n - 1)
  }

  lemma {:induction false} LittleEndianRoundTrip(v: nat, n: nat)
    requires v < Pow256(n)
    ensures LittleEndian(LittleEndianBytes(v, n)) == v
  {
    if n > 0 {
      LittleEndianRoundTrip(v / 256, n - 1);
      assert LittleEndianBytes(v, n)[1..] == LittleEndianBytes(v / 256, n - 1);
    }
  }

  function WireTypeOf(f: ProtoField): WireType
  {
    match f
    case VarintValue(_) => Varint
    case Fixed64Value(_) => Fixed64
    case Fixed32Value(_) => Fixed32
    case LengthDelimitedValue(_) => LengthDelimited
  }

  /// `build_field_key`: the field number shifted left by three, or-ed with
  /// the wire type.
  function FieldKey(num: nat, w: WireType): (r: Bytes)
    ensures |r| >= 1
  {
    EncodeVarint(num * 8 + WireNumber(w))
  }

  function EncodeValue(f: ProtoField): (r: Bytes)
    ensures |r| >= 1
  {
    match f
    case VarintValue(v) => EncodeVarint(v)
    case Fixed64Value(v) => LittleEndianBytes(v, 8)
    case Fixed32Value(v) => LittleEndianBytes(v, 4)
    case LengthDelimitedValue(data) => EncodeVarint(|data|) + data
  }

  /// `build_varint_field`, `build_fixed64_field`, `build_fixed32_field` and
  /// `build_length_delimited_field`: the key, then the value.
  function EncodeField(f: Field): (r: Bytes)
    ensures |r| >= 2
  {
    FieldKey(f.0, WireTypeOf(f.1)) + EncodeValue(f.1)
  }

  function EncodeFields(fs: seq<Field>): (r: Bytes)
    ensures fs != [] ==> |r| >= 2
  {
    if fs == [] then [] else EncodeField(fs[0]) + EncodeFields(fs[1..])
  }

  lemma ReadEncodedFixed(num: nat, x: nat, width: nat, rest: Bytes)
    requires 1 <= num <= MAX_FIELD_NUMBER
    requires (width == 8 && x < U64_BOUND) || (width == 4 && x < U32_BOUND)
    ensures width == 8 ==> ReadValue(LittleEndianBytes(x, 8) + rest, num, Fixed64) == Read(num, Fixed64Value(x), 8)
    ensures width == 4 ==> ReadValue(LittleEndianBytes(x, 4) + rest, num, Fixed32) == Read(num, Fixed32Value(x), 4)
  {
    Pow256Values();
    var s := LittleEndianBytes(x, width) + rest;
    assert s[..width] == LittleEndianBytes(x, width);
    LittleEndianRoundTrip(x, width);
  }

  lemma ReadEncodedBytes(num: nat, data: Bytes, rest: Bytes)
    requires 1 <= num <= MAX_FIELD_NUMBER && |data| <= MAX_FIELD_SIZE
    ensures ReadValue(EncodeVarint(|data|) + data + rest, num, LengthDelimited)
            == Read(num, LengthDelimitedValue(data), |EncodeVarint(|data|)| + |data|)
  {
    var l := EncodeVarint(|data|);
    var s := l + data + rest;
    assert s == l + (data + rest);
    VarintRoundTrip(|data|, data + rest);
    assert s[|l|..|l| + |data|] == data;
  }

  lemma ReadEncodedValue(num: nat, f: ProtoField, rest: Bytes)
    requires ValidField((num, f))
    ensures ReadValue(EncodeValue(f) + rest, num, WireTypeOf(f)) == Read(num, f, |EncodeValue(f)|)
  {
    match f
    case VarintValue(x) =>
      VarintRoundTrip(x, rest);
    case Fixed64Value(x) =>
      ReadEncodedFixed(num, x, 8, rest);
    case Fixed32Value(x) =>
      ReadEncodedFixed(num, x, 4, rest);
    case LengthDelimitedValue(data) =>
      ReadEncodedBytes(num, data, rest);
  }

  lemma KeyParts(num: nat, w: WireType)
    requires 1 <= num <= MAX_FIELD_NUMBER
    ensures WireTypeFromU32((num * 8 + WireNumber(w)) % 8) == Some(w)
    ensures FieldNumber(num * 8 + WireNumber(w)) == Some(num)
    ensures num * 8 + WireNumber(w) < U64_BOUND
  {
    var key := num * 8 + WireNumber(w);
    ModUnique(key, num, WireNumber(w), 8);
    assert key / 8 == num;
  }

  lemma ReadFieldOfKey(s: Bytes, key: nat, n: nat, num: nat, w: WireType)
    requires DecodeVarint(s) == Some((key, n))
    requires WireTypeFromU32(key % 8) == Some(w) && FieldNumber(key) == Some(num)
    requires ReadValue(s[n..], num, w).Read?
    ensures ReadField(s) == Read(num, ReadValue(s[n..], num, w).value, n + ReadValue(s[n..], num, w).size)
  {
  }

  /// A field key an encoder wrote decodes back to its varint, whatever follows it.
  lemma DecodeFieldKey(num: nat, w: WireType, tail: Bytes)
    requires 1 <= num <= MAX_FIELD_NUMBER
    ensures DecodeVarint(FieldKey(num, w) + tail) == Some((num * 8 + WireNumber(w), |FieldKey(num, w)|))
  {
    KeyParts(num, w);
    VarintRoundTrip(num * 8 + WireNumber(w), tail);
  }

  /// The field an encoder wrote is the field the parser reads, whatever
  /// follows it.
  lemma ReadEncodedField(f: Field, rest: Bytes)
    requires ValidField(f)
    ensures ReadField(EncodeField(f) + rest) == Read(f.0, f.1, |EncodeField(f)|)
  {
    var w := WireTypeOf(f.1);
    var k := FieldKey(f.0, w);
    var v := EncodeValue(f.1);
    var s := EncodeField(f) + rest;
    assert s == k + (v + rest) && s[|k|..] == v + rest;
    DecodeFieldKey(f.0, w, v + rest);
    KeyParts(f.0, w);
    ReadEncodedValue(f.0, f.1, rest);
    ReadFieldOfKey(s, f.0 * 8 + WireNumber(w), |k|, f.0, w);
  }

  /// A field read at the head of `s` followed by the fields of the rest
  /// are the fields of `s`.
  lemma ParseFieldsCons(s: Bytes, f: Field, n: nat, rest: seq<Field>)
    requires n <= |s| && ReadField(s) == Read(f.0, f.1, n)
    requires ParseFields(s[n..]) == Some(rest)
    ensures ParseFields(s) == Some([f] + rest)
  {
    assert s != [];
  }

  lemma {:induction false} ParseEncodedFields(fs: seq<Field>)
    requires ValidFields(fs)
    ensures ParseFields(EncodeFields(fs)) == Some(fs)
    decreases |fs|
  {
    if fs != [] {
      var e := EncodeField(fs[0]);
      var tail := EncodeFields(fs[1..]);
      assert ValidField(fs[0]);
      assert ValidFields(fs[1..]) by {
        assert forall i :: 0 <= i < |fs[1..]| ==> fs[1..][i] == fs[i + 1];
      }
      ReadEncodedField(fs[0], tail);
      ParseEncodedFields(fs[1..]);
      ParseFieldsCons(e + tail, fs[0], |e|, fs[1..]);
      assert [fs[0]] + fs[1..] == fs;
    }
  }

  /// Every non-empty list of valid fields, encoded as the test suite does,
  /// parses back to itself at any depth up to 64.
  lemma MessageRoundTrip(fs: seq<Field>, depth: nat)
    requires fs != [] && ValidFields(fs) && depth <= MAX_PARSE_DEPTH
    ensures ParseMessage(EncodeFields(fs), depth) == Some(fs)
  {
    ParseEncodedFields(fs);
  }
}
