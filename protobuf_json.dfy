// src/helpers/protobuf.rs, continued: the JSON rendering of a decoded
// message (repeated field numbers grouped into arrays, nested messages
// decoded up to depth 64, text kept as strings, other bytes shown as
// base64) and the heuristic that decides whether bytes are likely a
// protobuf message.

module ProtobufJson {
  import opened Wrappers
  import opened Binary
  import opened Text
  import opened JsonValue
  import opened Protobuf

  // ---------------------------------------------------------------------
  // Text and base64 rendering of length-delimited values
  // ---------------------------------------------------------------------

  /// `char::is_control`: the Unicode general category Cc.
  predicate IsControl(c: char)
  {
    c <= '\U{1F}' || ('\U{7F}' <= c <= '\U{9F}')
  }

  /// Text shown as a JSON string: no control character other than newline,
  /// carriage return and tab.
  predicate Printable(s: string)
  {
    forall k :: 0 <= k < |s| ==> !IsControl(s[k]) || s[k] == '\n' || s[k] == '\r' || s[k] == '\t'
  }

  /// The digit for a six-bit value in the standard alphabet of section 4 of
  /// RFC 4648.
  function Base64Digit(v: nat): (c: char)
    requires v < 64
  {
    if v < 26 then ('A' as int + v) as char
    else if v < 52 then ('a' as int + (v - 26)) as char
    else if v < 62 then ('0' as int + (v - 52)) as char
    else if v == 62 then '+'
    else '/'
  }

  /// The six-bit value of a digit of the standard alphabet.
  function Base64Value(c: char): (r: Option<nat>)
    ensures r.Some? ==> r.value < 64 && Base64Digit(r.value) == c
  {
    if 'A' <= c <= 'Z' then Some(c as int - 'A' as int)
    else if 'a' <= c <= 'z' then Some(c as int - 'a' as int + 26)
    else if '0' <= c <= '9' then Some(c as int - '0' as int + 52)
    else if c == '+' then Some(62)
    else if c == '/' then Some(63)
    else None
  }

  lemma Base64ValueOfDigit(v: nat)
    requires v < 64
    ensures Base64Value(Base64Digit(v)) == Some(v)
  {
  }

  /// The four digits of a group of one to three bytes, padded with `=`.
  function Base64Quad(g: Bytes): (r: string)
    requires 1 <= |g| <= 3
    ensures |r| == 4
  {
    var x := g[0] as nat;
    var y := if |g| >= 2 then g[1] as nat else 0;
    var z := if |g| == 3 then g[2] as nat else 0;
    [Base64Digit(x / 4), Base64Digit(x % 4 * 16 + y / 16),
     if |g| >= 2 then Base64Digit(y % 16 * 4 + z / 64) else '=',
     if |g| == 3 then Base64Digit(z % 64) else '=']
  }

  /// The padded standard base64 encoding (RFC 4648, section 4) that the
  /// `base64` crate's STANDARD engine produces.
  function Base64(b: Bytes): (r: string)
    decreases |b|
  {
    if b == [] then []
    else if |b| <= 3 then Base64Quad(b)
    else Base64Quad(b[..3]) + Base64(b[3..])
  }

  /// Four digits per started group of three bytes.
  lemma {:induction false} Base64Length(b: Bytes)
    ensures |Base64(b)| == 4 * ((|b| + 2) / 3)
    decreases |b|
  {
    var n := |b|;
    if n > 3 {
      Base64Length(b[3..]);
      assert |Base64(b)| == 4 + |Base64(b[3..])|;
      assert (n - 3 + 2) / 3 + 1 == (n + 2) / 3;
    } else if n > 0 {
      assert (n + 2) / 3 == 1;
    }
  }

  /// Reading the digits of one group back: the bytes they were made from.
  function Base64Group(s: string): (r: Option<Bytes>)
    requires |s| == 4
  {
    var a, b, c, d := Base64Value(s[0]), Base64Value(s[1]), Base64Value(s[2]), Base64Value(s[3]);
    if a.None? || b.None? then None
    else
      var first := (a.value * 4 + b.value / 16) as byte;
      if s[2] == '=' && s[3] == '=' then Some([first])
      else if c.None? then None
      else
        var second := (b.value % 16 * 16 + c.value / 4) as byte;
        if s[3] == '=' then Some([first, second])
        else if d.None? then None
        else Some([first, second, (c.value % 4 * 64 + d.value) as byte])
  }

  /// Decoding of padded base64, the inverse that `Base64` is proved against.
  function Base64Decode(s: string): (r: Option<Bytes>)
    decreases |s|
  {
    if s == [] then Some([])
    else if |s| < 4 then None
    else match Base64Group(s[..4])
      case None => None
      case Some(g) =>
        if |g| < 3 then (if s[4..] == [] then Some(g) else None)
        else match Base64Decode(s[4..])
          case None => None
          case Some(rest) => Some(g + rest)
  }

  /// Six-bit digits that read back as the bytes they were cut from.
  lemma Base64Digits(a: nat, b: nat, c: nat, d: nat)
    requires a < 64 && b < 64 && c < 64 && d < 64
    ensures Base64Group([Base64Digit(a), Base64Digit(b), Base64Digit(c), Base64Digit(d)])
            == Some([(a * 4 + b / 16) as byte, (b % 16 * 16 + c / 4) as byte, (c % 4 * 64 + d) as byte])
    ensures Base64Group([Base64Digit(a), Base64Digit(b), Base64Digit(c), '='])
            == Some([(a * 4 + b / 16) as byte, (b % 16 * 16 + c / 4) as byte])
    ensures Base64Group([Base64Digit(a), Base64Digit(b), '=', '='])
            == Some([(a * 4 + b / 16) as byte])
  {
    Base64ValueOfDigit(a);
    Base64ValueOfDigit(b);
    Base64ValueOfDigit(c);
    Base64ValueOfDigit(d);
  }

  lemma Base64OneByte(x: byte)
    ensures Base64Group(Base64Quad([x])) == Some([x])
  {
    var v := x as nat;
    var a, b := v / 4, v % 4 * 16;
    assert Base64Quad([x]) == [Base64Digit(a), Base64Digit(b), '=', '='];
    Base64Digits(a, b, 0, 0);
    assert a * 4 + b / 16 == v;
  }

  lemma Base64TwoBytes(x: byte, y: byte)
    ensures Base64Group(Base64Quad([x, y])) == Some([x, y])
  {
    var v, w := x as nat, y as nat;
    var a, b, c := v / 4, v % 4 * 16 + w / 16, w % 16 * 4;
    assert Base64Quad([x, y]) == [Base64Digit(a), Base64Digit(b), Base64Digit(c), '='];
    Base64Digits(a, b, c, 0);
    assert a * 4 + b / 16 == v;
    assert b % 16 * 16 + c / 4 == w;
  }

  lemma Base64ThreeBytes(x: byte, y: byte, z: byte)
    ensures Base64Group(Base64Quad([x, y, z])) == Some([x, y, z])
  {
    var v, w, u := x as nat, y as nat, z as nat;
    var a, b, c, d := v / 4, v % 4 * 16 + w / 16, w % 16 * 4 + u / 64, u % 64;
    assert Base64Quad([x, y, z]) == [Base64Digit(a), Base64Digit(b), Base64Digit(c), Base64Digit(d)];
    Base64Digits(a, b, c, d);
    assert a * 4 + b / 16 == v;
    assert b % 16 * 16 + c / 4 == w;
    assert c % 4 * 64 + d == u;
  }

  /// A group of one to three bytes reads back from its four digits.
  lemma Base64QuadRoundTrip(g: Bytes)
    requires 1 <= |g| <= 3
    ensures Base64Group(Base64Quad(g)) == Some(g)
  {
    if |g| == 1 {
      Base64OneByte(g[0]);
      assert [g[0]] == g;
    } else if |g| == 2 {
      Base64TwoBytes(g[0], g[1]);
      assert [g[0], g[1]] == g;
    } else {
      Base64ThreeBytes(g[0], g[1], g[2]);
      assert [g[0], g[1], g[2]] == g;
    }
  }

  /// Every byte string survives a trip through its base64 text.
  lemma {:induction false} Base64RoundTrip(b: Bytes)
    ensures Base64Decode(Base64(b)) == Some(b)
    decreases |b|
  {
    if 1 <= |b| <= 3 {
      Base64QuadRoundTrip(b);
      assert Base64(b)[..4] == Base64(b) && Base64(b)[4..] == [];
      assert b + [] == b;
    } else if |b| > 3 {
      var s := Base64(b);
      Base64QuadRoundTrip(b[..3]);
      assert s[..4] == Base64Quad(b[..3]) && s[4..] == Base64(b[3..]);
      Base64RoundTrip(b[3..]);
      assert b[..3] + b[3..] == b;
    }
  }

  // ---------------------------------------------------------------------
  // Field values as JSON
  // ---------------------------------------------------------------------

  /// How many more levels of nesting may still be decoded.
  function Budget(depth: nat): nat
  {
    if depth <= MAX_PARSE_DEPTH then MAX_PARSE_DEPTH - depth else 0
  }

  /// How a length-delimited value that is not a nested message is shown:
  /// as itself when it is UTF-8 without control characters other than
  /// newline, carriage return and tab, otherwise as `<bytes:BASE64>`.
  function BytesText(b: Bytes): (r: string)
    ensures Decode(b).Some? && Printable(Decode(b).value) ==> r == Decode(b).value
    ensures !(Decode(b).Some? && Printable(Decode(b).value)) ==> r == "<bytes:" + Base64(b) + ">"
  {
    match Decode(b)
    case Some(s) => if Printable(s) then s else "<bytes:" + Base64(b) + ">"
    case None => "<bytes:" + Base64(b) + ">"
  }

  /// `field_to_json`: numbers stay numbers; bytes become a nested object
  /// when they parse as a message one level deeper (and fewer than 64
  /// levels are open), otherwise text. Never an array, which is what lets
  /// the grouping of repeated fields tell a first value from a list.
  function FieldToJson(f: ProtoField, depth: nat): (r: Json)
    ensures !r.JArr?
    ensures f.LengthDelimitedValue? ==> r.JObj? || r.JStr?
    ensures !f.LengthDelimitedValue? ==> r == JNum(f.v)
    decreases Budget(depth), 0, 0
  {
    match f
    case VarintValue(v) => JNum(v)
    case Fixed64Value(v) => JNum(v)
    case Fixed32Value(v) => JNum(v)
    case LengthDelimitedValue(b) =>
      if depth < MAX_PARSE_DEPTH && ParseMessage(b, depth + 1).Some? then
        JObj(Grouped(ParseMessage(b, depth + 1).value, depth + 1))
      else
        JStr(BytesText(b))
  }

  /// The object key of a field: its number in decimal.
  function KeyOf(f: Field): string
  {
    Decimal(f.0)
  }

  /// The JSON values of the fields whose key is `key`, in wire order.
  function ValuesOf(fields: seq<Field>, key: string, depth: nat): (r: seq<Json>)
    ensures |r| <= |fields|
    ensures forall j :: 0 <= j < |r| ==> !r[j].JArr?
    decreases Budget(depth), 1, |fields|
  {
    if fields == [] then []
    else
      var last := fields[|fields| - 1];
      ValuesOf(fields[..|fields| - 1], key, depth)
      + (if KeyOf(last) == key then [FieldToJson(last.1, depth)] else [])
  }

  /// The keys of an object built from `fields`.
  function Keys(fields: seq<Field>): set<string>
  {
    set i | 0 <= i < |fields| :: KeyOf(fields[i])
  }

  /// One key's entry: the value of a field seen once, else all its values.
  function Group(vs: seq<Json>): Json
  {
    if |vs| == 1 then vs[0] else JArr(vs)
  }

  /// The entries of the object `fields_to_json` builds, defined key by key.
  function Grouped(fields: seq<Field>, depth: nat): (r: map<string, Json>)
    decreases Budget(depth), 2, 0
  {
    map k | k in Keys(fields) :: Group(ValuesOf(fields, k, depth))
  }

  /// A key has values exactly when some field carries it.
  lemma {:induction false} ValuesOfEmpty(fields: seq<Field>, key: string, depth: nat)
    ensures ValuesOf(fields, key, depth) == [] <==> key !in Keys(fields)
    decreases |fields|
  {
    if fields != [] {
      var pre := fields[..|fields| - 1];
      ValuesOfEmpty(pre, key, depth);
      assert forall i :: 0 <= i < |pre| ==> pre[i] == fields[i];
      if key in Keys(pre) {
        var i :| 0 <= i < |pre| && KeyOf(pre[i]) == key;
        assert KeyOf(fields[i]) == key;
      }
      if key in Keys(fields) && key !in Keys(pre) {
        var i :| 0 <= i < |fields| && KeyOf(fields[i]) == key;
        assert i == |fields| - 1;
      }
    }
  }

  /// The number of fields carrying `key`.
  function Occurrences(fields: seq<Field>, key: string): nat
  {
    |set i | 0 <= i < |fields| && KeyOf(fields[i]) == key|
  }

  lemma OccurrencesSnoc(pre: seq<Field>, f: Field, key: string)
    ensures Occurrences(pre + [f], key) == Occurrences(pre, key) + (if KeyOf(f) == key then 1 else 0)
  {
    var s := pre + [f];
    var a := set i | 0 <= i < |pre| && KeyOf(pre[i]) == key;
    var b := set i | 0 <= i < |s| && KeyOf(s[i]) == key;
    assert forall i :: 0 <= i < |pre| ==> s[i] == pre[i];
    if KeyOf(f) == key {
      assert b == a + {|pre|};
    } else {
      assert b == a;
    }
  }

  /// Every field contributes exactly one value under its key.
  lemma {:induction false} ValuesOfCount(fields: seq<Field>, key: string, depth: nat)
    ensures |ValuesOf(fields, key, depth)| == Occurrences(fields, key)
    decreases |fields|
  {
    if fields != [] {
      var pre := fields[..|fields| - 1];
      var f := fields[|fields| - 1];
      ValuesOfCount(pre, key, depth);
      assert pre + [f] == fields;
      OccurrencesSnoc(pre, f, key);
    }
  }

  /// A field number seen once stays a scalar; one seen more often becomes
  /// the array of its values in wire order.
  lemma RepeatedFieldsBecomeArrays(fields: seq<Field>, key: string, depth: nat)
    requires key in Keys(fields)
    ensures key in Grouped(fields, depth)
    ensures Occurrences(fields, key) == 1 ==> !Grouped(fields, depth)[key].JArr?
    ensures Occurrences(fields, key) >= 2 ==>
      Grouped(fields, depth)[key] == JArr(ValuesOf(fields, key, depth))
  {
    ValuesOfCount(fields, key, depth);
  }

  /// Adding a field leaves every other key's values as they were.
  lemma ValuesOfSnoc(pre: seq<Field>, f: Field, key: string, depth: nat)
    ensures ValuesOf(pre + [f], key, depth) ==
      ValuesOf(pre, key, depth) + (if KeyOf(f) == key then [FieldToJson(f.1, depth)] else [])
  {
    assert (pre + [f])[..|pre|] == pre;
  }

  /// Adding one field to the list changes the object only under its key.
  lemma GroupedSnoc(pre: seq<Field>, f: Field, depth: nat)
    ensures Grouped(pre + [f], depth) ==
      Grouped(pre, depth)[KeyOf(f) := Group(ValuesOf(pre, KeyOf(f), depth) + [FieldToJson(f.1, depth)])]
  {
    var s := pre + [f];
    var g := Grouped(s, depth);
    var h := Grouped(pre, depth)[KeyOf(f) := Group(ValuesOf(pre, KeyOf(f), depth) + [FieldToJson(f.1, depth)])];
    assert Keys(s) == Keys(pre) + {KeyOf(f)} by {
      assert forall i :: 0 <= i < |pre| ==> s[i] == pre[i];
      assert KeyOf(s[|pre|]) == KeyOf(f);
    }
    forall k | k in g
      ensures k in h && g[k] == h[k]
    {
      ValuesOfSnoc(pre, f, k, depth);
    }
    assert g.Keys == h.Keys;
  }

  /// The entry a repeated key gets when one more value arrives, in the
  /// form of the map update `fields_to_json` performs.
  lemma GroupPush(vs: seq<Json>, v: Json)
    requires vs != [] && forall j :: 0 <= j < |vs| ==> !vs[j].JArr?
    ensures Group(vs + [v]) ==
      if Group(vs).JArr? then JArr(Group(vs).items + [v]) else JArr([Group(vs), v])
  {
  }

  /// `fields_to_json`: one pass over the fields that inserts each value
  /// under its key, turning the entry into an array on the second value
  /// and appending to the array afterwards.
  method FieldsToJson(fields: seq<Field>, depth: nat) returns (r: Json)
    ensures r == JObj(Grouped(fields, depth))
  {
    var m: map<string, Json> := map[];
    var i := 0;
    while i < |fields|
      invariant 0 <= i <= |fields|
      invariant m == Grouped(fields[..i], depth)
    {
      var key := KeyOf(fields[i]);
      var value := FieldToJson(fields[i].1, depth);
      GroupedSnoc(fields[..i], fields[i], depth);
      assert fields[..i + 1] == fields[..i] + [fields[i]];
      ValuesOfEmpty(fields[..i], key, depth);
      if key in m {
        GroupPush(ValuesOf(fields[..i], key, depth), value);
        var existing := m[key];
        if existing.JArr? {
          m := m[key := JArr(existing.items + [value])];
        } else {
          m := m[key := JArr([existing, value])];
        }
      } else {
        m := m[key := value];
      }
      i := i + 1;
    }
    assert fields[..i] == fields;
    r := JObj(m);
  }

  /// `decode_raw_to_json` up to printing: the object of a message that
  /// parses at depth 0, or nothing.
  function DecodeRawToJson(b: Bytes): (r: Option<Json>)
    ensures r.Some? <==> ParseMessage(b, 0).Some?
    ensures r.Some? ==> r.value == JObj(Grouped(ParseMessage(b, 0).value, 0))
  {
    match ParseMessage(b, 0)
    case None => None
    case Some(fields) => Some(JObj(Grouped(fields, 0)))
  }

  // ---------------------------------------------------------------------
  // The likely-protobuf heuristic
  // ---------------------------------------------------------------------

  /// Digits, at most one `.`, and at least one digit.
  predicate IsMantissa(m: string)
  {
    match IndexOf(m, '.')
    case None => m != [] && AllDigits(m)
    case Some(j) => |m| > 1 && AllDigits(m[..j]) && AllDigits(m[j + 1..])
  }

  /// An optional sign and at least one digit.
  predicate IsExponent(e: string)
  {
    var digits := if e != [] && (e[0] == '+' || e[0] == '-') then e[1..] else e;
    digits != [] && AllDigits(digits)
  }

  /// The position of the first `e` or `E`.
  function IndexOfExponent(s: string): (r: Option<nat>)
    ensures r.Some? ==> r.value < |s| && (s[r.value] == 'e' || s[r.value] == 'E')
    ensures r.Some? ==> forall k :: 0 <= k < r.value ==> s[k] != 'e' && s[k] != 'E'
    ensures r.None? ==> forall k :: 0 <= k < |s| ==> s[k] != 'e' && s[k] != 'E'
  {
    if s == [] then None
    else if s[0] == 'e' || s[0] == 'E' then Some(0)
    else match IndexOfExponent(s[1..])
      case None => None
      case Some(i) => Some(i + 1)
  }

  /// What Rust's `str::parse::<f64>` accepts: an optional sign, then
  /// `inf`, `infinity` or `nan` in any case, or a decimal mantissa with an
  /// optional exponent.
  predicate IsFloatLiteral(s: string)
  {
    var body := if s != [] && (s[0] == '+' || s[0] == '-') then s[1..] else s;
    var lower := LowerAscii(body);
    lower == "inf" || lower == "infinity" || lower == "nan"
    || match IndexOfExponent(body)
       case None => IsMantissa(body)
       case Some(i) => IsMantissa(body[..i]) && IsExponent(body[i + 1..])
  }

  /// Trimmed text wrapped in `{}` or `[]`, or starting with `<` and
  /// containing `>`.
  predicate LooksLikeDocument(t: string)
  {
    (t != [] && t[0] == '{' && t[|t| - 1] == '}')
    || (t != [] && t[0] == '[' && t[|t| - 1] == ']')
    || (t != [] && t[0] == '<' && Contains(t, ">"))
  }

  /// UTF-8 text that the heuristic sets aside: a number, a JSON-like or
  /// an XML-like document once trimmed.
  predicate ExcludedText(b: Bytes)
  {
    Decode(b).Some? &&
    var t := Trim(Decode(b).value);
    IsFloatLiteral(t) || LooksLikeDocument(t)
  }

  /// The largest field number of a message, 0 for no fields.
  function MaxFieldNumber(fields: seq<Field>): (r: nat)
    ensures forall i :: 0 <= i < |fields| ==> fields[i].0 <= r
    ensures fields != [] ==> exists i :: 0 <= i < |fields| && fields[i].0 == r
  {
    if fields == [] then 0
    else
      var rest := MaxFieldNumber(fields[1..]);
      if fields[0].0 >= rest then fields[0].0 else rest
  }

  /// A single field holding at most two bytes.
  predicate SingleShortString(fields: seq<Field>)
  {
    |fields| == 1 && fields[0].1.LengthDelimitedValue? && |fields[0].1.data| <= 2
  }

  /// `is_likely_protobuf`.
  function IsLikelyProtobuf(b: Bytes): (r: bool)
    ensures r <==> |b| >= 2 && !ExcludedText(b) && ParseMessage(b, 0).Some?
                   && (forall i :: 0 <= i < |ParseMessage(b, 0).value| ==> ParseMessage(b, 0).value[i].0 <= 10000)
                   && !SingleShortString(ParseMessage(b, 0).value)
  {
    if |b| < 2 || ExcludedText(b) then false
    else match ParseMessage(b, 0)
      case None => false
      case Some(fields) => MaxFieldNumber(fields) <= 10000 && !SingleShortString(fields)
  }

  /// Text that parses as a float is never taken for protobuf, even though
  /// its bytes might parse as fields.
  lemma NumericTextNotProtobuf(s: string)
    requires IsFloatLiteral(Trim(s))
    ensures !IsLikelyProtobuf(Encode(s))
  {
    DecodeEncode(s);
  }

  /// The same for JSON- and XML-looking text.
  lemma DocumentTextNotProtobuf(s: string)
    requires LooksLikeDocument(Trim(s))
    ensures !IsLikelyProtobuf(Encode(s))
  {
    DecodeEncode(s);
  }

  lemma SimpleFieldRead()
    ensures ReadField([0x08, 0x96, 0x01]) == Read(1, VarintValue(150), 3)
  {
    var b: Bytes := [0x08, 0x96, 0x01];
    assert DecodeVarint(b) == Some((8, 1));
    var t := b[1..];
    assert t == [0x96, 0x01] && t[1..] == [0x01] && t[1..][1..] == [];
    assert Terminator(t) == Some(1);
    assert t[..2] == t;
    assert Groups(t) == 150;
    assert DecodeVarint(t) == Some((150, 2));
  }

  /// Field 1 holding the varint 150 is taken for protobuf.
  lemma SimpleMessageIsLikelyProtobuf()
    ensures ParseMessage([0x08, 0x96, 0x01], 0) == Some([(1, VarintValue(150))])
    ensures IsLikelyProtobuf([0x08, 0x96, 0x01])
  {
    var b: Bytes := [0x08, 0x96, 0x01];
    SimpleFieldRead();
    ParseFieldsHead(b, 0, ReadField(b));
    assert b[0..] == b && b[3..] == [];
    assert ParseFields(b[3..]) == Some([]);
    assert [(1, VarintValue(150))] + [] == [(1, VarintValue(150))];
    assert ParseFields(b) == Some([(1, VarintValue(150))]);
    assert DecodeChar(b[1..]).None?;
    assert Decode(b[1..]).None?;
    assert !ExcludedText(b);
  }

  /// Three occurrences of field 1 become one array, in wire order.
  lemma RepeatedFieldExample()
    ensures Grouped([(1, VarintValue(10)), (1, VarintValue(20)), (1, VarintValue(30))], 0)
      == map["1" := JArr([JNum(10), JNum(20), JNum(30)])]
  {
    var fs: seq<Field> := [(1, VarintValue(10)), (1, VarintValue(20)), (1, VarintValue(30))];
    assert Decimal(1) == "1";
    assert Keys(fs) == {"1"} by {
      assert KeyOf(fs[0]) == "1";
    }
    assert fs[..2] == [(1, VarintValue(10)), (1, VarintValue(20))];
    assert fs[..2][..1] == [(1, VarintValue(10))];
    assert ValuesOf(fs, "1", 0) == [JNum(10), JNum(20), JNum(30)];
  }
}
