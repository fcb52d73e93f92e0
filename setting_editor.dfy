// The settings form of src/views/setting_editor.rs: the preset-credential
// text it shows and reads back, and the rules each field's blur and step
// handlers apply before a value is saved. `PresetCredential::from_str` is
// not part of this model; it is the `parse` parameter.

module SettingEditor {
  import opened Wrappers
  import opened Text

  datatype PresetCredential = PresetCredential(username: Option<string>, password: string)

  /// One credential as a line: `user:password`, or the password alone.
  function CredentialLine(c: PresetCredential): (line: string)
    ensures c.username.None? ==> line == c.password
    ensures c.username.Some? ==> line == c.username.value + ":" + c.password
  {
    match c.username
    case Some(u) => u + ":" + c.password
    case None => c.password
  }

  function CredentialLines(cs: seq<PresetCredential>): (lines: seq<string>)
    ensures |lines| == |cs| && forall i :: 0 <= i < |cs| ==> lines[i] == CredentialLine(cs[i])
  {
    seq(|cs|, i requires 0 <= i < |cs| => CredentialLine(cs[i]))
  }

  /// `credentials_to_text`: the lines joined by newlines, with no newline
  /// after the last one.
  function CredentialsToText(cs: seq<PresetCredential>): (text: string)
    ensures cs == [] ==> text == []
    ensures |cs| == 1 ==> text == CredentialLine(cs[0])
    ensures |cs| > 1 ==> text == CredentialLine(cs[0]) + "\n" + CredentialsToText(cs[1..])
  {
    assert |cs| > 1 ==> CredentialLines(cs)[1..] == CredentialLines(cs[1..]);
    Join(CredentialLines(cs), "\n")
  }

  /// The present values, in order.
  function Somes<T>(xs: seq<Option<T>>): (r: seq<T>)
    ensures |r| <= |xs|
    ensures forall c :: c in r ==> Some(c) in xs
    ensures (forall i :: 0 <= i < |xs| ==> xs[i].Some?) ==>
              |r| == |xs| && forall i :: 0 <= i < |xs| ==> Some(r[i]) == xs[i]
  {
    if xs == [] then []
    else
      var rest := Somes(xs[1..]);
      assert forall i :: 1 <= i < |xs| ==> xs[1..][i - 1] == xs[i];
      match xs[0]
      case Some(c) => [c] + rest
      case None => rest
  }

  /// The parsed lines, in order, without those `parse` rejects.
  function ParsedLines(lines: seq<string>, parse: string -> Option<PresetCredential>): (r: seq<PresetCredential>)
    ensures |r| <= |lines|
    ensures forall c :: c in r ==> exists i :: 0 <= i < |lines| && parse(Trim(lines[i])) == Some(c)
    ensures (forall i :: 0 <= i < |lines| ==> parse(Trim(lines[i])).Some?) ==>
              |r| == |lines| && forall i :: 0 <= i < |lines| ==> Some(r[i]) == parse(Trim(lines[i]))
  {
    Somes(seq(|lines|, i requires 0 <= i < |lines| => parse(Trim(lines[i]))))
  }

  /// `text_to_credentials`: each line of the text, trimmed, through `parse`.
  function TextToCredentials(text: string, parse: string -> Option<PresetCredential>): (r: seq<PresetCredential>)
    ensures |r| <= |Lines(text)|
    ensures forall c :: c in r ==> exists i :: 0 <= i < |Lines(text)| && parse(Trim(Lines(text)[i])) == Some(c)
  {
    ParsedLines(Lines(text), parse)
  }

  /// Splitting joined lines at newlines gives them back, as long as none is
  /// empty, holds a newline or ends in a carriage return.
  lemma {:induction false} LinesOfJoin(ls: seq<string>)
    requires forall i :: 0 <= i < |ls| ==> CleanLine(ls[i])
    ensures Lines(Join(ls, "\n")) == ls
  {
    if |ls| == 1 {
      assert IndexOf(ls[0], '\n').None?;
    } else if |ls| > 1 {
      var s := Join(ls, "\n");
      var rest := Join(ls[1..], "\n");
      assert s == ls[0] + "\n" + rest;
      assert s[|ls[0]|] == '\n' && s[..|ls[0]|] == ls[0];
      assert IndexOf(s, '\n') == Some(|ls[0]|);
      assert s[|ls[0]| + 1..] == rest;
      LinesOfJoin(ls[1..]);
    }
  }

  /// A credential whose line survives the text round trip.
  predicate LineRoundTrips(c: PresetCredential, parse: string -> Option<PresetCredential>)
  {
    var line := CredentialLine(c);
    line != [] && '\n' !in line && Trim(line) == line && parse(line) == Some(c)
  }

  lemma LineEndsClean(line: string)
    requires line != [] && Trim(line) == line
    ensures line[|line| - 1] != '\r'
  {
    assert !IsWhitespace(Trim(line)[|line| - 1]);
  }

  /// The facts about one credential's line that the round trip uses.
  lemma LineFacts(c: PresetCredential, parse: string -> Option<PresetCredential>)
    requires LineRoundTrips(c, parse)
    ensures var line := CredentialLine(c);
      line != [] && '\n' !in line && line[|line| - 1] != '\r' && parse(Trim(line)) == Some(c)
  {
    LineEndsClean(CredentialLine(c));
  }

  /// A line that survives joining and splitting at newlines.
  predicate CleanLine(line: string)
  {
    line != [] && '\n' !in line && line[|line| - 1] != '\r'
  }

  /// The per-line facts, for every credential.
  lemma AllLineFacts(cs: seq<PresetCredential>, parse: string -> Option<PresetCredential>)
    requires forall i :: 0 <= i < |cs| ==> LineRoundTrips(cs[i], parse)
    ensures var lines := CredentialLines(cs);
      forall i :: 0 <= i < |lines| ==> CleanLine(lines[i]) && parse(Trim(lines[i])) == Some(cs[i])
  {
    var lines := CredentialLines(cs);
    forall i | 0 <= i < |lines|
      ensures CleanLine(lines[i]) && parse(Trim(lines[i])) == Some(cs[i])
    {
      LineFacts(cs[i], parse);
    }
  }

  /// Lines that each parse to the matching credential parse to all of them.
  lemma ParsedEveryLine(lines: seq<string>, cs: seq<PresetCredential>, parse: string -> Option<PresetCredential>)
    requires |lines| == |cs|
    requires forall i :: 0 <= i < |lines| ==> parse(Trim(lines[i])) == Some(cs[i])
    ensures ParsedLines(lines, parse) == cs
  {
    var r := ParsedLines(lines, parse);
    forall i | 0 <= i < |cs|
      ensures r[i] == cs[i]
    {
      assert Some(r[i]) == parse(Trim(lines[i]));
    }
  }

  /// Writing credentials out and reading the text back gives the same
  /// credentials, when each line is non-empty, has no surrounding
  /// whitespace and no newline, and parses back to its credential.
  lemma CredentialsRoundTrip(cs: seq<PresetCredential>, parse: string -> Option<PresetCredential>)
    requires forall i :: 0 <= i < |cs| ==> LineRoundTrips(cs[i], parse)
    ensures TextToCredentials(CredentialsToText(cs), parse) == cs
  {
    var lines := CredentialLines(cs);
    AllLineFacts(cs, parse);
    LinesOfJoin(lines);
    ParsedEveryLine(lines, cs, parse);
  }

  const USIZE_MODULUS: int := 0x1_0000_0000_0000_0000

  /// The max key tree depth saved when its field loses focus: the text as
  /// an i64, 0 when it does not parse, then cast to usize, so a negative
  /// value wraps around.
  function SavedMaxDepth(text: string): (depth: nat)
    ensures depth < USIZE_MODULUS
    ensures ParseI64(text).None? ==> depth == 0
    ensures ParseI64(text).Some? && ParseI64(text).value >= 0 ==> depth == ParseI64(text).value
    ensures ParseI64(text).Some? && ParseI64(text).value < 0 ==> depth == USIZE_MODULUS + ParseI64(text).value
  {
    var v := match ParseI64(text) case Some(v) => v case None => 0;
    if v < 0 then USIZE_MODULUS + v else v
  }

  /// The text "-1" saves the largest usize, not 0.
  lemma MinusOneDepth()
    ensures SavedMaxDepth("-1") == USIZE_MODULUS - 1
  {
    assert "-1"[1..] == "1";
    assert DigitsValue("1") == DigitsValue("") * 10 + DigitValue('1');
  }

  datatype StepAction = Increment | Decrement

  /// The step handler of the max depth field: the new text to show, or
  /// None when the text is not a u16 or the saturating step does not change
  /// the value.
  function Stepped(text: string, action: StepAction): (r: Option<string>)
    ensures ParseU16(text).None? ==> r.None?
    ensures ParseU16(text).Some? ==>
      var v := ParseU16(text).value;
      && (r.None? <==> (action == Increment && v == U16_BOUND - 1) || (action == Decrement && v == 0))
      && (r.Some? ==> ParseU16(r.value) == Some(if action == Increment then v + 1 else v - 1))
  {
    match ParseU16(text)
    case None => None
    case Some(v) =>
      var next := match action
        case Increment => if v + 1 < U16_BOUND then v + 1 else v
        case Decrement => if v > 0 then v - 1 else v;
      if next != v then ParseDecimal(next, U16_BOUND); Some(Decimal(next)) else None
  }

  /// The max truncate length saved on blur: only a usize of at least 10;
  /// anything else saves nothing.
  function SavedTruncateLength(text: string): (r: Option<nat>)
    ensures r.Some? <==> ParseUsize(text).Some? && ParseUsize(text).value >= 10
    ensures r.Some? ==> r.value == ParseUsize(text).value && 10 <= r.value < U64_BOUND
  {
    match ParseUsize(text)
    case Some(v) => if v < 10 then None else Some(v)
    case None => None
  }
}
