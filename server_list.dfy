// The list-value operations of src/states/server/list.rs. They act on the
// value slot of the server state (the selected key's value); each remote
// edit is applied optimistically when it is started and undone by its
// completion when the Redis command failed. The command's outcome, and for
// a page load the raw items Redis returned, are inputs of the completion.

module ServerList {
  import opened Wrappers
  import opened Binary
  import opened Codec

  /// `usize` arithmetic as a release build does it: wrapping at 2^64.
  const USIZE_MODULUS: nat := 0x1_0000_0000_0000_0000

  function WrappingAdd(a: nat, d: int): (r: nat)
    ensures r < USIZE_MODULUS
  {
    (a + d) % USIZE_MODULUS
  }

  lemma WrappingUndo(a: nat)
    requires a < USIZE_MODULUS
    ensures WrappingAdd(WrappingAdd(a, 1), -1) == a
  {
  }

  /// `RedisListValue`: the filter keyword, the length Redis reported and
  /// the items loaded so far.
  datatype ListValue = ListValue(keyword: Option<string>, size: nat, values: seq<string>)

  /// `RedisValueData`: a list, or data of another key type.
  datatype ValueData = ListData(list: ListValue) | OtherData

  datatype ValueStatus = ValueIdle | ValueLoading | ValueUpdating

  /// `RedisValue`, reduced to what the list operations read and write.
  datatype RedisValue = RedisValue(status: ValueStatus, data: Option<ValueData>)

  /// `value.list_value()`.
  function ListOf(v: RedisValue): Option<ListValue>
  {
    if v.data.Some? && v.data.value.ListData? then Some(v.data.value.list) else None
  }

  /// `bytes_to_display_string`: the bytes, decompressed when a compression
  /// is detected and decompression succeeds, shown as lossy UTF-8.
  function DisplayString(b: Bytes, libs: Libs): (s: string)
    ensures b == [] ==> s == []
  {
    var detection := Detect(b, libs);
    var data :=
      if detection.compression != NoCompression then
        match Decompressed(b, detection.compression, MAX_DECOMPRESS_BYTES, libs)
        case Ok(d) => d
        case Err(_) => b
      else b;
    Lossy(data)
  }

  /// Uncompressed text is shown as itself; undecodable compressed data is
  /// shown as its raw bytes.
  lemma DisplayStringCases(b: Bytes, libs: Libs)
    ensures b == [] || DetectCompression(b, libs) == NoCompression ==> DisplayString(b, libs) == Lossy(b)
    ensures b != [] && DetectCompression(b, libs) != NoCompression
            && Decompressed(b, DetectCompression(b, libs), MAX_DECOMPRESS_BYTES, libs).Err?
            ==> DisplayString(b, libs) == Lossy(b)
    ensures b != [] && DetectCompression(b, libs) != NoCompression
            && Decompressed(b, DetectCompression(b, libs), MAX_DECOMPRESS_BYTES, libs).Ok?
            ==> DisplayString(b, libs) == Lossy(Decompressed(b, DetectCompression(b, libs), MAX_DECOMPRESS_BYTES, libs).value)
  {
  }

  /// `first_load_list_value`'s and `get_redis_list_value`'s conversion of an
  /// LRANGE reply.
  function DisplayStrings(items: seq<Bytes>, libs: Libs): (r: seq<string>)
    ensures |r| == |items|
    ensures forall i :: 0 <= i < |items| ==> r[i] == DisplayString(items[i], libs)
  {
    seq(|items|, i requires 0 <= i < |items| => DisplayString(items[i], libs))
  }

  // ---- push ----

  /// The list once `push_list_value` has applied the push locally: LPUSH
  /// puts the value in front, RPUSH appends it only when every item is
  /// loaded; the size always grows by one. The flag says whether the value
  /// was put into the loaded items.
  function Pushed(l: ListValue, v: string, isLpush: bool): (r: (ListValue, bool))
    ensures r.0.size == WrappingAdd(l.size, 1) && r.0.keyword == l.keyword
    ensures r.1 <==> isLpush || |l.values| == l.size
    ensures isLpush ==> |r.0.values| > 0 && r.0.values[0] == v && r.0.values[1..] == l.values
    ensures !isLpush && r.1 ==> r.0.values == l.values + [v]
    ensures !r.1 ==> r.0.values == l.values
  {
    if isLpush then (l.(values := [v] + l.values, size := WrappingAdd(l.size, 1)), true)
    else if |l.values| == l.size then (l.(values := l.values + [v], size := WrappingAdd(l.size, 1)), true)
    else (l.(size := WrappingAdd(l.size, 1)), false)
  }

  /// The rollback of a failed push: the size shrinks by one and, when the
  /// value had been put in, it is taken out again at the end it went in.
  function PushUndone(l: ListValue, isLpush: bool, pushed: bool): (r: ListValue)
    ensures r.size == WrappingAdd(l.size, -1) && r.keyword == l.keyword
    ensures !pushed || l.values == [] ==> r.values == l.values
    ensures pushed && isLpush && l.values != [] ==> l.values == [l.values[0]] + r.values
    ensures pushed && !isLpush && l.values != [] ==> l.values == r.values + [l.values[|l.values| - 1]]
  {
    var values :=
      if !pushed then l.values
      else if isLpush then (if l.values == [] then [] else l.values[1..])
      else (if l.values == [] then [] else l.values[..|l.values| - 1]);
    l.(values := values, size := WrappingAdd(l.size, -1))
  }

  /// A failed push leaves the list as it was.
  lemma PushRollsBack(l: ListValue, v: string, isLpush: bool)
    requires l.size < USIZE_MODULUS
    ensures var (p, pushed) := Pushed(l, v, isLpush); PushUndone(p, isLpush, pushed) == l
  {
    var (p, pushed) := Pushed(l, v, isLpush);
    if pushed && isLpush {
      assert p.values[1..] == l.values;
    } else if pushed {
      assert p.values[..|p.values| - 1] == l.values;
    }
  }

  /// A push shows the value at the end it went to whenever it can.
  lemma PushShowsValue(l: ListValue, v: string, isLpush: bool)
    ensures var (p, pushed) := Pushed(l, v, isLpush);
      && (isLpush ==> pushed && p.values[0] == v && p.values[1..] == l.values)
      && (!isLpush && |l.values| == l.size ==> pushed && p.values == l.values + [v])
      && (!pushed ==> p.values == l.values)
  {
    if isLpush {
      assert ([v] + l.values)[1..] == l.values;
    }
  }

  // ---- remove ----

  /// A successful remove: the size shrinks by one, and the item at `index`
  /// is dropped locally only when it is loaded.
  function Removed(l: ListValue, index: nat): (r: ListValue)
    ensures r.size == WrappingAdd(l.size, -1) && r.keyword == l.keyword
    ensures index < |l.values| ==> r.values == l.values[..index] + l.values[index + 1..]
    ensures index >= |l.values| ==> r.values == l.values
  {
    var values := if index < |l.values| then l.values[..index] + l.values[index + 1..] else l.values;
    l.(values := values, size := WrappingAdd(l.size, -1))
  }

  // ---- update ----

  /// The item at `index` replaced, when it is loaded.
  function Replaced(l: ListValue, index: nat, v: string): (r: ListValue)
    ensures r.size == l.size && r.keyword == l.keyword && |r.values| == |l.values|
    ensures index < |l.values| ==> r.values == l.values[index := v]
    ensures index >= |l.values| ==> r.values == l.values
  {
    if index < |l.values| then l.(values := l.values[index := v]) else l
  }

  /// The remote part of `update_list_value`: the item Redis holds at the
  /// index (the LINDEX bytes, compared as displayed) must still be the
  /// original one, else the update is aborted; then LSET's outcome decides.
  function UpdateTask(currentBytes: Bytes, original: string, lset: Result<()>, libs: Libs): (r: Result<()>)
    ensures var current := DisplayString(currentBytes, libs);
      && (current != original ==> r == Err(Invalid(
           "Value changed (expected: '" + original + "', actual: '" + current + "'), update aborted.")))
      && (current == original ==> r == lset)
  {
    var current := DisplayString(currentBytes, libs);
    if current != original then
      Err(Invalid("Value changed (expected: '" + original + "', actual: '" + current + "'), update aborted."))
    else lset
  }

  /// An item whose text is unchanged on the server passes the check: its
  /// stored bytes (uncompressed UTF-8) display as the original.
  lemma UnchangedItemPasses(original: string, lset: Result<()>, libs: Libs)
    requires Encode(original) == [] || DetectCompression(Encode(original), libs) == NoCompression
    ensures UpdateTask(Encode(original), original, lset, libs) == lset
  {
    DisplayStringCases(Encode(original), libs);
    LossyEncode(original);
  }

  /// Writing back the value that was shown undoes a replacement.
  lemma ReplaceRollsBack(l: ListValue, index: nat, v: string)
    requires index < |l.values|
    ensures Replaced(Replaced(l, index, v), index, l.values[index]) == l
  {
    assert l.values[index := v][index := l.values[index]] == l.values;
  }

  /// The list after a page load: the new items are appended.
  function Appended(l: ListValue, items: seq<string>): (r: ListValue)
    ensures r.size == l.size && r.keyword == l.keyword
    ensures |r.values| == |l.values| + |items|
    ensures r.values[..|l.values|] == l.values && r.values[|l.values|..] == items
  {
    var r := l.(values := l.values + items);
    assert r.values[..|l.values|] == l.values;
    r
  }

  /// The range `load_more_list_value` asks for: the hundred items after
  /// those loaded.
  function NextPage(l: ListValue): (r: (nat, nat))
    ensures r.0 == |l.values| && r.1 - r.0 + 1 == 100
  {
    (|l.values|, |l.values| + 99)
  }

  /// The value slot of the server state: the selected key and its value.
  class ValueSlot {
    var key: Option<string>
    var value: Option<RedisValue>

    constructor (key: Option<string>, value: Option<RedisValue>)
      ensures this.key == key && this.value == value
    {
      this.key := key;
      this.value := value;
    }

    /// `try_get_mut_key_value` yields something: a key is selected and its
    /// value is loaded.
    predicate Selected()
      reads this
    {
      key.Some? && value.Some?
    }

    /// The list held, if the value is one.
    function List(): Option<ListValue>
      reads this
    {
      if value.Some? then ListOf(value.value) else None
    }

    /// The value with its list replaced.
    function WithList(l: ListValue): RedisValue
      reads this
      requires value.Some?
    {
      value.value.(data := Some(ListData(l)))
    }

    /// `filter_list_value`: records the keyword, leaving size and items.
    method FilterListValue(keyword: string)
      modifies this`value
      ensures Selected() && old(List()).Some? ==>
                List() == Some(old(List()).value.(keyword := Some(keyword)))
                && value.value.status == old(value).value.status
      ensures !(Selected() && old(List()).Some?) ==> value == old(value)
    {
      if !Selected() {
        return;
      }
      var l := List();
      if l.None? {
        return;
      }
      value := Some(WithList(ListValue(Some(keyword), l.value.size, l.value.values)));
    }

    /// `push_list_value` as started: marks the value as updating and
    /// applies the push locally. Returns whether a task was started, the
    /// LPUSH flag (mode "1") and whether the value was put in.
    method PushListValue(v: string, mode: string) returns (started: bool, isLpush: bool, pushed: bool)
      modifies this`value
      ensures started == old(Selected())
      ensures !started ==> value == old(value)
      ensures started ==> isLpush == (mode == "1") && value.Some? && value.value.status == ValueUpdating
      ensures started && old(List()).Some? ==>
                List().Some? && (List().value, pushed) == Pushed(old(List()).value, v, isLpush)
      ensures started && old(List()).None? ==>
                !pushed && value == Some(old(value).value.(status := ValueUpdating))
    {
      started, isLpush, pushed := false, false, false;
      if !Selected() {
        return;
      }
      started := true;
      isLpush := mode == "1";
      var l := List();
      value := Some(value.value.(status := ValueUpdating));
      if l.Some? {
        var (p, didPush) := Pushed(l.value, v, isLpush);
        pushed := didPush;
        value := Some(WithList(p));
      }
    }

    /// The completion of `push_list_value`: the value becomes idle, and a
    /// failure takes the push back.
    method CompletePush(result: Result<()>, isLpush: bool, pushed: bool)
      modifies this`value
      ensures old(value).None? ==> value == old(value)
      ensures old(value).Some? ==> value.Some? && value.value.status == ValueIdle
      ensures old(value).Some? && (result.Ok? || old(List()).None?) ==>
                value == Some(old(value).value.(status := ValueIdle))
      ensures old(value).Some? && result.Err? && old(List()).Some? ==>
                List() == Some(PushUndone(old(List()).value, isLpush, pushed))
    {
      if value.None? {
        return;
      }
      value := Some(value.value.(status := ValueIdle));
      var l := List();
      if result.Err? && l.Some? {
        value := Some(WithList(PushUndone(l.value, isLpush, pushed)));
      }
    }

    /// `remove_list_value` as started: marks the value as updating.
    method RemoveListValue() returns (started: bool)
      modifies this`value
      ensures started == old(Selected())
      ensures started ==> value == Some(old(value).value.(status := ValueUpdating))
      ensures !started ==> value == old(value)
    {
      started := false;
      if !Selected() {
        return;
      }
      started := true;
      value := Some(value.value.(status := ValueUpdating));
    }

    /// The completion of `remove_list_value`: a success removes the item
    /// locally; either way the value becomes idle.
    method CompleteRemove(result: Result<()>, index: nat)
      modifies this`value
      ensures old(value).None? ==> value == old(value)
      ensures old(value).Some? && result.Ok? && old(List()).Some? ==>
                value == Some(old(value).value.(status := ValueIdle, data := Some(ListData(Removed(old(List()).value, index)))))
      ensures old(value).Some? && !(result.Ok? && old(List()).Some?) ==>
                value == Some(old(value).value.(status := ValueIdle))
    {
      if value.None? {
        return;
      }
      var l := List();
      if result.Ok? && l.Some? {
        value := Some(WithList(Removed(l.value, index)));
      }
      value := Some(value.value.(status := ValueIdle));
    }

    /// `update_list_value` as started: marks the value as updating and
    /// shows the new item at `index` when it is loaded.
    method UpdateListValue(index: nat, v: string) returns (started: bool)
      modifies this`value
      ensures started == old(Selected())
      ensures !started ==> value == old(value)
      ensures started && old(List()).Some? ==>
                value == Some(old(value).value.(status := ValueUpdating, data := Some(ListData(Replaced(old(List()).value, index, v)))))
      ensures started && old(List()).None? ==> value == Some(old(value).value.(status := ValueUpdating))
    {
      started := false;
      if !Selected() {
        return;
      }
      started := true;
      var l := List();
      value := Some(value.value.(status := ValueUpdating));
      if l.Some? {
        value := Some(WithList(Replaced(l.value, index, v)));
      }
    }

    /// The completion of `update_list_value`: the value becomes idle, and a
    /// failure writes the original item back at `index`.
    method CompleteUpdate(result: Result<()>, index: nat, original: string)
      modifies this`value
      ensures old(value).None? ==> value == old(value)
      ensures old(value).Some? && result.Err? && old(List()).Some? ==>
                value == Some(old(value).value.(status := ValueIdle, data := Some(ListData(Replaced(old(List()).value, index, original)))))
      ensures old(value).Some? && !(result.Err? && old(List()).Some?) ==>
                value == Some(old(value).value.(status := ValueIdle))
    {
      if value.None? {
        return;
      }
      value := Some(value.value.(status := ValueIdle));
      var l := List();
      if result.Err? && l.Some? {
        value := Some(WithList(Replaced(l.value, index, original)));
      }
    }

    /// `update_list_value_bytes` as started: remembers the item shown at
    /// `index` and shows the new bytes' display string there.
    method UpdateListValueBytes(index: nat, bytes: Bytes, libs: Libs) returns (started: bool, previous: Option<string>)
      modifies this`value
      ensures started == old(Selected())
      ensures !started ==> value == old(value)
      ensures started ==> previous == (if old(List()).Some? && index < |old(List()).value.values|
                                       then Some(old(List()).value.values[index]) else None)
      ensures started && old(List()).Some? ==>
                value == Some(old(value).value.(status := ValueUpdating,
                  data := Some(ListData(Replaced(old(List()).value, index, DisplayString(bytes, libs))))))
      ensures started && old(List()).None? ==> value == Some(old(value).value.(status := ValueUpdating))
    {
      started, previous := false, None;
      if !Selected() {
        return;
      }
      started := true;
      var l := List();
      value := Some(value.value.(status := ValueUpdating));
      if l.Some? && index < |l.value.values| {
        previous := Some(l.value.values[index]);
      }
      var shown := DisplayString(bytes, libs);
      if l.Some? {
        value := Some(WithList(Replaced(l.value, index, shown)));
      }
    }

    /// The completion of `update_list_value_bytes`: the value becomes idle,
    /// and a failure puts the remembered item back.
    method CompleteUpdateBytes(result: Result<()>, index: nat, previous: Option<string>)
      modifies this`value
      ensures old(value).None? ==> value == old(value)
      ensures old(value).Some? && result.Err? && previous.Some? && old(List()).Some? ==>
                value == Some(old(value).value.(status := ValueIdle,
                  data := Some(ListData(Replaced(old(List()).value, index, previous.value)))))
      ensures old(value).Some? && !(result.Err? && previous.Some? && old(List()).Some?) ==>
                value == Some(old(value).value.(status := ValueIdle))
    {
      if value.None? {
        return;
      }
      value := Some(value.value.(status := ValueIdle));
      var l := List();
      if result.Err? && previous.Some? && l.Some? {
        value := Some(WithList(Replaced(l.value, index, previous.value)));
      }
    }

    /// `load_more_list_value` as started: nothing happens unless a list is
    /// held; otherwise the value is loading and the next page is asked for.
    method LoadMoreListValue() returns (page: Option<(nat, nat)>)
      modifies this`value
      ensures !(old(Selected()) && old(List()).Some?) ==> page.None? && value == old(value)
      ensures old(Selected()) && old(List()).Some? ==>
                page == Some(NextPage(old(List()).value))
                && value == Some(old(value).value.(status := ValueLoading))
    {
      page := None;
      if !Selected() {
        return;
      }
      var l := List();
      if l.None? {
        return;
      }
      value := Some(value.value.(status := ValueLoading));
      page := Some(NextPage(l.value));
    }

    /// The completion of `load_more_list_value`: a non-empty page (the raw
    /// LRANGE items) is appended in order; the value becomes idle.
    method CompleteLoadMore(result: Result<seq<Bytes>>, libs: Libs)
      modifies this`value
      ensures old(value).None? ==> value == old(value)
      ensures old(value).Some? && result.Ok? && result.value != [] && old(List()).Some? ==>
                value == Some(old(value).value.(status := ValueIdle,
                  data := Some(ListData(Appended(old(List()).value, DisplayStrings(result.value, libs))))))
      ensures old(value).Some? && !(result.Ok? && result.value != [] && old(List()).Some?) ==>
                value == Some(old(value).value.(status := ValueIdle))
    {
      if value.None? {
        return;
      }
      var l := List();
      if result.Ok? && result.value != [] && l.Some? {
        value := Some(WithList(Appended(l.value, DisplayStrings(result.value, libs))));
      }
      value := Some(value.value.(status := ValueIdle));
    }
  }

  /// A push that Redis refused leaves the list as it was, value and size.
  lemma FailedPushRestores(l: ListValue, v: string, mode: string)
    requires l.size < USIZE_MODULUS
    ensures var isLpush := mode == "1";
      var (p, pushed) := Pushed(l, v, isLpush);
      PushUndone(p, isLpush, pushed) == l
  {
    PushRollsBack(l, v, mode == "1");
  }

  /// A failed update whose original was the item shown leaves the list as
  /// it was.
  lemma FailedUpdateRestores(l: ListValue, index: nat, original: string, v: string)
    requires index < |l.values| ==> l.values[index] == original
    ensures Replaced(Replaced(l, index, v), index, original) == l
  {
    if index < |l.values| {
      ReplaceRollsBack(l, index, v);
    }
  }
}
