// The tagged encoding of deployment metadata: fixed-string encoder and stream decoder.
module Codec {
  import opened Wrappers
  import opened FixedString

  type UInt32 = x: int | 0 <= x < 0x1_0000_0000

  type UInt64 = x: int | 0 <= x < 0x1_0000_0000_0000_0000

  // What can be serialized: an unsigned int, an unsigned long, a fixed string, an
  // array wrapper and a map wrapper.
  datatype Value =
    | UInt(n: UInt32)
    | ULong(m: UInt64)
    | Str(text: seq<Byte>)
    | Arr(items: seq<Value>)
    | Map(fields: seq<Field>)

  datatype Field = Field(key: Value, value: Value)

  /* ----- words ----- */

  // The low k bytes of x, most significant first.
  function BigEndian(x: nat, k: nat): (s: seq<Byte>)
    ensures |s| == k
  {
    if k == 0 then [] else BigEndian(x / 256, k - 1) + [x % 256]
  }

  // struct.unpack of a big-endian unsigned field.
  function FromBytes(s: seq<Byte>): nat {
    if s == [] then 0 else FromBytes(s[..|s| - 1]) * 256 + s[|s| - 1]
  }

  function Range(k: nat): nat {
    if k == 0 then 1 else 256 * Range(k - 1)
  }

  lemma {:induction false} BytesOfWord(x: nat, k: nat)
    requires x < Range(k)
    ensures FromBytes(BigEndian(x, k)) == x
  {
    if k > 0 {
      BytesOfWord(x / 256, k - 1);
      assert BigEndian(x, k)[..k - 1] == BigEndian(x / 256, k - 1);
    }
  }

  lemma WordRanges()
    ensures Range(4) == 0x1_0000_0000 && Range(8) == 0x1_0000_0000_0000_0000
  {
    assert Range(2) == 65536;
    assert Range(4) == 256 * (256 * Range(2));
    assert Range(6) == 256 * (256 * Range(4));
    assert Range(8) == 256 * (256 * Range(6));
  }

  /* ----- encoding ----- */

  // The bytes of `serialize`, without the terminator of the fixed string.
  function Encode(v: Value): seq<Byte>
    decreases v
  {
    match v
    case UInt(n) => [0] + BigEndian(n, 4)
    case ULong(n) => [1] + BigEndian(n, 8)
    case Str(text) => [2] + BigEndian(|text|, 4) + text
    case Arr(items) => [3] + BigEndian(|items|, 4) + EncodeItems(items)
    case Map(fields) => [4] + BigEndian(|fields|, 4) + EncodeFields(fields)
  }

  function EncodeItems(items: seq<Value>): seq<Byte>
    decreases items
  {
    if items == [] then [] else Encode(items[0]) + EncodeItems(items[1..])
  }

  function EncodeFields(fields: seq<Field>): seq<Byte>
    decreases fields
  {
    if fields == [] then []
    else EncodeField(fields[0]) + EncodeFields(fields[1..])
  }

  function EncodeField(f: Field): seq<Byte>
    decreases f
  {
    Encode(f.key) + Encode(f.value)
  }

  // Every length fits the 32-bit count written before it.
  ghost predicate Fits(v: Value)
    decreases v
  {
    match v
    case UInt(_) => true
    case ULong(_) => true
    case Str(text) => |text| < 0x1_0000_0000
    case Arr(items) => |items| < 0x1_0000_0000 && forall i :: 0 <= i < |items| ==> Fits(items[i])
    case Map(fields) =>
      && |fields| < 0x1_0000_0000
      && forall i :: 0 <= i < |fields| ==> Fits(fields[i].key) && Fits(fields[i].value)
  }

  /* ----- decoded values ----- */

  datatype Key = IntKey(n: nat) | TextKey(text: string)

  // The values decode_value builds; integers have no width and keys are hashable.
  datatype Py =
    | Int(n: nat)
    | Text(text: string)
    | List(items: seq<Py>)
    | Dict(entries: map<Key, Py>)

  function Hash(v: Py): Option<Key> {
    match v
    case Int(n) => Some(IntKey(n))
    case Text(text) => Some(TextKey(text))
    case _ => None
  }

  // The value a reader should see, or None when text is not UTF-8 or a key is a list
  // or a dictionary. `utf8` decodes text.
  function View(utf8: seq<Byte> -> Option<string>, v: Value): Option<Py>
    decreases v
  {
    match v
    case UInt(n) => Some(Int(n))
    case ULong(n) => Some(Int(n))
    case Str(text) => (match utf8(text) case Some(s) => Some(Text(s)) case None => None)
    case Arr(items) => (match ViewItems(utf8, items, []) case Some(s) => Some(List(s)) case None => None)
    case Map(fields) => (match ViewFields(utf8, fields, map[]) case Some(m) => Some(Dict(m)) case None => None)
  }

  function ViewItems(utf8: seq<Byte> -> Option<string>, items: seq<Value>, seen: seq<Py>): Option<seq<Py>>
    decreases items
  {
    if items == [] then Some(seen)
    else match View(utf8, items[0])
      case None => None
      case Some(p) => ViewItems(utf8, items[1..], seen + [p])
  }

  function ViewFields(utf8: seq<Byte> -> Option<string>, fields: seq<Field>, seen: map<Key, Py>): Option<map<Key, Py>>
    decreases fields
  {
    if fields == [] then Some(seen)
    else match ViewField(utf8, fields[0])
      case None => None
      case Some(e) => ViewFields(utf8, fields[1..], seen[e.key := e.value])
  }

  datatype Entry = Entry(key: Key, value: Py)

  function ViewField(utf8: seq<Byte> -> Option<string>, f: Field): Option<Entry>
    decreases f
  {
    match (View(utf8, f.key), View(utf8, f.value))
    case (Some(k), Some(p)) => if Hash(k).None? then None else Some(Entry(Hash(k).value, p))
    case _ => None
  }

  /* ----- what a reader should see, said without the decoder's functions ----- */

  // The dictionary key a value makes.
  predicate KeyIs(utf8: seq<Byte> -> Option<string>, v: Value, k: Key) {
    match v
    case UInt(n) => k == IntKey(n)
    case ULong(n) => k == IntKey(n)
    case Str(text) => k.TextKey? && utf8(text) == Some(k.text)
    case _ => false
  }

  // Some text is not UTF-8, or some key is an array or a map.
  ghost predicate Raises(utf8: seq<Byte> -> Option<string>, v: Value)
    decreases v
  {
    match v
    case UInt(_) => false
    case ULong(_) => false
    case Str(text) => utf8(text) == None
    case Arr(items) => exists i :: 0 <= i < |items| && Raises(utf8, items[i])
    case Map(fields) => exists i :: 0 <= i < |fields| && FieldRaises(utf8, fields[i])
  }

  ghost predicate FieldRaises(utf8: seq<Byte> -> Option<string>, f: Field)
    decreases f
  {
    f.key.Arr? || f.key.Map? || Raises(utf8, f.key) || Raises(utf8, f.value)
  }

  // p is v: the same number or text, the same elements in the same order, or an entry for
  // every key, with the value of the last field of that key.
  ghost predicate Sees(utf8: seq<Byte> -> Option<string>, v: Value, p: Py)
    decreases v, 1
  {
    match v
    case UInt(n) => p == Int(n)
    case ULong(n) => p == Int(n)
    case Str(text) => p.Text? && utf8(text) == Some(p.text)
    case Arr(items) =>
      && p.List? && |p.items| == |items|
      && forall i :: 0 <= i < |items| ==> Sees(utf8, items[i], p.items[i])
    case Map(fields) => p.Dict? && HasKeys(utf8, fields, p.entries) && HasValues(utf8, fields, p.entries)
  }

  ghost predicate HasKeys(utf8: seq<Byte> -> Option<string>, fields: seq<Field>, m: map<Key, Py>) {
    forall k :: k in m <==> exists i :: 0 <= i < |fields| && KeyIs(utf8, fields[i].key, k)
  }

  ghost predicate HasValues(utf8: seq<Byte> -> Option<string>, fields: seq<Field>, m: map<Key, Py>)
    decreases Map(fields), 0
  {
    forall i, k :: 0 <= i < |fields| && k in m && LastOf(utf8, fields, i, k) ==> Sees(utf8, fields[i].value, m[k])
  }

  // Field i is the last one with key k.
  ghost predicate LastOf(utf8: seq<Byte> -> Option<string>, fields: seq<Field>, i: nat, k: Key)
    requires i < |fields|
  {
    KeyIs(utf8, fields[i].key, k) && forall j :: i < j < |fields| ==> !KeyIs(utf8, fields[j].key, k)
  }

  lemma {:induction false} ViewItemsIs(utf8: seq<Byte> -> Option<string>, items: seq<Value>, seen: seq<Py>)
    ensures ViewItems(utf8, items, seen).None? <==> exists i :: 0 <= i < |items| && View(utf8, items[i]).None?
    ensures ViewItems(utf8, items, seen).Some? ==>
              var s := ViewItems(utf8, items, seen).value;
              && |s| == |seen| + |items| && s[..|seen|] == seen
              && forall i :: 0 <= i < |items| ==> View(utf8, items[i]) == Some(s[|seen| + i])
    decreases items
  {
    hide View;
    if items != [] && View(utf8, items[0]).Some? {
      var more := seen + [View(utf8, items[0]).value];
      ViewItemsIs(utf8, items[1..], more);
      if i :| 0 <= i < |items| - 1 && View(utf8, items[1..][i]).None? { assert items[i + 1] == items[1..][i]; }
      if ViewItems(utf8, items, seen).Some? {
        var s := ViewItems(utf8, items, seen).value;
        assert s[..|seen|] == s[..|more|][..|seen|] && s[..|more|][|seen|] == more[|seen|];
        forall i | 0 <= i < |items| ensures View(utf8, items[i]) == Some(s[|seen| + i]) {
          if i > 0 { assert items[i] == items[1..][i - 1]; }
        }
      }
    }
  }

  // Main result on the view: it fails exactly where the decoder has to raise, and
  // otherwise it is the value.
  lemma {:induction false} ViewIsSeen(utf8: seq<Byte> -> Option<string>, v: Value)
    ensures View(utf8, v).None? <==> Raises(utf8, v)
    ensures View(utf8, v).Some? ==> Sees(utf8, v, View(utf8, v).value)
    decreases v
  {
    match v
    case UInt(_) =>
    case ULong(_) =>
    case Str(_) =>
    case Arr(items) =>
      forall i | 0 <= i < |items|
        ensures View(utf8, items[i]).None? <==> Raises(utf8, items[i])
        ensures View(utf8, items[i]).Some? ==> Sees(utf8, items[i], View(utf8, items[i]).value)
      {
        ViewIsSeen(utf8, items[i]);
      }
      ViewItemsIs(utf8, items, []);
    case Map(fields) =>
      forall i | 0 <= i < |fields| ensures FieldIsSeen(utf8, fields[i]) {
        ViewFieldIs(utf8, fields[i]);
      }
      ViewFieldsIs(utf8, fields, map[]);
      if ViewFields(utf8, fields, map[]).Some? { DictIsSeen(utf8, fields); }
  }

  ghost predicate FieldIsSeen(utf8: seq<Byte> -> Option<string>, f: Field) {
    var e := ViewField(utf8, f);
    && (e.None? <==> FieldRaises(utf8, f))
    && (e.Some? ==> Sees(utf8, f.value, e.value.value) && forall k :: KeyIs(utf8, f.key, k) <==> k == e.value.key)
  }

  lemma ViewFieldIs(utf8: seq<Byte> -> Option<string>, f: Field)
    ensures FieldIsSeen(utf8, f)
    decreases f
  {
    ViewIsSeen(utf8, f.key);
    ViewIsSeen(utf8, f.value);
  }

  lemma {:induction false} ViewFieldsIs(utf8: seq<Byte> -> Option<string>, fields: seq<Field>, seen: map<Key, Py>)
    ensures ViewFields(utf8, fields, seen).None? <==>
            exists i :: 0 <= i < |fields| && ViewField(utf8, fields[i]).None?
  {
    hide ViewField;
    if fields != [] && ViewField(utf8, fields[0]).Some? {
      var e := ViewField(utf8, fields[0]).value;
      ViewFieldsIs(utf8, fields[1..], seen[e.key := e.value]);
      if i :| 0 <= i < |fields| - 1 && ViewField(utf8, fields[1..][i]).None? { assert fields[i + 1] == fields[1..][i]; }
      forall i | 0 < i < |fields| ensures fields[i] == fields[1..][i - 1] {
      }
    }
  }

  lemma KeysOfIs(utf8: seq<Byte> -> Option<string>, fields: seq<Field>, i: nat)
    requires i < |fields| && FieldIsSeen(utf8, fields[i]) && ViewField(utf8, fields[i]).Some?
    ensures forall k :: KeyIs(utf8, fields[i].key, k) <==> k == KeysOf(utf8, fields)[i]
    ensures Sees(utf8, fields[i].value, ViewField(utf8, fields[i]).value.value)
  {
    hide ViewField, KeyIs, Sees;
  }

  lemma DictIsSeen(utf8: seq<Byte> -> Option<string>, fields: seq<Field>)
    requires ViewFields(utf8, fields, map[]).Some?
    requires forall i :: 0 <= i < |fields| ==> FieldIsSeen(utf8, fields[i])
    ensures Sees(utf8, Map(fields), Dict(ViewFields(utf8, fields, map[]).value))
  {
    hide ViewField, ViewFields, KeyIs, KeysOf, FieldIsSeen, HasKeys, HasValues;
    LastFieldWins(utf8, fields, map[]);
    var m, keys := ViewFields(utf8, fields, map[]).value, KeysOf(utf8, fields);
    forall i | 0 <= i < |fields|
      ensures forall k :: KeyIs(utf8, fields[i].key, k) <==> k == keys[i]
      ensures Sees(utf8, fields[i].value, ViewField(utf8, fields[i]).value.value)
    {
      KeysOfIs(utf8, fields, i);
    }
    SeesDict(utf8, fields, m, keys);
  }

  lemma SeesDict(utf8: seq<Byte> -> Option<string>, fields: seq<Field>, m: map<Key, Py>, keys: seq<Key>)
    requires |keys| == |fields| && forall k :: k in m <==> k in keys
    requires forall i, k :: 0 <= i < |fields| ==> (KeyIs(utf8, fields[i].key, k) <==> k == keys[i])
    requires forall i :: 0 <= i < |fields| && keys[i] !in keys[i + 1..] ==> Sees(utf8, fields[i].value, m[keys[i]])
    ensures HasKeys(utf8, fields, m) && HasValues(utf8, fields, m)
  {
    hide KeyIs, Sees;
    forall k ensures k in m <==> exists i :: 0 <= i < |fields| && KeyIs(utf8, fields[i].key, k) {
      if k in m {
        var i :| 0 <= i < |keys| && keys[i] == k;
        assert KeyIs(utf8, fields[i].key, k);
      }
    }
    forall i, k | 0 <= i < |fields| && k in m && LastOf(utf8, fields, i, k)
      ensures Sees(utf8, fields[i].value, m[k])
    {
      assert keys[i] == k;
      forall j | i < j < |keys| ensures keys[j] != k { assert !KeyIs(utf8, fields[j].key, k); }
    }
  }

  /* ----- decoding ----- */

  datatype Decoded<T> = Decoded(value: T, rest: seq<Byte>)

  function Take(data: seq<Byte>, n: nat): seq<Byte> {
    if n <= |data| then data[..n] else data
  }

  function Drop(data: seq<Byte>, n: nat): seq<Byte> {
    if n <= |data| then data[n..] else []
  }

  // decode_value on what is left of the stream; None when it raises.
  function Decode(utf8: seq<Byte> -> Option<string>, data: seq<Byte>): (d: Option<Decoded<Py>>)
    ensures d.Some? ==> |d.value.rest| < |data|
    decreases |data|, 0
  {
    if data == [] then None
    else if data[0] == 0 then
      if |data| < 5 then None else Some(Decoded(Int(FromBytes(data[1..5])), data[5..]))
    else if data[0] == 1 then
      if |data| < 9 then None else Some(Decoded(Int(FromBytes(data[1..9])), data[9..]))
    else if data[0] in {2, 3, 4} && |data| < 5 then None
    else if data[0] == 2 then
      var n := FromBytes(data[1..5]);
      (match utf8(Take(data[5..], n)) case Some(s) => Some(Decoded(Text(s), Drop(data[5..], n))) case None => None)
    else if data[0] == 3 then
      (match DecodeItems(utf8, FromBytes(data[1..5]), [], data[5..])
       case Some(d) => Some(Decoded(List(d.value), d.rest)) case None => None)
    else if data[0] == 4 then
      (match DecodeFields(utf8, FromBytes(data[1..5]), map[], data[5..])
       case Some(d) => Some(Decoded(Dict(d.value), d.rest)) case None => None)
    else None
  }

  function DecodeItems(utf8: seq<Byte> -> Option<string>, count: nat, seen: seq<Py>, data: seq<Byte>)
    : (d: Option<Decoded<seq<Py>>>)
    ensures d.Some? ==> |d.value.rest| <= |data|
    decreases |data|, 2
  {
    if count == 0 then Some(Decoded(seen, data))
    else match Decode(utf8, data)
      case None => None
      case Some(d) => DecodeItems(utf8, count - 1, seen + [d.value], d.rest)
  }

  function DecodeFields(utf8: seq<Byte> -> Option<string>, count: nat, seen: map<Key, Py>, data: seq<Byte>)
    : (d: Option<Decoded<map<Key, Py>>>)
    ensures d.Some? ==> |d.value.rest| <= |data|
    decreases |data|, 2
  {
    if count == 0 then Some(Decoded(seen, data))
    else match DecodeField(utf8, data)
      case None => None
      case Some(d) => DecodeFields(utf8, count - 1, seen[d.value.key := d.value.value], d.rest)
  }

  function DecodeField(utf8: seq<Byte> -> Option<string>, data: seq<Byte>): (d: Option<Decoded<Entry>>)
    ensures d.Some? ==> |d.value.rest| < |data|
    decreases |data|, 1
  {
    match Decode(utf8, data)
    case None => None
    case Some(k) =>
      match Decode(utf8, k.rest)
      case None => None
      case Some(d) => if Hash(k.value).None? then None else Some(Decoded(Entry(Hash(k.value).value, d.value), d.rest))
  }

  /* ----- round trip ----- */

  function Then<T>(v: Option<T>, rest: seq<Byte>): Option<Decoded<T>> {
    match v case Some(p) => Some(Decoded(p, rest)) case None => None
  }

  lemma Header(tag: Byte, n: nat, tail: seq<Byte>)
    requires n < 0x1_0000_0000
    ensures var data := [tag] + BigEndian(n, 4) + tail;
            |data| >= 5 && data[0] == tag && FromBytes(data[1..5]) == n && data[5..] == tail
  {
    WordRanges();
    BytesOfWord(n, 4);
    var data := [tag] + BigEndian(n, 4) + tail;
    assert data[1..5] == BigEndian(n, 4);
  }

  // Main result: whatever follows an encoding, the decoder returns the value that was
  // written and stops exactly at its end; it raises just when the value has no view.
  lemma {:induction false} RoundTrip(utf8: seq<Byte> -> Option<string>, v: Value, rest: seq<Byte>)
    requires Fits(v)
    ensures Decode(utf8, Encode(v) + rest) == Then(View(utf8, v), rest)
    decreases v
  {
    hide BigEndian, FromBytes, Decode, DecodeItems, DecodeFields;
    match v
    case UInt(n) =>
      WordRoundTrip(utf8, v, rest);
    case ULong(n) =>
      WordRoundTrip(utf8, v, rest);
    case Str(text) =>
      TextRoundTrip(utf8, text, rest);
    case Arr(items) =>
      ItemsRoundTrip(utf8, items, [], rest);
      DecodeArray(utf8, |items|, EncodeItems(items) + rest);
      assert Encode(v) + rest == [3] + BigEndian(|items|, 4) + (EncodeItems(items) + rest);
    case Map(fields) =>
      FieldsRoundTrip(utf8, fields, map[], rest);
      DecodeMap(utf8, |fields|, EncodeFields(fields) + rest);
      assert Encode(v) + rest == [4] + BigEndian(|fields|, 4) + (EncodeFields(fields) + rest);
  }

  lemma WordRoundTrip(utf8: seq<Byte> -> Option<string>, v: Value, rest: seq<Byte>)
    requires v.UInt? || v.ULong?
    ensures Decode(utf8, Encode(v) + rest) == Then(View(utf8, v), rest)
  {
    hide BigEndian, FromBytes, DecodeItems, DecodeFields;
    WordRanges();
    var data := Encode(v) + rest;
    if v.UInt? {
      BytesOfWord(v.n, 4);
      assert data[1..5] == BigEndian(v.n, 4) && data[5..] == rest;
    } else {
      BytesOfWord(v.m, 8);
      assert data[1..9] == BigEndian(v.m, 8) && data[9..] == rest;
    }
  }

  lemma TextRoundTrip(utf8: seq<Byte> -> Option<string>, text: seq<Byte>, rest: seq<Byte>)
    requires |text| < 0x1_0000_0000
    ensures Decode(utf8, Encode(Str(text)) + rest) == Then(View(utf8, Str(text)), rest)
  {
    hide BigEndian, FromBytes, DecodeItems, DecodeFields;
    Header(2, |text|, text + rest);
    assert Encode(Str(text)) + rest == [2] + BigEndian(|text|, 4) + (text + rest);
    assert Take(text + rest, |text|) == text && Drop(text + rest, |text|) == rest;
  }

  lemma DecodeArray(utf8: seq<Byte> -> Option<string>, n: nat, tail: seq<Byte>)
    requires n < 0x1_0000_0000
    ensures Decode(utf8, [3] + BigEndian(n, 4) + tail) ==
            match DecodeItems(utf8, n, [], tail) case Some(d) => Some(Decoded(List(d.value), d.rest)) case None => None
  {
    hide BigEndian, FromBytes, DecodeItems, DecodeFields;
    Header(3, n, tail);
  }

  lemma DecodeMap(utf8: seq<Byte> -> Option<string>, n: nat, tail: seq<Byte>)
    requires n < 0x1_0000_0000
    ensures Decode(utf8, [4] + BigEndian(n, 4) + tail) ==
            match DecodeFields(utf8, n, map[], tail)
            case Some(d) => Some(Decoded(Dict(d.value), d.rest))
            case None => None
  {
    hide BigEndian, FromBytes, DecodeItems, DecodeFields;
    Header(4, n, tail);
  }

  lemma {:induction false} ItemsRoundTrip(utf8: seq<Byte> -> Option<string>, items: seq<Value>, seen: seq<Py>,
                                          rest: seq<Byte>)
    requires forall i :: 0 <= i < |items| ==> Fits(items[i])
    ensures DecodeItems(utf8, |items|, seen, EncodeItems(items) + rest) == Then(ViewItems(utf8, items, seen), rest)
    decreases items
  {
    hide Decode, Encode, View;
    if items == [] {
      assert EncodeItems(items) + rest == rest;
    } else {
      var tail := EncodeItems(items[1..]) + rest;
      RoundTrip(utf8, items[0], tail);
      assert EncodeItems(items) + rest == Encode(items[0]) + tail;
      if View(utf8, items[0]).Some? { ItemsRoundTrip(utf8, items[1..], seen + [View(utf8, items[0]).value], rest); }
    }
  }

  lemma {:induction false} FieldsRoundTrip(utf8: seq<Byte> -> Option<string>, fields: seq<Field>, seen: map<Key, Py>,
                                           rest: seq<Byte>)
    requires forall i :: 0 <= i < |fields| ==> Fits(fields[i].key) && Fits(fields[i].value)
    ensures DecodeFields(utf8, |fields|, seen, EncodeFields(fields) + rest) ==
            Then(ViewFields(utf8, fields, seen), rest)
    decreases fields
  {
    hide DecodeField, EncodeField, ViewField;
    if fields == [] {
      assert EncodeFields(fields) + rest == rest;
    } else {
      var tail := EncodeFields(fields[1..]) + rest;
      FieldRoundTrip(utf8, fields[0], tail);
      assert EncodeFields(fields) + rest == EncodeField(fields[0]) + tail;
      var e := ViewField(utf8, fields[0]);
      if e.Some? { FieldsRoundTrip(utf8, fields[1..], seen[e.value.key := e.value.value], rest); }
    }
  }

  lemma FieldRoundTrip(utf8: seq<Byte> -> Option<string>, f: Field, rest: seq<Byte>)
    requires Fits(f.key) && Fits(f.value)
    ensures DecodeField(utf8, EncodeField(f) + rest) == Then(ViewField(utf8, f), rest)
    decreases f
  {
    hide Decode, Encode, View;
    RoundTrip(utf8, f.key, Encode(f.value) + rest);
    RoundTrip(utf8, f.value, rest);
    assert EncodeField(f) + rest == Encode(f.key) + (Encode(f.value) + rest);
  }

  // The decoder raises exactly where the encoded value demands it, and otherwise returns
  // that value and leaves what follows it.
  lemma DecodedIsSeen(utf8: seq<Byte> -> Option<string>, v: Value, rest: seq<Byte>)
    requires Fits(v)
    ensures match Decode(utf8, Encode(v) + rest)
            case None => Raises(utf8, v)
            case Some(d) => !Raises(utf8, v) && Sees(utf8, v, d.value) && d.rest == rest
  {
    hide Decode, Encode, View, Sees, Raises;
    RoundTrip(utf8, v, rest);
    ViewIsSeen(utf8, v);
  }

  // Input that is not an encoding: a header that is cut off or has an unknown tag raises;
  // a string that is cut off is what is left of it.
  lemma CutOffInput(utf8: seq<Byte> -> Option<string>, data: seq<Byte>)
    ensures data == [] || data[0] > 4 || |data| < (if data[0] == 1 then 9 else 5) ==> Decode(utf8, data) == None
    ensures |data| >= 5 && data[0] == 0 ==> Decode(utf8, data).Some?
    ensures |data| >= 9 && data[0] == 1 ==> Decode(utf8, data).Some?
  {
    hide DecodeItems, DecodeFields, FromBytes;
  }

  lemma CutOffString(utf8: seq<Byte> -> Option<string>, data: seq<Byte>, n: nat)
    requires |data| >= 5 && data[0] == 2 && IsWord(data[1..5], n) && |data| <= 5 + n
    ensures Decode(utf8, data) == match utf8(data[5..]) case None => None case Some(s) => Some(Decoded(Text(s), []))
  {
    hide DecodeItems, DecodeFields, FromBytes, IsWord;
    WordFrom(data[1..5], n);
    assert Take(data[5..], n) == data[5..] && Drop(data[5..], n) == [];
  }

  lemma WordFrom(s: seq<Byte>, n: nat)
    requires IsWord(s, n)
    ensures FromBytes(s) == n
  {
    var a, b, c := s[..3], s[..2], s[..1];
    assert a[..2] == b && b[..1] == c && c[..0] == [];
    assert FromBytes(c) == s[0];
    assert FromBytes(b) == s[0] as int * 0x100 + s[1];
    assert FromBytes(a) == s[0] as int * 0x1_0000 + s[1] as int * 0x100 + s[2];
  }

  /* ----- the bytes of an encoding ----- */

  // Four bytes, most significant first.
  predicate IsWord(s: seq<Byte>, n: nat) {
    |s| == 4 && s[0] as int * 0x100_0000 + s[1] as int * 0x1_0000 + s[2] as int * 0x100 + s[3] == n
  }

  ghost predicate IsLongWord(s: seq<Byte>, n: nat) {
    |s| == 8 && exists high: nat, low: nat ::
      IsWord(s[..4], high) && IsWord(s[4..], low) && n == high * 0x1_0000_0000 + low
  }

  lemma WordIs(n: nat)
    requires n < 0x1_0000_0000
    ensures IsWord(BigEndian(n, 4), n)
  {
    FourBytes(n);
    var b := n / 0x100;
    var c := b / 0x100;
    assert n == b * 0x100 + n % 0x100 && b == c * 0x100 + b % 0x100;
    assert n / 0x1_0000 == c && n / 0x100_0000 == c / 0x100 && c / 0x100 < 0x100;
  }

  lemma LongWordIs(n: nat)
    requires n < 0x1_0000_0000_0000_0000
    ensures IsLongWord(BigEndian(n, 8), n)
  {
    hide BigEndian;
    var high, low := n / 0x1_0000_0000, n % 0x1_0000_0000;
    HighAndLow(n);
    WordIs(high);
    WordIs(low);
    assert BigEndian(n, 8)[..4] == BigEndian(high, 4) && BigEndian(n, 8)[4..] == BigEndian(low, 4);
  }

  lemma HighAndLow(n: nat)
    ensures BigEndian(n, 8) == BigEndian(n / 0x1_0000_0000, 4) + BigEndian(n % 0x1_0000_0000, 4)
  {
    hide BigEndian;
    EightBytes(n);
    FourBytes(n / 0x1_0000_0000);
    LowBytes(n);
    FourBytes(n);
  }

  // The tag, the word or count, and what follows; elements in order, the key of a field
  // before its value.
  lemma EncodingIs(v: Value)
    requires Fits(v)
    ensures var s := Encode(v);
            |s| >= 5 &&
            match v
            case UInt(n) => s[0] == 0 && IsWord(s[1..], n)
            case ULong(n) => s[0] == 1 && IsLongWord(s[1..], n)
            case Str(text) => s[0] == 2 && IsWord(s[1..5], |text|) && s[5..] == text
            case Arr(items) => s[0] == 3 && IsWord(s[1..5], |items|) && s[5..] == EncodeItems(items)
            case Map(fields) => s[0] == 4 && IsWord(s[1..5], |fields|) && s[5..] == EncodeFields(fields)
  {
    hide BigEndian, EncodeItems, EncodeFields, IsWord, IsLongWord;
    Layout(v, []);
    assert Encode(v) + [] == Encode(v) && BodyOf(v) + [] == BodyOf(v);
    if v.ULong? { LongWordIs(v.m); } else { WordIs(CountOf(v)); }
  }

  lemma {:induction false} ItemsInOrder(items: seq<Value>, v: Value)
    ensures EncodeItems(items + [v]) == EncodeItems(items) + Encode(v)
  {
    hide Encode;
    if items == [] {
      assert [] + [v] == [v] && [v][1..] == [];
    } else {
      assert (items + [v])[1..] == items[1..] + [v];
      ItemsInOrder(items[1..], v);
    }
  }

  lemma {:induction false} FieldsInOrder(fields: seq<Field>, f: Field)
    ensures EncodeFields(fields + [f]) == EncodeFields(fields) + Encode(f.key) + Encode(f.value)
  {
    hide Encode;
    if fields == [] {
      assert [] + [f] == [f] && [f][1..] == [];
    } else {
      assert (fields + [f])[1..] == fields[1..] + [f];
      FieldsInOrder(fields[1..], f);
    }
  }

  /* ----- consequences ----- */

  function TagOf(v: Value): Byte {
    match v case UInt(_) => 0 case ULong(_) => 1 case Str(_) => 2 case Arr(_) => 3 case Map(_) => 4
  }

  function CountOf(v: Value): nat {
    match v
    case UInt(n) => n
    case ULong(n) => n
    case Str(text) => |text|
    case Arr(items) => |items|
    case Map(fields) => |fields|
  }

  function WidthOf(v: Value): nat {
    if v.ULong? then 8 else 4
  }

  function BodyOf(v: Value): seq<Byte> {
    match v
    case UInt(_) => []
    case ULong(_) => []
    case Str(text) => text
    case Arr(items) => EncodeItems(items)
    case Map(fields) => EncodeFields(fields)
  }

  lemma Layout(v: Value, a: seq<Byte>)
    ensures var k, data := WidthOf(v), Encode(v) + a;
            && |data| >= 1 + k && data[0] == TagOf(v)
            && data[1..1 + k] == BigEndian(CountOf(v), k) && data[1 + k..] == BodyOf(v) + a
  {
    hide BigEndian, EncodeItems, EncodeFields;
    var k, data := WidthOf(v), Encode(v) + a;
    assert data == [TagOf(v)] + BigEndian(CountOf(v), k) + (BodyOf(v) + a);
  }

  lemma SameHeader(v: Value, w: Value, a: seq<Byte>, b: seq<Byte>)
    requires Fits(v) && Fits(w) && Encode(v) + a == Encode(w) + b
    ensures TagOf(v) == TagOf(w) && CountOf(v) == CountOf(w) && BodyOf(v) + a == BodyOf(w) + b
  {
    hide BigEndian, FromBytes, Encode, BodyOf;
    Layout(v, a);
    Layout(w, b);
    WordRanges();
    BytesOfWord(CountOf(v), WidthOf(v));
    BytesOfWord(CountOf(w), WidthOf(w));
  }

  // The encoding can be read in one way only: it is injective and prefix-free, and
  // unlike the decoded values it keeps the widths of integers apart.
  lemma {:induction false} ReadOneWay(v: Value, w: Value, a: seq<Byte>, b: seq<Byte>)
    requires Fits(v) && Fits(w) && Encode(v) + a == Encode(w) + b
    ensures v == w && a == b
    decreases v
  {
    hide Encode, EncodeItems, EncodeFields;
    SameHeader(v, w, a, b);
    match v
    case UInt(n) =>
      assert w == UInt(w.n) && BodyOf(v) + a == a && BodyOf(w) + b == b;
    case ULong(n) =>
      assert w == ULong(w.m) && BodyOf(v) + a == a && BodyOf(w) + b == b;
    case Str(text) =>
      assert text == (BodyOf(v) + a)[..|text|] == w.text;
      assert a == (BodyOf(v) + a)[|text|..] == b;
    case Arr(items) =>
      ItemsReadOneWay(items, w.items, a, b);
    case Map(fields) =>
      FieldsReadOneWay(fields, w.fields, a, b);
  }

  lemma {:induction false} ItemsReadOneWay(v: seq<Value>, w: seq<Value>, a: seq<Byte>, b: seq<Byte>)
    requires |v| == |w| && forall i :: 0 <= i < |v| ==> Fits(v[i]) && Fits(w[i])
    requires EncodeItems(v) + a == EncodeItems(w) + b
    ensures v == w && a == b
    decreases v
  {
    hide Encode, Fits;
    if v == [] {
      assert EncodeItems(v) + a == a && EncodeItems(w) + b == b;
    } else {
      assert EncodeItems(v) + a == Encode(v[0]) + (EncodeItems(v[1..]) + a);
      assert EncodeItems(w) + b == Encode(w[0]) + (EncodeItems(w[1..]) + b);
      ReadOneWay(v[0], w[0], EncodeItems(v[1..]) + a, EncodeItems(w[1..]) + b);
      ItemsReadOneWay(v[1..], w[1..], a, b);
    }
  }

  lemma {:induction false} FieldsReadOneWay(v: seq<Field>, w: seq<Field>, a: seq<Byte>, b: seq<Byte>)
    requires |v| == |w|
    requires forall i :: 0 <= i < |v| ==> Fits(v[i].key) && Fits(v[i].value) && Fits(w[i].key) && Fits(w[i].value)
    requires EncodeFields(v) + a == EncodeFields(w) + b
    ensures v == w && a == b
    decreases v
  {
    hide EncodeField, Fits;
    if v == [] {
      assert EncodeFields(v) + a == a && EncodeFields(w) + b == b;
    } else {
      assert EncodeFields(v) + a == EncodeField(v[0]) + (EncodeFields(v[1..]) + a);
      assert EncodeFields(w) + b == EncodeField(w[0]) + (EncodeFields(w[1..]) + b);
      FieldReadsOneWay(v[0], w[0], EncodeFields(v[1..]) + a, EncodeFields(w[1..]) + b);
      FieldsReadOneWay(v[1..], w[1..], a, b);
    }
  }

  lemma FieldReadsOneWay(v: Field, w: Field, a: seq<Byte>, b: seq<Byte>)
    requires Fits(v.key) && Fits(v.value) && Fits(w.key) && Fits(w.value)
    requires EncodeField(v) + a == EncodeField(w) + b
    ensures v == w && a == b
    decreases v
  {
    hide Encode, Fits;
    assert EncodeField(v) + a == Encode(v.key) + (Encode(v.value) + a);
    assert EncodeField(w) + b == Encode(w.key) + (Encode(w.value) + b);
    ReadOneWay(v.key, w.key, Encode(v.value) + a, Encode(w.value) + b);
    ReadOneWay(v.value, w.value, a, b);
  }

  // A dictionary holds the keys of all fields, each with the value of its last field.
  lemma {:induction false} LastFieldWins(utf8: seq<Byte> -> Option<string>, fields: seq<Field>, seen: map<Key, Py>)
    requires ViewFields(utf8, fields, seen).Some?
    ensures var m := ViewFields(utf8, fields, seen).value;
            && (forall i :: 0 <= i < |fields| ==> ViewField(utf8, fields[i]).Some?)
            && (forall k :: k in m <==> k in seen || k in KeysOf(utf8, fields))
            && (forall k :: k in seen && k !in KeysOf(utf8, fields) ==> m[k] == seen[k])
            && (forall i :: 0 <= i < |fields| && KeysOf(utf8, fields)[i] !in KeysOf(utf8, fields)[i + 1..] ==>
                  m[KeysOf(utf8, fields)[i]] == ViewField(utf8, fields[i]).value.value)
  {
    hide ViewField;
    if fields != [] {
      var e := ViewField(utf8, fields[0]).value;
      LastFieldWins(utf8, fields[1..], seen[e.key := e.value]);
      var keys, tail := KeysOf(utf8, fields), KeysOf(utf8, fields[1..]);
      assert keys == [e.key] + tail;
      forall i | 0 <= i < |fields| ensures ViewField(utf8, fields[i]).Some? {
        if i > 0 { assert fields[i] == fields[1..][i - 1]; }
      }
      var m := ViewFields(utf8, fields, seen).value;
      forall i | 0 <= i < |fields| && keys[i] !in keys[i + 1..]
        ensures m[keys[i]] == ViewField(utf8, fields[i]).value.value
      {
        if i > 0 { assert keys[i + 1..] == tail[i..] && keys[i] == tail[i - 1] && fields[i] == fields[1..][i - 1]; }
      }
    }
  }

  // The keys as the decoder sees them; a field without a view counts as key 0.
  function KeysOf(utf8: seq<Byte> -> Option<string>, fields: seq<Field>): (keys: seq<Key>)
    ensures |keys| == |fields|
  {
    seq(|fields|, i requires 0 <= i < |fields| =>
          var e := ViewField(utf8, fields[i]); if e.Some? then e.value.key else IntKey(0))
  }

  // No two fields have the same key.
  ghost predicate DistinctKeys(utf8: seq<Byte> -> Option<string>, fields: seq<Field>) {
    forall i, j, k :: 0 <= i < j < |fields| && KeyIs(utf8, fields[i].key, k) ==> !KeyIs(utf8, fields[j].key, k)
  }

  lemma DistinctIsNoDup(utf8: seq<Byte> -> Option<string>, fields: seq<Field>)
    requires forall i :: 0 <= i < |fields| ==> ViewField(utf8, fields[i]).Some?
    ensures DistinctKeys(utf8, fields) <==> NoDup(KeysOf(utf8, fields))
  {
    hide ViewField, KeyIs, KeysOf;
    var keys := KeysOf(utf8, fields);
    forall i | 0 <= i < |fields| ensures forall k :: KeyIs(utf8, fields[i].key, k) <==> k == keys[i] {
      ViewFieldIs(utf8, fields[i]);
      KeysOfIs(utf8, fields, i);
    }
    if DistinctKeys(utf8, fields) {
      forall i, j | 0 <= i < j < |keys| ensures keys[i] != keys[j] {
        assert KeyIs(utf8, fields[i].key, keys[i]) && !KeyIs(utf8, fields[j].key, keys[i]);
      }
    }
  }

  // Main result for maps: the dictionary has an entry for every field, with its own
  // value, exactly when the keys are distinct as the decoder sees them (an unsigned
  // int and an unsigned long of the same value are one key).
  lemma DistinctKeysKept(utf8: seq<Byte> -> Option<string>, fields: seq<Field>)
    requires View(utf8, Map(fields)).Some?
    ensures var m, keys := View(utf8, Map(fields)).value.entries, KeysOf(utf8, fields);
            && (|m| == |fields| <==> NoDup(keys)) && (NoDup(keys) <==> DistinctKeys(utf8, fields))
            && (forall i :: 0 <= i < |fields| ==> ViewField(utf8, fields[i]).Some?)
            && (NoDup(keys) ==> forall i :: 0 <= i < |fields| ==>
                  keys[i] in m && m[keys[i]] == ViewField(utf8, fields[i]).value.value)
  {
    hide ViewField, KeysOf;
    LastFieldWins(utf8, fields, map[]);
    var m, keys := View(utf8, Map(fields)).value.entries, KeysOf(utf8, fields);
    assert m.Keys == Elements(keys);
    ElementCount(keys);
    DistinctIsNoDup(utf8, fields);
    if NoDup(keys) {
      forall i | 0 <= i < |fields| ensures keys[i] !in keys[i + 1..] {
      }
    }
  }

  lemma {:induction false} ElementCount<T>(s: seq<T>)
    ensures |Elements(s)| <= |s| && (|Elements(s)| == |s| <==> NoDup(s))
  {
    if s == [] {
      assert Elements(s) == {};
    } else {
      var n := |s| - 1;
      ElementCount(s[..n]);
      assert Elements(s) == Elements(s[..n]) + {s[n]};
      if s[n] in s[..n] {
        var i :| 0 <= i < n && s[i] == s[n];
        assert Elements(s) == Elements(s[..n]);
      } else {
        forall i, j | 0 <= i < j < |s| && NoDup(s[..n]) ensures s[i] != s[j] {
          assert s[i] == s[..n][i];
          if j < n { assert s[j] == s[..n][j]; }
        }
        if NoDup(s) { assert NoDup(s[..n]); }
      }
    }
  }

  // The length of a string is cut to 32 bits, so the bound in Fits is needed: a string
  // comes back with the rest of the stream exactly when its length fits.
  lemma LongStringIsCut(utf8: seq<Byte> -> Option<string>, text: seq<Byte>, rest: seq<Byte>)
    requires utf8(text).Some?
    ensures Decode(utf8, Encode(Str(text)) + rest) == Then(View(utf8, Str(text)), rest) <==> |text| < 0x1_0000_0000
  {
    hide BigEndian, FromBytes, DecodeItems, DecodeFields;
    if |text| < 0x1_0000_0000 {
      TextRoundTrip(utf8, text, rest);
    } else {
      var n := |text| % 0x1_0000_0000;
      LowBytes(|text|);
      Header(2, n, text + rest);
      assert Encode(Str(text)) + rest == [2] + BigEndian(n, 4) + (text + rest);
      assert |Drop(text + rest, n)| == |text| - n + |rest|;
    }
  }

  // Only the low k bytes matter.
  lemma {:induction false} HighPartIgnored(x: nat, q: nat, k: nat)
    ensures x + q * Range(k) >= 0 && BigEndian(x + q * Range(k), k) == BigEndian(x, k)
  {
    if k == 0 {
      assert q * Range(0) == q;
    } else {
      var z := q * Range(k - 1);
      assert q * Range(k) == 256 * z by { Regroup(q, Range(k - 1)); }
      HighPartIgnored(x / 256, q, k - 1);
      assert (x + 256 * z) / 256 == x / 256 + z && (x + 256 * z) % 256 == x % 256;
    }
  }

  lemma Regroup(q: nat, r: nat)
    ensures q * (256 * r) == 256 * (q * r)
  {
  }

  lemma LowBytes(x: nat)
    ensures BigEndian(x, 4) == BigEndian(x % 0x1_0000_0000, 4)
  {
    hide BigEndian;
    WordRanges();
    var q, r := x / 0x1_0000_0000, x % 0x1_0000_0000;
    assert x == r + q * 0x1_0000_0000;
    HighPartIgnored(r, q, 4);
  }

  lemma FourBytes(x: nat)
    ensures BigEndian(x, 4) == [x / 0x100_0000 % 256, x / 0x1_0000 % 256, x / 0x100 % 256, x % 256]
  {
    assert BigEndian(x / 0x1_0000, 2) == [x / 0x1_0000 / 256 % 256, x / 0x1_0000 % 256];
    assert x / 256 / 256 == x / 0x1_0000;
    assert BigEndian(x / 256, 3) == BigEndian(x / 0x1_0000, 2) + [x / 256 % 256];
  }

  /* ----- the encoder on fixed strings ----- */

  // ui_to_string
  method UiToString(x: UInt32) returns (res: array<Byte>)
    ensures fresh(res) && Terminated(res) && Content(res) == BigEndian(x, 4)
  {
    res := Blank(5);
    res[0] := x / 0x100_0000 % 256;
    res[1] := x / 0x1_0000 % 256;
    res[2] := x / 0x100 % 256;
    res[3] := x % 256;
    FourBytes(x);
  }

  // ul_to_string
  method UlToString(x: UInt64) returns (res: array<Byte>)
    ensures fresh(res) && Terminated(res) && Content(res) == BigEndian(x, 8)
  {
    res := Blank(9);
    var high, low := x / 0x1_0000_0000, x % 0x1_0000_0000;
    res[0] := x / 0x100_0000_0000_0000 % 256;
    res[1] := x / 0x1_0000_0000_0000 % 256;
    res[2] := x / 0x100_0000_0000 % 256;
    res[3] := x / 0x1_0000_0000 % 256;
    res[4] := x / 0x100_0000 % 256;
    res[5] := x / 0x1_0000 % 256;
    res[6] := x / 0x100 % 256;
    res[7] := x % 256;
    EightBytes(x);
  }

  lemma EightBytes(x: nat)
    ensures BigEndian(x, 8) ==
            [x / 0x100_0000_0000_0000 % 256, x / 0x1_0000_0000_0000 % 256,
             x / 0x100_0000_0000 % 256, x / 0x1_0000_0000 % 256,
             x / 0x100_0000 % 256, x / 0x1_0000 % 256, x / 0x100 % 256, x % 256]
  {
    var y := x / 0x1_0000_0000;
    FourBytes(y);
    assert y / 0x100_0000 == x / 0x100_0000_0000_0000;
    assert y / 0x1_0000 == x / 0x1_0000_0000_0000;
    assert y / 0x100 == x / 0x100_0000_0000;
    assert x / 0x100_0000 / 256 == y;
    assert x / 0x1_0000 / 256 == x / 0x100_0000;
    assert x / 256 / 256 == x / 0x1_0000;
    assert BigEndian(x / 0x100_0000, 5) == BigEndian(y, 4) + [x / 0x100_0000 % 256];
    assert BigEndian(x / 0x1_0000, 6) == BigEndian(x / 0x100_0000, 5) + [x / 0x1_0000 % 256];
    assert BigEndian(x / 256, 7) == BigEndian(x / 0x1_0000, 6) + [x / 256 % 256];
  }

  // The tag and the 32-bit count in front of a string, an array or a map; the count is
  // converted to an unsigned int.
  method Prefix(tag: Byte, count: nat) returns (res: array<Byte>)
    ensures fresh(res) && Terminated(res) && Content(res) == [tag] + BigEndian(count, 4)
  {
    LowBytes(count);
    var id := FromChars([tag]);
    var size := UiToString(count % 0x1_0000_0000);
    res := Concat(id, size);
  }

  // The serialize overloads.
  method Serialize(v: Value) returns (res: array<Byte>)
    ensures fresh(res) && Terminated(res) && Content(res) == Encode(v)
    decreases v
  {
    match v
    case UInt(n) =>
      var id := FromChars([0]);
      var word := UiToString(n);
      res := Concat(id, word);
    case ULong(n) =>
      var id := FromChars([1]);
      var word := UlToString(n);
      res := Concat(id, word);
    case Str(text) =>
      var prefix := Prefix(2, |text|);
      var str := FromChars(text);
      res := Concat(prefix, str);
    case Arr(items) =>
      var prefix := Prefix(3, |items|);
      var rest := SerializeItems(items);
      res := Concat(prefix, rest);
    case Map(fields) =>
      var prefix := Prefix(4, |fields|);
      var rest := SerializeFields(fields);
      res := Concat(prefix, rest);
  }

  // array_helper on the elements of an array
  method SerializeItems(items: seq<Value>) returns (res: array<Byte>)
    ensures fresh(res) && Terminated(res) && Content(res) == EncodeItems(items)
    decreases items
  {
    if items == [] {
      res := FromChars([]);
    } else {
      var first := Serialize(items[0]);
      if |items| == 1 {
        res := first;
        assert EncodeItems(items[1..]) == [];
      } else {
        var rest := SerializeItems(items[1..]);
        res := Concat(first, rest);
      }
    }
  }

  // array_helper on the concatenated key and value tuples of a map
  method SerializeFields(fields: seq<Field>) returns (res: array<Byte>)
    ensures fresh(res) && Terminated(res) && Content(res) == EncodeFields(fields)
    decreases fields
  {
    if fields == [] {
      res := FromChars([]);
    } else {
      var field := SerializeField(fields[0]);
      if |fields| == 1 {
        res := field;
        assert EncodeFields(fields[1..]) == [];
      } else {
        var rest := SerializeFields(fields[1..]);
        res := Concat(field, rest);
      }
    }
  }

  method SerializeField(f: Field) returns (res: array<Byte>)
    ensures fresh(res) && Terminated(res) && Content(res) == EncodeField(f)
    decreases f
  {
    var key := Serialize(f.key);
    var value := Serialize(f.value);
    res := Concat(key, value);
  }

  /* ----- the decoder on a stream ----- */

  class BytesIO {
    const data: seq<Byte>
    var position: nat

    ghost predicate Valid()
      reads this
    {
      position <= |data|
    }

    ghost function Rest(): seq<Byte>
      reads this
      requires Valid()
    {
      data[position..]
    }

    constructor (bytes: seq<Byte>)
      ensures Valid() && Rest() == bytes
    {
      data, position := bytes, 0;
    }

    // At most n bytes; fewer at the end of the data, without an error.
    method Read(n: nat) returns (chunk: seq<Byte>)
      requires Valid()
      modifies this
      ensures Valid() && chunk == Take(old(Rest()), n) && Rest() == Drop(old(Rest()), n)
    {
      var end := if position + n <= |data| then position + n else |data|;
      chunk := data[position..end];
      position := end;
    }
  }

  // decode_value; None stands for an exception.
  method DecodeValue(utf8: seq<Byte> -> Option<string>, data: BytesIO) returns (res: Option<Py>)
    requires data.Valid()
    modifies data
    ensures data.Valid()
    ensures match Decode(utf8, old(data.Rest()))
            case None => res == None
            case Some(d) => res == Some(d.value) && data.Rest() == d.rest
    decreases |data.Rest()|, 0
  {
    hide FromBytes, DecodeItems, DecodeFields;
    ghost var start := data.Rest();
    var kind := data.Read(1);
    if |kind| < 1 { return None; }
    var width := if kind[0] == 1 then 8 else 4;
    if kind[0] > 4 { return None; }
    var word := data.Read(width);
    if |word| < width { return None; }
    var n := FromBytes(word);
    assert start[1..][..width] == start[1..1 + width] && start[1..][width..] == start[1 + width..];
    if kind[0] <= 1 {
      return Some(Int(n));
    } else if kind[0] == 2 {
      var text := data.Read(n);
      var s := utf8(text);
      return if s.Some? then Some(Text(s.value)) else None;
    } else if kind[0] == 3 {
      var items := DecodeArrayItems(utf8, n, data);
      return if items.Some? then Some(List(items.value)) else None;
    } else {
      var entries := DecodeMapEntries(utf8, n, data);
      return if entries.Some? then Some(Dict(entries.value)) else None;
    }
  }

  method DecodeArrayItems(utf8: seq<Byte> -> Option<string>, count: nat, data: BytesIO) returns (res: Option<seq<Py>>)
    requires data.Valid()
    modifies data
    ensures data.Valid()
    ensures match DecodeItems(utf8, count, [], old(data.Rest()))
            case None => res == None
            case Some(d) => res == Some(d.value) && data.Rest() == d.rest
    decreases |data.Rest()|, 1
  {
    hide Decode, FromBytes;
    var result := [];
    for i := 0 to count
      invariant data.Valid() && |data.Rest()| <= |old(data.Rest())|
      invariant DecodeItems(utf8, count, [], old(data.Rest())) == DecodeItems(utf8, count - i, result, data.Rest())
    {
      var value := DecodeValue(utf8, data);
      if value.None? { return None; }
      result := result + [value.value];
    }
    return Some(result);
  }

  method DecodeMapEntries(utf8: seq<Byte> -> Option<string>, count: nat,
                          data: BytesIO) returns (res: Option<map<Key, Py>>)
    requires data.Valid()
    modifies data
    ensures data.Valid()
    ensures match DecodeFields(utf8, count, map[], old(data.Rest()))
            case None => res == None
            case Some(d) => res == Some(d.value) && data.Rest() == d.rest
    decreases |data.Rest()|, 1
  {
    hide Decode, FromBytes;
    var result := map[];
    for i := 0 to count
      invariant data.Valid() && |data.Rest()| <= |old(data.Rest())|
      invariant DecodeFields(utf8, count, map[], old(data.Rest())) == DecodeFields(utf8, count - i, result, data.Rest())
    {
      var key := DecodeValue(utf8, data);
      if key.None? { return None; }
      var value := DecodeValue(utf8, data);
      if value.None? { return None; }
      var hash := Hash(key.value);
      if hash.None? { return None; }
      result := result[hash.value := value.value];
    }
    return Some(result);
  }
}
