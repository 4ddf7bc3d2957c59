/**
 The BMF message format: tagged integers, strings, lists and dictionaries, written by a stream writer
 and read back by a recursive reader.
 */
module Bmf {
  import opened Bits
  import opened BmfInteger
  import opened Streams
  import opened Wrappers

  const INTEGER_TAG: byte := 1
  const STRING_TAG: byte := 7
  const LIST_TAG: byte := 10
  const DICT_TAG: byte := 13
  const END_TAG: byte := 17

  const MAX_STRING: int := 128 * 1024

  /** What a caller writes. */
  datatype Tree =
    | Integer(v: int64)
    | Text(s: Bytes)
    | List(items: seq<Tree>)
    | Dict(entries: seq<Entry>)

  datatype Entry = Entry(key: Bytes, value: Tree)

  /** What the reader returns; `Empty` also stands for anything it could not read. */
  datatype Item =
    | Empty
    | IntegerItem(v: int64)
    | TextItem(s: Bytes)
    | ListItem(items: seq<Item>)
    | DictItem(entries: map<Bytes, Item>)

  /** Reading ends with an item and the bytes that follow it, or with the exception that a negative
      string length raises. */
  datatype Outcome = Read(item: Item, rest: Bytes) | Thrown

  // ---- The written form ----

  function TextBytes(s: Bytes): (r: Bytes)
    ensures |r| > 0 && r[0] == STRING_TAG
  {
    [STRING_TAG] + Encoded(Wrap64(|s|)) + s
  }

  function TreeBytes(t: Tree): (r: Bytes)
    ensures |r| > 0 && r[0] != END_TAG
    decreases t
  {
    match t
    case Integer(v) => [INTEGER_TAG] + Encoded(v)
    case Text(s) => TextBytes(s)
    case List(items) => [LIST_TAG] + ListBytes(items) + [END_TAG]
    case Dict(entries) => [DICT_TAG] + DictBytes(entries) + [END_TAG]
  }

  function ListBytes(items: seq<Tree>): Bytes
    decreases items
  {
    if |items| == 0 then [] else TreeBytes(items[0]) + ListBytes(items[1..])
  }

  function DictBytes(entries: seq<Entry>): Bytes
    decreases entries
  {
    if |entries| == 0 then [] else EntryBytes(entries[0]) + DictBytes(entries[1..])
  }

  function EntryBytes(e: Entry): Bytes
    decreases e
  {
    TextBytes(e.key) + TreeBytes(e.value)
  }

  /** Every string and key is within the reader's limit. */
  ghost predicate Short(t: Tree)
    decreases t
  {
    match t
    case Integer(v) => true
    case Text(s) => |s| <= MAX_STRING
    case List(items) => forall i :: 0 <= i < |items| ==> Short(items[i])
    case Dict(entries) => forall i :: 0 <= i < |entries| ==> ShortEntry(entries[i])
  }

  ghost predicate ShortEntry(e: Entry)
    decreases e
  {
    |e.key| <= MAX_STRING && Short(e.value)
  }

  // ---- What is read back ----

  function ItemOf(t: Tree): Item
    decreases t
  {
    match t
    case Integer(v) => IntegerItem(v)
    case Text(s) => TextItem(s)
    case List(items) => ListItem(ItemsOf(items))
    case Dict(entries) => DictItem(MapOf(entries, map[]))
  }

  function ItemsOf(items: seq<Tree>): (r: seq<Item>)
    ensures |r| == |items|
    decreases items
  {
    if |items| == 0 then [] else [ItemOf(items[0])] + ItemsOf(items[1..])
  }

  /** The dictionary of the entries; of equal keys, the first one counts. */
  function MapOf(entries: seq<Entry>, sofar: map<Bytes, Item>): map<Bytes, Item>
    decreases entries
  {
    if |entries| == 0 then sofar
    else MapOf(entries[1..], Insert(sofar, entries[0].key, EntryItem(entries[0])))
  }

  function EntryItem(e: Entry): Item
    decreases e
  {
    ItemOf(e.value)
  }

  function Insert(m: map<Bytes, Item>, key: Bytes, item: Item): map<Bytes, Item> {
    if key in m then m else m[key := item]
  }

  // ---- Reading, as a function of the bytes ----

  datatype TextOutcome = TextRead(s: Bytes, rest: Bytes) | TextFailed(rest: Bytes) | TextThrown

  function ReadText(s: Bytes): (r: TextOutcome)
    ensures !r.TextThrown? ==> |r.rest| <= |s|
  {
    var d := Decode(s);
    var rest := s[d.used..];
    if d.value.None? || d.value.value as int > MAX_STRING then TextFailed(rest)
    else if d.value.value < 0 then TextThrown
    else if |rest| < d.value.value as int then TextFailed(rest)
    else TextRead(rest[..d.value.value], rest[d.value.value..])
  }

  function ReadAny(s: Bytes): (r: Outcome)
    ensures r.Read? ==> |r.rest| <= |s|
    decreases |s|, 0
  {
    if |s| == 0 then Read(Empty, s) else ReadItem(s[0], s[1..])
  }

  function ReadItem(tag: byte, s: Bytes): (r: Outcome)
    ensures r.Read? ==> |r.rest| <= |s|
    decreases |s|, 1
  {
    if tag == INTEGER_TAG then
      var d := Decode(s);
      Read(if d.value.Some? then IntegerItem(d.value.value) else Empty, s[d.used..])
    else if tag == STRING_TAG then
      match ReadText(s)
      case TextRead(text, rest) => Read(TextItem(text), rest)
      case TextFailed(rest) => Read(Empty, rest)
      case TextThrown => Thrown
    else if tag == LIST_TAG then ReadList(s, [])
    else if tag == DICT_TAG then ReadDict(s, map[])
    else Read(Empty, s)
  }

  function ReadList(s: Bytes, items: seq<Item>): (r: Outcome)
    ensures r.Read? ==> |r.rest| <= |s|
    decreases |s|, 0
  {
    if |s| == 0 then Read(Empty, s)
    else if s[0] == END_TAG then Read(ListItem(items), s[1..])
    else
      var o := ReadItem(s[0], s[1..]);
      if o.Thrown? then Thrown else ReadList(o.rest, items + [o.item])
  }

  function ReadDict(s: Bytes, items: map<Bytes, Item>): (r: Outcome)
    ensures r.Read? ==> |r.rest| <= |s|
    decreases |s|, 0
  {
    if |s| == 0 then Read(Empty, s)
    else if s[0] == END_TAG then Read(DictItem(items), s[1..])
    else if s[0] != STRING_TAG then Read(Empty, s[1..])
    else
      match ReadText(s[1..])
      case TextThrown => Thrown
      case TextFailed(rest) => Read(Empty, rest)
      case TextRead(key, rest) =>
        var o := ReadAny(rest);
        if o.Thrown? then Thrown else ReadDict(o.rest, Insert(items, key, o.item))
  }

  // ---- Reading back what was written ----

  lemma ReadTextWritten(s: Bytes, rest: Bytes)
    requires |s| <= MAX_STRING
    ensures ReadText((TextBytes(s) + rest)[1..]) == TextRead(s, rest)
  {
    hide Encoded, Decode, Wrap64;
    var code := Encoded(Wrap64(|s|));
    assert Wrap64(|s|) as int == |s| by { Wrap64Same(|s|); }
    assert (TextBytes(s) + rest)[1..] == code + (s + rest);
    DecodeEncoded(Wrap64(|s|), s + rest);
    DropPrefix(code, s + rest);
    DropPrefix(s, rest);
  }

  lemma Wrap64Same(x: int)
    requires -TWO_63 <= x < TWO_63
    ensures Wrap64(x) as int == x
  {
  }

  lemma DropPrefix(s: Bytes, t: Bytes)
    ensures (s + t)[..|s|] == s && (s + t)[|s|..] == t
  {
  }

  /** Whatever follows it, a written tree is read back, and exactly its own bytes are consumed. */
  lemma {:induction false} ReadWritten(t: Tree, rest: Bytes)
    requires Short(t)
    ensures ReadAny(TreeBytes(t) + rest) == Read(ItemOf(t), rest)
    decreases t
  {
    hide Encoded, Decode, ReadText, TextBytes, ReadList, ReadDict, ListBytes, DictBytes;
    var s := TreeBytes(t) + rest;
    match t
    case Integer(v) =>
      DecodeEncoded(v, rest);
      assert s[1..] == Encoded(v) + rest;
      DropPrefix(Encoded(v), rest);
    case Text(text) =>
      ReadTextWritten(text, rest);
    case List(items) =>
      ReadListWritten(items, [], rest);
      assert s[1..] == ListBytes(items) + ([END_TAG] + rest);
      assert [] + ItemsOf(items) == ItemsOf(items);
    case Dict(entries) =>
      ReadDictWritten(entries, map[], rest);
      assert s[1..] == DictBytes(entries) + ([END_TAG] + rest);
  }

  lemma ListOfTree(t: Tree, tail: Bytes, sofar: seq<Item>)
    ensures
      var o := ReadAny(TreeBytes(t) + tail);
      ReadList(TreeBytes(t) + tail, sofar) == if o.Thrown? then Thrown else ReadList(o.rest, sofar + [o.item])
  {
    hide TreeBytes, ReadItem;
    assert (TreeBytes(t) + tail)[0] == TreeBytes(t)[0];
  }

  lemma {:induction false} ReadListWritten(items: seq<Tree>, sofar: seq<Item>, rest: Bytes)
    requires forall i :: 0 <= i < |items| ==> Short(items[i])
    ensures ReadList(ListBytes(items) + ([END_TAG] + rest), sofar) == Read(ListItem(sofar + ItemsOf(items)), rest)
    decreases items
  {
    if |items| == 0 {
      NoItems(sofar, rest);
      assert items == [];
    } else {
      hide Short, ItemOf, ItemsOf, TreeBytes, ListBytes, ReadItem, ReadList, ReadAny;
      var tail := ListBytes(items[1..]) + ([END_TAG] + rest);
      FirstItem(items, sofar, rest);
      ListOfTree(items[0], tail, sofar);
      ReadWritten(items[0], tail);
      ReadListWritten(items[1..], sofar + [ItemOf(items[0])], rest);
    }
  }

  lemma NoItems(sofar: seq<Item>, rest: Bytes)
    ensures ReadList(ListBytes([]) + ([END_TAG] + rest), sofar) == Read(ListItem(sofar + ItemsOf([])), rest)
  {
    var s := ListBytes([]) + ([END_TAG] + rest);
    assert s == [END_TAG] + rest && s[1..] == rest;
    assert sofar + [] == sofar;
  }

  lemma FirstItem(items: seq<Tree>, sofar: seq<Item>, rest: Bytes)
    requires |items| > 0
    ensures ListBytes(items) + ([END_TAG] + rest) == TreeBytes(items[0]) + (ListBytes(items[1..]) + ([END_TAG] + rest))
    ensures sofar + ItemsOf(items) == sofar + [ItemOf(items[0])] + ItemsOf(items[1..])
  {
    hide TreeBytes, ItemOf, ListBytes, ItemsOf;
    FirstWritten(items);
    FirstGiven(items);
    Reassociate(TreeBytes(items[0]), ListBytes(items[1..]), [END_TAG] + rest);
    Reassociate(sofar, [ItemOf(items[0])], ItemsOf(items[1..]));
  }

  lemma FirstWritten(items: seq<Tree>)
    requires |items| > 0
    ensures ListBytes(items) == TreeBytes(items[0]) + ListBytes(items[1..])
  {
    hide TreeBytes;
  }

  lemma FirstGiven(items: seq<Tree>)
    requires |items| > 0
    ensures ItemsOf(items) == [ItemOf(items[0])] + ItemsOf(items[1..])
  {
    hide ItemOf;
  }

  lemma Reassociate<T>(a: seq<T>, b: seq<T>, c: seq<T>)
    ensures (a + b) + c == a + (b + c)
  {
  }

  lemma {:induction false} ReadDictWritten(entries: seq<Entry>, sofar: map<Bytes, Item>, rest: Bytes)
    requires forall i :: 0 <= i < |entries| ==> ShortEntry(entries[i])
    ensures ReadDict(DictBytes(entries) + ([END_TAG] + rest), sofar) == Read(DictItem(MapOf(entries, sofar)), rest)
    decreases entries
  {
    hide ReadText, TextBytes;
    var s := DictBytes(entries) + ([END_TAG] + rest);
    if |entries| == 0 {
      assert s == [END_TAG] + rest && s[1..] == rest;
    } else {
      var tail := DictBytes(entries[1..]) + ([END_TAG] + rest);
      assert s == EntryBytes(entries[0]) + tail;
      ReadEntryWritten(entries[0], sofar, tail);
      ReadDictWritten(entries[1..], Insert(sofar, entries[0].key, EntryItem(entries[0])), rest);
    }
  }

  lemma {:induction false} ReadEntryWritten(e: Entry, sofar: map<Bytes, Item>, tail: Bytes)
    requires ShortEntry(e)
    ensures ReadDict(EntryBytes(e) + tail, sofar) == ReadDict(tail, Insert(sofar, e.key, EntryItem(e)))
    decreases e
  {
    hide ReadText, TextBytes;
    var s := EntryBytes(e) + tail;
    assert s == TextBytes(e.key) + (TreeBytes(e.value) + tail);
    ReadTextWritten(e.key, TreeBytes(e.value) + tail);
    ReadWritten(e.value, tail);
  }

  /** The place of the first entry with this key. */
  ghost predicate FirstAt(entries: seq<Entry>, key: Bytes, i: int) {
    0 <= i < |entries| && entries[i].key == key && forall j :: 0 <= j < i ==> entries[j].key != key
  }

  /** A key that was there before keeps its value; otherwise the first entry with a key gives it its value,
      and there are no other keys. */
  lemma {:induction false} FirstKeyWins(entries: seq<Entry>, sofar: map<Bytes, Item>, key: Bytes)
    ensures key in MapOf(entries, sofar) <==> key in sofar || exists i :: FirstAt(entries, key, i)
    ensures key in sofar ==> MapOf(entries, sofar)[key] == sofar[key]
    ensures forall i :: key !in sofar && FirstAt(entries, key, i) ==>
      key in MapOf(entries, sofar) && MapOf(entries, sofar)[key] == ItemOf(entries[i].value)
  {
    if |entries| > 0 {
      hide ItemOf;
      var first, tail := entries[0], entries[1..];
      FirstKeyWins(tail, Insert(sofar, first.key, EntryItem(first)), key);
      if first.key == key {
        assert FirstAt(entries, key, 0);
      } else {
        forall i | FirstAt(entries, key, i) ensures i > 0 && FirstAt(tail, key, i - 1) && tail[i - 1] == entries[i] {
        }
        forall i | FirstAt(tail, key, i) ensures FirstAt(entries, key, i + 1) {
        }
      }
    }
  }

  /** Where the keys are distinct, every entry is found under its key. */
  lemma DistinctKeys(entries: seq<Entry>, sofar: map<Bytes, Item>)
    requires forall i, j :: 0 <= i < j < |entries| ==> entries[i].key != entries[j].key
    requires forall i :: 0 <= i < |entries| ==> entries[i].key !in sofar
    ensures forall i :: 0 <= i < |entries| ==>
      entries[i].key in MapOf(entries, sofar) && MapOf(entries, sofar)[entries[i].key] == ItemOf(entries[i].value)
  {
    hide MapOf, ItemOf;
    forall i | 0 <= i < |entries|
      ensures entries[i].key in MapOf(entries, sofar) && MapOf(entries, sofar)[entries[i].key] == ItemOf(entries[i].value)
    {
      FirstKeyWins(entries, sofar, entries[i].key);
      assert FirstAt(entries, entries[i].key, i);
    }
  }

  /** A string is read back exactly when it is within the reader's limit. */
  lemma StringLimit(s: Bytes, rest: Bytes)
    ensures ReadAny(TextBytes(s) + rest) == Read(TextItem(s), rest) <==> |s| <= MAX_STRING
  {
    hide Encoded, Decode;
    if |s| <= MAX_STRING {
      ReadTextWritten(s, rest);
    } else {
      var code := Encoded(Wrap64(|s|));
      DecodeEncoded(Wrap64(|s|), s + rest);
      assert (TextBytes(s) + rest)[1..] == code + (s + rest);
    }
  }

  // ---- And only what is within the limit ----

  /** Strings that a memory can hold. */
  ghost predicate Storable(t: Tree)
    decreases t
  {
    match t
    case Integer(v) => true
    case Text(s) => |s| < TWO_63
    case List(items) => forall i :: 0 <= i < |items| ==> Storable(items[i])
    case Dict(entries) => forall i :: 0 <= i < |entries| ==> StorableEntry(entries[i])
  }

  ghost predicate StorableEntry(e: Entry)
    decreases e
  {
    |e.key| < TWO_63 && Storable(e.value)
  }

  /** No dictionary has two entries with the same key. */
  ghost predicate Distinct(t: Tree)
    decreases t
  {
    match t
    case Integer(v) => true
    case Text(s) => true
    case List(items) => forall i :: 0 <= i < |items| ==> Distinct(items[i])
    case Dict(entries) =>
      && (forall i :: 0 <= i < |entries| ==> DistinctEntry(entries[i]))
      && forall i, j :: 0 <= i < j < |entries| ==> entries[i].key != entries[j].key
  }

  ghost predicate DistinctEntry(e: Entry)
    decreases e
  {
    Distinct(e.value)
  }

  lemma LongText(s: Bytes, rest: Bytes)
    requires MAX_STRING < |s| < TWO_63
    ensures ReadText((TextBytes(s) + rest)[1..]).TextFailed?
  {
    hide Encoded, Decode, Wrap64;
    var code := Encoded(Wrap64(|s|));
    Wrap64Same(|s|);
    assert (TextBytes(s) + rest)[1..] == code + (s + rest);
    DecodeEncoded(Wrap64(|s|), s + rest);
  }

  /** What a list or a dictionary has got stays in it. */
  lemma {:induction false} ListKeeps(s: Bytes, sofar: seq<Item>)
    ensures var o := ReadList(s, sofar); o.Read? && o.item.ListItem? ==> sofar <= o.item.items
    decreases |s|
  {
    hide ReadItem;
    if |s| > 0 && s[0] != END_TAG {
      var o := ReadItem(s[0], s[1..]);
      if o.Read? { ListKeeps(o.rest, sofar + [o.item]); }
    }
  }

  lemma {:induction false} DictKeeps(s: Bytes, sofar: map<Bytes, Item>, key: Bytes)
    requires key in sofar
    ensures
      var o := ReadDict(s, sofar);
      o.Read? && o.item.DictItem? ==> key in o.item.entries && o.item.entries[key] == sofar[key]
    decreases |s|
  {
    hide ReadAny, ReadText;
    if |s| > 0 && s[0] == STRING_TAG {
      var r := ReadText(s[1..]);
      if r.TextRead? {
        var o := ReadAny(r.rest);
        if o.Read? { DictKeeps(o.rest, Insert(sofar, r.s, o.item), key); }
      }
    }
  }

  lemma {:induction false} LongTree(t: Tree, rest: Bytes)
    requires Storable(t) && Distinct(t) && !Short(t)
    ensures var o := ReadAny(TreeBytes(t) + rest); o.Thrown? || o.item != ItemOf(t)
    decreases t
  {
    hide Encoded, Decode, ReadText, TextBytes, ReadList, ReadDict, ListBytes, DictBytes;
    var s := TreeBytes(t) + rest;
    match t
    case Integer(v) =>
    case Text(text) => LongText(text, rest);
    case List(items) =>
      LongList(items, [], rest);
      assert s[1..] == ListBytes(items) + ([END_TAG] + rest);
      assert [] + ItemsOf(items) == ItemsOf(items);
    case Dict(entries) =>
      LongDict(entries, map[], rest);
      assert s[1..] == DictBytes(entries) + ([END_TAG] + rest);
  }

  lemma {:induction false} LongList(items: seq<Tree>, sofar: seq<Item>, rest: Bytes)
    requires forall i :: 0 <= i < |items| ==> Storable(items[i]) && Distinct(items[i])
    requires exists i :: 0 <= i < |items| && !Short(items[i])
    ensures
      var o := ReadList(ListBytes(items) + ([END_TAG] + rest), sofar);
      o.Thrown? || o.item != ListItem(sofar + ItemsOf(items))
    decreases items
  {
    hide Short, Storable, Distinct, ItemOf, TreeBytes, ListBytes, ReadItem, ReadList;
    var tail := ListBytes(items[1..]) + ([END_TAG] + rest);
    var s := TreeBytes(items[0]) + tail;
    FirstItem(items, sofar, rest);
    ListOfTree(items[0], tail, sofar);
    var o := ReadAny(s);
    if Short(items[0]) {
      ReadWritten(items[0], tail);
      LongList(items[1..], sofar + [ItemOf(items[0])], rest);
    } else {
      LongTree(items[0], tail);
      if o.Read? {
        ListKeeps(o.rest, sofar + [o.item]);
        assert (sofar + [o.item])[|sofar|] == o.item && (sofar + ItemsOf(items))[|sofar|] == ItemOf(items[0]);
      }
    }
  }

  lemma {:induction false} LongDict(entries: seq<Entry>, sofar: map<Bytes, Item>, rest: Bytes)
    requires forall i :: 0 <= i < |entries| ==> StorableEntry(entries[i]) && DistinctEntry(entries[i])
    requires forall i, j :: 0 <= i < j < |entries| ==> entries[i].key != entries[j].key
    requires forall i :: 0 <= i < |entries| ==> entries[i].key !in sofar
    requires exists i :: 0 <= i < |entries| && !ShortEntry(entries[i])
    ensures
      var o := ReadDict(DictBytes(entries) + ([END_TAG] + rest), sofar);
      o.Thrown? || o.item != DictItem(MapOf(entries, sofar))
    decreases entries
  {
    hide Short, ShortEntry, Storable, StorableEntry, Distinct, DistinctEntry, ItemOf, TreeBytes, ReadAny, ReadDict;
    var e := entries[0];
    var next := Insert(sofar, e.key, EntryItem(e));
    var tail := DictBytes(entries[1..]) + ([END_TAG] + rest);
    assert DictBytes(entries) + ([END_TAG] + rest) == EntryBytes(e) + tail;
    if ShortEntry(e) {
      ReadEntryWritten(e, sofar, tail);
      LongDict(entries[1..], next, rest);
    } else {
      DistinctKeys(entries, sofar);
      assert entries[0].key in MapOf(entries, sofar);
      LongEntry(e, sofar, tail);
    }
  }

  lemma {:induction false} LongEntry(e: Entry, sofar: map<Bytes, Item>, tail: Bytes)
    requires StorableEntry(e) && DistinctEntry(e) && !ShortEntry(e) && e.key !in sofar
    ensures
      var o := ReadDict(EntryBytes(e) + tail, sofar);
      o.Thrown? || !o.item.DictItem? || (e.key in o.item.entries && o.item.entries[e.key] != ItemOf(e.value))
    decreases e
  {
    hide ReadText, TextBytes, ReadAny, TreeBytes, Short, ItemOf;
    var s := EntryBytes(e) + tail;
    var after := TreeBytes(e.value) + tail;
    assert s == TextBytes(e.key) + after;
    assert s[0] == STRING_TAG;
    if |e.key| > MAX_STRING {
      LongText(e.key, after);
    } else {
      ReadTextWritten(e.key, after);
      LongTree(e.value, tail);
      var o := ReadAny(after);
      if o.Read? { DictKeeps(o.rest, Insert(sofar, e.key, o.item), e.key); }
    }
  }

  /**
   The exact condition: among the trees that a memory can hold and whose dictionaries have no key
   twice, the ones read back are just those with no string or key above the limit.
   */
  lemma ReadBackExactly(t: Tree, rest: Bytes)
    requires Storable(t) && Distinct(t)
    ensures ReadAny(TreeBytes(t) + rest) == Read(ItemOf(t), rest) <==> Short(t)
  {
    hide *;
    if Short(t) { ReadWritten(t, rest); } else { LongTree(t, rest); }
  }

  /** A string tag and the code of -1: the reader throws. */
  lemma NegativeLengthThrows()
    ensures Encoded(-1) == [1] && ReadAny([STRING_TAG, 1]) == Thrown
  {
    hide Decode;
    assert Encoded(-1) == [1] by { LeadOfMinusOne(); }
    DecodeEncoded(-1, []);
    assert [1] + [] == [1];
    var s: Bytes := [STRING_TAG, 1];
    assert s[1..] == [1];
  }

  lemma LeadOfMinusOne()
    ensures Length(-1) == 1 && Lead(-1) == 1
  {
  }

  // ---- The writer ----

  class BmfWriter {
    const output: OutputStream

    constructor (output: OutputStream)
      ensures this.output == output
    {
      this.output := output;
    }

    method WriteInteger(v: int64)
      modifies output
      ensures output.data == old(output.data) + ([INTEGER_TAG] + Encoded(v))
    {
      output.WriteByte(INTEGER_TAG);
      Encode(v, output);
    }

    method StartBytes(size: nat)
      modifies output
      ensures output.data == old(output.data) + ([STRING_TAG] + Encoded(Wrap64(size)))
    {
      output.WriteByte(STRING_TAG);
      Encode(Wrap64(size), output);
    }

    method WriteString(s: Bytes)
      modifies output
      ensures output.data == old(output.data) + TextBytes(s)
    {
      StartBytes(|s|);
      output.WriteBytes(s);
    }

    method WriteKey(s: Bytes)
      modifies output
      ensures output.data == old(output.data) + TextBytes(s)
    {
      WriteString(s);
    }

    method StartList()
      modifies output
      ensures output.data == old(output.data) + [LIST_TAG]
    {
      output.WriteByte(LIST_TAG);
    }

    method EndList()
      modifies output
      ensures output.data == old(output.data) + [END_TAG]
    {
      output.WriteByte(END_TAG);
    }

    method StartDict()
      modifies output
      ensures output.data == old(output.data) + [DICT_TAG]
    {
      output.WriteByte(DICT_TAG);
    }

    method EndDict()
      modifies output
      ensures output.data == old(output.data) + [END_TAG]
    {
      output.WriteByte(END_TAG);
    }
  }

  lemma Tagged(was: Bytes, tag: byte, body: Bytes)
    ensures was + [tag] + body + [END_TAG] == was + ([tag] + body + [END_TAG])
  {
  }

  /** A caller that writes a whole tree. */
  method WriteTree(writer: BmfWriter, t: Tree)
    modifies writer.output
    ensures writer.output.data == old(writer.output.data) + TreeBytes(t)
    decreases t
  {
    hide Encoded, TextBytes, ListBytes, DictBytes;
    ghost var was := writer.output.data;
    match t
    case Integer(v) =>
      writer.WriteInteger(v);
    case Text(s) =>
      writer.WriteString(s);
    case List(items) =>
      writer.StartList();
      WriteItems(writer, items);
      writer.EndList();
      Tagged(was, LIST_TAG, ListBytes(items));
    case Dict(entries) =>
      writer.StartDict();
      WriteEntries(writer, entries);
      writer.EndDict();
      Tagged(was, DICT_TAG, DictBytes(entries));
  }

  lemma ListBytesAt(items: seq<Tree>, i: nat)
    requires i <= |items|
    ensures ListBytes(items[i..]) == if i == |items| then [] else TreeBytes(items[i]) + ListBytes(items[i + 1..])
  {
    assert i < |items| ==> items[i..][1..] == items[i + 1..];
  }

  lemma DictBytesAt(entries: seq<Entry>, i: nat)
    requires i <= |entries|
    ensures DictBytes(entries[i..])
            == if i == |entries| then [] else EntryBytes(entries[i]) + DictBytes(entries[i + 1..])
  {
    assert i < |entries| ==> entries[i..][1..] == entries[i + 1..];
  }

  method WriteItems(writer: BmfWriter, items: seq<Tree>)
    modifies writer.output
    ensures writer.output.data == old(writer.output.data) + ListBytes(items)
    decreases items
  {
    hide TreeBytes, ListBytes;
    for i := 0 to |items|
      invariant writer.output.data + ListBytes(items[i..]) == old(writer.output.data) + ListBytes(items)
    {
      ListBytesAt(items, i);
      WriteTree(writer, items[i]);
    }
    ListBytesAt(items, |items|);
  }

  method WriteEntries(writer: BmfWriter, entries: seq<Entry>)
    modifies writer.output
    ensures writer.output.data == old(writer.output.data) + DictBytes(entries)
    decreases entries
  {
    hide EntryBytes, DictBytes;
    for i := 0 to |entries|
      invariant writer.output.data + DictBytes(entries[i..]) == old(writer.output.data) + DictBytes(entries)
    {
      DictBytesAt(entries, i);
      WriteEntry(writer, entries[i]);
    }
    DictBytesAt(entries, |entries|);
  }

  method WriteEntry(writer: BmfWriter, e: Entry)
    modifies writer.output
    ensures writer.output.data == old(writer.output.data) + EntryBytes(e)
    decreases e
  {
    hide TextBytes;
    writer.WriteKey(e.key);
    WriteTree(writer, e.value);
  }

  // ---- The reader ----

  class BmfReader {
    const input: InputStream

    constructor (input: InputStream)
      ensures this.input == input
    {
      this.input := input;
    }

    /** What a reading method reports agrees with the outcome that the bytes have. */
    ghost predicate Reports(o: Outcome, thrown: bool, item: Item)
      reads input
      requires input.Valid()
    {
      (thrown <==> o.Thrown?) && (!thrown ==> o == Read(item, input.Rest()))
    }

    method ReadNext() returns (thrown: bool, item: Item)
      requires input.Valid()
      modifies input
      ensures input.Valid() && Reports(ReadAny(old(input.Rest())), thrown, item)
      decreases |input.Rest()|, 0
    {
      var available := input.IsAvailable(1);
      if !available {
        return false, Empty;
      }
      var tag := input.ReadByte();
      thrown, item := ReadTagged(tag);
    }

    method ReadTagged(tag: byte) returns (thrown: bool, item: Item)
      requires input.Valid()
      modifies input
      ensures input.Valid() && Reports(ReadItem(tag, old(input.Rest())), thrown, item)
      decreases |input.Rest()|, 1
    {
      hide Decode;
      thrown, item := false, Empty;
      if tag == INTEGER_TAG {
        var ok, value := DecodeFrom(input);
        if ok {
          item := IntegerItem(value);
        }
      } else if tag == STRING_TAG {
        var ok, s;
        thrown, ok, s := TryReadString();
        if ok {
          item := TextItem(s);
        }
      } else if tag == LIST_TAG {
        thrown, item := ReadItems();
      } else if tag == DICT_TAG {
        thrown, item := ReadEntries();
      }
    }

    /** Reads the length and the bytes of a string. A negative length makes the resizing of the string
        throw. */
    method TryReadString() returns (thrown: bool, ok: bool, s: Bytes)
      requires input.Valid()
      modifies input
      ensures input.Valid()
      ensures
        match ReadText(old(input.Rest()))
        case TextRead(text, rest) => !thrown && ok && s == text && input.Rest() == rest
        case TextFailed(rest) => !thrown && !ok && input.Rest() == rest
        case TextThrown => thrown && !ok
    {
      hide Decode;
      var decoded, value := DecodeFrom(input);
      if !decoded {
        return false, false, [];
      }
      if value as int > 128 * 1024 {
        return false, false, [];
      }
      if value < 0 {
        return true, false, [];
      }
      ok, s := input.ReadN(value);
      thrown := false;
    }

    method ReadItems() returns (thrown: bool, item: Item)
      requires input.Valid()
      modifies input
      ensures input.Valid() && Reports(ReadList(old(input.Rest()), []), thrown, item)
      decreases |input.Rest()|, 0
    {
      var items: seq<Item> := [];
      while true
        invariant input.Valid() && |input.Rest()| <= |old(input.Rest())|
        invariant ReadList(input.Rest(), items) == ReadList(old(input.Rest()), [])
        decreases |input.Rest()|
      {
        var available := input.IsAvailable(1);
        if !available {
          return false, Empty;
        }
        var tag := input.ReadByte();
        if tag == END_TAG as int {
          break;
        }
        thrown, item := ReadTagged(tag);
        if thrown {
          return;
        }
        items := items + [item];
      }
      return false, ListItem(items);
    }

    method ReadEntries() returns (thrown: bool, item: Item)
      requires input.Valid()
      modifies input
      ensures input.Valid() && Reports(ReadDict(old(input.Rest()), map[]), thrown, item)
      decreases |input.Rest()|, 0
    {
      hide ReadText;
      var items: map<Bytes, Item> := map[];
      while true
        invariant input.Valid() && |input.Rest()| <= |old(input.Rest())|
        invariant ReadDict(input.Rest(), items) == ReadDict(old(input.Rest()), map[])
        decreases |input.Rest()|
      {
        var available := input.IsAvailable(1);
        if !available {
          return false, Empty;
        }
        var tag := input.ReadByte();
        if tag == END_TAG as int {
          break;
        }
        if tag != STRING_TAG as int {
          return false, Empty;
        }
        var ok, key;
        thrown, ok, key := TryReadString();
        if thrown {
          return true, Empty;
        }
        if !ok {
          return false, Empty;
        }
        thrown, item := ReadNext();
        if thrown {
          return;
        }
        items := if key in items then items else items[key := item];
      }
      return false, DictItem(items);
    }
  }

  /** Writes a tree, puts other bytes behind it, and reads. */
  method WriteThenRead(t: Tree, trailing: Bytes) returns (item: Item, remaining: Bytes)
    ensures Short(t) ==> item == ItemOf(t) && remaining == trailing
  {
    hide TreeBytes, ReadAny, ItemOf, Short;
    var output := new OutputStream();
    var writer := new BmfWriter(output);
    WriteTree(writer, t);
    output.WriteBytes(trailing);
    assert output.data == TreeBytes(t) + trailing;
    var input := new InputStream(output.data);
    var reader := new BmfReader(input);
    if Short(t) {
      ReadWritten(t, trailing);
    }
    var thrown;
    thrown, item := reader.ReadNext();
    remaining := input.buffer[input.position..];
  }
}
