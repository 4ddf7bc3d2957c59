/**
 The BMF bytes as literal numbers: what each kind of tree is written as, what is read from it, and what
 becomes of bytes that no writer produces.
 */
module BmfFormat {
  import opened Arithmetic
  import opened Bits
  import opened Bmf
  import opened BmfInteger
  import opened ByteOrder
  import opened Wrappers

  // ---- The written forms and the items they give ----

  lemma IntegerForm(v: int64, rest: Bytes)
    ensures TreeBytes(Integer(v)) == [1] + Encoded(v)
    ensures ReadAny([1] + Encoded(v) + rest) == Read(IntegerItem(v), rest)
  {
    hide Encoded, Decode;
    assert ([1] + Encoded(v) + rest)[1..] == Encoded(v) + rest;
    DecodeEncoded(v, rest);
    DropPrefix(Encoded(v), rest);
  }

  lemma TextForm(s: Bytes, rest: Bytes)
    requires |s| <= 131072
    ensures TreeBytes(Text(s)) == [7] + Encoded(|s|) + s
    ensures ReadAny([7] + Encoded(|s|) + s + rest) == Read(TextItem(s), rest)
  {
    hide Encoded, ReadAny;
    Wrap64Same(|s|);
    ReadWritten(Text(s), rest);
  }

  lemma ListForm(items: seq<Tree>, rest: Bytes)
    requires Short(List(items))
    ensures TreeBytes(List(items)) == [10] + ListBytes(items) + [17]
    ensures ReadAny([10] + ListBytes(items) + [17] + rest).Read?
    ensures
      var o := ReadAny([10] + ListBytes(items) + [17] + rest);
      && o.rest == rest && o.item.ListItem? && |o.item.items| == |items|
      && forall i :: 0 <= i < |items| ==> o.item.items[i] == ItemOf(items[i])
  {
    hide ListBytes, ReadAny;
    ReadWritten(List(items), rest);
    forall i | 0 <= i < |items| ensures ItemsOf(items)[i] == ItemOf(items[i]) {
      ItemsAt(items, i);
    }
  }

  lemma {:induction false} ItemsAt(items: seq<Tree>, i: nat)
    requires i < |items|
    ensures ItemsOf(items)[i] == ItemOf(items[i])
  {
    hide ItemOf;
    if i > 0 { ItemsAt(items[1..], i - 1); }
  }

  lemma {:induction false} ListBytesAppend(a: seq<Tree>, b: seq<Tree>)
    ensures ListBytes([]) == [] && ListBytes(a + b) == ListBytes(a) + ListBytes(b)
    decreases |a|
  {
    hide TreeBytes;
    if |a| == 0 {
      assert a + b == b;
    } else {
      assert (a + b)[1..] == a[1..] + b;
      ListBytesAppend(a[1..], b);
    }
  }

  lemma ListBytesOne(t: Tree)
    ensures ListBytes([t]) == TreeBytes(t)
  {
    hide TreeBytes;
    assert [t][1..] == [] && ListBytes([]) == [];
  }

  lemma DictForm(entries: seq<Entry>, rest: Bytes)
    requires Short(Dict(entries))
    ensures TreeBytes(Dict(entries)) == [13] + DictBytes(entries) + [17]
    ensures
      var o := ReadAny([13] + DictBytes(entries) + [17] + rest);
      && o.Read? && o.rest == rest && o.item.DictItem?
      && (forall key :: key in o.item.entries <==> exists i :: FirstAt(entries, key, i))
      && forall key, i :: FirstAt(entries, key, i) ==>
        key in o.item.entries && o.item.entries[key] == ItemOf(entries[i].value)
  {
    hide DictBytes, ReadAny, MapOf;
    ReadWritten(Dict(entries), rest);
    forall key ensures key in MapOf(entries, map[]) <==> exists i :: FirstAt(entries, key, i) {
      FirstKeyWins(entries, map[], key);
    }
    forall key, i | FirstAt(entries, key, i)
      ensures key in MapOf(entries, map[]) && MapOf(entries, map[])[key] == ItemOf(entries[i].value)
    {
      FirstKeyWins(entries, map[], key);
    }
  }

  lemma {:induction false} DictBytesAppend(a: seq<Entry>, b: seq<Entry>)
    ensures DictBytes([]) == [] && DictBytes(a + b) == DictBytes(a) + DictBytes(b)
    decreases |a|
  {
    hide EntryBytes;
    if |a| == 0 {
      assert a + b == b;
    } else {
      assert (a + b)[1..] == a[1..] + b;
      DictBytesAppend(a[1..], b);
    }
  }

  lemma DictBytesOne(key: Bytes, value: Tree)
    requires |key| <= 131072
    ensures DictBytes([Entry(key, value)]) == [7] + Encoded(|key|) + key + TreeBytes(value)
  {
    hide TreeBytes, Encoded;
    var e := Entry(key, value);
    Wrap64Same(|key|);
    assert [e][1..] == [] && DictBytes([]) == [];
  }

  // ---- Bytes that end too soon, and other tags ----

  /** An input that ends before the end tag gives nothing, whatever was read of it. */
  lemma {:induction false} CutList(items: seq<Tree>, sofar: seq<Item>)
    requires forall i :: 0 <= i < |items| ==> Short(items[i])
    ensures ReadList(ListBytes(items), sofar) == Read(Empty, [])
    decreases |items|
  {
    if |items| > 0 {
      hide Short, ItemOf, TreeBytes, ListBytes, ReadItem, ReadList, ReadAny;
      var tail := ListBytes(items[1..]);
      ListBytesAppend([items[0]], items[1..]);
      ListBytesOne(items[0]);
      assert [items[0]] + items[1..] == items;
      ReadWritten(items[0], tail);
      ListOfTree(items[0], tail, sofar);
      CutList(items[1..], sofar + [ItemOf(items[0])]);
    } else {
      assert items == [];
    }
  }

  lemma {:induction false} CutDict(entries: seq<Entry>, sofar: map<Bytes, Item>)
    requires forall i :: 0 <= i < |entries| ==> ShortEntry(entries[i])
    ensures ReadDict(DictBytes(entries), sofar) == Read(Empty, [])
    decreases |entries|
  {
    if |entries| > 0 {
      hide ShortEntry, EntryBytes, DictBytes, ReadDict, ReadAny, ItemOf;
      var e, tail := entries[0], DictBytes(entries[1..]);
      FirstEntry(entries);
      ReadEntryWritten(e, sofar, tail);
      CutDict(entries[1..], Insert(sofar, e.key, EntryItem(e)));
    } else {
      assert entries == [];
    }
  }

  lemma FirstEntry(entries: seq<Entry>)
    requires |entries| > 0
    ensures DictBytes(entries) == EntryBytes(entries[0]) + DictBytes(entries[1..])
  {
    hide EntryBytes;
  }

  lemma CutInput(items: seq<Tree>, entries: seq<Entry>)
    requires Short(List(items)) && Short(Dict(entries))
    ensures ReadAny([]) == Read(Empty, [])
    ensures ReadAny([1]) == ReadAny([7]) == ReadAny([10]) == ReadAny([13]) == Read(Empty, [])
    ensures ReadAny([10] + ListBytes(items)) == ReadAny([13] + DictBytes(entries)) == Read(Empty, [])
  {
    hide ListBytes, DictBytes;
    CutList(items, []);
    CutDict(entries, map[]);
    assert ([10] + ListBytes(items))[1..] == ListBytes(items);
    assert ([13] + DictBytes(entries))[1..] == DictBytes(entries);
    assert forall tag: byte :: [tag][1..] == [];
  }

  /** A tag of no item, the end tag among them, gives nothing and takes only itself; inside a list it leaves
      an empty place. */
  lemma OtherTag(tag: byte, rest: Bytes, sofar: seq<Item>)
    requires tag != 1 && tag != 7 && tag != 10 && tag != 13
    ensures ReadAny([tag] + rest) == Read(Empty, rest)
    ensures ReadList([tag] + rest, sofar)
            == if tag == 17 then Read(ListItem(sofar), rest) else ReadList(rest, sofar + [Empty])
  {
    assert ([tag] + rest)[1..] == rest;
  }

  /** A dictionary ends at the end tag, and comes to nothing at any other tag that is not that of a key. */
  lemma KeyTag(tag: byte, rest: Bytes, sofar: map<Bytes, Item>)
    requires tag != 7
    ensures ReadDict([tag] + rest, sofar) == Read(if tag == 17 then DictItem(sofar) else Empty, rest)
  {
    assert ([tag] + rest)[1..] == rest;
  }

  /** A string that is too long or cut off gives nothing and takes only its tag and length; a negative
      length throws. */
  lemma BadLength(n: int64, rest: Bytes)
    requires n < 0 || n > 131072 || |rest| < n as int
    ensures ReadAny([7] + Encoded(n) + rest) == if n < 0 then Thrown else Read(Empty, rest)
  {
    hide Encoded, ReadText, ReadAny;
    var s := [7] + Encoded(n) + rest;
    assert s[1..] == Encoded(n) + rest;
    StringRead(s);
    LengthRead(n, rest);
  }

  lemma StringRead(s: Bytes)
    requires |s| > 0 && s[0] == 7
    ensures ReadText(s[1..]).TextFailed? ==> ReadAny(s) == Read(Empty, ReadText(s[1..]).rest)
    ensures ReadText(s[1..]).TextThrown? ==> ReadAny(s) == Thrown
  {
    hide ReadText, ReadList, ReadDict, Decode;
  }

  lemma LengthRead(n: int64, rest: Bytes)
    requires n < 0 || n > 131072 || |rest| < n as int
    ensures ReadText(Encoded(n) + rest) == if n < 0 then TextThrown else TextFailed(rest)
  {
    hide Encoded, Decode;
    DecodeEncoded(n, rest);
    DropPrefix(Encoded(n), rest);
  }

  // ---- The integer codes at the boundaries of their classes ----

  lemma Powers()
    ensures Power256(0) == 1 && Power256(1) == 0x100 && Power256(2) == 0x1_0000 && Power256(3) == 0x100_0000
    ensures Power256(4) == 0x1_0000_0000 && Power256(5) == 0x100_0000_0000 && Power256(6) == 0x1_0000_0000_0000
    ensures Power256(7) == 0x100_0000_0000_0000 && Power256(8) == 0x1_0000_0000_0000_0000
  {
    assert Power256(2) == 0x1_0000 && Power256(4) == 0x1_0000_0000;
    assert Power256(6) == 0x1_0000_0000_0000;
  }

  function Repeated(b: byte, n: nat): (s: seq<byte>)
    ensures |s| == n
  {
    seq(n, _ => b)
  }

  lemma {:induction false} Ones(k: nat, n: nat)
    ensures (k + 1) * Power256(n) - 1 >= 0
    ensures BigEndian((k + 1) * Power256(n) - 1, n) == Repeated(255, n)
  {
    hide Power256;
    MulNonNegative(k, Power256(n));
    Distribute(Power256(n), k, 1);
    MulCommutes(Power256(n), k + 1);
    if n > 0 {
      var m := (k + 1) * Power256(n - 1) - 1;
      Ones(k, n - 1);
      Power256Step(n - 1);
      MulAssoc(k + 1, 256, Power256(n - 1));
      MulAssoc(256, k + 1, Power256(n - 1));
      MulCommutes(k + 1, 256);
      DivModUnique((k + 1) * Power256(n) - 1, 256, m, 255);
    }
  }

  lemma {:induction false} ByteAndZeros(b: byte, n: nat)
    ensures b as int * Power256(n) >= 0
    ensures BigEndian(b as int * Power256(n), n + 1) == [b] + Repeated(0, n)
  {
    hide Power256;
    MulNonNegative(b as int, Power256(n));
    if n > 0 {
      ByteAndZeros(b, n - 1);
      Power256Step(n - 1);
      MulAssoc(b as int, 256, Power256(n - 1));
      MulAssoc(256, b as int, Power256(n - 1));
      MulCommutes(b as int, 256);
      DivModUnique(b as int * Power256(n), 256, b as int * Power256(n - 1), 0);
    } else {
      Powers();
      assert BigEndian(b as int, 1) == BigEndian(b as int / 256, 0) + [b as int % 256];
    }
  }

  lemma CodeForm(v: int64, n: nat)
    requires 1 <= n <= 9 && Magnitude(v) < ClassLimit(n) && (n > 1 ==> Magnitude(v) >= ClassLimit(n - 1))
    ensures Length(v) == n
    ensures Lead(v) as int
            == (if v >= 0 then 0x80 else 0) + FLAG_BYTES[n - 1] as int + Magnitude(v) / Power256(n - 1)
    ensures Encoded(v) == [Lead(v)] + BigEndian(Magnitude(v), n - 1)
  {
    hide Power256, Magnitude, Lead, Length, Encoded;
    LimitsGrow(n);
    LengthIs(v, n);
    LeadIs(v);
    EncodedOf(v);
  }

  lemma LimitsGrow(n: nat)
    requires 1 <= n <= 9
    ensures forall k :: 1 <= k < n ==> ClassLimit(k) <= ClassLimit(n - 1)
  {
  }

  /** The first code of each length: 2^6, 2^13, 2^20, 2^27, 2^34, 2^40, 2^48 and 2^56. */
  lemma ClassStarts()
    ensures Encoded(0) == [0x80] && Encoded(64) == [0xC0, 0x40]
    ensures Encoded(0x2000) == [0xE0, 0x20] + Repeated(0, 1)
    ensures Encoded(0x10_0000) == [0xF0, 0x10] + Repeated(0, 2)
    ensures Encoded(0x800_0000) == [0xF8, 0x08] + Repeated(0, 3)
  {
    hide Encoded, Repeated, Power256;
    Powers();
    StartForm(0, 1, 0, 0x80);
    StartForm(64, 2, 0x40, 0xC0);
    StartForm(0x2000, 3, 0x20, 0xE0);
    StartForm(0x10_0000, 4, 0x10, 0xF0);
    StartForm(0x800_0000, 5, 0x08, 0xF8);
    assert Repeated(0, 0) == [];
  }

  lemma LongClassStarts()
    ensures Encoded(0x4_0000_0000) == [0xFC, 0x04] + Repeated(0, 4)
    ensures Encoded(0x100_0000_0000) == [0xFD, 0x01] + Repeated(0, 5)
    ensures Encoded(0x1_0000_0000_0000) == [0xFE, 0x01] + Repeated(0, 6)
    ensures Encoded(0x100_0000_0000_0000) == [0xFF, 0x01] + Repeated(0, 7)
  {
    hide Encoded, Repeated, Power256;
    Powers();
    StartForm(0x4_0000_0000, 6, 0x04, 0xFC);
    StartForm(0x100_0000_0000, 7, 0x01, 0xFD);
    StartForm(0x1_0000_0000_0000, 8, 0x01, 0xFE);
    StartForm(0x100_0000_0000_0000, 9, 0x01, 0xFF);
  }

  lemma StartForm(v: int64, n: nat, b: byte, lead: byte)
    requires 1 <= n <= 9 && 0 <= v as int < ClassLimit(n) && (n > 1 ==> v as int >= ClassLimit(n - 1))
    requires n == 1 ==> v == 0 && b == 0
    requires n > 1 ==> b as int * Power256(n - 2) == v as int
    requires lead as int == 0x80 + FLAG_BYTES[n - 1] as int
    ensures Encoded(v) == if n == 1 then [lead] else [lead, b] + Repeated(0, n - 2)
  {
    hide Encoded, Lead, Length, ClassLimit, Power256, BigEndian;
    Powers();
    CodeForm(v, n);
    if n > 1 {
      ByteAndZeros(b, n - 2);
      StartLead(v as int, n, b);
    } else {
      NoBytes();
    }
  }

  lemma StartLead(m: int, n: nat, b: byte)
    requires 2 <= n <= 9 && m == b as int * Power256(n - 2)
    ensures m / Power256(n - 1) == 0
  {
    hide Power256;
    Power256Step(n - 2);
    MulNonNegative(b as int, Power256(n - 2));
    MulStep(b as int, 256, Power256(n - 2));
    DivModUnique(m, Power256(n - 1), 0, m);
  }

  lemma NoBytes()
    ensures BigEndian(0, 0) == []
  {
  }

  /** The last code of each length, and some of negative numbers. */
  lemma ClassEnds()
    ensures Encoded(63) == [0xBF] && Encoded(-63) == [0x3F] && Encoded(-1) == [0x01]
    ensures Encoded(0x1FFF) == [0xDF] + Repeated(255, 1)
    ensures Encoded(0xF_FFFF) == [0xEF] + Repeated(255, 2)
  {
    hide Encoded, Repeated, Power256;
    Powers();
    EndForm(63, 1, 63, 0xBF);
    EndForm(-63, 1, 63, 0x3F);
    EndForm(-1, 1, 1, 0x01);
    EndForm(0x1FFF, 2, 31, 0xDF);
    EndForm(0xF_FFFF, 3, 15, 0xEF);
    assert Repeated(255, 0) == [];
  }

  lemma MiddleClassEnds()
    ensures Encoded(0x7FF_FFFF) == [0xF7] + Repeated(255, 3)
    ensures Encoded(0x3_FFFF_FFFF) == [0xFB] + Repeated(255, 4)
    ensures Encoded(0xFF_FFFF_FFFF) == [0xFC] + Repeated(255, 5)
  {
    hide Encoded, Repeated, Power256;
    Powers();
    EndForm(0x7FF_FFFF, 4, 7, 0xF7);
    EndForm(0x3_FFFF_FFFF, 5, 3, 0xFB);
    EndForm(0xFF_FFFF_FFFF, 6, 0, 0xFC);
  }

  lemma LongClassEnds()
    ensures Encoded(0xFFFF_FFFF_FFFF) == [0xFD] + Repeated(255, 6)
    ensures Encoded(0xFF_FFFF_FFFF_FFFF) == [0xFE] + Repeated(255, 7)
    ensures Encoded(-0xFF_FFFF_FFFF_FFFF) == [0x7E] + Repeated(255, 7)
  {
    hide Encoded, Repeated, Power256;
    Powers();
    EndForm(0xFFFF_FFFF_FFFF, 7, 0, 0xFD);
    EndForm(0xFF_FFFF_FFFF_FFFF, 8, 0, 0xFE);
    EndForm(-0xFF_FFFF_FFFF_FFFF, 8, 0, 0x7E);
  }

  lemma EndForm(v: int64, n: nat, top: byte, lead: byte)
    requires 1 <= n <= 9 && Magnitude(v) < ClassLimit(n) && (n > 1 ==> Magnitude(v) >= ClassLimit(n - 1))
    requires Magnitude(v) == (top as int + 1) * Power256(n - 1) - 1
    requires lead as int == (if v >= 0 then 0x80 else 0) + FLAG_BYTES[n - 1] as int + top as int
    ensures Encoded(v) == [lead] + Repeated(255, n - 1)
  {
    hide Encoded, Lead, Length, ClassLimit, Power256, BigEndian, Magnitude;
    Powers();
    CodeForm(v, n);
    Ones(top as int, n - 1);
    EndLead(Magnitude(v), top, Power256(n - 1));
  }

  lemma EndLead(m: int, top: byte, p: nat)
    requires p > 0 && m == (top as int + 1) * p - 1
    ensures m / p == top as int
  {
    Distribute(p, top as int, 1);
    MulCommutes(p, top as int);
    MulCommutes(p, top as int + 1);
    DivModUnique(m, p, top as int, p - 1);
  }
}
