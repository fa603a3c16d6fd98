/** Printed text is one of the texts that stand for a value, so that decoding it gives the value back. */
module JsonPrinted {
  import opened Common
  import opened Json
  import opened JsonTexts

  /** How a byte is printed: by a short escape if there is one, a control character by its unit, and any other byte as
      itself. */
  function CharOf(c: Byte): Char {
    if c in {8, 9, 10, 12, 13, 34, 47, 92} then Short(ShortFor(c))
    else if c < 32 || c == 127 then Unit([48, 48, LowHex(c / 16), LowHex(c % 16)], c)
    else Plain(c)
  }

  function ShortFor(c: Byte): Byte {
    if c == 8 then Ascii("b")[0]
    else if c == 9 then Ascii("t")[0]
    else if c == 10 then Ascii("n")[0]
    else if c == 12 then Ascii("f")[0]
    else if c == 13 then Ascii("r")[0]
    else c
  }

  function CharsOf(s: Text): seq<Char> {
    if s == [] then [] else [CharOf(s[0])] + CharsOf(s[1..])
  }

  function DocOf(codec: Codec, v: Value): Doc
    decreases v, 0
  {
    match v
    case Null => DNull
    case Bool(b) => DBool(b)
    case Num(n) => DNum(codec.show(n), n)
    case Str(s) => DStr(CharsOf(s))
    case Arr(items) => DArr([], ItemsOf(codec, items))
    case Obj(fields) => DObj([], EntriesOf(codec, fields))
  }

  function ItemsOf(codec: Codec, items: seq<Value>): (r: seq<Item>)
    ensures |r| == |items|
    decreases items, 1
  {
    if items == [] then [] else [Item([], DocOf(codec, items[0]), [])] + ItemsOf(codec, items[1..])
  }

  function EntriesOf(codec: Codec, fields: seq<Field>): (r: seq<Entry>)
    ensures |r| == |fields|
    decreases fields, 1
  {
    if fields == [] then []
    else
      [Entry([], CharsOf(fields[0].key), [], Item([], DocOf(codec, fields[0].value), []))]
      + EntriesOf(codec, fields[1..])
  }

  lemma PrintedUnit(c: Byte)
    requires c < 32 || c == 127
    ensures var d := Unit([48, 48, LowHex(c / 16), LowHex(c % 16)], c);
      CharOk(d) && Spelling(d) == [92, 117, 48, 48, LowHex(c / 16), LowHex(c % 16)] && CharMeans(d) == [c]
  {
    hide HexWorth, LowHex, HexDigit;
    Marks();
    LowHexDigit(c / 16);
    LowHexDigit(c % 16);
    ZeroDigit();
    Worth(LowHex(c / 16), c / 16);
    Worth(LowHex(c % 16), c % 16);
    assert c / 256 == 0 && c / 4096 == 0 && c / 16 % 16 == c / 16;
  }

  lemma ZeroDigit()
    ensures HexWorth(48, 0)
  {
  }

  lemma PrintedShort(c: Byte)
    requires c in {8, 9, 10, 12, 13, 34, 47, 92}
    ensures CharOk(CharOf(c)) && Spelling(CharOf(c)) == PrintByte(c) && CharMeans(CharOf(c)) == [c]
  {
    Marks();
    assert Ascii("\"\\/bfnrt") == [34, 92, 47, 98, 102, 110, 114, 116];
  }

  lemma PrintedChar(c: Byte)
    ensures CharOk(CharOf(c)) && Spelling(CharOf(c)) == PrintByte(c) && CharMeans(CharOf(c)) == [c]
    ensures CharOf(c).Plain? <==> 32 <= c && c != 127 && c !in Ascii("\"\\/")
  {
    hide HexWorth, LowHex, ShortMeans, ShortFor;
    assert Ascii("\"\\/") == [34, 92, 47];
    if c in {8, 9, 10, 12, 13, 34, 47, 92} {
      PrintedShort(c);
    } else if c < 32 || c == 127 {
      PrintedUnit(c);
    } else {
      Marks();
    }
  }

  lemma {:induction false} PrintedChars(s: Text)
    ensures CharsOk(CharsOf(s)) && Quoted(CharsOf(s)) == PrintString(s)
    ensures Spellings(CharsOf(s)) == PrintBytes(s) && CharsMean(CharsOf(s)) == s
    decreases |s|
  {
    hide CharOk, Spelling, CharMeans, PrintByte, CharOf;
    Marks();
    if s != [] {
      PrintedChar(s[0]);
      PrintedChars(s[1..]);
      assert CharsOf(s)[1..] == CharsOf(s[1..]);
      assert [s[0]] + s[1..] == s;
    }
  }

  /** Scanning the escaped bytes of any string gives the string back. */
  lemma ScanBytes(a: Text, s: Text, b: Text, done: Text)
    ensures var text := a + PrintBytes(s) + ([34] + b);
      ScanString(text, |a|, done) == (TString(done + s), |a| + |PrintBytes(s)| + 1)
  {
    hide ScanString, PrintBytes, CharsOk, Spellings, CharsMean;
    Marks();
    PrintedChars(s);
    var text := a + PrintBytes(s) + ([34] + b);
    assert text == a + (PrintBytes(s) + [34]) + b;
    assert Lies(text, |a|, PrintBytes(s) + [34]);
    ScanChars(text, |a|, CharsOf(s), done);
  }

  lemma NumberReads(codec: Codec, n: int, a: Text, b: Text)
    requires Faithful(codec) && Delimited(b)
    ensures ReadsBack(codec, n, a, b)
  {
  }

  /** Printed text is a document without white space, and means what was printed. */
  lemma {:induction false} PrintedDoc(codec: Codec, v: Value)
    requires Faithful(codec) && Storable(v)
    ensures var d := DocOf(codec, v);
      DocOk(d) && Written(d) == Print(codec, v) && Means(d) == v && Nest(d) == Depth(v)
    decreases v, 0
  {
    match v
    case Arr(items) => PrintedArr(codec, items);
    case Obj(fields) => PrintedObj(codec, fields);
    case _ => PrintedLeaf(codec, v);
  }

  lemma PrintedLeaf(codec: Codec, v: Value)
    requires Faithful(codec) && !v.Arr? && !v.Obj?
    ensures var d := DocOf(codec, v);
      DocOk(d) && Written(d) == Print(codec, v) && Means(d) == v && Nest(d) == Depth(v)
  {
    hide Faithful, CharsOk, CharsOf, CharsMean, Quoted, PrintString;
    Marks();
    if v.Num? { NumberReads(codec, v.n, [], []); }
    if v.Str? { PrintedChars(v.s); }
  }

  lemma {:induction false} PrintedArr(codec: Codec, items: seq<Value>)
    requires Faithful(codec) && items != [] && AllStorable(items)
    ensures var v := Arr(items);
      var d := DocOf(codec, v);
      DocOk(d) && Written(d) == Print(codec, v) && Means(d) == v && Nest(d) == Depth(v)
    decreases items, 2
  {
    hide Faithful, ItemsOf, ItemsWritten, PrintItems, ItemOk, ItemsMean, ItemsNest, ItemsDepth;
    Marks();
    PrintedItems(codec, items);
  }

  lemma {:induction false} PrintedObj(codec: Codec, fields: seq<Field>)
    requires Faithful(codec) && Distinct(fields) && FieldsStorable(fields)
    ensures var v := Obj(fields);
      var d := DocOf(codec, v);
      DocOk(d) && Written(d) == Print(codec, v) && Means(d) == v && Nest(d) == Depth(v)
    decreases fields, 2
  {
    hide Faithful, EntriesOf, EntriesWritten, PrintFields, EntryOk, EntriesMean, EntriesNest, FieldsDepth;
    Marks();
    assert [] + fields == fields;
    PrintedEntries(codec, [], fields);
  }

  lemma {:induction false} PrintedItems(codec: Codec, items: seq<Value>)
    requires Faithful(codec) && AllStorable(items)
    ensures var list := ItemsOf(codec, items);
      && (forall k :: 0 <= k < |list| ==> ItemOk(list[k]))
      && (items != [] ==> ItemsWritten(list) == PrintItems(codec, items))
      && ItemsMean(list) == items && ItemsNest(list) == ItemsDepth(items)
    decreases items, 1
  {
    hide Faithful, Print, Written, Means, Nest, Depth, Storable, DocOk, DocOf;
    if items != [] {
      Marks();
      PrintedDoc(codec, items[0]);
      PrintedItems(codec, items[1..]);
      var list := ItemsOf(codec, items);
      assert list[1..] == ItemsOf(codec, items[1..]);
      assert [] + Print(codec, items[0]) + [] == Print(codec, items[0]);
    }
  }

  lemma {:induction false} PrintedEntries(codec: Codec, done: seq<Field>, fields: seq<Field>)
    requires Faithful(codec) && FieldsStorable(fields) && Distinct(done + fields)
    ensures var es := EntriesOf(codec, fields);
      && (forall k :: 0 <= k < |es| ==> EntryOk(es[k]))
      && (fields != [] ==> EntriesWritten(es) == PrintFields(codec, fields))
      && EntriesMean(done, es) == done + fields && EntriesNest(es) == FieldsDepth(fields)
    decreases fields, 1
  {
    hide Faithful, Print, Written, Means, Nest, Depth, Storable, DocOk, DocOf, CharsOk, CharsMean, Quoted, PrintString,
         Set;
    if fields != [] {
      Marks();
      var f := fields[0];
      PrintedDoc(codec, f.value);
      PrintedChars(f.key);
      forall i | 0 <= i < |done| ensures done[i].key != f.key {
        assert (done + fields)[i] == done[i] && (done + fields)[|done|] == f;
      }
      SetNew(done, f.key, f.value);
      assert done + [f] + fields[1..] == done + fields;
      PrintedEntries(codec, done + [f], fields[1..]);
      var es := EntriesOf(codec, fields);
      assert es[1..] == EntriesOf(codec, fields[1..]);
      EntryPrinted(es[0], PrintString(f.key), Print(codec, f.value));
    }
  }

  lemma EntryPrinted(e: Entry, key: Text, m: Text)
    requires e.before == [] && e.colon == [] && e.item.before == [] && e.item.after == []
    requires Quoted(e.key) == key && Written(e.item.doc) == m
    ensures EntryWritten(e) == key + [58] + m
  {
    hide Quoted, Written;
    Marks();
  }

  /** A delimiter or nothing stands there. */
  predicate Ends(text: Text, p: nat) {
    p == |text| || (p < |text| && text[p] in {44, 93, 125})
  }

  lemma PrintedNumber(codec: Codec, n: int, text: Text, p: nat)
    requires Faithful(codec) && Lies(text, p, codec.show(n)) && Ends(text, p + |codec.show(n)|)
    ensures NumberFront(text, p) && codec.read(text, p) == Some((n, p + |codec.show(n)|))
  {
    hide Faithful, NumberFront, StartsLike;
    var m := codec.show(n);
    var a, b := text[..p], text[p + |m|..];
    assert text == a + m + b;
    assert Delimited(b);
    NumberReads(codec, n, a, b);
    NumberFronts(text, p);
    assert text[p] == m[0];
  }

  lemma NoneRead(codec: Codec, text: Text, p: nat)
    ensures EntriesOf(codec, []) == [] && EntriesRead(codec, [], text, p)
  {
  }

  /** And all its numbers are read as they were written. */
  lemma {:induction false} PrintedNumbers(codec: Codec, v: Value, text: Text, p: nat)
    requires Faithful(codec) && Storable(v) && Lies(text, p, Print(codec, v)) && Ends(text, p + |Print(codec, v)|)
    ensures NumbersRead(codec, DocOf(codec, v), text, p)
    decreases v, 0
  {
    hide Faithful, Lies, PrintItems, PrintFields, ItemsOf, EntriesOf, ItemsRead, EntriesRead, PrintString, NumberFront;
    match v
    case Num(n) => PrintedNumber(codec, n, text, p);
    case Arr(items) =>
      assert Print(codec, v) == [91] + (PrintItems(codec, items) + [93]);
      LiesParts(text, p, [91], PrintItems(codec, items) + [93]);
      LiesParts(text, p + 1, PrintItems(codec, items), [93]);
      OneByte(text, p + 1 + |PrintItems(codec, items)|, 93);
      PrintedItemNumbers(codec, items, text, p + 1);
    case Obj(fields) =>
      if fields != [] {
        assert Print(codec, v) == [123] + (PrintFields(codec, fields) + [125]);
        LiesParts(text, p, [123], PrintFields(codec, fields) + [125]);
        LiesParts(text, p + 1, PrintFields(codec, fields), [125]);
        OneByte(text, p + 1 + |PrintFields(codec, fields)|, 125);
        PrintedEntryNumbers(codec, fields, text, p + 1);
      } else {
        NoneRead(codec, text, p + 1);
      }
    case _ =>
  }

  lemma {:induction false} PrintedItemNumbers(codec: Codec, items: seq<Value>, text: Text, p: nat)
    requires Faithful(codec) && items != [] && AllStorable(items)
    requires Lies(text, p, PrintItems(codec, items)) && Ends(text, p + |PrintItems(codec, items)|)
    ensures ItemsRead(codec, ItemsOf(codec, items), text, p)
    decreases items, 1
  {
    hide Faithful, Lies, Print, Storable, NumbersRead, DocOf, Written;
    var m := Print(codec, items[0]);
    var list := ItemsOf(codec, items);
    assert list[1..] == ItemsOf(codec, items[1..]);
    PrintedDoc(codec, items[0]);
    assert ItemWritten(list[0]) == m;
    if |items| > 1 {
      var rest := PrintItems(codec, items[1..]);
      assert PrintItems(codec, items) == m + ([44] + rest);
      LiesParts(text, p, m, [44] + rest);
      LiesParts(text, p + |m|, [44], rest);
      OneByte(text, p + |m|, 44);
      PrintedItemNumbers(codec, items[1..], text, p + |m| + 1);
    } else {
      assert PrintItems(codec, items) == m + [] == m;
      assert ItemsRead(codec, list[1..], text, p + |m| + 1);
    }
    PrintedNumbers(codec, items[0], text, p);
  }

  lemma FieldParts(codec: Codec, fields: seq<Field>, text: Text, p: nat)
    requires fields != [] && Lies(text, p, PrintFields(codec, fields))
    ensures var m := Print(codec, fields[0].value);
      var v := p + |PrintString(fields[0].key)| + 1;
      && Lies(text, v, m)
      && if |fields| == 1 then p + |PrintFields(codec, fields)| == v + |m|
         else
           var rest := PrintFields(codec, fields[1..]);
           && Lies(text, v + |m|, [44]) && Lies(text, v + |m| + 1, rest)
           && p + |PrintFields(codec, fields)| == v + |m| + 1 + |rest|
  {
    hide Lies, Print, PrintString;
    var key, m := PrintString(fields[0].key) + [58], Print(codec, fields[0].value);
    if |fields| > 1 {
      var rest := PrintFields(codec, fields[1..]);
      assert PrintFields(codec, fields) == key + (m + ([44] + rest));
      LiesParts(text, p, key, m + ([44] + rest));
      LiesParts(text, p + |key|, m, [44] + rest);
      LiesParts(text, p + |key| + |m|, [44], rest);
    } else {
      assert PrintFields(codec, fields) == key + m;
      LiesParts(text, p, key, m);
    }
  }

  lemma {:induction false} PrintedEntryNumbers(codec: Codec, fields: seq<Field>, text: Text, p: nat)
    requires Faithful(codec) && fields != [] && FieldsStorable(fields)
    requires Lies(text, p, PrintFields(codec, fields)) && Ends(text, p + |PrintFields(codec, fields)|)
    ensures EntriesRead(codec, EntriesOf(codec, fields), text, p)
    decreases fields, 1
  {
    hide Faithful, Lies, Print, Storable, NumbersRead, DocOf, Written, PrintString, Quoted, PrintFields;
    var f := fields[0];
    var key, m := PrintString(f.key), Print(codec, f.value);
    var list := EntriesOf(codec, fields);
    assert list[1..] == EntriesOf(codec, fields[1..]);
    PrintedDoc(codec, f.value);
    PrintedChars(f.key);
    EntryPrinted(list[0], key, m);
    var v := p + |key| + 1;
    assert ItemWritten(list[0].item) == m;
    FieldParts(codec, fields, text, p);
    if |fields| > 1 {
      OneByte(text, v + |m|, 44);
      PrintedEntryNumbers(codec, fields[1..], text, v + |m| + 1);
    } else {
      assert EntriesRead(codec, list[1..], text, v + |m| + 1);
    }
    PrintedNumbers(codec, f.value, text, v);
  }

  /** A printed value stands as a document wherever a delimiter or nothing follows. */
  lemma PrintedStands(cfg: Config, a: Text, v: Value, b: Text)
    requires Faithful(cfg.codec) && Delimited(b) && Storable(v)
    ensures var d := DocOf(cfg.codec, v);
      && Stands(cfg, d, a + Print(cfg.codec, v) + b, |a|)
      && Written(d) == Print(cfg.codec, v) && Means(d) == v && Nest(d) == Depth(v)
  {
    hide Faithful, NumbersRead, Print, Storable, DocOf, Written, Means, Nest, Depth;
    var m := Print(cfg.codec, v);
    var text := a + m + b;
    assert Lies(text, |a|, m);
    assert Ends(text, |a| + |m|);
    PrintedDoc(cfg.codec, v);
    PrintedNumbers(cfg.codec, v, text, |a|);
  }

  /** Parsing a printed value inside of any text gives the value, or an error if it is nested too deep, and stops right
      behind it. */
  lemma ParsePrinted(cfg: Config, a: Text, v: Value, b: Text, depth: nat)
    requires Faithful(cfg.codec) && Delimited(b) && Storable(v)
    ensures var m := Print(cfg.codec, v);
      var text := a + m + b;
      var (t, p) := NextToken(cfg, text, |a|);
      ParseValue(cfg, text, t, p, depth) == Within(cfg, depth, Depth(v), v, |a| + |m|)
  {
    hide Faithful, Print, Storable, Stands, Nest, Depth, ParseValue, NextToken, DocOf, Written, Means, Within,
         Delimited;
    PrintedStands(cfg, a, v, b);
    ParseDoc(cfg, DocOf(cfg.codec, v), a + Print(cfg.codec, v) + b, |a|, depth);
  }

  /** Decoding the printed text of a value gives the value back, if and only if it is not nested too deep. */
  lemma RoundTrip(cfg: Config, v: Value)
    requires Faithful(cfg.codec) && Storable(v)
    ensures Decode(cfg, Print(cfg.codec, v)) == if Depth(v) > 0 && Depth(v) > cfg.maxDepth then None else Some(v)
  {
    hide Faithful, Print, Storable, Stands, Nest, Depth, DocOf;
    var m, d := Print(cfg.codec, v), DocOf(cfg.codec, v);
    assert [] + m + [] == m;
    PrintedStands(cfg, [], v, []);
    NotWide(cfg.codec, v);
    if |m| >= 2 { assert m[..2] == [m[0], m[1]]; }
    assert Reading(cfg, m, [], d, []);
    ReadingRead(cfg, m, [], d, []);
  }
}
