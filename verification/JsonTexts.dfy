/** Which texts stand for which value: JSON as section 2 of RFC 4627 has it, with the liberties that lua_cjson.c takes,
    written down without the functions of the parser. The decoder gives a value for these texts and for no others. */
module JsonTexts {
  import opened Common
  import opened Json

  /** The bytes of a string of ASCII characters. */
  function Ascii(s: string): (t: Text)
    ensures |t| == |s|
  {
    seq(|s|, i requires 0 <= i < |s| => s[i] as int % 256)
  }

  // ---------- Characters of strings ----------

  /** A byte that stands for itself, a short escape, one UTF-16 unit in four digits, or a pair of them. */
  datatype Char = Plain(b: Byte) | Short(letter: Byte) | Unit(digits: Text, u: nat) | Pair(high: Char, low: Char)

  /** Digit `c` is worth `n`, in either case. */
  predicate HexWorth(c: Byte, n: nat) {
    if n < 10 then c == Ascii("0")[0] + n
    else n < 16 && (c == Ascii("a")[0] + n - 10 || c == Ascii("A")[0] + n - 10)
  }

  predicate UnitOk(c: Char) {
    && c.Unit? && |c.digits| == 4 && c.u < 0x10000
    && HexWorth(c.digits[0], c.u / 4096) && HexWorth(c.digits[1], c.u / 256 % 16)
    && HexWorth(c.digits[2], c.u / 16 % 16) && HexWorth(c.digits[3], c.u % 16)
  }

  predicate CharOk(c: Char) {
    match c
    case Plain(b) => b != 0 && b != Ascii("\"")[0] && b != Ascii("\\")[0]
    case Short(e) => e in Ascii("\"\\/bfnrt")
    case Unit(_, u) => UnitOk(c) && !(0xD800 <= u < 0xE000)
    case Pair(high, low) => UnitOk(high) && 0xD800 <= high.u < 0xDC00 && UnitOk(low) && 0xDC00 <= low.u < 0xE000
  }

  function Spelling(c: Char): Text {
    match c
    case Plain(b) => [b]
    case Short(e) => Ascii("\\") + [e]
    case Unit(digits, _) => Ascii("\\u") + digits
    case Pair(high, low) => Spelling(high) + Spelling(low)
  }

  /** What a character stands for. The code point of a pair is made of ten bits of each unit. */
  function CharMeans(c: Char): Text {
    if !CharOk(c) then []
    else
      match c
      case Plain(b) => [b]
      case Short(e) => [ShortMeans(e)]
      case Unit(_, u) => Utf8(u)
      case Pair(high, low) => Utf8(0x10000 + (high.u - 0xD800) * 1024 + (low.u - 0xDC00))
  }

  /** The control characters by their names, and the others themselves. */
  function ShortMeans(e: Byte): Byte {
    if e == Ascii("b")[0] then 8
    else if e == Ascii("f")[0] then 12
    else if e == Ascii("n")[0] then 10
    else if e == Ascii("r")[0] then 13
    else if e == Ascii("t")[0] then 9
    else e
  }

  predicate CharsOk(cs: seq<Char>) {
    forall i :: 0 <= i < |cs| ==> CharOk(cs[i])
  }

  function Spellings(cs: seq<Char>): Text {
    if cs == [] then [] else Spelling(cs[0]) + Spellings(cs[1..])
  }

  function CharsMean(cs: seq<Char>): Text {
    if cs == [] then [] else CharMeans(cs[0]) + CharsMean(cs[1..])
  }

  function Quoted(cs: seq<Char>): Text {
    Ascii("\"") + Spellings(cs) + Ascii("\"")
  }

  // ---------- Documents ----------

  predicate White(w: Text) {
    forall i :: 0 <= i < |w| ==> w[i] in Ascii(" \t\n\r")
  }

  /** A value as it is written. White space may stand around every part; `space` is what is inside of empty brackets.
      The number `n` is written as `m`. */
  datatype Doc =
    | DNull
    | DBool(b: bool)
    | DNum(m: Text, n: int)
    | DStr(cs: seq<Char>)
    | DArr(space: Text, items: seq<Item>)
    | DObj(space: Text, entries: seq<Entry>)

  datatype Item = Item(before: Text, doc: Doc, after: Text)

  datatype Entry = Entry(before: Text, key: seq<Char>, colon: Text, item: Item)

  function Written(d: Doc): Text
    decreases d, 0
  {
    match d
    case DNull => Ascii("null")
    case DBool(b) => if b then Ascii("true") else Ascii("false")
    case DNum(m, _) => m
    case DStr(cs) => Quoted(cs)
    case DArr(space, items) => Ascii("[") + (if items == [] then space else ItemsWritten(items)) + Ascii("]")
    case DObj(space, entries) => Ascii("{") + (if entries == [] then space else EntriesWritten(entries)) + Ascii("}")
  }

  function ItemWritten(i: Item): Text
    decreases i, 1
  {
    i.before + Written(i.doc) + i.after
  }

  function ItemsWritten(items: seq<Item>): Text
    requires items != []
    decreases items, 2
  {
    ItemWritten(items[0]) + if |items| == 1 then [] else Ascii(",") + ItemsWritten(items[1..])
  }

  function EntryWritten(e: Entry): Text
    decreases e, 1
  {
    e.before + Quoted(e.key) + e.colon + Ascii(":") + ItemWritten(e.item)
  }

  function EntriesWritten(entries: seq<Entry>): Text
    requires entries != []
    decreases entries, 2
  {
    EntryWritten(entries[0]) + if |entries| == 1 then [] else Ascii(",") + EntriesWritten(entries[1..])
  }

  predicate DocOk(d: Doc)
    decreases d, 0
  {
    match d
    case DNum(m, _) => m != []
    case DStr(cs) => CharsOk(cs)
    case DArr(space, items) => White(space) && forall k :: 0 <= k < |items| ==> ItemOk(items[k])
    case DObj(space, entries) => White(space) && forall k :: 0 <= k < |entries| ==> EntryOk(entries[k])
    case _ => true
  }

  predicate ItemOk(i: Item)
    decreases i, 1
  {
    White(i.before) && DocOk(i.doc) && White(i.after)
  }

  predicate EntryOk(e: Entry)
    decreases e, 2
  {
    White(e.before) && CharsOk(e.key) && White(e.colon) && ItemOk(e.item)
  }

  /** The value that is written. An empty array is an empty table. */
  function Means(d: Doc): Value
    decreases d, 0
  {
    match d
    case DNull => Null
    case DBool(b) => Bool(b)
    case DNum(_, n) => Num(n)
    case DStr(cs) => Str(CharsMean(cs))
    case DArr(_, items) => if items == [] then Obj([]) else Arr(ItemsMean(items))
    case DObj(_, entries) => Obj(EntriesMean([], entries))
  }

  function ItemsMean(items: seq<Item>): seq<Value>
    decreases items, 1
  {
    if items == [] then [] else [Means(items[0].doc)] + ItemsMean(items[1..])
  }

  /** Each field is set in turn (`LastCounts` says what that comes to). */
  function EntriesMean(done: seq<Field>, entries: seq<Entry>): seq<Field>
    decreases entries, 1
  {
    if entries == [] then done
    else EntriesMean(Set(done, CharsMean(entries[0].key), Means(entries[0].item.doc)), entries[1..])
  }

  /** How deep brackets are inside of each other. */
  function Nest(d: Doc): nat
    decreases d, 0
  {
    match d
    case DArr(_, items) => 1 + ItemsNest(items)
    case DObj(_, entries) => 1 + EntriesNest(entries)
    case _ => 0
  }

  function ItemsNest(items: seq<Item>): nat
    decreases items, 1
  {
    if items == [] then 0 else Max(Nest(items[0].doc), ItemsNest(items[1..]))
  }

  function EntriesNest(entries: seq<Entry>): nat
    decreases entries, 1
  {
    if entries == [] then 0 else Max(Nest(entries[0].item.doc), EntriesNest(entries[1..]))
  }

  // ---------- In place ----------

  /** `m` stands in the text from `p` on. */
  predicate Lies(text: Text, p: nat, m: Text) {
    p + |m| <= |text| && text[p..p + |m|] == m
  }

  /** One of the words of a number that is not one, in any case. */
  predicate AnyCase(text: Text, p: nat, lower: Text, upper: Text)
    requires |lower| == |upper|
  {
    p + |lower| <= |text| && forall i :: 0 <= i < |lower| ==> text[p + i] == lower[i] || text[p + i] == upper[i]
  }

  /** Numbers start with a digit or a sign, or are infinite or no number. */
  predicate NumberFront(text: Text, p: nat) {
    p < |text| && (text[p] in Ascii("-+0123456789") || AnyCase(text, p, Ascii("inf"), Ascii("INF"))
                   || AnyCase(text, p, Ascii("nan"), Ascii("NAN")))
  }

  /** All numbers of the document at `p` are read as such, and as far as they are written. */
  predicate NumbersRead(codec: Codec, d: Doc, text: Text, p: nat)
    decreases d, 0
  {
    match d
    case DNum(m, n) => NumberFront(text, p) && codec.read(text, p) == Some((n, p + |m|))
    case DArr(_, items) => ItemsRead(codec, items, text, p + 1)
    case DObj(_, entries) => EntriesRead(codec, entries, text, p + 1)
    case _ => true
  }

  predicate ItemsRead(codec: Codec, items: seq<Item>, text: Text, p: nat)
    decreases items, 1
  {
    items == [] ||
    (&& NumbersRead(codec, items[0].doc, text, p + |items[0].before|)
     && ItemsRead(codec, items[1..], text, p + |ItemWritten(items[0])| + 1))
  }

  predicate EntriesRead(codec: Codec, entries: seq<Entry>, text: Text, p: nat)
    decreases entries, 1
  {
    entries == [] ||
    (&& NumbersRead(codec, entries[0].item.doc, text,
                    p + |EntryWritten(entries[0])| - |ItemWritten(entries[0].item)| + |entries[0].item.before|)
     && EntriesRead(codec, entries[1..], text, p + |EntryWritten(entries[0])| + 1))
  }

  /** The document lies at `p`. */
  predicate Stands(cfg: Config, d: Doc, text: Text, p: nat) {
    DocOk(d) && Lies(text, p, Written(d)) && NumbersRead(cfg.codec, d, text, p)
  }

  predicate ItemsStand(cfg: Config, items: seq<Item>, text: Text, p: nat) {
    && items != [] && (forall k :: 0 <= k < |items| ==> ItemOk(items[k]))
    && Lies(text, p, ItemsWritten(items)) && ItemsRead(cfg.codec, items, text, p)
  }

  predicate EntriesStand(cfg: Config, entries: seq<Entry>, text: Text, p: nat) {
    && entries != [] && (forall k :: 0 <= k < |entries| ==> EntryOk(entries[k]))
    && Lies(text, p, EntriesWritten(entries)) && EntriesRead(cfg.codec, entries, text, p)
  }

  // ---------- Bytes ----------

  lemma Marks()
    ensures Ascii("\"") == [34] && Ascii("\\") == [92] && Ascii("\\u") == [92, 117]
    ensures Ascii("[") == [91] && Ascii("]") == [93] && Ascii("{") == [123] && Ascii("}") == [125]
    ensures Ascii(",") == [44] && Ascii(":") == [58]
    ensures Ascii("null") == NULL && Ascii("true") == TRUE && Ascii("false") == FALSE
  {
  }

  lemma Spaces(c: Byte)
    ensures c in Ascii(" \t\n\r") <==> IsSpace(c)
  {
    var t := Ascii(" \t\n\r");
    assert t == [32, 9, 10, 13];
  }

  lemma LiesParts(text: Text, p: nat, a: Text, b: Text)
    ensures Lies(text, p, a + b) <==> Lies(text, p, a) && Lies(text, p + |a|, b)
  {
    if p + |a| + |b| <= |text| {
      var m := text[p..p + |a| + |b|];
      assert m[..|a|] == text[p..p + |a|] && m[|a|..] == text[p + |a|..p + |a| + |b|];
      assert m == m[..|a|] + m[|a|..];
      assert (a + b)[..|a|] == a && (a + b)[|a|..] == b;
    }
  }

  lemma {:induction false} SkipWhite(text: Text, p: nat, w: Text)
    requires White(w) && Lies(text, p, w)
    ensures SkipSpace(text, p) == SkipSpace(text, p + |w|)
    decreases |w|
  {
    if w != [] {
      assert text[p] == w[0];
      Spaces(w[0]);
      assert text[p + 1..p + |w|] == w[1..];
      SkipWhite(text, p + 1, w[1..]);
    }
  }

  lemma TokenSkips(cfg: Config, text: Text, p: nat, w: Text)
    requires White(w) && Lies(text, p, w)
    ensures NextToken(cfg, text, p) == NextToken(cfg, text, p + |w|)
  {
    SkipWhite(text, p, w);
  }

  /** What is skipped is white space. */
  lemma {:induction false} Skipped(text: Text, p: nat) returns (w: Text)
    requires p <= |text|
    ensures White(w) && Lies(text, p, w) && SkipSpace(text, p) == p + |w|
    decreases |text| - p
  {
    w := [];
    if IsSpace(At(text, p)) {
      Spaces(text[p]);
      var v := Skipped(text, p + 1);
      w := [text[p]] + v;
      LiesParts(text, p, [text[p]], v);
    }
  }

  // ---------- Strings ----------

  lemma Worth(c: Byte, n: nat)
    ensures HexWorth(c, n) <==> HexDigit(c) == n
  {
    assert Ascii("0") == [48] && Ascii("a") == [97] && Ascii("A") == [65];
  }

  lemma Letters(e: Byte)
    ensures Unescape(e) == if e in Ascii("\"\\/bfnrt") then ShortMeans(e) else if e == 117 then 117 else 0
    ensures e in Ascii("\"\\/bfnrt") ==> ShortMeans(e) != 0 && ShortMeans(e) != 117
  {
    var t := Ascii("\"\\/bfnrt");
    assert t == [34, 92, 47, 98, 102, 110, 114, 116];
  }

  /** A unit is what four digits are read as. */
  lemma UnitDigits(text: Text, p: nat, c: Char)
    requires UnitOk(c) && Lies(text, p, Spelling(c))
    ensures Hex4(text, p + 2) == c.u && At(text, p) == 92 && At(text, p + 1) == 117
  {
    hide HexDigit, HexWorth;
    Marks();
    var m := Spelling(c);
    assert m == [92, 117] + c.digits;
    assert forall k :: 0 <= k < 6 ==> text[p + k] == m[k];
    Worth(c.digits[0], c.u / 4096);
    Worth(c.digits[1], c.u / 256 % 16);
    Worth(c.digits[2], c.u / 16 % 16);
    Worth(c.digits[3], c.u % 16);
    HexDigits4(c.u);
  }

  lemma ScanUnicode(text: Text, p: nat, c: Char)
    requires (c.Unit? || c.Pair?) && CharOk(c) && Lies(text, p, Spelling(c))
    ensures At(text, p) == 92 && At(text, p + 1) == 117
    ensures UnicodeEscape(text, p) == Good(CharMeans(c), p + |Spelling(c)|)
  {
    hide Hex4, Utf8, HexWorth;
    Marks();
    if c.Unit? {
      UnitDigits(text, p, c);
    } else {
      LiesParts(text, p, Spelling(c.high), Spelling(c.low));
      UnitDigits(text, p, c.high);
      UnitDigits(text, p + 6, c.low);
      assert c.high.u % 1024 == c.high.u - 0xD800 && c.low.u % 1024 == c.low.u - 0xDC00;
    }
  }

  lemma ScanChar(text: Text, p: nat, c: Char, done: Text)
    requires CharOk(c) && Lies(text, p, Spelling(c))
    ensures ScanString(text, p, done) == ScanString(text, p + |Spelling(c)|, done + CharMeans(c))
  {
    hide UnicodeEscape, Utf8, Unescape, ShortMeans, UnitOk;
    Marks();
    if c.Unit? || c.Pair? {
      hide CharOk, CharMeans, Spelling;
      ScanUnicode(text, p, c);
      Letters(117);
    } else {
      var m := Spelling(c);
      assert forall k :: 0 <= k < |m| ==> text[p + k] == m[k];
      if c.Short? { Letters(c.letter); }
    }
  }

  lemma ScanQuote(text: Text, p: nat, done: Text)
    requires p < |text| && text[p] == 34
    ensures ScanString(text, p, done) == (TString(done), p + 1)
  {
  }

  lemma QuotedParts(text: Text, p: nat, c: Char, cs: seq<Char>)
    ensures Lies(text, p, Spellings([c] + cs) + Ascii("\""))
       <==> Lies(text, p, Spelling(c)) && Lies(text, p + |Spelling(c)|, Spellings(cs) + Ascii("\""))
    ensures |Spellings([c] + cs)| == |Spelling(c)| + |Spellings(cs)|
    ensures forall done: Text :: done + CharMeans(c) + CharsMean(cs) == done + CharsMean([c] + cs)
  {
    hide Lies, Spelling, CharMeans;
    assert ([c] + cs)[1..] == cs;
    assert Spellings([c] + cs) + Ascii("\"") == Spelling(c) + (Spellings(cs) + Ascii("\""));
    LiesParts(text, p, Spelling(c), Spellings(cs) + Ascii("\""));
    assert forall done: Text :: done + CharMeans(c) + CharsMean(cs) == done + (CharMeans(c) + CharsMean(cs));
  }

  /** The characters up to the quote are read as what they mean. */
  lemma {:induction false} ScanChars(text: Text, p: nat, cs: seq<Char>, done: Text)
    requires CharsOk(cs) && Lies(text, p, Spellings(cs) + Ascii("\""))
    ensures ScanString(text, p, done) == (TString(done + CharsMean(cs)), p + |Spellings(cs)| + 1)
    decreases |cs|
  {
    hide CharOk, CharMeans, Spelling, ScanString;
    Marks();
    if cs == [] {
      assert text[p..p + 1] == [34];
      ScanQuote(text, p, done);
      assert done + CharsMean(cs) == done;
    } else {
      hide Lies, Spellings, CharsMean;
      var c, rest := cs[0], cs[1..];
      assert cs == [c] + rest;
      QuotedParts(text, p, c, rest);
      ScanChar(text, p, c, done);
      ScanChars(text, p + |Spelling(c)|, rest, done + CharMeans(c));
    }
  }

  /** Where four digits are read, they are a unit. */
  lemma UnitFound(text: Text, p: nat) returns (c: Char)
    requires p + 2 <= |text| && At(text, p) == 92 && At(text, p + 1) == 117 && Hex4(text, p + 2) >= 0
    ensures UnitOk(c) && c.u == Hex4(text, p + 2) && Lies(text, p, Spelling(c))
  {
    hide HexWorth;
    Marks();
    var u := Hex4(text, p + 2);
    var digits := text[p + 2..p + 6];
    c := Unit(digits, u);
    Worth(digits[0], u / 4096);
    Worth(digits[1], u / 256 % 16);
    Worth(digits[2], u / 16 % 16);
    Worth(digits[3], u % 16);
    var a, b, d, e := HexDigit(digits[0]), HexDigit(digits[1]), HexDigit(digits[2]), HexDigit(digits[3]);
    assert u == 0x1000 * a + 0x100 * b + 0x10 * d + e;
    HexParts(a, b, d, e);
    assert text[p..p + 6] == [92, 117] + digits;
  }

  lemma HexParts(a: nat, b: nat, d: nat, e: nat)
    requires a < 16 && b < 16 && d < 16 && e < 16
    ensures var u := 0x1000 * a + 0x100 * b + 0x10 * d + e;
      u / 4096 == a && u / 256 % 16 == b && u / 16 % 16 == d && u % 16 == e
  {
    var u := 0x1000 * a + 0x100 * b + 0x10 * d + e;
    assert u / 256 == 16 * a + b;
    assert u / 16 == 16 * (16 * a + b) + d;
  }

  /** What an escape is read from is a unit or a pair. */
  lemma EscapeFound(text: Text, p: nat) returns (c: Char)
    requires p + 2 <= |text| && At(text, p) == 92 && At(text, p + 1) == 117 && UnicodeEscape(text, p).Good?
    ensures CharOk(c) && Lies(text, p, Spelling(c))
    ensures UnicodeEscape(text, p) == Good(CharMeans(c), p + |Spelling(c)|)
  {
    hide Hex4, Utf8, HexWorth;
    Marks();
    c := UnitFound(text, p);
    if 0xD800 <= c.u < 0xE000 {
      var low := UnitFound(text, p + 6);
      LiesParts(text, p, Spelling(c), Spelling(low));
      assert c.u % 1024 == c.u - 0xD800 && low.u % 1024 == low.u - 0xDC00;
      c := Pair(c, low);
    }
  }

  lemma CharFound(text: Text, p: nat, done: Text) returns (c: Char)
    requires p <= |text| && ScanString(text, p, done).0.TString? && At(text, p) != 34
    ensures CharOk(c) && Lies(text, p, Spelling(c)) && |Spelling(c)| > 0
    ensures ScanString(text, p, done) == ScanString(text, p + |Spelling(c)|, done + CharMeans(c))
  {
    hide UnicodeEscape, Unescape, ShortMeans, Utf8, UnitOk;
    Marks();
    var ch := At(text, p);
    if ch != 92 {
      c := Plain(ch);
    } else {
      var e := At(text, p + 1);
      Letters(e);
      if Unescape(e) == 117 {
        hide CharOk, CharMeans, Spelling;
        c := EscapeFound(text, p);
      } else {
        c := Short(e);
        assert text[p..p + 2] == [92, e];
      }
    }
  }

  /** Whatever is read as a string is made of such characters. */
  lemma {:induction false} CharsFound(text: Text, p: nat, done: Text) returns (cs: seq<Char>)
    requires p <= |text| && ScanString(text, p, done).0.TString?
    ensures CharsOk(cs) && Lies(text, p, Spellings(cs) + Ascii("\""))
    ensures ScanString(text, p, done) == (TString(done + CharsMean(cs)), p + |Spellings(cs)| + 1)
    decreases |text| - p
  {
    hide CharOk, CharMeans, Spelling, UnicodeEscape, Unescape;
    Marks();
    cs := [];
    if At(text, p) == 34 {
      assert Spellings(cs) + Ascii("\"") == [34];
      assert done + CharsMean(cs) == done;
    } else {
      hide ScanString;
      var c := CharFound(text, p, done);
      var rest := CharsFound(text, p + |Spelling(c)|, done + CharMeans(c));
      cs := [c] + rest;
      QuotedParts(text, p, c, rest);
    }
  }

  // ---------- Tokens ----------

  /** The token that a document begins with, and how long it is. */
  function Front(d: Doc): (Token, nat) {
    match d
    case DNull => (TNull, 4)
    case DBool(b) => (TBoolean(b), if b then 4 else 5)
    case DNum(m, n) => (TNumber(n), |m|)
    case DStr(cs) => (TString(CharsMean(cs)), |Quoted(cs)|)
    case DArr(_, _) => (TArrBegin, 1)
    case DObj(_, _) => (TObjBegin, 1)
  }

  lemma NumberFronts(text: Text, p: nat)
    requires p < |text|
    ensures var ch := text[p];
      NumberFront(text, p) <==> ch == 45 || 48 <= ch <= 57 || ch == 43 || StartsLike(text, p, [105, 110, 102])
                                || StartsLike(text, p, [110, 97, 110])
  {
    var t := Ascii("-+0123456789");
    assert t == [45, 43, 48, 49, 50, 51, 52, 53, 54, 55, 56, 57];
    if 48 <= text[p] <= 57 { assert t[text[p] - 46] == text[p]; }
    assert Ascii("inf") == [105, 110, 102] && Ascii("INF") == [73, 78, 70];
    assert Ascii("nan") == [110, 97, 110] && Ascii("NAN") == [78, 65, 78];
    Cases(text, p, [105, 110, 102], [73, 78, 70]);
    Cases(text, p, [110, 97, 110], [78, 65, 78]);
  }

  lemma Cases(text: Text, p: nat, lower: Text, upper: Text)
    requires p <= |text| && |lower| == |upper| && forall i :: 0 <= i < |lower| ==> lower[i] == upper[i] as int + 32
    ensures AnyCase(text, p, lower, upper) <==> StartsLike(text, p, lower)
  {
  }

  /** Infinities and what is no number start with one of four letters, and not like a word. */
  lemma Letter(text: Text, p: nat)
    requires p <= |text| && (StartsLike(text, p, [105, 110, 102]) || StartsLike(text, p, [110, 97, 110]))
    ensures p + 2 < |text| && text[p] in {105, 73, 110, 78} && text[p + 1] in {110, 78, 97, 65}
  {
    var inf, nan: Text := [105, 110, 102], [110, 97, 110];
    assert text[p + 0] in {inf[0], inf[0] - 32, nan[0], nan[0] - 32};
    assert text[p + 1] in {inf[1], inf[1] - 32, nan[1], nan[1] - 32};
  }

  lemma Words(text: Text, p: nat)
    requires p < |text|
    ensures StartsWith(text, p, TRUE) ==> text[p] == 116
    ensures StartsWith(text, p, FALSE) ==> text[p] == 102
    ensures StartsWith(text, p, NULL) ==> text[p] == 110 && p + 1 < |text| && text[p + 1] == 117
  {
  }

  /** A token that is a number, no white space being in front of it. */
  lemma NumberToken(cfg: Config, text: Text, p: nat, n: int, q: nat)
    requires p < |text| && !IsSpace(text[p])
    ensures NumberFront(text, p) && cfg.codec.read(text, p) == Some((n, q)) && p < q <= |text|
       <==> NextToken(cfg, text, p) == (TNumber(n), q)
  {
    hide ScanString, StartsLike, StartsWith, NumberFront;
    NumberFronts(text, p);
    NoSpace(text, p);
    Words(text, p);
    if StartsLike(text, p, [105, 110, 102]) || StartsLike(text, p, [110, 97, 110]) { Letter(text, p); }
  }

  lemma QuotedRead(cfg: Config, cs: seq<Char>, text: Text, p: nat)
    requires Stands(cfg, DStr(cs), text, p)
    ensures NextToken(cfg, text, p) == (TString(CharsMean(cs)), p + |Quoted(cs)|)
  {
    hide ScanString, Spellings, CharsOk, Lies, CharsMean;
    Marks();
    assert Quoted(cs) == [34] + (Spellings(cs) + Ascii("\""));
    LiesParts(text, p, [34], Spellings(cs) + Ascii("\""));
    OneByte(text, p, 34);
    NoSpace(text, p);
    ScanChars(text, p + 1, cs, []);
    assert [] + CharsMean(cs) == CharsMean(cs);
  }

  lemma WordRead(cfg: Config, d: Doc, text: Text, p: nat)
    requires d.DNull? || d.DBool?
    requires Stands(cfg, d, text, p)
    ensures NextToken(cfg, text, p) == (Front(d).0, p + Front(d).1)
  {
    hide ScanString, StartsLike;
    Marks();
    assert text[p] == Written(d)[0];
    NoSpace(text, p);
  }

  lemma OpenRead(cfg: Config, text: Text, p: nat)
    ensures Lies(text, p, [91]) ==> NextToken(cfg, text, p) == (TArrBegin, p + 1)
    ensures Lies(text, p, [123]) ==> NextToken(cfg, text, p) == (TObjBegin, p + 1)
  {
    hide ScanString, StartsLike;
    OneByte(text, p, 91);
    OneByte(text, p, 123);
    if Lies(text, p, [91]) || Lies(text, p, [123]) { NoSpace(text, p); }
  }

  /** Every document is read by its first token. */
  lemma FrontRead(cfg: Config, d: Doc, text: Text, p: nat)
    requires Stands(cfg, d, text, p)
    ensures NextToken(cfg, text, p) == (Front(d).0, p + Front(d).1)
  {
    hide NextToken, NumberFront, Lies, ItemsWritten, EntriesWritten, Spellings;
    match d
    case DNum(m, n) =>
      NumberStart(text, p);
      LiesInside(text, p, m);
      NumberToken(cfg, text, p, n, p + |m|);
    case DStr(cs) => QuotedRead(cfg, cs, text, p);
    case DArr(space, items) =>
      ArrParts(cfg, space, items, text, p);
      OpenRead(cfg, text, p);
    case DObj(space, entries) =>
      ObjParts(cfg, space, entries, text, p);
      OpenRead(cfg, text, p);
    case _ => WordRead(cfg, d, text, p);
  }

  lemma NumberStart(text: Text, p: nat)
    requires NumberFront(text, p)
    ensures p < |text| && !IsSpace(text[p])
  {
    NumberFronts(text, p);
    if StartsLike(text, p, [105, 110, 102]) || StartsLike(text, p, [110, 97, 110]) { Letter(text, p); }
  }

  /** A mark is read as the token it is. */
  lemma MarkRead(cfg: Config, text: Text, p: nat)
    requires p < |text|
    ensures text[p] == 93 ==> NextToken(cfg, text, p) == (TArrEnd, p + 1)
    ensures text[p] == 125 ==> NextToken(cfg, text, p) == (TObjEnd, p + 1)
    ensures text[p] == 44 ==> NextToken(cfg, text, p) == (TComma, p + 1)
    ensures text[p] == 58 ==> NextToken(cfg, text, p) == (TColon, p + 1)
  {
    hide ScanString;
    if !IsSpace(text[p]) { NoSpace(text, p); }
  }

  /** What a token was read from, no white space being in front of it. */
  lemma TokenFound(cfg: Config, text: Text, p: nat)
    requires p <= |text| && !IsSpace(At(text, p))
    ensures var (t, q) := NextToken(cfg, text, p);
      && (t.TNull? ==> Lies(text, p, Ascii("null")) && q == p + 4)
      && (t.TBoolean? ==> Lies(text, p, if t.b then Ascii("true") else Ascii("false")) && q == p + if t.b then 4 else 5)
      && (t.TArrBegin? ==> Lies(text, p, Ascii("[")) && q == p + 1)
      && (t.TArrEnd? ==> Lies(text, p, Ascii("]")) && q == p + 1)
      && (t.TObjBegin? ==> Lies(text, p, Ascii("{")) && q == p + 1)
      && (t.TObjEnd? ==> Lies(text, p, Ascii("}")) && q == p + 1)
      && (t.TComma? ==> Lies(text, p, Ascii(",")) && q == p + 1)
      && (t.TColon? ==> Lies(text, p, Ascii(":")) && q == p + 1)
      && (t.TString? ==> Lies(text, p, Ascii("\"")) && ScanString(text, p + 1, []) == (t, q))
      && (t.TNumber? ==> p < |text|)
      && (t.TEnd? <==> At(text, p) == 0)
  {
    hide ScanString, StartsLike;
    Marks();
    NoSpace(text, p);
  }

  // ---------- What stands for a value is read as that value ----------

  function Within(cfg: Config, depth: nat, nest: nat, v: Value, p: nat): Outcome {
    if nest > 0 && depth + nest > cfg.maxDepth then Error else Done(v, p)
  }

  lemma EmptyRead(cfg: Config, text: Text, p: nat, space: Text, mark: Byte)
    requires White(space) && (mark == 93 || mark == 125) && Lies(text, p, space + [mark])
    ensures NextToken(cfg, text, p) == (if mark == 93 then TArrEnd else TObjEnd, p + |space| + 1)
  {
    LiesParts(text, p, space, [mark]);
    TokenSkips(cfg, text, p, space);
    assert text[p + |space|] == mark;
    MarkRead(cfg, text, p + |space|);
  }

  /** What is behind a document, up to the next mark. */
  lemma AfterRead(cfg: Config, text: Text, p: nat, w: Text)
    requires White(w) && Lies(text, p, w) && p + |w| < |text|
    ensures text[p + |w|] == 93 ==> NextToken(cfg, text, p) == (TArrEnd, p + |w| + 1)
    ensures text[p + |w|] == 125 ==> NextToken(cfg, text, p) == (TObjEnd, p + |w| + 1)
    ensures text[p + |w|] == 44 ==> NextToken(cfg, text, p) == (TComma, p + |w| + 1)
    ensures text[p + |w|] == 58 ==> NextToken(cfg, text, p) == (TColon, p + |w| + 1)
  {
    TokenSkips(cfg, text, p, w);
    MarkRead(cfg, text, p + |w|);
  }

  /** One item, with the white space around it. */
  predicate ItemStands(cfg: Config, i: Item, text: Text, p: nat) {
    && White(i.before) && Lies(text, p, i.before)
    && Stands(cfg, i.doc, text, p + |i.before|)
    && White(i.after) && Lies(text, p + |i.before| + |Written(i.doc)|, i.after)
  }

  lemma ItemParts(cfg: Config, i: Item, text: Text, p: nat)
    ensures ItemStands(cfg, i, text, p)
       <==> ItemOk(i) && Lies(text, p, ItemWritten(i)) && NumbersRead(cfg.codec, i.doc, text, p + |i.before|)
  {
    hide White, Lies, NumbersRead, Written;
    assert ItemWritten(i) == i.before + (Written(i.doc) + i.after);
    LiesParts(text, p, i.before, Written(i.doc) + i.after);
    LiesParts(text, p + |i.before|, Written(i.doc), i.after);
  }

  /** A list of items is its first one and the others behind a comma. */
  lemma ItemsParts(cfg: Config, items: seq<Item>, text: Text, p: nat)
    requires items != []
    ensures var z := p + |ItemWritten(items[0])|;
      ItemsStand(cfg, items, text, p)
      <==> ItemStands(cfg, items[0], text, p)
           && (|items| > 1 ==> Lies(text, z, [44]) && ItemsStand(cfg, items[1..], text, z + 1))
  {
    hide ItemStands, ItemOk, Lies, NumbersRead, ItemWritten;
    Marks();
    var m := ItemWritten(items[0]);
    ItemParts(cfg, items[0], text, p);
    if |items| > 1 {
      var others := ItemsWritten(items[1..]);
      assert ItemsWritten(items) == m + ([44] + others);
      LiesParts(text, p, m, [44] + others);
      LiesParts(text, p + |m|, [44], others);
    } else {
      assert ItemsWritten(items) == m + [] == m;
      assert ItemsRead(cfg.codec, items[1..], text, p + |m| + 1);
    }
  }

  /** One entry, with the white space around its parts. */
  predicate EntryStands(cfg: Config, e: Entry, text: Text, p: nat) {
    var c := p + |e.before| + |Quoted(e.key)|;
    && White(e.before) && Lies(text, p, e.before)
    && Stands(cfg, DStr(e.key), text, p + |e.before|)
    && White(e.colon) && Lies(text, c, e.colon)
    && Lies(text, c + |e.colon|, [58])
    && ItemStands(cfg, e.item, text, c + |e.colon| + 1)
  }

  lemma EntryParts(cfg: Config, e: Entry, text: Text, p: nat)
    ensures EntryStands(cfg, e, text, p)
       <==> EntryOk(e) && Lies(text, p, EntryWritten(e))
            && NumbersRead(cfg.codec, e.item.doc, text,
                           p + |EntryWritten(e)| - |ItemWritten(e.item)| + |e.item.before|)
  {
    hide White, Lies, Quoted, CharsOk, ItemStands, ItemOk, ItemWritten;
    Marks();
    var third := ItemWritten(e.item);
    assert EntryWritten(e) == e.before + (Quoted(e.key) + (e.colon + ([58] + third)));
    LiesParts(text, p, e.before, Quoted(e.key) + (e.colon + ([58] + third)));
    var k := p + |e.before|;
    LiesParts(text, k, Quoted(e.key), e.colon + ([58] + third));
    var c := k + |Quoted(e.key)|;
    LiesParts(text, c, e.colon, [58] + third);
    LiesParts(text, c + |e.colon|, [58], third);
    ItemParts(cfg, e.item, text, c + |e.colon| + 1);
  }

  lemma EntrySize(e: Entry)
    ensures |EntryWritten(e)| >= |ItemWritten(e.item)|
  {
  }

  lemma EntriesParts(cfg: Config, entries: seq<Entry>, text: Text, p: nat)
    requires entries != []
    ensures var z := p + |EntryWritten(entries[0])|;
      EntriesStand(cfg, entries, text, p)
      <==> EntryStands(cfg, entries[0], text, p)
           && (|entries| > 1 ==> Lies(text, z, [44]) && EntriesStand(cfg, entries[1..], text, z + 1))
  {
    hide EntryStands, EntryOk, Lies, NumbersRead, EntryWritten;
    Marks();
    var m := EntryWritten(entries[0]);
    EntryParts(cfg, entries[0], text, p);
    EntrySize(entries[0]);
    if |entries| > 1 {
      var others := EntriesWritten(entries[1..]);
      assert EntriesWritten(entries) == m + ([44] + others);
      LiesParts(text, p, m, [44] + others);
      LiesParts(text, p + |m|, [44], others);
    } else {
      assert EntriesWritten(entries) == m + [] == m;
      assert EntriesRead(cfg.codec, entries[1..], text, p + |m| + 1);
    }
  }

  lemma ArrParts(cfg: Config, space: Text, items: seq<Item>, text: Text, p: nat)
    ensures var inside := if items == [] then space else ItemsWritten(items);
      Stands(cfg, DArr(space, items), text, p)
      <==> White(space) && Lies(text, p, [91]) && Lies(text, p + 1 + |inside|, [93])
           && if items == [] then Lies(text, p + 1, space) else ItemsStand(cfg, items, text, p + 1)
  {
    hide Lies, White, ItemOk;
    Marks();
    var inside := if items == [] then space else ItemsWritten(items);
    assert Written(DArr(space, items)) == [91] + (inside + [93]);
    LiesParts(text, p, [91], inside + [93]);
    LiesParts(text, p + 1, inside, [93]);
    if items == [] { assert ItemsRead(cfg.codec, items, text, p + 1); }
  }

  lemma ObjParts(cfg: Config, space: Text, entries: seq<Entry>, text: Text, p: nat)
    ensures var inside := if entries == [] then space else EntriesWritten(entries);
      Stands(cfg, DObj(space, entries), text, p)
      <==> White(space) && Lies(text, p, [123]) && Lies(text, p + 1 + |inside|, [125])
           && if entries == [] then Lies(text, p + 1, space) else EntriesStand(cfg, entries, text, p + 1)
  {
    hide Lies, White, EntryOk;
    Marks();
    var inside := if entries == [] then space else EntriesWritten(entries);
    assert Written(DObj(space, entries)) == [123] + (inside + [125]);
    LiesParts(text, p, [123], inside + [125]);
    LiesParts(text, p + 1, inside, [125]);
    if entries == [] { assert EntriesRead(cfg.codec, entries, text, p + 1); }
  }

  lemma LeafSize(d: Doc)
    requires !d.DArr? && !d.DObj?
    ensures Nest(d) == 0 && Front(d).1 == |Written(d)|
  {
  }

  lemma {:induction false} ParseDoc(cfg: Config, d: Doc, text: Text, p: nat, depth: nat)
    requires Stands(cfg, d, text, p)
    ensures var (t, q) := NextToken(cfg, text, p);
      ParseValue(cfg, text, t, q, depth) == Within(cfg, depth, Nest(d), Means(d), p + |Written(d)|)
    decreases d, 0
  {
    hide NextToken, Stands, Written, Nest;
    match d
    case DArr(space, items) => ParseArr(cfg, space, items, text, p, depth);
    case DObj(space, entries) => ParseObj(cfg, space, entries, text, p, depth);
    case _ =>
      FrontRead(cfg, d, text, p);
      LeafSize(d);
  }

  lemma {:induction false} ParseArr(cfg: Config, space: Text, items: seq<Item>, text: Text, p: nat, depth: nat)
    requires Stands(cfg, DArr(space, items), text, p)
    ensures var (t, q) := NextToken(cfg, text, p);
      var d := DArr(space, items);
      ParseValue(cfg, text, t, q, depth) == Within(cfg, depth, Nest(d), Means(d), p + |Written(d)|)
    decreases items, 2
  {
    hide NextToken, Stands, Lies, White, ItemsStand, ItemsWritten, ItemsMean, ItemsNest, ParseItems;
    FrontRead(cfg, DArr(space, items), text, p);
    ArrParts(cfg, space, items, text, p);
    if items == [] {
      LiesParts(text, p + 1, space, [93]);
      EmptyRead(cfg, text, p + 1, space, 93);
      EmptyNest();
    } else {
      ParseItemsDoc(cfg, items, text, p + 1, depth + 1, []);
      assert [] + ItemsMean(items) == ItemsMean(items);
    }
  }

  lemma EmptyNest()
    ensures ItemsNest([]) == 0 && EntriesNest([]) == 0
  {
  }

  lemma {:induction false} ParseItemsDoc(cfg: Config, items: seq<Item>, text: Text, p: nat, depth: nat,
                                         done: seq<Value>)
    requires items != [] && ItemsStand(cfg, items, text, p) && Lies(text, p + |ItemsWritten(items)|, [93])
    ensures var (t, q) := NextToken(cfg, text, p);
      && !t.TArrEnd? && !t.TEnd? && !t.TError?
      && ParseItems(cfg, text, t, q, depth, done)
         == Within(cfg, depth, ItemsNest(items), Arr(done + ItemsMean(items)), p + |ItemsWritten(items)| + 1)
    decreases items, 1
  {
    hide NextToken, ItemsStand, ItemsRead, Lies, White, ParseValue, Written, Nest, Means, Stands;
    Marks();
    var i := items[0];
    ItemsParts(cfg, items, text, p);
    TokenSkips(cfg, text, p, i.before);
    FrontRead(cfg, i.doc, text, p + |i.before|);
    ParseDoc(cfg, i.doc, text, p + |i.before|, depth);
    var z := p + |ItemWritten(i)|;
    MarkLies(cfg, text, z);
    TokenSkips(cfg, text, z - |i.after|, i.after);
    if |items| == 1 {
      assert done + ItemsMean(items) == done + [Means(i.doc)];
    } else {
      ParseItemsDoc(cfg, items[1..], text, z + 1, depth, done + [Means(i.doc)]);
      assert done + [Means(i.doc)] + ItemsMean(items[1..]) == done + ItemsMean(items);
    }
  }

  lemma MarkLies(cfg: Config, text: Text, p: nat)
    ensures Lies(text, p, [93]) ==> NextToken(cfg, text, p) == (TArrEnd, p + 1)
    ensures Lies(text, p, [125]) ==> NextToken(cfg, text, p) == (TObjEnd, p + 1)
    ensures Lies(text, p, [44]) ==> NextToken(cfg, text, p) == (TComma, p + 1)
    ensures Lies(text, p, [58]) ==> NextToken(cfg, text, p) == (TColon, p + 1)
  {
    hide NextToken;
    if p < |text| { MarkRead(cfg, text, p); }
  }

  lemma {:induction false} ParseObj(cfg: Config, space: Text, entries: seq<Entry>, text: Text, p: nat, depth: nat)
    requires Stands(cfg, DObj(space, entries), text, p)
    ensures var (t, q) := NextToken(cfg, text, p);
      var d := DObj(space, entries);
      ParseValue(cfg, text, t, q, depth) == Within(cfg, depth, Nest(d), Means(d), p + |Written(d)|)
    decreases entries, 2
  {
    hide NextToken, Stands, Lies, White, EntriesStand, EntriesWritten, EntriesNest, ParseFields;
    FrontRead(cfg, DObj(space, entries), text, p);
    ObjParts(cfg, space, entries, text, p);
    if entries == [] {
      LiesParts(text, p + 1, space, [125]);
      EmptyRead(cfg, text, p + 1, space, 125);
      EmptyNest();
    } else {
      ParseEntriesDoc(cfg, entries, text, p + 1, depth + 1, []);
    }
  }

  lemma {:induction false} ParseEntriesDoc(cfg: Config, entries: seq<Entry>, text: Text, p: nat, depth: nat,
                                           done: seq<Field>)
    requires entries != [] && EntriesStand(cfg, entries, text, p) && Lies(text, p + |EntriesWritten(entries)|, [125])
    ensures var (t, q) := NextToken(cfg, text, p);
      && t.TString?
      && ParseFields(cfg, text, t, q, depth, done)
         == Within(cfg, depth, EntriesNest(entries), Obj(EntriesMean(done, entries)), p + |EntriesWritten(entries)| + 1)
    decreases entries, 1
  {
    hide NextToken, EntriesStand, EntriesRead, Lies, White, ParseValue, Written, Nest, Means, Stands, Set;
    hide Spellings, CharsMean;
    Marks();
    var e := entries[0];
    EntriesParts(cfg, entries, text, p);
    TokenSkips(cfg, text, p, e.before);
    FrontRead(cfg, DStr(e.key), text, p + |e.before|);
    var c := p + |e.before| + |Quoted(e.key)|;
    TokenSkips(cfg, text, c, e.colon);
    MarkLies(cfg, text, c + |e.colon|);
    var b := c + |e.colon| + 1;
    TokenSkips(cfg, text, b, e.item.before);
    ParseDoc(cfg, e.item.doc, text, b + |e.item.before|, depth);
    var z := p + |EntryWritten(e)|;
    MarkLies(cfg, text, z);
    TokenSkips(cfg, text, b + |e.item.before| + |Written(e.item.doc)|, e.item.after);
    assert z == b + |ItemWritten(e.item)|;
    var fields := Set(done, CharsMean(e.key), Means(e.item.doc));
    if |entries| > 1 {
      ParseEntriesDoc(cfg, entries[1..], text, z + 1, depth, fields);
    } else {
      EmptyNest();
      assert entries[1..] == [] && EntriesMean(fields, []) == fields;
    }
  }

  // ---------- Whatever is read stands for something ----------

  /** Skips to a token and tells what it was read from. */
  lemma Seen(cfg: Config, text: Text, p: nat) returns (w: Text)
    requires p <= |text|
    ensures White(w) && Lies(text, p, w) && !IsSpace(At(text, p + |w|))
    ensures NextToken(cfg, text, p) == NextToken(cfg, text, p + |w|)
  {
    hide NextToken;
    w := Skipped(text, p);
    TokenSkips(cfg, text, p, w);
  }

  /** A value without parts. */
  lemma LeafFound(cfg: Config, text: Text, p: nat) returns (d: Doc)
    requires p <= |text| && !IsSpace(At(text, p))
    requires var t := NextToken(cfg, text, p).0; t.TNull? || t.TBoolean? || t.TNumber? || t.TString?
    ensures Stands(cfg, d, text, p)
  {
    hide NextToken, ScanString, IsSpace, NumberFront, CharsOk, Lies, Spellings;
    TokenFound(cfg, text, p);
    Marks();
    var (t, q) := NextToken(cfg, text, p);
    match t
    case TNull => d := DNull;
    case TBoolean(b) => d := DBool(b);
    case TNumber(n) =>
      NumberToken(cfg, text, p, n, q);
      d := DNum(text[p..q], n);
      ItselfLies(text, p, q);
    case TString(s) =>
      OneByte(text, p, 34);
      var cs := CharsFound(text, p + 1, []);
      d := DStr(cs);
      assert Quoted(cs) == [34] + (Spellings(cs) + Ascii("\""));
      LiesParts(text, p, [34], Spellings(cs) + Ascii("\""));
  }

  lemma ItselfLies(text: Text, p: nat, q: nat)
    requires p <= q <= |text|
    ensures Lies(text, p, text[p..q])
  {
  }

  lemma OneByte(text: Text, p: nat, c: Byte)
    ensures Lies(text, p, [c]) <==> p < |text| && text[p] == c
  {
    if p < |text| { assert text[p..p + 1] == [text[p]]; }
  }

  lemma {:induction false} DocFound(cfg: Config, text: Text, p: nat, depth: nat) returns (w: Text, d: Doc)
    requires p <= |text|
    requires var (t, q) := NextToken(cfg, text, p); ParseValue(cfg, text, t, q, depth).Done?
    ensures White(w) && Lies(text, p, w) && Stands(cfg, d, text, p + |w|)
    decreases |text| - p, 0
  {
    hide NextToken, IsSpace, White, Lies, Stands, ParseItems, ParseFields, ItemsStand, EntriesStand;
    w := Seen(cfg, text, p);
    var s := p + |w|;
    var (t, q) := NextToken(cfg, text, s);
    TokenFound(cfg, text, s);
    Marks();
    if t.TArrBegin? || t.TObjBegin? {
      NoWhite();
      LiesInside(text, s, if t.TArrBegin? then [91] else [123]);
      var space := Seen(cfg, text, s + 1);
      TokenFound(cfg, text, s + 1 + |space|);
      if t.TArrBegin? {
        if NextToken(cfg, text, s + 1).0.TArrEnd? {
          d := DArr(space, []);
          ArrParts(cfg, space, [], text, s);
        } else {
          var items := ItemsFound(cfg, text, s + 1, depth + 1, []);
          d := DArr([], items);
          ArrParts(cfg, [], items, text, s);
        }
      } else if NextToken(cfg, text, s + 1).0.TObjEnd? {
        d := DObj(space, []);
        ObjParts(cfg, space, [], text, s);
      } else {
        var entries := EntriesFound(cfg, text, s + 1, depth + 1, []);
        d := DObj([], entries);
        ObjParts(cfg, [], entries, text, s);
      }
    } else {
      d := LeafFound(cfg, text, s);
    }
  }

  lemma NoWhite()
    ensures White([])
  {
  }

  lemma LiesInside(text: Text, p: nat, m: Text)
    requires Lies(text, p, m)
    ensures p + |m| <= |text|
  {
  }

  lemma {:induction false} ItemsFound(cfg: Config, text: Text, p: nat, depth: nat, done: seq<Value>)
    returns (items: seq<Item>)
    requires p <= |text|
    requires var (t, q) := NextToken(cfg, text, p); ParseItems(cfg, text, t, q, depth, done).Done?
    ensures items != [] && ItemsStand(cfg, items, text, p) && Lies(text, p + |ItemsWritten(items)|, [93])
    decreases |text| - p, 1
  {
    hide NextToken, IsSpace, White, Lies, Stands, ItemsStand, ParseValue, Means, Nest, Written;
    Marks();
    var before, d := DocFound(cfg, text, p, depth);
    TokenSkips(cfg, text, p, before);
    ParseDoc(cfg, d, text, p + |before|, depth);
    var e := p + |before| + |Written(d)|;
    var after := Seen(cfg, text, e);
    var i := Item(before, d, after);
    items := [i];
    ItemsParts(cfg, items, text, p);
    var z := e + |after|;
    TokenFound(cfg, text, z);
    if NextToken(cfg, text, z).0.TComma? {
      LiesInside(text, z, [44]);
      var others := ItemsFound(cfg, text, z + 1, depth, done + [Means(d)]);
      items := [i] + others;
      assert items[1..] == others;
      ItemsParts(cfg, items, text, p);
    }
  }

  lemma {:induction false} EntriesFound(cfg: Config, text: Text, p: nat, depth: nat, done: seq<Field>)
    returns (entries: seq<Entry>)
    requires p <= |text|
    requires var (t, q) := NextToken(cfg, text, p); ParseFields(cfg, text, t, q, depth, done).Done?
    ensures entries != [] && EntriesStand(cfg, entries, text, p) && Lies(text, p + |EntriesWritten(entries)|, [125])
    decreases |text| - p, 1
  {
    hide NextToken, IsSpace, White, Lies, Stands, EntriesStand, ParseValue, Means, Nest, Written, Quoted, Set;
    Marks();
    var before := Seen(cfg, text, p);
    var key := LeafFound(cfg, text, p + |before|);
    FrontRead(cfg, key, text, p + |before|);
    var c := p + |before| + |Quoted(key.cs)|;
    var colon := Seen(cfg, text, c);
    TokenFound(cfg, text, c + |colon|);
    LiesInside(text, c + |colon|, [58]);
    var b := c + |colon| + 1;
    var front, d := DocFound(cfg, text, b, depth);
    TokenSkips(cfg, text, b, front);
    ParseDoc(cfg, d, text, b + |front|, depth);
    var n := b + |front| + |Written(d)|;
    var after := Seen(cfg, text, n);
    var e := Entry(before, key.cs, colon, Item(front, d, after));
    entries := [e];
    EntriesParts(cfg, entries, text, p);
    var z := n + |after|;
    assert |EntriesWritten(entries)| == |EntryWritten(e)| == z - p;
    TokenFound(cfg, text, z);
    if NextToken(cfg, text, z).0.TComma? {
      LiesInside(text, z, [44]);
      var others := EntriesFound(cfg, text, z + 1, depth, Set(done, CharsMean(key.cs), Means(d)));
      entries := [e] + others;
      assert entries[1..] == others;
      EntriesParts(cfg, entries, text, p);
    }
  }

  // ---------- What is decoded ----------

  /** The text is a document between white space, up to its end or to a zero byte. */
  predicate Reading(cfg: Config, text: Text, front: Text, d: Doc, rest: Text) {
    && White(front) && Lies(text, 0, front)
    && Stands(cfg, d, text, |front|)
    && var e := |front| + |Written(d)|;
       White(rest) && Lies(text, e, rest) && (e + |rest| == |text| || text[e + |rest|] == 0)
  }

  /** What `json_decode` takes for UTF-16 or UTF-32. */
  predicate Wide(text: Text) {
    |text| >= 2 && 0 in text[..2]
  }

  ghost predicate StandsFor(cfg: Config, text: Text, v: Value) {
    exists front, d, rest :: Reading(cfg, text, front, d, rest) && Means(d) == v && Shallow(cfg, d)
  }

  predicate Shallow(cfg: Config, d: Doc) {
    Nest(d) == 0 || Nest(d) <= cfg.maxDepth
  }

  /** A text is decoded if and only if it can be read as a document that is not nested too deep, and then to what that
      document means. */
  lemma DecodesExactly(cfg: Config, text: Text, v: Value)
    ensures Decode(cfg, text) == Some(v) <==> !Wide(text) && StandsFor(cfg, text, v)
  {
    hide NextToken, ParseValue, Stands, Written, Means, Nest, White, Lies;
    assert Wide(text) <==> |text| >= 2 && (text[0] == 0 || text[1] == 0) by {
      if |text| >= 2 { assert text[..2] == [text[0], text[1]]; }
    }
    if !Wide(text) {
      if StandsFor(cfg, text, v) {
        var front, d, rest :| Reading(cfg, text, front, d, rest) && Means(d) == v && Shallow(cfg, d);
        ReadingRead(cfg, text, front, d, rest);
      }
      if Decode(cfg, text) == Some(v) {
        var front, d := DocFound(cfg, text, 0, 0);
        TokenSkips(cfg, text, 0, front);
        ParseDoc(cfg, d, text, |front|, 0);
        var e := |front| + |Written(d)|;
        var rest := Seen(cfg, text, e);
        TokenFound(cfg, text, e + |rest|);
        LiesInside(text, e, rest);
        assert Reading(cfg, text, front, d, rest);
      }
    }
  }

  lemma ReadingRead(cfg: Config, text: Text, front: Text, d: Doc, rest: Text)
    requires !Wide(text) && Reading(cfg, text, front, d, rest)
    ensures Decode(cfg, text) == if Shallow(cfg, d) then Some(Means(d)) else None
  {
    hide NextToken, ParseValue, Stands, Written, Means, Nest, White, Lies;
    TokenSkips(cfg, text, 0, front);
    ParseDoc(cfg, d, text, |front|, 0);
    var e := |front| + |Written(d)|;
    LiesInside(text, e, rest);
    TokenSkips(cfg, text, e, rest);
    ZeroRead(cfg, text, e + |rest|);
    if |text| >= 2 { assert text[..2] == [text[0], text[1]]; }
  }

  lemma ZeroRead(cfg: Config, text: Text, p: nat)
    requires p <= |text| && At(text, p) == 0
    ensures NextToken(cfg, text, p).0 == TEnd
  {
    NoSpace(text, p);
  }

  // ---------- Repeated keys ----------

  /** The value of a key in a table. */
  function Lookup(fields: seq<Field>, key: Text): Option<Value> {
    if fields == [] then None
    else if fields[0].key == key then Some(fields[0].value)
    else Lookup(fields[1..], key)
  }

  lemma {:induction false} SetLookup(fields: seq<Field>, key: Text, v: Value, other: Text)
    ensures Lookup(Set(fields, key, v), other) == if other == key then Some(v) else Lookup(fields, other)
    decreases |fields|
  {
    if fields != [] && fields[0].key != key { SetLookup(fields[1..], key, v, other); }
  }

  predicate HasKey(fields: seq<Field>, key: Text) {
    exists i :: 0 <= i < |fields| && fields[i].key == key
  }

  lemma KeyParts(f: Field, fields: seq<Field>, key: Text)
    ensures HasKey([f] + fields, key) <==> f.key == key || HasKey(fields, key)
    ensures Distinct([f] + fields) <==> !HasKey(fields, f.key) && Distinct(fields)
  {
    var all := [f] + fields;
    assert forall i :: 0 <= i < |fields| ==> fields[i] == all[i + 1];
    assert all[0] == f;
    if HasKey(fields, key) {
      var i :| 0 <= i < |fields| && fields[i].key == key;
      assert all[i + 1].key == key;
    }
  }

  lemma {:induction false} SetDistinct(fields: seq<Field>, key: Text, v: Value, other: Text)
    requires Distinct(fields)
    ensures Distinct(Set(fields, key, v))
    ensures HasKey(Set(fields, key, v), other) <==> other == key || HasKey(fields, other)
    decreases |fields|
  {
    hide Distinct, HasKey;
    assert forall f: Field :: [f] + [] == [f];
    if fields == [] {
      NoKeys(other);
      NoKeys(key);
      KeyParts(Field(key, v), [], other);
    } else {
      var f, rest := fields[0], fields[1..];
      assert fields == [f] + rest;
      KeyParts(f, rest, other);
      if f.key == key {
        KeyParts(Field(key, v), rest, other);
      } else {
        SetDistinct(rest, key, v, other);
        SetDistinct(rest, key, v, f.key);
        KeyParts(f, Set(rest, key, v), other);
      }
    }
  }

  lemma NoKeys(key: Text)
    ensures !HasKey([], key) && Distinct([])
  {
  }

  /** In the table that is read, the last entry of a key counts, and every key stands once. */
  lemma {:induction false} LastCounts(done: seq<Field>, entries: seq<Entry>, key: Text)
    requires Distinct(done)
    ensures var fields := EntriesMean(done, entries);
      && Distinct(fields)
      && (forall i :: 0 <= i < |entries| && CharsMean(entries[i].key) == key
           && (forall j :: i < j < |entries| ==> CharsMean(entries[j].key) != key)
           ==> Lookup(fields, key) == Some(Means(entries[i].item.doc)))
      && ((forall i :: 0 <= i < |entries| ==> CharsMean(entries[i].key) != key)
           ==> Lookup(fields, key) == Lookup(done, key))
    decreases |entries|
  {
    if entries != [] {
      hide CharsMean, Means, Set, Lookup;
      var e := entries[0];
      SetLookup(done, CharsMean(e.key), Means(e.item.doc), key);
      SetDistinct(done, CharsMean(e.key), Means(e.item.doc), key);
      LastCounts(Set(done, CharsMean(e.key), Means(e.item.doc)), entries[1..], key);
    }
  }
}
