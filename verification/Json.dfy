/** The JSON codec of lua_cjson.c: printing, scanning and parsing, and UTF-8. */
module Json {
  import opened Common

  type Text = seq<Byte>

  /** A Lua value that can be printed. Numbers are opaque. The empty table is `Obj([])`: Lua does not tell an empty
      array from an empty object. A null is a null pointer, not a nil. */
  datatype Value =
    | Null
    | Bool(b: bool)
    | Num(n: int)
    | Str(s: Text)
    | Arr(items: seq<Value>)
    | Obj(fields: seq<Field>)

  datatype Field = Field(key: Text, value: Value)

  /** How numbers are written, and read at a position of a text (the number and where it ends). */
  datatype Codec = Codec(show: int -> Text, read: (Text, int) -> Option<(int, int)>)

  datatype Config = Config(codec: Codec, maxDepth: int)

  // ---------- Printing ----------

  function LowHex(n: nat): Byte
    requires n < 16
  {
    if n < 10 then 48 + n else 87 + n
  }

  /** The table `char2escape`, or the byte itself where it has no entry. */
  function PrintByte(c: Byte): Text {
    match c
    case 8 => [92, 98]
    case 9 => [92, 116]
    case 10 => [92, 110]
    case 12 => [92, 102]
    case 13 => [92, 114]
    case 34 => [92, 34]
    case 47 => [92, 47]
    case 92 => [92, 92]
    case _ => if c < 32 || c == 127 then [92, 117, 48, 48, LowHex(c / 16), LowHex(c % 16)] else [c]
  }

  function PrintBytes(s: Text): Text {
    if s == [] then [] else PrintByte(s[0]) + PrintBytes(s[1..])
  }

  /** `json_append_string` */
  function PrintString(s: Text): Text {
    [34] + PrintBytes(s) + [34]
  }

  const TRUE: Text := [116, 114, 117, 101]
  const FALSE: Text := [102, 97, 108, 115, 101]
  const NULL: Text := [110, 117, 108, 108]

  /** `json_append_data` */
  function Print(codec: Codec, v: Value): Text
    decreases v, 0
  {
    match v
    case Null => NULL
    case Bool(b) => if b then TRUE else FALSE
    case Num(n) => codec.show(n)
    case Str(s) => PrintString(s)
    case Arr(items) => if items == [] then [123, 125] else [91] + PrintItems(codec, items) + [93]
    case Obj(fields) => if fields == [] then [123, 125] else [123] + PrintFields(codec, fields) + [125]
  }

  /** The items with commas between them. */
  function PrintItems(codec: Codec, items: seq<Value>): Text
    requires items != []
    decreases items, 1
  {
    Print(codec, items[0]) + if |items| == 1 then [] else [44] + PrintItems(codec, items[1..])
  }

  function PrintFields(codec: Codec, fields: seq<Field>): Text
    requires fields != []
    decreases fields, 1
  {
    PrintString(fields[0].key) + [58] + Print(codec, fields[0].value)
    + if |fields| == 1 then [] else [44] + PrintFields(codec, fields[1..])
  }

  // ---------- Scanning ----------

  /** The byte at a position; a text ends with a zero byte, and nothing behind that is ever read. */
  function At(text: Text, i: nat): Byte
    requires i <= |text|
  {
    if i < |text| then text[i] else 0
  }

  datatype Token =
    | TObjBegin | TObjEnd | TArrBegin | TArrEnd | TColon | TComma | TEnd | TError
    | TString(s: Text) | TNumber(n: int) | TBoolean(b: bool) | TNull

  /** `hexdigit2int` */
  function HexDigit(c: Byte): int {
    if 48 <= c <= 57 then c - 48
    else if 97 <= c <= 102 then c - 87
    else if 65 <= c <= 70 then c - 55
    else -1
  }

  /** `decode_hex4`: stops at the first byte that is not a digit. */
  function Hex4(text: Text, p: nat): (r: int)
    requires p <= |text|
    ensures -1 <= r < 0x10000
    ensures r >= 0 ==> p + 4 <= |text|
  {
    if HexDigit(At(text, p)) < 0 then -1
    else if HexDigit(At(text, p + 1)) < 0 then -1
    else if HexDigit(At(text, p + 2)) < 0 then -1
    else if HexDigit(At(text, p + 3)) < 0 then -1
    else 0x1000 * HexDigit(At(text, p)) + 0x100 * HexDigit(At(text, p + 1)) + 0x10 * HexDigit(At(text, p + 2))
         + HexDigit(At(text, p + 3))
  }

  /** `codepoint_to_utf8`; shifts and masks are quotients and remainders. */
  function Utf8(cp: nat): Text
    requires cp < 0x200000
  {
    if cp <= 0x7F then [cp]
    else if cp <= 0x7FF then [0xC0 + cp / 64, 0x80 + cp % 64]
    else if cp <= 0xFFFF then [0xE0 + cp / 4096, 0x80 + cp / 64 % 64, 0x80 + cp % 64]
    else [0xF0 + cp / 262144, 0x80 + cp / 4096 % 64, 0x80 + cp / 64 % 64, 0x80 + cp % 64]
  }

  datatype Escape = Bad | Good(bytes: Text, next: nat)

  /** `json_append_unicode_escape`, with `\u` at `p`. */
  function UnicodeEscape(text: Text, p: nat): (e: Escape)
    requires p + 2 <= |text|
    ensures e.Good? ==> p + 6 <= e.next <= |text| && 1 <= |e.bytes| <= 4
  {
    var cp := Hex4(text, p + 2);
    if cp < 0 then Bad
    else if 0xD800 <= cp < 0xE000 then
      if cp >= 0xDC00 then Bad
      else if At(text, p + 6) != 92 || At(text, p + 7) != 117 then Bad
      else
        var low := Hex4(text, p + 8);
        if low < 0 || !(0xDC00 <= low < 0xE000) then Bad
        else Good(Utf8(0x10000 + cp % 1024 * 1024 + low % 1024), p + 12)
    else Good(Utf8(cp), p + 6)
  }

  /** The table `escape2char`; 0 for an error, 117 ('u') for a unicode escape. */
  function Unescape(c: Byte): Byte {
    match c
    case 34 => 34
    case 92 => 92
    case 47 => 47
    case 98 => 8
    case 116 => 9
    case 110 => 10
    case 102 => 12
    case 114 => 13
    case 117 => 117
    case _ => 0
  }

  /** The loop of `json_next_string_token` from `p` on; `done` is the text decoded so far. */
  function ScanString(text: Text, p: nat, done: Text): (r: (Token, nat))
    requires p <= |text|
    ensures p <= r.1 <= |text| && (r.0.TString? || r.0.TError?)
    ensures r.0.TString? ==> r.1 > p
    decreases |text| - p
  {
    var ch := At(text, p);
    if ch == 34 && p < |text| then (TString(done), p + 1)
    else if ch == 0 then (TError, p)
    else if ch == 92 then
      var c := Unescape(At(text, p + 1));
      if c == 117 then
        var e := UnicodeEscape(text, p);
        if e.Bad? then (TError, p) else ScanString(text, e.next, done + e.bytes)
      else if c == 0 then (TError, p)
      else ScanString(text, p + 2, done + [c])
    else ScanString(text, p + 1, done + [ch])
  }

  predicate IsSpace(c: Byte) {
    c == 32 || c == 9 || c == 10 || c == 13
  }

  function SkipSpace(text: Text, p: nat): (q: nat)
    requires p <= |text|
    ensures p <= q <= |text| && !IsSpace(At(text, q))
    decreases |text| - p
  {
    if IsSpace(At(text, p)) then SkipSpace(text, p + 1) else p
  }

  /** `strncmp` of the front of the text. */
  predicate StartsWith(text: Text, p: nat, word: Text)
    requires p <= |text|
  {
    p + |word| <= |text| && text[p..p + |word|] == word
  }

  /** `strncasecmp` with a word in lower case. */
  predicate StartsLike(text: Text, p: nat, word: Text)
    requires p <= |text|
  {
    && p + |word| <= |text|
    && forall i :: 0 <= i < |word| ==> text[p + i] == word[i] || text[p + i] as int + 32 == word[i]
  }

  /** `json_next_token`. With the default setting of `decode_invalid_numbers`, infinities and NaNs are numbers for the
      codec to read. */
  function NextToken(cfg: Config, text: Text, p: nat): (r: (Token, nat))
    requires p <= |text|
    ensures p <= r.1 <= |text|
    ensures !r.0.TEnd? && !r.0.TError? ==> r.1 > p
  {
    var q := SkipSpace(text, p);
    var ch := At(text, q);
    if ch == 0 then (TEnd, q)
    else if ch == 123 then (TObjBegin, q + 1)
    else if ch == 125 then (TObjEnd, q + 1)
    else if ch == 91 then (TArrBegin, q + 1)
    else if ch == 93 then (TArrEnd, q + 1)
    else if ch == 44 then (TComma, q + 1)
    else if ch == 58 then (TColon, q + 1)
    else if ch == 34 then ScanString(text, q + 1, [])
    else if ch == 45 || 48 <= ch <= 57 then ScanNumber(cfg, text, q)
    else if StartsWith(text, q, TRUE) then (TBoolean(true), q + 4)
    else if StartsWith(text, q, FALSE) then (TBoolean(false), q + 5)
    else if StartsWith(text, q, NULL) then (TNull, q + 4)
    else if ch == 43 || StartsLike(text, q, [105, 110, 102]) || StartsLike(text, q, [110, 97, 110]) then
      ScanNumber(cfg, text, q)
    else (TError, q)
  }

  /** `json_next_number_token` */
  function ScanNumber(cfg: Config, text: Text, p: nat): (r: (Token, nat))
    requires p <= |text|
    ensures p <= r.1 <= |text| && (r.0.TNumber? || r.0.TError?)
    ensures r.0.TNumber? ==> r.1 > p
  {
    var n := cfg.codec.read(text, p);
    if n.Some? && p < n.value.1 <= |text| then (TNumber(n.value.0), n.value.1) else (TError, p)
  }

  // ---------- Parsing ----------

  datatype Outcome = Error | Done(v: Value, p: nat)

  /** Setting a key of a Lua table. */
  function Set(fields: seq<Field>, key: Text, v: Value): seq<Field> {
    if fields == [] then [Field(key, v)]
    else if fields[0].key == key then [Field(key, v)] + fields[1..]
    else [fields[0]] + Set(fields[1..], key, v)
  }

  /** `json_process_value`, with the token that ends at `p` and `depth` contexts open. */
  function ParseValue(cfg: Config, text: Text, tok: Token, p: nat, depth: nat): (r: Outcome)
    requires p <= |text|
    ensures r.Done? ==> p <= r.p <= |text|
    decreases |text| - p, 2
  {
    match tok
    case TString(s) => Done(Str(s), p)
    case TNumber(n) => Done(Num(n), p)
    case TBoolean(b) => Done(Bool(b), p)
    case TNull => Done(Null, p)
    case TObjBegin =>
      // json_parse_object_context
      if depth + 1 > cfg.maxDepth then Error
      else
        var (t, q) := NextToken(cfg, text, p);
        if t.TObjEnd? then Done(Obj([]), q) else ParseFields(cfg, text, t, q, depth + 1, [])
    case TArrBegin =>
      // json_parse_array_context
      if depth + 1 > cfg.maxDepth then Error
      else
        var (t, q) := NextToken(cfg, text, p);
        if t.TArrEnd? then Done(Obj([]), q)
        else if t.TEnd? || t.TError? then Error
        else ParseItems(cfg, text, t, q, depth + 1, [])
    case _ => Error
  }

  /** The loop over the fields of an object. */
  function ParseFields(cfg: Config, text: Text, tok: Token, p: nat, depth: nat, done: seq<Field>): (r: Outcome)
    requires p <= |text|
    ensures r.Done? ==> p <= r.p <= |text|
    decreases |text| - p, 1
  {
    if !tok.TString? then Error
    else
      var (colon, p1) := NextToken(cfg, text, p);
      if !colon.TColon? then Error
      else
        var (t, p2) := NextToken(cfg, text, p1);
        match ParseValue(cfg, text, t, p2, depth)
        case Error => Error
        case Done(v, p3) =>
          var fields := Set(done, tok.s, v);
          var (sep, p4) := NextToken(cfg, text, p3);
          if sep.TObjEnd? then Done(Obj(fields), p4)
          else if !sep.TComma? then Error
          else
            var (next, p5) := NextToken(cfg, text, p4);
            ParseFields(cfg, text, next, p5, depth, fields)
  }

  /** The loop over the items of an array. */
  function ParseItems(cfg: Config, text: Text, tok: Token, p: nat, depth: nat, done: seq<Value>): (r: Outcome)
    requires p <= |text|
    ensures r.Done? ==> p <= r.p <= |text|
    decreases |text| - p, 3
  {
    match ParseValue(cfg, text, tok, p, depth)
    case Error => Error
    case Done(v, p3) =>
      var items := done + [v];
      var (sep, p4) := NextToken(cfg, text, p3);
      if sep.TArrEnd? then Done(Arr(items), p4)
      else if !sep.TComma? then Error
      else
        var (next, p5) := NextToken(cfg, text, p4);
        ParseItems(cfg, text, next, p5, depth, items)
  }

  /** `json_decode` */
  function Decode(cfg: Config, text: Text): Option<Value> {
    if |text| >= 2 && (text[0] == 0 || text[1] == 0) then None  // UTF-16 or UTF-32
    else
      var (tok, p) := NextToken(cfg, text, 0);
      match ParseValue(cfg, text, tok, p, 0)
      case Error => None
      case Done(v, q) => if NextToken(cfg, text, q).0.TEnd? then Some(v) else None
  }

  // ---------- The round trip ----------

  /** What follows a value in printed text. */
  predicate Delimited(b: Text) {
    b == [] || b[0] == 44 || b[0] == 93 || b[0] == 125
  }

  /** Numbers are written so that they can be read back: they start like a number, and reading stops at a delimiter. */
  ghost predicate Faithful(codec: Codec) {
    forall n, a: Text, b: Text :: Delimited(b) ==> ReadsBack(codec, n, a, b)
  }

  ghost predicate ReadsBack(codec: Codec, n: int, a: Text, b: Text) {
    var m := codec.show(n);
    && |m| > 0 && (m[0] == 45 || 48 <= m[0] <= 57)
    && (forall i :: 0 <= i < |m| ==> m[i] != 0)
    && codec.read(a + m + b, |a|) == Some((n, |a| + |m|))
  }

  /** Tables that Lua can hold and that are not empty arrays. */
  predicate Storable(v: Value)
    decreases v, 0
  {
    match v
    case Arr(items) => items != [] && AllStorable(items)
    case Obj(fields) => Distinct(fields) && FieldsStorable(fields)
    case _ => true
  }

  predicate AllStorable(items: seq<Value>)
    decreases items, 1
  {
    items == [] || (Storable(items[0]) && AllStorable(items[1..]))
  }

  predicate FieldsStorable(fields: seq<Field>)
    decreases fields, 1
  {
    fields == [] || (Storable(fields[0].value) && FieldsStorable(fields[1..]))
  }

  predicate Distinct(fields: seq<Field>) {
    forall i, j :: 0 <= i < j < |fields| ==> fields[i].key != fields[j].key
  }

  /** How deep tables are nested. */
  function Depth(v: Value): nat
    decreases v, 0
  {
    match v
    case Arr(items) => 1 + ItemsDepth(items)
    case Obj(fields) => 1 + FieldsDepth(fields)
    case _ => 0
  }

  function ItemsDepth(items: seq<Value>): nat
    decreases items, 1
  {
    if items == [] then 0 else Max(Depth(items[0]), ItemsDepth(items[1..]))
  }

  function FieldsDepth(fields: seq<Field>): nat
    decreases fields, 1
  {
    if fields == [] then 0 else Max(Depth(fields[0].value), FieldsDepth(fields[1..]))
  }

  function Max(a: nat, b: nat): nat {
    if a < b then b else a
  }

  /** Reading inside of a text made of three parts. */
  lemma Middle(a: Text, m: Text, b: Text, i: nat)
    requires i < |m|
    ensures At(a + m + b, |a| + i) == m[i]
  {
  }

  /** Skipping stops at once where there is no space. */
  lemma NoSpace(text: Text, p: nat)
    requires p <= |text| && !IsSpace(At(text, p))
    ensures SkipSpace(text, p) == p
  {
  }

  lemma LowHexDigit(n: nat)
    requires n < 16
    ensures HexDigit(LowHex(n)) == n
  {
  }

  lemma {:induction false} SetNew(done: seq<Field>, key: Text, v: Value)
    requires forall i :: 0 <= i < |done| ==> done[i].key != key
    ensures Set(done, key, v) == done + [Field(key, v)]
    decreases |done|
  {
    if done != [] { SetNew(done[1..], key, v); }
  }

  lemma {:induction false} NoZeroBytes(s: Text)
    ensures forall i :: 0 <= i < |PrintBytes(s)| ==> PrintBytes(s)[i] != 0
    decreases |s|
  {
    if s != [] { NoZeroBytes(s[1..]); }
  }

  /** Printed text does not look like UTF-16: its first two bytes are not zero. */
  lemma NotWide(codec: Codec, v: Value)
    requires Faithful(codec) && Storable(v)
    ensures var m := Print(codec, v); |m| >= 1 && m[0] != 0 && (|m| >= 2 ==> m[1] != 0)
  {
    match v
    case Num(n) => assert ReadsBack(codec, n, [], []);
    case Str(s) => NoZeroBytes(s);
    case Arr(items) => FirstByte(codec, items[0]);
    case Obj(fields) => if fields != [] { assert PrintFields(codec, fields)[0] == 34; }
    case _ =>
  }

  lemma FirstByte(codec: Codec, v: Value)
    requires Faithful(codec)
    ensures |Print(codec, v)| >= 1 && Print(codec, v)[0] != 0
  {
    if v.Num? { assert ReadsBack(codec, v.n, [], []); }
  }

  // ---------- Unicode ----------

  /** A code point that is not a surrogate. */
  predicate Scalar(cp: int) {
    0 <= cp < 0x110000 && !(0xD800 <= cp < 0xE000)
  }

  predicate Continuation(b: Byte) {
    0x80 <= b < 0xC0
  }

  /** The code point that bytes encode, by the table in section 3 of RFC 3629; -1 if they are no such encoding, or not
      the shortest one. */
  function CodePoint(m: Text): int {
    if |m| == 1 && m[0] < 0x80 then m[0]
    else if |m| == 2 && 0xC0 <= m[0] < 0xE0 && Continuation(m[1]) then
      Shortest((m[0] as int - 0xC0) * 64 + (m[1] as int - 0x80), 0x80)
    else if |m| == 3 && 0xE0 <= m[0] < 0xF0 && Continuation(m[1]) && Continuation(m[2]) then
      Shortest((m[0] as int - 0xE0) * 4096 + (m[1] as int - 0x80) * 64 + (m[2] as int - 0x80), 0x800)
    else if |m| == 4 && 0xF0 <= m[0] < 0xF8 && Continuation(m[1]) && Continuation(m[2]) && Continuation(m[3]) then
      Shortest((m[0] as int - 0xF0) * 262144 + (m[1] as int - 0x80) * 4096 + (m[2] as int - 0x80) * 64
               + (m[3] as int - 0x80), 0x10000)
    else -1
  }

  function Shortest(cp: int, least: int): int {
    if cp >= least then cp else -1
  }

  /** `codepoint_to_utf8` writes the UTF-8 encoding of every code point. */
  lemma Utf8Means(cp: nat)
    requires cp < 0x110000
    ensures CodePoint(Utf8(cp)) == cp
  {
    assert cp / 4096 / 64 == cp / 262144;
    assert cp / 64 / 64 == cp / 4096;
  }

  function Unit(u: nat): Text
    requires u < 0x10000
  {
    [92, 117, LowHex(u / 4096), LowHex(u / 256 % 16), LowHex(u / 16 % 16), LowHex(u % 16)]
  }

  /** The escape for a code point: one UTF-16 unit, or two (section 2.5 of RFC 4627). */
  function UnicodeText(cp: nat): Text
    requires Scalar(cp)
  {
    if cp < 0x10000 then Unit(cp)
    else Unit(0xD800 + (cp - 0x10000) / 1024) + Unit(0xDC00 + (cp - 0x10000) % 1024)
  }

  lemma UnitReads(a: Text, u: nat, b: Text)
    requires u < 0x10000
    ensures var text := a + Unit(u) + b;
      At(text, |a|) == 92 && At(text, |a| + 1) == 117 && Hex4(text, |a| + 2) == u
  {
    var m := Unit(u);
    Middle(a, m, b, 0);
    Middle(a, m, b, 1);
    Middle(a, m, b, 2);
    Middle(a, m, b, 3);
    Middle(a, m, b, 4);
    Middle(a, m, b, 5);
    LowHexDigit(u / 4096);
    LowHexDigit(u / 256 % 16);
    LowHexDigit(u / 16 % 16);
    LowHexDigit(u % 16);
    HexDigits4(u);
  }

  lemma HexDigits4(u: nat)
    requires u < 0x10000
    ensures 0x1000 * (u / 4096) + 0x100 * (u / 256 % 16) + 0x10 * (u / 16 % 16) + u % 16 == u
  {
    assert u / 256 == u / 16 / 16;
    assert u / 4096 == u / 256 / 16;
  }

  /** Every escape of a scalar value is decoded to its UTF-8 encoding. */
  lemma EscapeMeans(a: Text, cp: nat, b: Text)
    requires Scalar(cp)
    ensures var text := a + UnicodeText(cp) + b;
      UnicodeEscape(text, |a|) == Good(Utf8(cp), |a| + |UnicodeText(cp)|)
    ensures CodePoint(Utf8(cp)) == cp
  {
    hide Hex4, Utf8, CodePoint, Unit;
    Utf8Means(cp);
    if cp < 0x10000 {
      UnitReads(a, cp, b);
      UnitSize(cp);
    } else {
      var hi, lo := 0xD800 + (cp - 0x10000) / 1024, 0xDC00 + (cp - 0x10000) % 1024;
      assert a + (Unit(hi) + Unit(lo)) + b == a + Unit(hi) + (Unit(lo) + b);
      assert a + (Unit(hi) + Unit(lo)) + b == (a + Unit(hi)) + Unit(lo) + b;
      UnitReads(a, hi, Unit(lo) + b);
      UnitReads(a + Unit(hi), lo, b);
      UnitSize(hi);
      UnitSize(lo);
      assert hi % 1024 == (cp - 0x10000) / 1024 && lo % 1024 == (cp - 0x10000) % 1024;
    }
  }

  lemma UnitSize(u: nat)
    requires u < 0x10000
    ensures |Unit(u)| == 6
  {
  }

  /** And nothing else is decoded: a surrogate that is not part of a pair is an error. */
  lemma EscapeIsScalar(text: Text, p: nat)
    requires p + 2 <= |text|
    ensures var e := UnicodeEscape(text, p);
      e.Good? ==> Scalar(CodePoint(e.bytes)) && e.bytes == Utf8(CodePoint(e.bytes))
  {
    hide Hex4, Utf8, CodePoint;
    var cp := Hex4(text, p + 2);
    if UnicodeEscape(text, p).Good? {
      if 0xD800 <= cp < 0xE000 {
        var low := Hex4(text, p + 8);
        Utf8Means(0x10000 + cp % 1024 * 1024 + low % 1024);
      } else {
        Utf8Means(cp);
      }
    }
  }
}
