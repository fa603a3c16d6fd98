/** The JSON codec in the form it has in lua_cjson.c and strbuf.c: a growing buffer with checked and unchecked
    appends, a printer that writes to it, and a parser that moves a pointer over the text and decodes strings into a
    buffer. */
module JsonCode {
  import opened Common
  import opened Json
  import JsonPrinted

  const STRBUF_DEFAULT_SIZE: nat := 1023

  /** strbuf.c's `strbuf_t`, with the default exponential growth. There is always room for a final zero. */
  class StrBuf {
    var buf: array<Byte>
    var length: nat

    ghost predicate Valid()
      reads this
    {
      length < buf.Length
    }

    ghost function Contents(): Text
      requires Valid()
      reads this, buf
    {
      buf[..length]
    }

    /** `strbuf_empty_length` */
    function Room(): nat
      requires Valid()
      reads this
    {
      buf.Length - length - 1
    }

    /** `strbuf_init` */
    constructor (len: int)
      ensures Valid() && fresh(buf) && Contents() == [] && Room() >= len
    {
      var size := if len <= 0 then STRBUF_DEFAULT_SIZE else len + 1;
      buf := new Byte[size](_ => 0);
      length := 0;
    }

    /** `strbuf_ensure_empty_length` with `strbuf_resize` and `calculate_new_size`. */
    method EnsureRoom(len: nat)
      requires Valid()
      modifies this`buf
      ensures Valid() && Room() >= len && Contents() == old(Contents())
      ensures buf == old(buf) || fresh(buf)
    {
      if len > Room() {
        var reqsize := length + len + 1;
        var newsize := buf.Length;
        while newsize < reqsize
          invariant newsize > 0
          decreases reqsize - newsize
        {
          newsize := newsize * 2;
        }
        var was := buf;
        var bigger := new Byte[newsize](k requires 0 <= k reads was => if k < was.Length then was[k] else 0);
        assert bigger[..length] == buf[..length];
        buf := bigger;
      }
    }

    /** `strbuf_append_char_unsafe`: the caller has made sure that there is room. */
    method AppendCharUnsafe(c: Byte)
      requires Valid() && Room() >= 1
      modifies this`length, buf
      ensures Valid() && Contents() == old(Contents()) + [c] && Room() == old(Room()) - 1
    {
      buf[length] := c;
      length := length + 1;
    }

    /** `strbuf_append_char` */
    method AppendChar(c: Byte)
      requires Valid()
      modifies this, buf
      ensures Valid() && (buf == old(buf) || fresh(buf)) && Contents() == old(Contents()) + [c]
    {
      EnsureRoom(1);
      AppendCharUnsafe(c);
    }

    /** `strbuf_append_mem_unsafe` */
    method AppendMemUnsafe(m: Text)
      requires Valid() && Room() >= |m|
      modifies this`length, buf
      ensures Valid() && Contents() == old(Contents()) + m && Room() == old(Room()) - |m|
    {
      ghost var was := Contents();
      for i := 0 to |m|
        invariant length + |m| < buf.Length && length == old(length)
        invariant buf[..length + i] == was + m[..i]
      {
        buf[length + i] := m[i];
      }
      length := length + |m|;
      assert m[..|m|] == m;
    }

    /** `strbuf_append_mem` */
    method AppendMem(m: Text)
      requires Valid()
      modifies this, buf
      ensures Valid() && (buf == old(buf) || fresh(buf)) && Contents() == old(Contents()) + m
    {
      EnsureRoom(|m|);
      AppendMemUnsafe(m);
    }

    /** `strbuf_append_string`, which grows by need. */
    method AppendString(m: Text)
      requires Valid()
      modifies this, buf
      ensures Valid() && (buf == old(buf) || fresh(buf)) && Contents() == old(Contents()) + m
      ensures old(Room()) >= |m| ==> Room() == old(Room()) - |m|
    {
      ghost var was, room := Contents(), Room();
      for i := 0 to |m|
        invariant Valid() && (buf == old(buf) || fresh(buf)) && Contents() == was + m[..i]
        invariant room >= |m| ==> Room() == room - i
      {
        if Room() < 1 { EnsureRoom(1); }
        AppendCharUnsafe(m[i]);
        assert m[..i] + [m[i]] == m[..i + 1];
      }
      assert m[..|m|] == m;
    }

    method Reset()
      modifies this`length
      requires Valid()
      ensures Valid() && Contents() == []
    {
      length := 0;
    }
  }

  // ---------- Printing ----------

  lemma PrintByteSize(c: Byte)
    ensures 1 <= |PrintByte(c)| <= 6
  {
  }

  lemma PrintNext(s: Text, i: nat)
    requires i < |s|
    ensures PrintBytes(s[i..]) == PrintByte(s[i]) + PrintBytes(s[i + 1..])
  {
    assert s[i..][1..] == s[i + 1..];
  }

  lemma PrintNothing()
    ensures PrintBytes([]) == []
  {
  }

  /** One byte of a string, escaped if it has to be. */
  method AppendByte(json: StrBuf, c: Byte)
    requires json.Valid() && json.Room() >= 6
    modifies json, json.buf
    ensures json.Valid() && (json.buf == old(json.buf) || fresh(json.buf)) && json.Room() >= old(json.Room()) - 6
    ensures json.Contents() == old(json.Contents()) + PrintByte(c)
  {
    hide PrintByte;
    PrintByteSize(c);
    var escstr := PrintByte(c);
    if |escstr| > 1 {
      json.AppendString(escstr);
    } else {
      assert escstr == [escstr[0]];
      json.AppendCharUnsafe(escstr[0]);
    }
  }

  /** lua_cjson.c's `json_append_string`: with room for six times the length and two, no unchecked append leaves the
      buffer. */
  method AppendString(json: StrBuf, s: Text)
    requires json.Valid()
    modifies json, json.buf
    ensures json.Valid() && (json.buf == old(json.buf) || fresh(json.buf))
    ensures json.Contents() == old(json.Contents()) + PrintString(s)
  {
    hide PrintByte, PrintBytes;
    ghost var was, done := json.Contents(), [];
    json.EnsureRoom(|s| * 6 + 2);
    json.AppendCharUnsafe(34);
    assert s[0..] == s;
    for i := 0 to |s|
      invariant json.Valid() && (json.buf == old(json.buf) || fresh(json.buf))
      invariant json.Room() >= (|s| - i) * 6 + 1
      invariant json.Contents() == was + [34] + done && done + PrintBytes(s[i..]) == PrintBytes(s)
    {
      PrintNext(s, i);
      Longer(was + [34], done, PrintByte(s[i]), PrintBytes(s[i + 1..]));
      AppendByte(json, s[i]);
      done := done + PrintByte(s[i]);
    }
    assert s[|s|..] == [];
    PrintNothing();
    Longer(was, [34], done, []);
    Longer(was, [34] + done, [34], []);
    json.AppendCharUnsafe(34);
  }

  lemma Longer(a: Text, b: Text, c: Text, d: Text)
    ensures a + b + c == a + (b + c) && b + (c + d) == b + c + d && c + [] == c
  {
  }

  /** What is left to print when `i` items are done. */
  ghost function RestItems(codec: Codec, items: seq<Value>, i: nat): Text
    requires i <= |items|
  {
    if i == |items| then [] else if i == 0 then PrintItems(codec, items) else [44] + PrintItems(codec, items[i..])
  }

  ghost function RestFields(codec: Codec, fields: seq<Field>, i: nat): Text
    requires i <= |fields|
  {
    if i == |fields| then [] else if i == 0 then PrintFields(codec, fields) else [44] + PrintFields(codec, fields[i..])
  }

  lemma NextItem(codec: Codec, items: seq<Value>, i: nat)
    requires i < |items|
    ensures RestItems(codec, items, i) == (if i == 0 then [] else [44]) + Print(codec, items[i])
      + RestItems(codec, items, i + 1)
    ensures ItemsDepth(items[i..]) == Max(Depth(items[i]), ItemsDepth(items[i + 1..]))
  {
    hide Print, Depth;
    assert items[0..] == items;
    assert items[i..][1..] == items[i + 1..];
    var m := Print(codec, items[i]);
    assert PrintItems(codec, items[i..]) == m + RestItems(codec, items, i + 1);
    assert [44] + (m + RestItems(codec, items, i + 1)) == [44] + m + RestItems(codec, items, i + 1);
    assert [] + m == m;
  }

  lemma NextField(codec: Codec, fields: seq<Field>, i: nat)
    requires i < |fields|
    ensures RestFields(codec, fields, i) ==
      (if i == 0 then [] else [44]) + PrintString(fields[i].key) + [58] + Print(codec, fields[i].value)
        + RestFields(codec, fields, i + 1)
    ensures FieldsDepth(fields[i..]) == Max(Depth(fields[i].value), FieldsDepth(fields[i + 1..]))
  {
    hide Print, Depth, PrintString;
    assert fields[0..] == fields;
    assert fields[i..][1..] == fields[i + 1..];
    var k, m, r := PrintString(fields[i].key), Print(codec, fields[i].value), RestFields(codec, fields, i + 1);
    assert PrintFields(codec, fields[i..]) == k + [58] + m + r;
    assert [44] + (k + [58] + m + r) == [44] + k + [58] + m + r;
    assert [] + k + [58] + m + r == k + [58] + m + r;
  }

  /** Whether something nested that deep may be printed at `depth`. */
  predicate Allowed(inner: nat, depth: nat, maxDepth: int) {
    inner == 0 || depth + inner <= maxDepth
  }

  /** lua_cjson.c's `json_append_data`; fails if and only if the value is nested too deep. */
  method AppendData(codec: Codec, maxDepth: int, depth: nat, json: StrBuf, v: Value) returns (ok: bool)
    requires json.Valid()
    modifies json, json.buf
    ensures json.Valid() && (json.buf == old(json.buf) || fresh(json.buf))
    ensures ok <==> Allowed(Depth(v), depth, maxDepth)
    ensures ok ==> json.Contents() == old(json.Contents()) + Print(codec, v)
    decreases v, 0
  {
    hide PrintString, PrintItems, PrintFields;
    ok := true;
    match v
    case Str(s) => AppendString(json, s);
    case Num(n) => json.AppendMem(codec.show(n));
    case Bool(b) => if b { json.AppendMem(TRUE); } else { json.AppendMem(FALSE); }
    case Null => json.AppendMem(NULL);
    case Arr(items) =>
      if depth + 1 > maxDepth { return false; }
      if |items| > 0 { ok := AppendArray(codec, maxDepth, depth + 1, json, items); }
      else { EmptyTable(json); }
    case Obj(fields) =>
      if depth + 1 > maxDepth { return false; }
      if |fields| > 0 { ok := AppendObject(codec, maxDepth, depth + 1, json, fields); }
      else { EmptyTable(json); }
  }

  /** `json_append_object` for a table with nothing in it. */
  method EmptyTable(json: StrBuf)
    requires json.Valid()
    modifies json, json.buf
    ensures json.Valid() && (json.buf == old(json.buf) || fresh(json.buf))
    ensures json.Contents() == old(json.Contents()) + [123, 125]
  {
    json.AppendChar(123);
    json.AppendChar(125);
  }

  /** lua_cjson.c's `json_append_array` */
  method AppendArray(codec: Codec, maxDepth: int, depth: nat, json: StrBuf, items: seq<Value>) returns (ok: bool)
    requires json.Valid() && items != []
    modifies json, json.buf
    ensures json.Valid() && (json.buf == old(json.buf) || fresh(json.buf))
    ensures ok <==> Allowed(ItemsDepth(items), depth, maxDepth)
    ensures ok ==> json.Contents() == old(json.Contents()) + ([91] + PrintItems(codec, items) + [93])
    decreases items, 1
  {
    hide Print, PrintItems, Depth, ItemsDepth, RestItems;
    ghost var was, done := json.Contents(), [91];
    json.AppendChar(91);
    BeginItems(codec, items);
    for i := 0 to |items|
      invariant json.Valid() && (json.buf == old(json.buf) || fresh(json.buf))
      invariant json.Contents() == was + done && done + RestItems(codec, items, i) == [91] + PrintItems(codec, items)
      invariant Allowed(ItemsDepth(items), depth, maxDepth) <==> Allowed(ItemsDepth(items[i..]), depth, maxDepth)
    {
      NextItem(codec, items, i);
      ghost var sep: Text := if i == 0 then [] else [44];
      Pieces(was, done, sep, Print(codec, items[i]), RestItems(codec, items, i + 1));
      if i > 0 { json.AppendChar(44); }
      ok := AppendData(codec, maxDepth, depth, json, items[i]);
      if !ok { return; }
      done := done + sep + Print(codec, items[i]);
    }
    EndItems(codec, items);
    ok := true;
    Longer(was, done, [93], []);
    json.AppendChar(93);
  }

  lemma Pieces(was: Text, done: Text, sep: Text, m: Text, rest: Text)
    ensures was + done + sep + m == was + (done + sep + m)
    ensures done + (sep + m + rest) == done + sep + m + rest
    ensures sep == [] ==> was + done + sep == was + done
  {
  }

  lemma BeginItems(codec: Codec, items: seq<Value>)
    requires items != []
    ensures RestItems(codec, items, 0) == PrintItems(codec, items) && items[0..] == items
  {
  }

  lemma EndItems(codec: Codec, items: seq<Value>)
    ensures RestItems(codec, items, |items|) == [] && ItemsDepth(items[|items|..]) == 0
  {
  }

  /** lua_cjson.c's `json_append_object` for string keys. */
  method AppendObject(codec: Codec, maxDepth: int, depth: nat, json: StrBuf, fields: seq<Field>) returns (ok: bool)
    requires json.Valid() && fields != []
    modifies json, json.buf
    ensures json.Valid() && (json.buf == old(json.buf) || fresh(json.buf))
    ensures ok <==> Allowed(FieldsDepth(fields), depth, maxDepth)
    ensures ok ==> json.Contents() == old(json.Contents()) + ([123] + PrintFields(codec, fields) + [125])
    decreases fields, 1
  {
    hide Print, PrintFields, Depth, FieldsDepth, RestFields, PrintString;
    ghost var was, done := json.Contents(), [123];
    json.AppendChar(123);
    BeginFields(codec, fields);
    for i := 0 to |fields|
      invariant json.Valid() && (json.buf == old(json.buf) || fresh(json.buf))
      invariant json.Contents() == was + done
        && done + RestFields(codec, fields, i) == [123] + PrintFields(codec, fields)
      invariant Allowed(FieldsDepth(fields), depth, maxDepth) <==> Allowed(FieldsDepth(fields[i..]), depth, maxDepth)
    {
      NextField(codec, fields, i);
      ghost var sep: Text := if i == 0 then [] else [44];
      ghost var key, m := PrintString(fields[i].key), Print(codec, fields[i].value);
      FieldPieces(was, done, sep, key, m, RestFields(codec, fields, i + 1));
      if i > 0 { json.AppendChar(44); }
      AppendString(json, fields[i].key);
      json.AppendChar(58);
      ok := AppendData(codec, maxDepth, depth, json, fields[i].value);
      if !ok { return; }
      done := done + sep + key + [58] + m;
    }
    EndFields(codec, fields);
    ok := true;
    Longer(was, done, [125], []);
    json.AppendChar(125);
  }

  lemma FieldPieces(was: Text, done: Text, sep: Text, key: Text, m: Text, rest: Text)
    ensures was + done + sep + key + [58] + m == was + (done + sep + key + [58] + m)
    ensures done + (sep + key + [58] + m + rest) == done + sep + key + [58] + m + rest
    ensures sep == [] ==> was + done + sep == was + done
  {
  }

  lemma BeginFields(codec: Codec, fields: seq<Field>)
    requires fields != []
    ensures RestFields(codec, fields, 0) == PrintFields(codec, fields) && fields[0..] == fields
  {
  }

  lemma EndFields(codec: Codec, fields: seq<Field>)
    ensures RestFields(codec, fields, |fields|) == [] && FieldsDepth(fields[|fields|..]) == 0
  {
  }

  // ---------- Parsing ----------

  /** The table `ch2token` at the bytes that are tokens. */
  function Punctuation(c: Byte): Token {
    match c
    case 44 => TComma
    case 58 => TColon
    case 91 => TArrBegin
    case 93 => TArrEnd
    case 123 => TObjBegin
    case _ => TObjEnd
  }

  /** lua_cjson.c's `json_parse_t`. The buffer for strings is as large as the text, so that appends to it need no
      check. */
  class Parser {
    const cfg: Config
    const text: Text
    const tmp: StrBuf
    var ptr: nat
    var depth: nat

    ghost predicate Valid()
      reads this, tmp
    {
      ptr <= |text| && tmp.Valid() && tmp.buf.Length > |text|
    }

    constructor (cfg: Config, text: Text)
      ensures Valid() && fresh(tmp) && fresh(tmp.buf) && this.cfg == cfg && this.text == text && ptr == 0 && depth == 0
    {
      this.cfg, this.text := cfg, text;
      tmp := new StrBuf(|text|);
      ptr, depth := 0, 0;
    }

    /** `json_append_unicode_escape` */
    method AppendUnicodeEscape() returns (ok: bool)
      requires Valid() && ptr + 2 <= |text| && tmp.Room() >= |text| - ptr
      modifies this`ptr, tmp`length, tmp.buf
      ensures Valid() && tmp.buf == old(tmp.buf)
      ensures var e := UnicodeEscape(text, old(ptr));
        && ok == e.Good?
        && (ok ==> ptr == e.next && tmp.Contents() == old(tmp.Contents()) + e.bytes && tmp.Room() >= |text| - ptr)
        && (!ok ==> ptr == old(ptr))
    {
      hide Utf8, Hex4;
      var escape_len := 6;
      var codepoint := Hex4(text, ptr + 2);
      if codepoint < 0 { return false; }
      if 0xD800 <= codepoint < 0xE000 {
        if codepoint >= 0xDC00 { return false; }
        if At(text, ptr + 6) != 92 || At(text, ptr + 7) != 117 { return false; }
        var low := Hex4(text, ptr + 8);
        if low < 0 || !(0xDC00 <= low < 0xE000) { return false; }
        codepoint := 0x10000 + codepoint % 1024 * 1024 + low % 1024;
        escape_len := 12;
      }
      Utf8Length(codepoint);
      tmp.AppendMemUnsafe(Utf8(codepoint));
      ptr := ptr + escape_len;
      ok := true;
    }

    /** `json_next_string_token`: no unchecked append leaves the buffer, since no escape is shorter than what it stands
        for. */
    method NextStringToken() returns (tok: Token)
      requires Valid() && At(text, ptr) == 34
      modifies this`ptr, tmp`length, tmp.buf
      ensures Valid() && tmp.buf == old(tmp.buf)
      ensures (tok, ptr) == ScanString(text, old(ptr) + 1, [])
    {
      hide UnicodeEscape, Unescape, ScanString;
      ptr := ptr + 1;
      ghost var start := ptr;
      tmp.Reset();
      while At(text, ptr) != 34
        invariant Valid() && tmp.buf == old(tmp.buf) && tmp.Room() >= |text| - ptr
        invariant ScanString(text, ptr, tmp.Contents()) == ScanString(text, start, [])
        decreases |text| - ptr
      {
        ScanStep(text, ptr, tmp.Contents());
        var ch := At(text, ptr);
        if ch == 0 { return TError; }
        if ch == 92 {
          ch := Unescape(At(text, ptr + 1));
          if ch == 117 {
            EscapeThere(text, ptr);
            var ok := AppendUnicodeEscape();
            if !ok { return TError; }
            continue;
          }
          if ch == 0 { return TError; }
          ptr := ptr + 1;
        }
        tmp.AppendCharUnsafe(ch);
        ptr := ptr + 1;
      }
      ScanStep(text, ptr, tmp.Contents());
      tok := TString(tmp.buf[..tmp.length]);
      ptr := ptr + 1;
    }

    /** `json_next_token` */
    method NextToken() returns (tok: Token)
      requires Valid()
      modifies this`ptr, tmp`length, tmp.buf
      ensures Valid() && tmp.buf == old(tmp.buf)
      ensures (tok, ptr) == Json.NextToken(cfg, text, old(ptr))
    {
      hide ScanString, StartsWith, StartsLike, ScanNumber;
      while IsSpace(At(text, ptr))
        invariant Valid() && tmp.buf == old(tmp.buf) && SkipSpace(text, ptr) == SkipSpace(text, old(ptr))
        decreases |text| - ptr
      {
        ptr := ptr + 1;
      }
      var ch := At(text, ptr);
      if ch == 0 { return TEnd; }
      if ch in {44, 58, 91, 93, 123, 125} {
        ptr := ptr + 1;
        return Punctuation(ch);
      }
      if ch == 34 {
        tok := NextStringToken();
      } else if ch == 45 || 48 <= ch <= 57 {
        tok := NextNumberToken();
      } else if StartsWith(text, ptr, TRUE) {
        WordRoom(text, ptr, TRUE);
        tok, ptr := TBoolean(true), ptr + 4;
      } else if StartsWith(text, ptr, FALSE) {
        WordRoom(text, ptr, FALSE);
        tok, ptr := TBoolean(false), ptr + 5;
      } else if StartsWith(text, ptr, NULL) {
        WordRoom(text, ptr, NULL);
        tok, ptr := TNull, ptr + 4;
      } else if ch == 43 || StartsLike(text, ptr, [105, 110, 102]) || StartsLike(text, ptr, [110, 97, 110]) {
        tok := NextNumberToken();
      } else {
        tok := TError;
      }
    }

    /** `json_next_number_token` */
    method NextNumberToken() returns (tok: Token)
      requires Valid()
      modifies this`ptr
      ensures Valid() && (tok, ptr) == ScanNumber(cfg, text, old(ptr))
    {
      var n := cfg.codec.read(text, ptr);
      if n.Some? && ptr < n.value.1 <= |text| {
        tok, ptr := TNumber(n.value.0), n.value.1;
      } else {
        tok := TError;
      }
    }

    /** `json_process_value` */
    method ProcessValue(tok: Token) returns (r: Option<Value>)
      requires Valid()
      modifies this`ptr, this`depth, tmp`length, tmp.buf
      ensures Valid() && tmp.buf == old(tmp.buf)
      ensures var out := ParseValue(cfg, text, tok, old(ptr), old(depth));
        if out.Error? then r.None? else r == Some(out.v) && ptr == out.p && depth == old(depth)
      decreases |text| - ptr, 4
    {
      hide Json.NextToken, ParseFields, ParseItems;
      match tok
      case TString(s) => r := Some(Str(s));
      case TNumber(n) => r := Some(Num(n));
      case TBoolean(b) => r := Some(Bool(b));
      case TNull => r := Some(Null);
      case TObjBegin => r := ParseObjectContext();
      case TArrBegin => r := ParseArrayContext();
      case _ => r := None;
    }

    /** `json_parse_object_context` */
    method ParseObjectContext() returns (r: Option<Value>)
      requires Valid()
      modifies this`ptr, this`depth, tmp`length, tmp.buf
      ensures Valid() && tmp.buf == old(tmp.buf)
      ensures var out := ParseValue(cfg, text, TObjBegin, old(ptr), old(depth));
        if out.Error? then r.None? else r == Some(out.v) && ptr == out.p && depth == old(depth)
      decreases |text| - ptr, 1
    {
      hide Json.NextToken, ParseFields, ParseItems;
      depth := depth + 1;
      if depth > cfg.maxDepth { return None; }
      var tok := NextToken();
      if tok.TObjEnd? {
        depth := depth - 1;
        return Some(Obj([]));
      }
      if !tok.TString? {
        NoKey(cfg, text, tok, ptr, depth, []);
        return None;
      }
      r := FieldLoop(tok.s);
    }

    /** The loop over the fields, from the one with the key that has been read. */
    method FieldLoop(key0: Text) returns (r: Option<Value>)
      requires Valid() && depth > 0
      modifies this`ptr, this`depth, tmp`length, tmp.buf
      ensures Valid() && tmp.buf == old(tmp.buf)
      ensures var out := ParseFields(cfg, text, TString(key0), old(ptr), old(depth), []);
        if out.Error? then r.None? else r == Some(out.v) && ptr == out.p && depth == old(depth) - 1
      decreases |text| - ptr, 3
    {
      hide Json.NextToken, ParseFields, ParseItems, ParseValue, Set;
      ghost var target := ParseFields(cfg, text, TString(key0), ptr, depth, []);
      var key, fields: seq<Field> := key0, [];
      while true
        invariant Valid() && tmp.buf == old(tmp.buf) && depth == old(depth) && ptr >= old(ptr)
        invariant ParseFields(cfg, text, TString(key), ptr, depth, fields) == target
        decreases |text| - ptr
      {
        FieldsSteps(cfg, text, key, ptr, depth, fields);
        var tok := NextToken();
        if !tok.TColon? { return None; }
        tok := NextToken();
        var v := ProcessValue(tok);
        if v.None? { return None; }
        fields := Set(fields, key, v.value);
        tok := NextToken();
        if tok.TObjEnd? {
          depth := depth - 1;
          return Some(Obj(fields));
        }
        if !tok.TComma? { return None; }
        tok := NextToken();
        if !tok.TString? {
          NoKey(cfg, text, tok, ptr, depth, fields);
          return None;
        }
        key := tok.s;
      }
    }

    /** `json_parse_array_context` */
    method ParseArrayContext() returns (r: Option<Value>)
      requires Valid()
      modifies this`ptr, this`depth, tmp`length, tmp.buf
      ensures Valid() && tmp.buf == old(tmp.buf)
      ensures var out := ParseValue(cfg, text, TArrBegin, old(ptr), old(depth));
        if out.Error? then r.None? else r == Some(out.v) && ptr == out.p && depth == old(depth)
      decreases |text| - ptr, 2
    {
      hide Json.NextToken, ParseFields, ParseItems;
      depth := depth + 1;
      if depth > cfg.maxDepth { return None; }
      var tok := NextToken();
      if tok.TArrEnd? {
        depth := depth - 1;
        return Some(Obj([]));
      }
      if tok.TEnd? || tok.TError? { return None; }
      r := ItemLoop(tok);
    }

    /** The loop over the items, from the one whose first token has been read. */
    method ItemLoop(tok0: Token) returns (r: Option<Value>)
      requires Valid() && depth > 0
      modifies this`ptr, this`depth, tmp`length, tmp.buf
      ensures Valid() && tmp.buf == old(tmp.buf)
      ensures var out := ParseItems(cfg, text, tok0, old(ptr), old(depth), []);
        if out.Error? then r.None? else r == Some(out.v) && ptr == out.p && depth == old(depth) - 1
      decreases |text| - ptr, 5
    {
      hide Json.NextToken, ParseFields, ParseItems, ParseValue;
      ghost var target := ParseItems(cfg, text, tok0, ptr, depth, []);
      var tok, items: seq<Value> := tok0, [];
      while true
        invariant Valid() && tmp.buf == old(tmp.buf) && depth == old(depth) && ptr >= old(ptr)
        invariant ParseItems(cfg, text, tok, ptr, depth, items) == target
        decreases |text| - ptr
      {
        ItemsSteps(cfg, text, tok, ptr, depth, items);
        var v := ProcessValue(tok);
        if v.None? { return None; }
        items := items + [v.value];
        tok := NextToken();
        if tok.TArrEnd? {
          depth := depth - 1;
          return Some(Arr(items));
        }
        if !tok.TComma? { return None; }
        tok := NextToken();
      }
    }
  }

  lemma Utf8Length(cp: nat)
    requires cp < 0x200000
    ensures 1 <= |Utf8(cp)| <= 4
  {
  }

  lemma WordRoom(text: Text, p: nat, word: Text)
    requires p <= |text| && StartsWith(text, p, word)
    ensures p + |word| <= |text|
  {
  }

  lemma EscapeThere(text: Text, p: nat)
    requires p + 1 <= |text| && Unescape(At(text, p + 1)) == 117
    ensures p + 2 <= |text|
  {
  }

  /** One round of the loop of `json_next_string_token`. */
  lemma ScanStep(text: Text, p: nat, done: Text)
    requires p <= |text|
    ensures var ch := At(text, p);
      var r := ScanString(text, p, done);
      if ch == 34 then r == (TString(done), p + 1)
      else if ch == 0 then r == (TError, p)
      else if ch == 92 then
        var c := Unescape(At(text, p + 1));
        if c == 117 then
          p + 2 <= |text| && var e := UnicodeEscape(text, p);
          r == if e.Bad? then (TError, p) else ScanString(text, e.next, done + e.bytes)
        else if c == 0 then r == (TError, p)
        else p + 2 <= |text| && r == ScanString(text, p + 2, done + [c])
      else r == ScanString(text, p + 1, done + [ch])
  {
    hide UnicodeEscape;
  }

  lemma NoKey(cfg: Config, text: Text, tok: Token, p: nat, depth: nat, done: seq<Field>)
    requires p <= |text| && !tok.TString?
    ensures ParseFields(cfg, text, tok, p, depth, done) == Error
  {
  }

  /** One round of the loop over fields, with its error cases. */
  lemma FieldsSteps(cfg: Config, text: Text, key: Text, p: nat, depth: nat, done: seq<Field>)
    requires p <= |text|
    ensures var all := ParseFields(cfg, text, TString(key), p, depth, done);
      var (colon, p1) := Json.NextToken(cfg, text, p);
      var (t, p2) := Json.NextToken(cfg, text, p1);
      var r := ParseValue(cfg, text, t, p2, depth);
      if !colon.TColon? || r.Error? then all == Error
      else
        var (sep, p4) := Json.NextToken(cfg, text, r.p);
        if sep.TObjEnd? then all == Done(Obj(Set(done, key, r.v)), p4)
        else if !sep.TComma? then all == Error
        else
          var (next, p5) := Json.NextToken(cfg, text, p4);
          p5 > p && all == ParseFields(cfg, text, next, p5, depth, Set(done, key, r.v))
  {
    hide Json.NextToken, ParseValue, Set;
  }

  lemma ItemsSteps(cfg: Config, text: Text, tok: Token, p: nat, depth: nat, done: seq<Value>)
    requires p <= |text|
    ensures var all := ParseItems(cfg, text, tok, p, depth, done);
      var r := ParseValue(cfg, text, tok, p, depth);
      if r.Error? then all == Error
      else
        var (sep, p4) := Json.NextToken(cfg, text, r.p);
        if sep.TArrEnd? then all == Done(Arr(done + [r.v]), p4)
        else if !sep.TComma? then all == Error
        else
          var (next, p5) := Json.NextToken(cfg, text, p4);
          p5 > p && all == ParseItems(cfg, text, next, p5, depth, done + [r.v])
  {
    hide Json.NextToken, ParseValue;
  }

  // ---------- The two together ----------

  /** lua_cjson.c's `json_decode` */
  method DecodeText(cfg: Config, text: Text) returns (r: Option<Value>)
    ensures r == Decode(cfg, text)
  {
    hide Json.NextToken, ParseValue;
    if |text| >= 2 && (text[0] == 0 || text[1] == 0) { return None; }
    var json := new Parser(cfg, text);
    var tok := json.NextToken();
    r := json.ProcessValue(tok);
    if r.Some? {
      tok := json.NextToken();
      if !tok.TEnd? { r := None; }
    }
  }

  /** Encoding and decoding again gives the value back, if neither finds it nested too deep. */
  method EncodeDecode(cfg: Config, encodeMaxDepth: int, v: Value) returns (encoded: bool, r: Option<Value>)
    requires Faithful(cfg.codec) && Storable(v)
    ensures encoded <==> Allowed(Depth(v), 0, encodeMaxDepth)
    ensures encoded ==> (r == Some(v) <==> Allowed(Depth(v), 0, cfg.maxDepth))
    ensures encoded && r.Some? ==> r == Some(v)
  {
    hide Print, Decode, Faithful, Storable, Depth;
    r := None;
    var json := new StrBuf(0);
    encoded := AppendData(cfg.codec, encodeMaxDepth, 0, json, v);
    if encoded {
      var text := json.buf[..json.length];
      assert [] + Print(cfg.codec, v) == Print(cfg.codec, v);
      r := DecodeText(cfg, text);
      JsonPrinted.RoundTrip(cfg, v);
    }
  }
}
