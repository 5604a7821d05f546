/** The text that Python's `json.dumps(value, ensure_ascii=False)` writes, as far as the
    SSE frames of python-ai/app/api/chat.py depend on it. */
module JsonText {
  import opened Common
  import opened Sse

  /** A JSON value; `repr` is the text of a number. */
  datatype Json =
    | Null
    | Bool(b: bool)
    | Num(repr: string)
    | Str(s: string)
    | Arr(items: seq<Json>)
    | Obj(fields: seq<Field>)

  datatype Field = Field(name: string, value: Json)

  // ---- strings -------------------------------------------------------------------------

  function HexDigit(n: nat): char
    requires n < 16
  {
    "0123456789abcdef"[n]
  }

  function HexValue(c: char): Option<nat> {
    if '0' <= c <= '9' then Some(c as int - '0' as int)
    else if 'a' <= c <= 'f' then Some(c as int - 'a' as int + 10)
    else if 'A' <= c <= 'F' then Some(c as int - 'A' as int + 10)
    else None
  }

  /** Quotes, backslashes and control characters are escaped (RFC 8259, section 7). */
  function EscapeChar(c: char): string {
    if c == '"' then "\\\""
    else if c == '\\' then "\\\\"
    else if c == '\n' then "\\n"
    else if c == '\r' then "\\r"
    else if c == '\t' then "\\t"
    else if c as int == 12 then "\\f"
    else if c as int == 8 then "\\b"
    else if c < ' ' then "\\u00" + [HexDigit(c as int / 16), HexDigit(c as int % 16)]
    else [c]
  }

  function Escape(s: string): string {
    if s == [] then [] else EscapeChar(s[0]) + Escape(s[1..])
  }

  /** The code unit of four hexadecimal digits; surrogates have no character of their own. */
  function CodeUnit(s: string): Option<char>
    requires |s| >= 4
  {
    match (HexValue(s[0]), HexValue(s[1]), HexValue(s[2]), HexValue(s[3]))
    case (Some(a), Some(b), Some(c), Some(d)) =>
      var n := ((a * 16 + b) * 16 + c) * 16 + d;
      if a < 16 && b < 16 && c < 16 && d < 16 && (n < 0xD800 || 0xE000 <= n < 0x10000) then Some(n as char) else None
    case _ => None
  }

  function Cons(c: Option<char>, rest: Option<string>): Option<string> {
    if c.Some? && rest.Some? then Some([c.value] + rest.value) else None
  }

  /** A reader of JSON string bodies, following the grammar of RFC 8259, section 7. */
  function Unescape(s: string): Option<string> {
    if s == [] then Some([])
    else if s[0] == '\\' then
      if |s| < 2 then None
      else if s[1] == 'u' then
        if |s| < 6 then None else Cons(CodeUnit(s[2..]), Unescape(s[6..]))
      else
        var c := match s[1]
          case '"' => Some('"')
          case '\\' => Some('\\')
          case '/' => Some('/')
          case 'b' => Some(8 as char)
          case 'f' => Some(12 as char)
          case 'n' => Some('\n')
          case 'r' => Some('\r')
          case 't' => Some('\t')
          case _ => None;
        Cons(c, Unescape(s[2..]))
    else if s[0] < ' ' || s[0] == '"' then None
    else Cons(Some(s[0]), Unescape(s[1..]))
  }

  lemma ControlCodeUnit(c: char, digits: string)
    requires c < ' ' && |digits| >= 4
    requires digits[0] == '0' && digits[1] == '0'
    requires digits[2] == HexDigit(c as int / 16) && digits[3] == HexDigit(c as int % 16)
    ensures CodeUnit(digits) == Some(c)
  {
    var n := c as int;
    assert HexValue(digits[2]) == Some(n / 16) && HexValue(digits[3]) == Some(n % 16);
  }

  lemma UnescapeChar(c: char, rest: string)
    ensures Unescape(EscapeChar(c) + rest) == Cons(Some(c), Unescape(rest))
  {
    var e := EscapeChar(c);
    var s := e + rest;
    if |e| == 6 {
      assert s[..2] == "\\u" && s[6..] == rest;
      ControlCodeUnit(c, s[2..]);
    } else if |e| == 2 {
      assert s[2..] == rest;
    } else {
      assert s[1..] == rest;
    }
  }

  /** Reading back an escaped string gives the string, whatever characters it has. */
  lemma {:induction false} UnescapeEscape(s: string)
    ensures Unescape(Escape(s)) == Some(s)
  {
    if s != [] {
      UnescapeEscape(s[1..]);
      UnescapeChar(s[0], Escape(s[1..]));
      assert s == [s[0]] + s[1..];
    }
  }

  // ---- values --------------------------------------------------------------------------

  function Dumps(v: Json): string {
    match v
    case Null => "null"
    case Bool(b) => if b then "true" else "false"
    case Num(repr) => repr
    case Str(s) => "\"" + Escape(s) + "\""
    case Arr(items) => "[" + DumpItems(items) + "]"
    case Obj(fields) => "{" + DumpFields(fields) + "}"
  }

  function DumpItems(items: seq<Json>): string {
    if items == [] then ""
    else Dumps(items[0]) + (if |items| == 1 then "" else ", ") + DumpItems(items[1..])
  }

  function DumpFields(fields: seq<Field>): string {
    if fields == [] then ""
    else
      "\"" + Escape(fields[0].name) + "\": " + Dumps(fields[0].value) +
      (if |fields| == 1 then "" else ", ") + DumpFields(fields[1..])
  }

  ghost predicate NoControl(s: string) {
    forall i :: 0 <= i < |s| ==> s[i] >= ' '
  }

  /** Numbers are written without control characters. */
  ghost predicate NumbersPlain(v: Json) {
    match v
    case Num(repr) => NoControl(repr)
    case Arr(items) => forall x :: x in items ==> NumbersPlain(x)
    case Obj(fields) => forall f :: f in fields ==> NumbersPlain(f.value)
    case _ => true
  }

  lemma {:induction false} EscapeNoControl(s: string)
    ensures NoControl(Escape(s))
  {
    if s != [] {
      EscapeNoControl(s[1..]);
      assert NoControl(EscapeChar(s[0]));
    }
  }

  lemma NoControlConcat(a: string, b: string)
    requires NoControl(a) && NoControl(b)
    ensures NoControl(a + b)
  {
  }

  lemma {:induction false} DumpsNoControl(v: Json)
    requires NumbersPlain(v)
    ensures NoControl(Dumps(v))
  {
    match v
    case Str(s) => EscapeNoControl(s);
    case Arr(items) => DumpItemsNoControl(items);
    case Obj(fields) => DumpFieldsNoControl(fields);
    case _ =>
  }

  lemma {:induction false} DumpItemsNoControl(items: seq<Json>)
    requires forall x :: x in items ==> NumbersPlain(x)
    ensures NoControl(DumpItems(items))
  {
    if items != [] {
      DumpsNoControl(items[0]);
      DumpItemsNoControl(items[1..]);
    }
  }

  lemma {:induction false} DumpFieldsNoControl(fields: seq<Field>)
    requires forall f :: f in fields ==> NumbersPlain(f.value)
    ensures NoControl(DumpFields(fields))
  {
    if fields != [] {
      EscapeNoControl(fields[0].name);
      DumpsNoControl(fields[0].value);
      DumpFieldsNoControl(fields[1..]);
      var name, end := "\"" + Escape(fields[0].name) + "\": ", if |fields| == 1 then "" else ", ";
      NoControlConcat(name, Dumps(fields[0].value));
      NoControlConcat(name + Dumps(fields[0].value), end);
      NoControlConcat(name + Dumps(fields[0].value) + end, DumpFields(fields[1..]));
    }
  }

  /** Every JSON object is written on one line, so every frame is a single `data:` field. */
  lemma ObjectOnOneLine(v: Json)
    requires v.Obj? && NumbersPlain(v)
    ensures OneLineObject(Dumps(v))
  {
    DumpsNoControl(v);
  }

  // ---- the stream ----------------------------------------------------------------------

  const CONTENT_KEY := "content"

  /** `_agent_chunk_to_sse` for plain text: `{"content": <chunk>}`. */
  function ContentObject(chunk: string): Json {
    Obj([Field(CONTENT_KEY, Str(chunk))])
  }

  /** What is written before the text of a content object, and after it. */
  function ContentHead(): string {
    "{" + ("\"" + Escape(CONTENT_KEY) + "\": ") + "\""
  }

  const CONTENT_TAIL := "\"}"

  /** Reads the content back out of the text of a content object. */
  function ReadContent(json: string): Option<string> {
    var head := |ContentHead()|;
    if ContentHead() <= json && |json| >= head + 2 && json[|json| - 2..] == CONTENT_TAIL
    then Unescape(json[head..|json| - 2])
    else None
  }

  lemma ReadWrapped(head: string, body: string)
    requires head == ContentHead()
    ensures ReadContent(head + body + CONTENT_TAIL) == Unescape(body)
  {
    var json := head + body + CONTENT_TAIL;
    assert json[|head|..|json| - 2] == body;
    assert json[|json| - 2..] == CONTENT_TAIL;
    assert json[..|head|] == head;
  }

  lemma DumpOneField(name: string, v: Json)
    ensures Dumps(Obj([Field(name, v)])) == "{" + ("\"" + Escape(name) + "\": " + Dumps(v)) + "}"
  {
    var fields := [Field(name, v)];
    assert fields[1..] == [];
    var body := "\"" + Escape(name) + "\": " + Dumps(v);
    assert DumpFields(fields) == body + "" + "" == body;
  }

  lemma Regroup(a: string, b: string, c: string, d: string, e: string, f: string)
    ensures a + (b + (c + d + e)) + f == (a + b + c) + d + (e + f)
  {
  }

  lemma ReadContentOfDump(chunk: string)
    ensures ReadContent(Dumps(ContentObject(chunk))) == Some(chunk)
  {
    var body, key := Escape(chunk), Escape(CONTENT_KEY);
    DumpOneField(CONTENT_KEY, Str(chunk));
    Regroup("{", "\"" + key + "\": ", "\"", body, "\"", "}");
    ReadWrapped(ContentHead(), body);
    UnescapeEscape(chunk);
  }

  function DumpAll(objects: seq<Json>): seq<string> {
    seq(|objects|, i requires 0 <= i < |objects| => Dumps(objects[i]))
  }

  /** The printed frames of a list of JSON objects, as one text. */
  lemma PrintedObjectsParse(objects: seq<Json>)
    requires forall k :: 0 <= k < |objects| ==> objects[k].Obj? && NumbersPlain(objects[k])
    ensures EventsOf(Print(DumpAll(objects))) == Expected(DumpAll(objects))
  {
    forall k | 0 <= k < |objects| ensures OneLineObject(DumpAll(objects)[k]) {
      ObjectOnOneLine(objects[k]);
    }
    PrintParses(DumpAll(objects));
  }

  /** Any list of JSON objects, printed as frames and closed by `[DONE]`, then cut into
      arbitrary chunks that are pushed through the parser one after the other, arrives as
      exactly the texts of these objects and one `done`. */
  method ReceiveObjects(ghost objects: seq<Json>, chunks: seq<string>) returns (events: seq<Event>)
    requires forall k :: 0 <= k < |objects| ==> objects[k].Obj? && NumbersPlain(objects[k])
    requires Flatten(chunks) == Print(DumpAll(objects))
    ensures events == Expected(DumpAll(objects))
  {
    PrintedObjectsParse(objects);
    events := ParseChunks(chunks);
  }

  function Contents(texts: seq<string>): seq<Json> {
    seq(|texts|, i requires 0 <= i < |texts| => ContentObject(texts[i]))
  }

  /** What the reader takes out of the data events. */
  function ReadAll(es: seq<Event>): seq<Option<string>> {
    if es == [] then []
    else if es[0].Data? then [ReadContent(es[0].data)] + ReadAll(es[1..])
    else ReadAll(es[1..])
  }

  /** The texts an agent streams reach the reader unchanged, whatever characters they contain
      and however the network cuts the stream. */
  method ReceiveTexts(ghost texts: seq<string>, chunks: seq<string>) returns (read: seq<Option<string>>)
    requires Flatten(chunks) == Print(DumpAll(Contents(texts)))
    ensures |read| == |texts| && forall i :: 0 <= i < |texts| ==> read[i] == Some(texts[i])
  {
    var events := ReceiveObjects(Contents(texts), chunks);
    ReadExpected(texts);
    read := ReadAll(events);
  }

  lemma ReadPayload(payload: string, rest: seq<Event>)
    ensures ReadAll([Data(payload)] + rest) == [ReadContent(payload)] + ReadAll(rest)
  {
    assert ([Data(payload)] + rest)[1..] == rest;
  }

  lemma {:induction false} ReadExpected(texts: seq<string>)
    ensures var read := ReadAll(Expected(DumpAll(Contents(texts))));
      |read| == |texts| && forall i :: 0 <= i < |texts| ==> read[i] == Some(texts[i])
  {
    var payloads := DumpAll(Contents(texts));
    if texts == [] {
      assert ReadAll([Done]) == ReadAll([Done][1..]);
    } else {
      ReadExpected(texts[1..]);
      assert payloads[1..] == DumpAll(Contents(texts[1..]));
      ReadPayload(payloads[0], Expected(payloads[1..]));
      ReadContentOfDump(texts[0]);
    }
  }
}
