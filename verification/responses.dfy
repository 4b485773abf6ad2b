/**
  A client's reading of what the server writes: the head up to the first
  blank line, cut into the status line and `name: value` header lines, and
  the body after it. Reading the bytes of `emptyContent` and
  `defaultHandler` back gives the status, the headers and the body they
  were built from, and the declared `Content-Length` is the body's length.
*/
module Responses {
  import opened Wrappers
  import opened Search
  import opened JavaStrings
  import opened Lines
  import opened Server

  datatype Field = Field(name: string, value: string)

  datatype Response = Response(version: string, code: string, reason: string, fields: seq<Field>, body: string)

  datatype StatusParts = StatusParts(version: string, code: string, reason: string)

  /** A line cut at its first space. */
  function CutAtSpace(s: string): (r: Option<(string, string)>)
    ensures r.Some? ==> ' ' !in r.value.0 && s == r.value.0 + " " + r.value.1
    ensures r.None? <==> ' ' !in s
  {
    var i := IndexOf(s, " ", 0, |s|);
    FreeSingle(s, ' ');
    if i == -1 then None
    else
      FirstPieceHasNoSpace(s, i);
      Some((s[..i], s[i + 1..]))
  }

  /** What precedes the first space has none. */
  lemma FirstPieceHasNoSpace(s: string, i: int)
    requires i == IndexOf(s, " ", 0, |s|) && i != -1
    ensures ' ' !in s[..i] && s == s[..i] + " " + s[i + 1..]
  {
    PieceBeforeFirstIsFree(s, " ", i);
    FreeSingle(s[..i], ' ');
    SpaceAt(s, i);
  }

  lemma SpaceAt(s: string, i: int)
    requires MatchesAt(s, " ", i)
    ensures s == s[..i] + " " + s[i + 1..]
  {
    assert s[i..i + 1] == " ";
    assert s == s[..i] + s[i..i + 1] + s[i + 1..];
  }

  /** Cutting at the space after a space-free word gives the word and the rest. */
  lemma CutAtSpaceOf(a: string, b: string)
    requires ' ' !in a
    ensures CutAtSpace(a + " " + b) == Some((a, b))
  {
    var s := a + " " + b;
    FirstMatchAfter(a, " ", b);
    assert s[..|a|] == a && s[|a| + 1..] == b;
  }

  /** A status line: the version up to the first space, the code up to the next, the reason after it. */
  function ReadStatusLine(line: string): (r: Option<StatusParts>)
    ensures r.Some? ==> ' ' !in r.value.version && ' ' !in r.value.code
    ensures r.Some? ==> line == r.value.version + " " + r.value.code + " " + r.value.reason
  {
    var first := CutAtSpace(line);
    if first.None? then None
    else
      var second := CutAtSpace(first.value.1);
      if second.None? then None
      else
        var r := StatusParts(first.value.0, second.value.0, second.value.1);
        RejoinStatusLine(line, first.value.1, r);
        Some(r)
  }

  lemma RejoinStatusLine(line: string, rest: string, r: StatusParts)
    requires line == r.version + " " + rest && rest == r.code + " " + r.reason
    ensures line == r.version + " " + r.code + " " + r.reason
  {
  }

  /** A header line: the name up to the first `": "`, the value after it. */
  function ReadField(line: string): (r: Option<Field>)
    ensures r.Some? ==> line == r.value.name + ": " + r.value.value
    ensures r.None? <==> Free(line, ": ")
  {
    var i := IndexOf(line, ": ", 0, |line|);
    if i == -1 then None
    else
      assert line == line[..i] + line[i..i + 2] + line[i + 2..];
      Some(Field(line[..i], line[i + 2..]))
  }

  /** Every header line read, or None if one of them is not a `name: value` pair. */
  function ReadFields(lines: seq<string>): (r: Option<seq<Field>>)
    decreases |lines|
  {
    if |lines| == 0 then Some([])
    else
      match (ReadField(lines[0]), ReadFields(lines[1..]))
      case (Some(f), Some(fs)) => Some([f] + fs)
      case _ => None
  }

  /** A response: the head before the first CRLFCRLF, its first line the status line, then the body. */
  function ReadResponse(bytes: string): (r: Option<Response>)
    ensures r.Some? ==> |r.value.body| <= |bytes| && bytes[|bytes| - |r.value.body|..] == r.value.body
    ensures Free(bytes, CRLFCRLF) ==> r.None?
  {
    var e := IndexOf(bytes, CRLFCRLF, 0, |bytes|);
    if e == -1 then None
    else
      var lines := Split(bytes[..e], CRLF);
      if |lines| == 0 then None
      else
        match (ReadStatusLine(lines[0]), ReadFields(lines[1..]))
        case (Some(st), Some(fields)) => Some(Response(st.version, st.code, st.reason, fields, bytes[e + 4..]))
        case _ => None
  }

  /** The value of the first field named `name`. */
  function FieldValue(fields: seq<Field>, name: string): (r: Option<string>)
    ensures r.Some? ==> exists k :: 0 <= k < |fields| && fields[k] == Field(name, r.value)
    ensures r.None? <==> forall k :: 0 <= k < |fields| ==> fields[k].name != name
    decreases |fields|
  {
    if |fields| == 0 then None
    else if fields[0].name == name then Some(fields[0].value)
    else
      var r := FieldValue(fields[1..], name);
      assert forall k :: 1 <= k < |fields| ==> fields[k] == fields[1..][k - 1];
      r
  }

  /** The declared body length: the first `Content-Length` field, when it is a decimal number. */
  function ContentLength(r: Response): Option<nat>
  {
    match FieldValue(r.fields, "Content-Length")
    case None => None
    case Some(v) =>
      if |v| > 0 && forall i :: 0 <= i < |v| ==> IsDigit(v[i]) then Some(DigitsValue(v)) else None
  }

  // ---------------------------------------------------------------------------
  // reading back what the server writes

  /** A frame of plain lines reads back as those lines and that body. */
  lemma ReadFrameParts(lines: seq<string>, body: string)
    requires PlainLines(lines)
    ensures var bytes := Frame(lines, body);
            var e := IndexOf(bytes, CRLFCRLF, 0, |bytes|);
            && e == |Join(lines, CRLF)|
            && Split(bytes[..e], CRLF) == lines
            && bytes[e + 4..] == body
  {
    var bytes := Frame(lines, body);
    BlankLineEndsLines(lines, body);
    var head := Join(lines, CRLF);
    assert bytes[..|head|] == head;
    assert bytes[|head| + 4..] == body;
    LinesSplitBack(lines);
  }

  /** A status line built from a space-free code reads back as its three parts. */
  lemma ReadStatusLineOf(code: string, status: string)
    requires ' ' !in code
    ensures ReadStatusLine(StatusLine(code, status)) == Some(StatusParts("HTTP/1.1", code, status))
  {
    var rest := code + " " + status;
    assert StatusLine(code, status) == "HTTP/1.1" + " " + rest;
    CutAtSpaceOf("HTTP/1.1", rest);
    CutAtSpaceOf(code, status);
  }

  /** A header line whose name has no colon reads back as that name and value. */
  lemma ReadFieldOf(name: string, value: string)
    requires ':' !in name
    ensures ReadField(name + ": " + value) == Some(Field(name, value))
  {
    FirstMatchAfter(name, ": ", value);
    var line := name + ": " + value;
    assert line[..|name|] == name;
    assert line[|name| + 2..] == value;
  }

  /** The lines of `emptyContent` are plain lines. */
  lemma EmptyContentLinesArePlain(code: string, status: string)
    requires '\r' !in code && '\r' !in status
    ensures PlainLines([StatusLine(code, status), "Content-Length: 0", "Connection: close"])
  {
    var lines := [StatusLine(code, status), "Content-Length: 0", "Connection: close"];
    assert lines[0] == "HTTP/1.1 " + code + " " + status;
  }

  /** A frame whose lines read as a status line and fields reads as that response, with the body after the blank line. */
  lemma ReadFrame(lines: seq<string>, body: string, st: StatusParts, fields: seq<Field>)
    requires PlainLines(lines)
    requires ReadStatusLine(lines[0]) == Some(st) && ReadFields(lines[1..]) == Some(fields)
    ensures ReadResponse(Frame(lines, body)) == Some(Response(st.version, st.code, st.reason, fields, body))
  {
    ReadFrameParts(lines, body);
  }

  /** Header lines are read front to back. */
  lemma ReadFieldsCons(a: string, rest: seq<string>, fa: Field, fields: seq<Field>)
    requires ReadField(a) == Some(fa) && ReadFields(rest) == Some(fields)
    ensures ReadFields([a] + rest) == Some([fa] + fields)
  {
    var lines := [a] + rest;
    assert lines[0] == a && lines[1..] == rest;
  }

  /** Fields written as `name: value` lines. */
  function FieldLines(fields: seq<Field>): (lines: seq<string>)
    ensures |lines| == |fields|
  {
    if |fields| == 0 then [] else [fields[0].name + ": " + fields[0].value] + FieldLines(fields[1..])
  }

  /** Header lines with colon-free names read back as the fields they were written from. */
  lemma {:induction false} ReadFieldLines(fields: seq<Field>)
    requires forall k :: 0 <= k < |fields| ==> ':' !in fields[k].name
    ensures ReadFields(FieldLines(fields)) == Some(fields)
    decreases |fields|
  {
    if |fields| == 0 {
      assert FieldLines(fields) == [];
    } else {
      var lines := FieldLines(fields);
      ReadFieldOf(fields[0].name, fields[0].value);
      ReadFieldLines(fields[1..]);
      ReadFieldsCons(lines[0], FieldLines(fields[1..]), fields[0], fields[1..]);
      assert [lines[0]] + FieldLines(fields[1..]) == lines;
      assert [fields[0]] + fields[1..] == fields;
    }
  }

  /** A decimal `Content-Length` field reads as its number. */
  lemma ContentLengthOf(r: Response, k: nat, n: nat)
    requires k < |r.fields| && r.fields[k] == Field("Content-Length", Decimal(n))
    requires forall j :: 0 <= j < k ==> r.fields[j].name != "Content-Length"
    ensures ContentLength(r) == Some(n)
  {
    FirstFieldValue(r.fields, "Content-Length", k);
    DecimalRoundTrip(n);
  }

  /** The first field with a name is the one `FieldValue` finds. */
  lemma {:induction false} FirstFieldValue(fields: seq<Field>, name: string, k: nat)
    requires k < |fields| && fields[k].name == name
    requires forall j :: 0 <= j < k ==> fields[j].name != name
    ensures FieldValue(fields, name) == Some(fields[k].value)
    decreases k
  {
    if k > 0 {
      FirstFieldValue(fields[1..], name, k - 1);
    }
  }

  /** The fields `emptyContent` declares. */
  const EmptyFields: seq<Field> := [Field("Content-Length", "0"), Field("Connection", "close")]

  lemma EmptyFieldLines()
    ensures FieldLines(EmptyFields) == ["Content-Length: 0", "Connection: close"]
  {
    var tail := [Field("Connection", "close")];
    assert EmptyFields == [Field("Content-Length", "0")] + tail;
    FieldLinesCons(Field("Content-Length", "0"), tail);
    FieldLinesCons(Field("Connection", "close"), []);
    assert [Field("Connection", "close")] + [] == tail;
    assert "Content-Length" + ": " + "0" == "Content-Length: 0";
    assert "Connection" + ": " + "close" == "Connection: close";
    assert FieldLines([]) == [];
  }

  lemma FieldLinesCons(f: Field, fields: seq<Field>)
    ensures FieldLines([f] + fields) == [f.name + ": " + f.value] + FieldLines(fields)
  {
    assert ([f] + fields)[1..] == fields;
  }

  lemma EmptyFieldsNamed()
    ensures forall k :: 0 <= k < |EmptyFields| ==> ':' !in EmptyFields[k].name
  {
    assert ':' !in "Content-Length" && ':' !in "Connection";
  }

  /**
    The bytes of `emptyContent(code, status)` read back as that status, a
    zero `Content-Length`, `Connection: close`, and an empty body.
   */
  lemma ReadEmptyContent(code: string, status: string)
    requires ' ' !in code && '\r' !in code && '\r' !in status
    ensures ReadResponse(EmptyContent(code, status)) == Some(Response("HTTP/1.1", code, status, EmptyFields, ""))
    ensures ContentLength(ReadResponse(EmptyContent(code, status)).value) == Some(0)
  {
    var lines := [StatusLine(code, status), "Content-Length: 0", "Connection: close"];
    EmptyContentLinesArePlain(code, status);
    ReadStatusLineOf(code, status);
    EmptyFieldLines();
    EmptyFieldsNamed();
    ReadFieldLines(EmptyFields);
    assert lines[1..] == FieldLines(EmptyFields);
    ReadFrame(lines, "", StatusParts("HTTP/1.1", code, status), EmptyFields);
    ContentLengthOf(Response("HTTP/1.1", code, status, EmptyFields, ""), 0, 0);
  }

  /** The lines `defaultHandler` writes are plain lines when the type has no CR. */
  lemma OkLinesArePlain(mimeType: Option<string>, length: nat)
    requires '\r' !in MimeText(mimeType)
    ensures PlainLines(OkLines(mimeType, length))
  {
    var lines := OkLines(mimeType, length);
    var digits := Decimal(length);
    forall i | 0 <= i < |digits|
      ensures digits[i] != '\r'
    {
      assert IsDigit(digits[i]);
    }
    assert lines[2] == "Content-Length: " + digits;
    assert lines[1] == "Content-Type: " + MimeText(mimeType);
  }

  /** The header fields `defaultHandler` declares for a body of `length` bytes. */
  function OkFields(mimeType: Option<string>, length: nat): seq<Field>
  {
    [Field("Content-Type", MimeText(mimeType)), Field("Content-Length", Decimal(length)), Field("Connection", "close")]
  }

  lemma OkFieldLines(mimeType: Option<string>, length: nat)
    ensures FieldLines(OkFields(mimeType, length)) == OkLines(mimeType, length)[1..]
  {
    var fields := OkFields(mimeType, length);
    assert fields == [fields[0]] + ([fields[1]] + ([fields[2]] + []));
    FieldLinesCons(fields[0], [fields[1]] + ([fields[2]] + []));
    FieldLinesCons(fields[1], [fields[2]] + []);
    FieldLinesCons(fields[2], []);
    assert FieldLines([]) == [];
    assert "Content-Type" + ": " == "Content-Type: ";
    assert "Content-Length" + ": " == "Content-Length: ";
    assert "Connection" + ": " + "close" == "Connection: close";
  }

  lemma OkFieldsNamed(mimeType: Option<string>, length: nat)
    ensures var fields := OkFields(mimeType, length);
            && (forall k :: 0 <= k < |fields| ==> ':' !in fields[k].name)
            && fields[1] == Field("Content-Length", Decimal(length)) && fields[0].name != "Content-Length"
  {
    assert ':' !in "Content-Type" && ':' !in "Content-Length" && ':' !in "Connection";
    assert "Content-Type"[8] != "Content-Length"[8];
  }

  /** The head `defaultHandler` writes reads back as 200 OK and its three fields. */
  lemma ReadOkFrame(mimeType: Option<string>, body: string)
    requires '\r' !in MimeText(mimeType)
    ensures ReadResponse(Frame(OkLines(mimeType, |body|), body))
         == Some(Response("HTTP/1.1", "200", "OK", OkFields(mimeType, |body|), body))
  {
    var lines := OkLines(mimeType, |body|);
    var fields := OkFields(mimeType, |body|);
    OkLinesArePlain(mimeType, |body|);
    ReadStatusLineOf("200", "OK");
    OkFieldLines(mimeType, |body|);
    OkFieldsNamed(mimeType, |body|);
    ReadFieldLines(fields);
    ReadFrame(lines, body, StatusParts("HTTP/1.1", "200", "OK"), fields);
  }

  /**
    The bytes of `defaultHandler` read back as 200 OK with the file's type,
    a `Content-Length` that is exactly the length of the body that follows,
    and that body: the file, or for the classic page the filled-in template.
   */
  lemma ReadDefaultHandler(path: string, file: PublicFile, now: string)
    requires '\r' !in MimeText(file.mimeType)
    ensures var body := Body(path, file.content, now);
            var r := ReadResponse(DefaultHandler(path, Some(file), now).value);
            && r == Some(Response("HTTP/1.1", "200", "OK", OkFields(file.mimeType, |body|), body))
            && ContentLength(r.value) == Some(|body|)
  {
    var body := Body(path, file.content, now);
    assert DefaultHandler(path, Some(file), now).value == Frame(OkLines(file.mimeType, |body|), body);
    ReadOkFrame(file.mimeType, body);
    OkContentLength(file.mimeType, body);
  }

  /** The `Content-Length` that `defaultHandler` declares reads as the length of its body. */
  lemma OkContentLength(mimeType: Option<string>, body: string)
    ensures ContentLength(Response("HTTP/1.1", "200", "OK", OkFields(mimeType, |body|), body)) == Some(|body|)
  {
    OkFieldsNamed(mimeType, |body|);
    ContentLengthOf(Response("HTTP/1.1", "200", "OK", OkFields(mimeType, |body|), body), 1, |body|);
  }
}
