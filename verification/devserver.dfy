/** The string helpers of the local development server: reading the port
    argument, taking the subdomain from the `host` header, the line-based
    HTTP/1.1 request parser and the response writer. */
module DevServer {
  import opened Wrappers
  import opened Text
  import opened Decimal
  import opened Maps
  import opened SeqFacts
  import Errors

  // ---------------------------------------------------------------------------
  // parse_port

  /** `args[k]` is the first `--port` at or after `i`, and an argument
      follows it. */
  predicate PortFlagAt(args: seq<string>, i: nat, k: nat) {
    i <= k && k + 1 < |args| && args[k] == "--port" && forall j :: i <= j < k ==> args[j] != "--port"
  }

  /** The scan of `parse_port` from argument `i` on: the first `--port`
      that has an argument after it decides. */
  function PortFrom(args: seq<string>, i: nat): (r: Option<int>)
    ensures r.Some? ==> 0 <= r.value <= U16Max
    ensures forall k :: PortFlagAt(args, i, k) ==> r == ParseU16(args[k + 1])
    ensures (forall j :: i <= j && j + 1 < |args| ==> args[j] != "--port") ==> r.None?
    decreases |args| - i
  {
    if i >= |args| then None
    else if args[i] == "--port" && i + 1 < |args| then ParseU16(args[i + 1])
    else
      PortFlagSkip(args, i);
      PortFrom(args, i + 1)
  }

  /** An argument that does not start a `--port` pair can be skipped. */
  lemma PortFlagSkip(args: seq<string>, i: nat)
    requires i < |args| && !(args[i] == "--port" && i + 1 < |args|)
    ensures forall k :: PortFlagAt(args, i, k) ==> PortFlagAt(args, i + 1, k)
  {
    forall k | PortFlagAt(args, i, k) ensures PortFlagAt(args, i + 1, k) {
      assert k != i;
    }
  }

  /** `parse_port`: the `u16` after the first `--port`, if any. */
  function ParsePort(args: seq<string>): (r: Option<int>)
    ensures r.Some? ==> 0 <= r.value <= U16Max
    ensures forall k :: PortFlagAt(args, 0, k) ==> r == ParseU16(args[k + 1])
    ensures (forall j :: 0 <= j && j + 1 < |args| ==> args[j] != "--port") ==> r.None?
  {
    PortFrom(args, 0)
  }

  lemma {:induction false} PortFromFirst(args: seq<string>, i: nat, k: nat)
    requires i <= k && k + 1 < |args| && args[k] == "--port"
    requires forall j :: i <= j < k ==> args[j] != "--port"
    ensures PortFrom(args, i) == ParseU16(args[k + 1])
    decreases k - i
  {
    if i < k {
      PortFromFirst(args, i + 1, k);
    }
  }

  /** The argument after the first `--port` decides, even when it is not a
      port and a later `--port` is followed by one. */
  lemma ParsePortFirst(args: seq<string>, k: nat)
    requires k + 1 < |args| && args[k] == "--port"
    requires forall j :: 0 <= j < k ==> args[j] != "--port"
    ensures ParsePort(args) == ParseU16(args[k + 1])
  {
    PortFromFirst(args, 0, k);
  }

  /** Without a `--port` that has an argument after it (none at all, or only
      as the last argument), there is no port. */
  lemma ParsePortAbsent(args: seq<string>)
    requires forall j :: 0 <= j && j + 1 < |args| ==> args[j] != "--port"
    ensures ParsePort(args) == None
  {
  }

  /** A port written after `--port` is read back. */
  lemma ParsePortOfFormat(program: string, port: nat)
    requires program != "--port" && port <= U16Max
    ensures ParsePort([program, "--port", FormatNat(port)]) == Some(port)
  {
    ParsePortFirst([program, "--port", FormatNat(port)], 1);
    ParseFormatNat(port);
  }

  // ---------------------------------------------------------------------------
  // extract_subdomain

  /** The number of pieces `split(c)` yields is one more than the number of
      occurrences of `c`. */
  lemma {:induction false} SplitCount(s: string, c: char)
    ensures |Split(s, c)| == multiset(s)[c] + 1
    decreases |s|
  {
    match Find(s, c)
    case None =>
    case Some(i) =>
      assert s == s[..i] + [c] + s[i + 1..];
      assert multiset(s) == multiset(s[..i]) + multiset{c} + multiset(s[i + 1..]);
      SplitCount(s[i + 1..], c);
  }

  /** `extract_subdomain`: only the lowercase `host` key is read; a host
      starting with `localhost` has none; otherwise a host of three or more
      dot-separated labels yields its first label, lowercased. */
  function ExtractSubdomain(headers: map<string, string>): (r: Option<string>)
    ensures r.Some? <==> && "host" in headers
                         && !StartsWith(headers["host"], "localhost")
                         && multiset(headers["host"])['.'] >= 2
    ensures r.Some? ==> && Find(headers["host"], '.').Some?
                        && r.value == ToLower(headers["host"][..Find(headers["host"], '.').value])
    ensures r.Some? ==> '.' !in r.value && ToLower(r.value) == r.value
  {
    if "host" in headers then
      var host := headers["host"];
      if StartsWith(host, "localhost") then None
      else
        var parts := Split(host, '.');
        SplitCount(host, '.');
        if |parts| >= 3 then
          ToLowerIdempotent(parts[0]);
          LowerKeepsDot(parts[0]);
          Some(ToLower(parts[0]))
        else None
    else None
  }

  lemma LowerKeepsDot(s: string)
    requires '.' !in s
    ensures '.' !in ToLower(s)
  {
    forall i | 0 <= i < |s| ensures ToLower(s)[i] != '.' {
      assert s[i] in s;
    }
  }

  // ---------------------------------------------------------------------------
  // parse_http_request

  /** The parsed request: method and path verbatim, header fields, body. */
  datatype HttpRequest = HttpRequest(httpMethod: string, path: string, headers: map<string, string>, body: string)

  /** `line.splitn(2, ':')` of a line containing a colon, both halves
      trimmed; `None` for a line without one. */
  function HeaderField(line: string): (r: Option<(string, string)>)
    ensures r.None? <==> ':' !in line
    ensures r.Some? ==> Trimmed(r.value.0) && Trimmed(r.value.1) && ':' !in r.value.0
  {
    match Find(line, ':')
    case None => None
    case Some(i) =>
      var name := Trim(line[..i]);
      TrimNoColon(line[..i]);
      Some((name, Trim(line[i + 1..])))
  }

  lemma TrimNoColon(s: string)
    requires ':' !in s
    ensures ':' !in Trim(s)
  {
    var a := TrimSlice(s);
    forall i | 0 <= i < |Trim(s)| ensures Trim(s)[i] != ':' {
      assert Trim(s)[i] == s[a + i];
      assert s[a + i] in s;
    }
  }

  /** The field a line contributes: one, or none without a colon. */
  function FieldOf(line: string): seq<(string, string)> {
    match HeaderField(line)
    case None => []
    case Some(f) => [f]
  }

  /** Some line among `lines` yields the field `f`. */
  predicate YieldedBy(lines: seq<string>, f: (string, string)) {
    exists l :: l in lines && HeaderField(l) == Some(f)
  }

  /** The fields of the header lines, in order; lines without a colon are
      skipped. */
  function HeaderFields(lines: seq<string>): (r: seq<(string, string)>)
    ensures |r| <= |lines|
    ensures forall f :: f in r <==> YieldedBy(lines, f)
  {
    if |lines| == 0 then []
    else
      var rest := HeaderFields(lines[1..]);
      FieldSources(lines, rest);
      FieldOf(lines[0]) + rest
  }

  /** One step of the content of `HeaderFields`: the lines are the first
      line and the others. */
  lemma FieldSources(lines: seq<string>, rest: seq<(string, string)>)
    requires |lines| > 0
    requires forall f :: f in rest <==> YieldedBy(lines[1..], f)
    ensures forall f :: f in FieldOf(lines[0]) + rest <==> YieldedBy(lines, f)
  {
    forall f ensures f in FieldOf(lines[0]) + rest <==> YieldedBy(lines, f) {
      FieldStep(lines, rest, f);
    }
  }

  lemma FieldStep(lines: seq<string>, rest: seq<(string, string)>, f: (string, string))
    requires |lines| > 0
    requires f in rest <==> YieldedBy(lines[1..], f)
    ensures f in FieldOf(lines[0]) + rest <==> YieldedBy(lines, f)
  {
    YieldedByCons(lines, f);
    match HeaderField(lines[0])
    case None =>
      assert FieldOf(lines[0]) + rest == rest;
    case Some(g) =>
      assert FieldOf(lines[0]) + rest == [g] + rest;
      assert f in [g] + rest <==> f == g || f in rest;
  }

  /** A field comes from the lines exactly when the first line or one of
      the others yields it. */
  lemma YieldedByCons(lines: seq<string>, f: (string, string))
    requires |lines| > 0
    ensures YieldedBy(lines, f) <==> HeaderField(lines[0]) == Some(f) || YieldedBy(lines[1..], f)
  {
    assert forall l :: l in lines <==> l == lines[0] || l in lines[1..];
  }

  /** The fields keep the order of their lines: the fields of two blocks of
      lines are the fields of the first, then those of the second. */
  lemma {:induction false} HeaderFieldsAppend(a: seq<string>, b: seq<string>)
    ensures HeaderFields(a + b) == HeaderFields(a) + HeaderFields(b)
  {
    if |a| > 0 {
      HeaderFieldsAppend(a[1..], b);
      TailOfAppend(a, b);
      HeaderFieldsCons(a + b);
      HeaderFieldsCons(a);
      Assoc3(FieldOf(a[0]), HeaderFields(a[1..]), HeaderFields(b));
    } else {
      assert a + b == b;
    }
  }

  lemma HeaderFieldsCons(lines: seq<string>)
    requires |lines| > 0
    ensures HeaderFields(lines) == FieldOf(lines[0]) + HeaderFields(lines[1..])
  {
  }

  /** The index of the first empty line. */
  function FirstBlank(lines: seq<string>): (r: Option<nat>)
    ensures r.Some? ==> r.value < |lines| && lines[r.value] == [] && forall j :: 0 <= j < r.value ==> lines[j] != []
    ensures r.None? ==> forall j :: 0 <= j < |lines| ==> lines[j] != []
  {
    if |lines| == 0 then None
    else if lines[0] == [] then Some(0)
    else
      match FirstBlank(lines[1..])
      case None => None
      case Some(k) => Some(k + 1)
  }

  /** `lines[start..].join("\n")`, or empty when nothing is left. */
  function BodyFrom(lines: seq<string>, start: nat): string {
    if start < |lines| then Join(lines[start..], "\n") else ""
  }

  lemma BodyFromStart(lines: seq<string>)
    requires |lines| > 0
    ensures BodyFrom(lines, 0) == Join(lines, "\n")
    ensures BodyFrom(lines, |lines|) == ""
  {
    assert lines[0..] == lines;
  }

  /** The parser, with the body's start line when no empty line is found as
      a parameter: the first line as written, the end of the request as
      intended. */
  function ParseLines(text: string, asWritten: bool): (r: Result<HttpRequest, Errors.AppError>)
    ensures Lines(text) == [] ==> r == Failure(Errors.Http("Empty request"))
    ensures Lines(text) != [] && |SplitWhitespace(Lines(text)[0])| < 3 ==> r == Failure(Errors.Http("Invalid request line"))
    ensures r.Success? <==> Lines(text) != [] && |SplitWhitespace(Lines(text)[0])| >= 3
    ensures r.Success? ==> && |r.value.httpMethod| > 0 && NoWhitespace(r.value.httpMethod)
                           && |r.value.path| > 0 && NoWhitespace(r.value.path)
    ensures r.Success? ==> && r.value.httpMethod == SplitWhitespace(Lines(text)[0])[0]
                           && r.value.path == SplitWhitespace(Lines(text)[0])[1]
    ensures r.Success? ==> && 1 <= HeaderEnd(Lines(text)) <= |Lines(text)|
                           && r.value.headers == InsertAll(map[], HeaderFields(Lines(text)[1..HeaderEnd(Lines(text))]))
    ensures r.Success? && FirstBlank(Lines(text)).None? ==>
              r.value.body == (if asWritten then Join(Lines(text), "\n") else "")
    ensures r.Success? && FirstBlank(Lines(text)).Some? ==>
              r.value.body == BodyFrom(Lines(text), FirstBlank(Lines(text)).value + 1)
  {
    var lines := Lines(text);
    if |lines| == 0 then Failure(Errors.Http("Empty request"))
    else
      var parts := SplitWhitespace(lines[0]);
      if |parts| < 3 then Failure(Errors.Http("Invalid request line"))
      else
        SplitWhitespaceEmpty();
        Success(Assemble(lines, parts, asWritten))
  }

  lemma SplitWhitespaceEmpty()
    ensures SplitWhitespace([]) == []
  {
  }

  /** The request read from its lines once the request line is known to
      hold three tokens: the header lines end at the first empty line, and
      the body starts after it. */
  function Assemble(lines: seq<string>, parts: seq<string>, asWritten: bool): (r: HttpRequest)
    requires |lines| > 0 && lines[0] != [] && |parts| >= 2
    ensures r.httpMethod == parts[0] && r.path == parts[1]
    ensures 1 <= HeaderEnd(lines) <= |lines| && r.headers == HeaderMap(lines, HeaderEnd(lines))
    ensures FirstBlank(lines).None? ==> r.body == (if asWritten then Join(lines, "\n") else "")
    ensures FirstBlank(lines).Some? ==> r.body == BodyFrom(lines, FirstBlank(lines).value + 1)
  {
    match FirstBlank(lines)
    case Some(blank) =>
      HttpRequest(parts[0], parts[1], HeaderMap(lines, blank), BodyFrom(lines, blank + 1))
    case None =>
      var start := if asWritten then 0 else |lines|;
      BodyFromStart(lines);
      HttpRequest(parts[0], parts[1], HeaderMap(lines, |lines|), BodyFrom(lines, start))
  }

  /** Where the header lines end: at the first empty line, or at the end of
      the request when there is none. */
  function HeaderEnd(lines: seq<string>): (e: nat)
    ensures e <= |lines|
    ensures |lines| > 0 && lines[0] != [] ==> e >= 1
  {
    match FirstBlank(lines)
    case Some(b) => b
    case None => |lines|
  }

  /** The header map read from the lines after the request line and before
      `end`; a later line with the same name overwrites an earlier one. */
  function HeaderMap(lines: seq<string>, end: nat): map<string, string>
    requires 1 <= end <= |lines|
  {
    InsertAll(map[], HeaderFields(lines[1..end]))
  }

  /** `parse_http_request` AS WRITTEN: with no empty line, `body_start`
      keeps its initial 0 and the whole request becomes the body. */
  function ParseHttpRequestAsWritten(text: string): (r: Result<HttpRequest, Errors.AppError>)
    ensures r.Success? && FirstBlank(Lines(text)).None? ==> r.value.body == Join(Lines(text), "\n")
  {
    ParseLines(text, true)
  }

  /** `parse_http_request` with the evident intent: no empty line, no body. */
  function ParseHttpRequest(text: string): (r: Result<HttpRequest, Errors.AppError>)
    ensures r.Failure? ==> r.error.Http?
    ensures r.Success? && FirstBlank(Lines(text)).None? ==> r.value.body == ""
  {
    ParseLines(text, false)
  }

  // ---------------------------------------------------------------------------
  // Writing messages, and reading them back

  /** A header line. */
  function FieldLine(f: (string, string)): string {
    f.0 + ": " + f.1
  }

  /** Each field as a CRLF-terminated line. */
  function FieldBlock(fields: seq<(string, string)>): string {
    if |fields| == 0 then "" else FieldLine(fields[0]) + "\r\n" + FieldBlock(fields[1..])
  }

  function FieldLines(fields: seq<(string, string)>): (r: seq<string>)
    ensures |r| == |fields|
    ensures forall i :: 0 <= i < |fields| ==> r[i] == FieldLine(fields[i])
  {
    if |fields| == 0 then [] else [FieldLine(fields[0])] + FieldLines(fields[1..])
  }

  /** An HTTP/1.1 message: start line, header lines, an empty line, body. */
  function Message(startLine: string, fields: seq<(string, string)>, body: string): string {
    startLine + "\r\n" + FieldBlock(fields) + "\r\n" + body
  }

  /** A field name that reads back as itself. */
  predicate PlainName(n: string) {
    ':' !in n && '\n' !in n && '\r' !in n && Trimmed(n)
  }

  /** A field value that reads back as itself. */
  predicate PlainValue(v: string) {
    '\n' !in v && '\r' !in v && Trimmed(v)
  }

  predicate PlainFields(fields: seq<(string, string)>) {
    forall i :: 0 <= i < |fields| ==> PlainName(fields[i].0) && PlainValue(fields[i].1)
  }

  /** A body that `lines()` and `join("\n")` give back unchanged. */
  predicate PlainBody(body: string) {
    '\r' !in body && (body == [] || body[|body| - 1] != '\n')
  }

  lemma {:induction false} JoinLines(s: string)
    requires PlainBody(s)
    ensures Join(Lines(s), "\n") == s
    decreases |s|
  {
    if s != [] {
      match Find(s, '\n')
      case None =>
        LinesLast(s);
      case Some(i) =>
        var line := s[..i];
        var rest := s[i + 1..];
        CutLine(s, i);
        JoinLines(rest);
        LinesLf(line, rest);
        JoinCons(line, Lines(rest));
    }
  }

  /** A plain body cut at its first line feed. */
  lemma CutLine(s: string, i: nat)
    requires PlainBody(s) && i < |s| && s[i] == '\n' && '\n' !in s[..i]
    ensures s == s[..i] + "\n" + s[i + 1..]
    ensures '\n' !in s[..i] && '\r' !in s[..i]
    ensures PlainBody(s[i + 1..]) && s[i + 1..] != []
  {
    assert s == s[..i] + [s[i]] + s[i + 1..];
    forall j | 0 <= j < i ensures s[..i][j] != '\r' {
      assert s[j] in s;
    }
    forall j | i + 1 <= j < |s| ensures s[j] != '\r' {
      assert s[j] in s;
    }
  }

  lemma JoinCons(head: string, tail: seq<string>)
    requires |tail| > 0
    ensures Join([head] + tail, "\n") == head + "\n" + Join(tail, "\n")
  {
    assert ([head] + tail)[1..] == tail;
  }

  lemma FieldLineShape(f: (string, string))
    requires PlainName(f.0) && PlainValue(f.1)
    ensures '\n' !in FieldLine(f) && FieldLine(f) != []
    ensures FieldLine(f)[|FieldLine(f)| - 1] != '\r'
    ensures HeaderField(FieldLine(f)) == Some(f)
  {
    var line := FieldLine(f);
    FieldLineChars(f.0, f.1, line);
    FieldLineSplit(f.0, f.1, line);
    HeaderFieldAt(line, |f.0|);
    TrimOfTrimmed(f.0);
    TrimSpaceThen(f.1);
  }

  lemma HeaderFieldAt(line: string, i: nat)
    requires Find(line, ':') == Some(i)
    ensures HeaderField(line) == Some((Trim(line[..i]), Trim(line[i + 1..])))
  {
  }

  lemma FieldLineChars(n: string, v: string, line: string)
    requires line == n + ": " + v
    requires '\n' !in n && '\n' !in v && '\r' !in v
    ensures '\n' !in line && line != [] && line[|line| - 1] != '\r'
  {
    forall i | 0 <= i < |line| ensures line[i] != '\n' {
      if i < |n| {
        assert line[i] == n[i] && n[i] in n;
      } else if i >= |n| + 2 {
        assert line[i] == v[i - |n| - 2] && v[i - |n| - 2] in v;
      }
    }
    if v != [] {
      assert line[|line| - 1] == v[|v| - 1] && v[|v| - 1] in v;
    }
  }

  lemma FieldLineSplit(n: string, v: string, line: string)
    requires line == n + ": " + v && ':' !in n
    ensures Find(line, ':') == Some(|n|)
    ensures line[..|n|] == n && line[|n| + 1..] == " " + v
  {
    assert line[|n|] == ':';
    assert line[..|n|] == n;
    FindFirst(line, |n|, ':');
    assert line[|n| + 1..] == " " + v;
  }

  lemma TrimSpaceThen(v: string)
    requires Trimmed(v)
    ensures Trim(" " + v) == v
  {
    assert AllWhitespace(" ");
    LeadingWsOfWs(" ", v);
    assert (" " + v)[1..] == v;
    if v != [] {
      assert TrailingWs(v) == 0;
    }
    assert v[..|v|] == v;
  }

  lemma {:induction false} LinesFieldBlock(fields: seq<(string, string)>, rest: string)
    requires PlainFields(fields)
    ensures Lines(FieldBlock(fields) + rest) == FieldLines(fields) + Lines(rest)
    decreases |fields|
  {
    if |fields| == 0 {
      AppendNil(rest);
      AppendNil(Lines(rest));
    } else {
      var line := FieldLine(fields[0]);
      var tail := fields[1..];
      assert PlainFields(tail) by {
        forall i | 0 <= i < |tail| ensures PlainName(tail[i].0) && PlainValue(tail[i].1) {
          assert tail[i] == fields[i + 1];
        }
      }
      FieldLineShape(fields[0]);
      LinesFieldBlock(tail, rest);
      Assoc3(line + "\r\n", FieldBlock(tail), rest);
      Assoc3(line, "\r\n", FieldBlock(tail) + rest);
      LinesCrLf(line, FieldBlock(tail) + rest);
      Assoc3([line], FieldLines(tail), Lines(rest));
    }
  }

  /** The lines of a message: start line, header lines, the empty line,
      then the body's lines. */
  lemma MessageLines(startLine: string, fields: seq<(string, string)>, body: string)
    requires '\n' !in startLine && '\r' !in startLine
    requires PlainFields(fields)
    ensures Lines(Message(startLine, fields, body)) == [startLine] + (FieldLines(fields) + ([""] + Lines(body)))
  {
    var fb := FieldBlock(fields);
    Assoc4(startLine, "\r\n", fb, "\r\n" + body);
    Assoc3(startLine + "\r\n" + fb, "\r\n", body);
    Assoc3(startLine, "\r\n", fb + ("\r\n" + body));
    if startLine != [] {
      assert startLine[|startLine| - 1] in startLine;
    }
    LinesCrLf(startLine, fb + ("\r\n" + body));
    LinesFieldBlock(fields, "\r\n" + body);
    AppendNil("\r\n" + body);
    Assoc3("", "\r\n", body);
    LinesCrLf("", body);
  }

  lemma {:induction false} HeaderFieldsOfLines(fields: seq<(string, string)>)
    requires PlainFields(fields)
    ensures HeaderFields(FieldLines(fields)) == fields
    decreases |fields|
  {
    if |fields| > 0 {
      var tail := fields[1..];
      assert PlainFields(tail) by {
        forall i | 0 <= i < |tail| ensures PlainName(tail[i].0) && PlainValue(tail[i].1) {
          assert tail[i] == fields[i + 1];
        }
      }
      FieldLineShape(fields[0]);
      HeaderFieldsOfLines(tail);
      var ls := FieldLines(fields);
      assert ls[0] == FieldLine(fields[0]) && ls[1..] == FieldLines(tail);
      ConsHead(fields);
    }
  }

  lemma FieldLineAt(fields: seq<(string, string)>, i: nat)
    requires PlainFields(fields) && i < |fields|
    ensures FieldLines(fields)[i] == FieldLine(fields[i]) && FieldLines(fields)[i] != []
    decreases |fields|
  {
    if i > 0 {
      FieldLineAt(fields[1..], i - 1);
    } else {
      FieldLineShape(fields[0]);
    }
  }

  lemma FieldLinesNonEmpty(fields: seq<(string, string)>)
    requires PlainFields(fields)
    ensures forall i :: 0 <= i < |fields| ==> FieldLines(fields)[i] != []
  {
    forall i | 0 <= i < |fields| ensures FieldLines(fields)[i] != [] {
      FieldLineAt(fields, i);
    }
  }

  /** The first empty line of `[x] + ys + [""] + ws` is the one after `ys`,
      when neither `x` nor any of `ys` is empty. */
  lemma BlankAfter(x: string, ys: seq<string>, ws: seq<string>, all: seq<string>)
    requires all == [x] + (ys + ([""] + ws))
    requires x != [] && forall i :: 0 <= i < |ys| ==> ys[i] != []
    ensures FirstBlank(all) == Some(|ys| + 1)
  {
    Sections(x, ys, "", ws, all);
    forall j | 0 <= j <= |ys| ensures all[j] != [] {
      if j > 0 {
        assert all[j] == ys[j - 1];
      }
    }
  }

  /** A token and a space in front of a string that does not start with
      whitespace contribute exactly that token. */
  lemma TokenThenSpace(tok: string, rest: string, s: string)
    requires s == tok + (" " + rest)
    requires |tok| > 0 && NoWhitespace(tok)
    requires rest == [] || !IsWhitespace(rest[0])
    ensures SplitWhitespace(s) == [tok] + SplitWhitespace(rest)
  {
    SplitWhitespaceToken(tok, " " + rest);
    assert AllWhitespace(" ");
    SplitWhitespaceSkip(" ", rest);
  }

  lemma SpacedParts(m: string, p: string, rest: string)
    ensures m + " " + p + " " + rest == m + (" " + (p + (" " + rest)))
    ensures p + " " + rest == p + (" " + rest)
  {
  }

  lemma FirstTokenExists(s: string)
    requires s != [] && !IsWhitespace(s[0])
    ensures |SplitWhitespace(s)| >= 1
  {
    assert LeadingWs(s) == 0;
    assert s[0..] == s;
  }

  /** The request line `method path rest` splits into the method, the path
      and at least one more token. */
  lemma RequestLineTokens(m: string, p: string, rest: string)
    requires |m| > 0 && NoWhitespace(m) && |p| > 0 && NoWhitespace(p)
    requires rest != [] && !IsWhitespace(rest[0])
    ensures SplitWhitespace(m + " " + p + " " + rest) == [m, p] + SplitWhitespace(rest)
    ensures |SplitWhitespace(rest)| >= 1
  {
    var tail := p + " " + rest;
    SpacedParts(m, p, rest);
    TokenThenSpace(p, rest, tail);
    TokenThenSpace(m, tail, m + " " + p + " " + rest);
    FirstTokenExists(rest);
  }

  /** Round trip: a message written with plain fields and body parses back
      to its method, path, fields (a later field overwriting an earlier one
      of the same name) and body, by either version of the parser. */
  lemma ParseMessage(m: string, p: string, rest: string, fields: seq<(string, string)>, body: string)
    requires |m| > 0 && NoWhitespace(m) && |p| > 0 && NoWhitespace(p)
    requires rest != [] && !IsWhitespace(rest[0]) && '\n' !in rest && '\r' !in rest
    requires PlainFields(fields) && PlainBody(body)
    ensures ParseHttpRequest(Message(m + " " + p + " " + rest, fields, body))
         == Success(HttpRequest(m, p, InsertAll(map[], fields), body))
    ensures ParseHttpRequestAsWritten(Message(m + " " + p + " " + rest, fields, body))
         == ParseHttpRequest(Message(m + " " + p + " " + rest, fields, body))
  {
    var sl := m + " " + p + " " + rest;
    RequestLineChars(m, p, rest);
    var text := Message(sl, fields, body);
    MessageLines(sl, fields, body);
    var lines := Lines(text);
    RequestLineTokens(m, p, rest);
    var parts := SplitWhitespace(sl);
    assert lines[0] == sl && parts[0] == m && parts[1] == p;
    AssembleMessage(lines, parts, sl, fields, body, true);
    AssembleMessage(lines, parts, sl, fields, body, false);
  }

  lemma RequestLineChars(m: string, p: string, rest: string)
    requires NoWhitespace(m) && NoWhitespace(p) && '\n' !in rest && '\r' !in rest
    ensures '\n' !in m + " " + p + " " + rest && '\r' !in m + " " + p + " " + rest
  {
    assert IsWhitespace('\n') && IsWhitespace('\r');
    assert '\n' !in m && '\r' !in m && '\n' !in p && '\r' !in p;
  }

  /** Once the request line is split, the header lines and the body of a
      message are read back as they were written. */
  lemma AssembleMessage(lines: seq<string>, parts: seq<string>, sl: string,
                        fields: seq<(string, string)>, body: string, asWritten: bool)
    requires lines == [sl] + (FieldLines(fields) + ([""] + Lines(body)))
    requires sl != [] && |parts| >= 2
    requires PlainFields(fields) && PlainBody(body)
    ensures Assemble(lines, parts, asWritten) == HttpRequest(parts[0], parts[1], InsertAll(map[], fields), body)
  {
    var k := |FieldLines(fields)|;
    Sections(sl, FieldLines(fields), "", Lines(body), lines);
    FieldLinesNonEmpty(fields);
    BlankAfter(sl, FieldLines(fields), Lines(body), lines);
    HeaderFieldsOfLines(fields);
    BodyAfter(lines, k + 2, body);
    AssembleFrom(lines, parts, asWritten, k, fields, body);
  }

  lemma BodyAfter(lines: seq<string>, start: nat, body: string)
    requires start <= |lines| && lines[start..] == Lines(body) && PlainBody(body)
    ensures BodyFrom(lines, start) == body
  {
    JoinLines(body);
  }

  lemma AssembleFrom(lines: seq<string>, parts: seq<string>, asWritten: bool, k: nat,
                     fields: seq<(string, string)>, body: string)
    requires |lines| > 0 && lines[0] != [] && |parts| >= 2
    requires FirstBlank(lines) == Some(k + 1)
    requires HeaderFields(lines[1..k + 1]) == fields
    requires BodyFrom(lines, k + 2) == body
    ensures Assemble(lines, parts, asWritten) == HttpRequest(parts[0], parts[1], InsertAll(map[], fields), body)
  {
  }

  /** The parts of `[x] + ys + [z] + ws`. */
  lemma Sections<T>(x: T, ys: seq<T>, z: T, ws: seq<T>, all: seq<T>)
    requires all == [x] + (ys + ([z] + ws))
    ensures all[0] == x && all[|ys| + 1] == z
    ensures forall j :: 1 <= j <= |ys| ==> all[j] == ys[j - 1]
    ensures all[1..|ys| + 1] == ys && all[|ys| + 2..] == ws
  {
  }

  /** As written, a request line with no line break after it is parsed
      with the request line itself as the body. */
  lemma RequestLineAloneAsWritten(m: string, p: string, rest: string)
    requires |m| > 0 && NoWhitespace(m) && |p| > 0 && NoWhitespace(p)
    requires rest != [] && !IsWhitespace(rest[0]) && '\n' !in rest && '\r' !in rest
    ensures ParseHttpRequestAsWritten(m + " " + p + " " + rest).Success?
    ensures ParseHttpRequestAsWritten(m + " " + p + " " + rest).value.body == m + " " + p + " " + rest
  {
    var sl := m + " " + p + " " + rest;
    assert '\n' !in sl by {
      assert forall i :: 0 <= i < |m| ==> m[i] != '\n';
      assert forall i :: 0 <= i < |p| ==> p[i] != '\n';
    }
    LinesLast(sl);
    RequestLineTokens(m, p, rest);
  }

  /** The corrected parser gives the same request line an empty body. */
  lemma RequestLineAlone(m: string, p: string, rest: string)
    requires |m| > 0 && NoWhitespace(m) && |p| > 0 && NoWhitespace(p)
    requires rest != [] && !IsWhitespace(rest[0]) && '\n' !in rest && '\r' !in rest
    ensures ParseHttpRequest(m + " " + p + " " + rest)
         == Success(HttpRequest(m, p, map[], ""))
  {
    var sl := m + " " + p + " " + rest;
    assert '\n' !in sl by {
      assert forall i :: 0 <= i < |m| ==> m[i] != '\n';
      assert forall i :: 0 <= i < |p| ==> p[i] != '\n';
    }
    LinesLast(sl);
    RequestLineTokens(m, p, rest);
    assert Lines(sl)[1..1] == [];
  }

  // ---------------------------------------------------------------------------
  // format_response

  /** The fields of `HttpResponse` that `format_response` writes. */
  datatype HttpResponse = HttpResponse(statusCode: nat, headers: map<string, string>, body: string)

  /** The reason phrases of the seven codes the writer knows; every other
      code is written with `OK`. */
  function StatusText(code: nat): (r: string)
    ensures r == "OK" <==> code !in {201, 400, 401, 403, 404, 500}
  {
    match code
    case 200 => "OK"
    case 201 => "Created"
    case 400 => "Bad Request"
    case 401 => "Unauthorized"
    case 403 => "Forbidden"
    case 404 => "Not Found"
    case 500 => "Internal Server Error"
    case _ => "OK"
  }

  /** Every reason phrase is one line of printable characters that does not
      start with a space. */
  lemma StatusTextLine(code: nat)
    ensures var r := StatusText(code); r != [] && r[0] != ' ' && Printable(r)
  {
    match code
    case 200 => PhraseOk();
    case 201 => PhraseCreated();
    case 400 => PhraseBadRequest();
    case 401 => PhraseUnauthorized();
    case 403 => PhraseForbidden();
    case 404 => PhraseNotFound();
    case 500 => PhraseInternalServerError();
    case _ => PhraseOk();
  }

  lemma PhraseOk() ensures Printable("OK") { }
  lemma PhraseCreated() ensures Printable("Created") { }
  lemma PhraseBadRequest() ensures Printable("Bad Request") { }
  lemma PhraseUnauthorized() ensures Printable("Unauthorized") { }
  lemma PhraseForbidden() ensures Printable("Forbidden") { }
  lemma PhraseNotFound() ensures Printable("Not Found") { }
  lemma PhraseInternalServerError() ensures Printable("Internal Server Error") { }

  /** Printable ASCII, space included. */
  predicate Printable(s: string) {
    forall i :: 0 <= i < |s| ==> 0x20 <= s[i] as int <= 0x7E
  }

  /** Printable ASCII other than space. */
  predicate Visible(s: string) {
    forall i :: 0 <= i < |s| ==> 0x21 <= s[i] as int <= 0x7E
  }

  lemma PrintableLine(s: string)
    requires Printable(s) && s != [] && s[0] != ' '
    ensures !IsWhitespace(s[0]) && '\n' !in s && '\r' !in s
  {
    forall i | 0 <= i < |s| ensures s[i] != '\n' && s[i] != '\r' {
      assert 0x20 <= s[i] as int;
    }
  }

  lemma VisiblePlain(s: string)
    requires Visible(s)
    ensures NoWhitespace(s) && PlainValue(s)
  {
    forall i | 0 <= i < |s| ensures !IsWhitespace(s[i]) && s[i] != '\n' && s[i] != '\r' {
      assert 0x21 <= s[i] as int <= 0x7E;
    }
  }

  lemma VisibleName(s: string)
    requires Visible(s) && forall i :: 0 <= i < |s| ==> s[i] != ':'
    ensures PlainName(s)
  {
    VisiblePlain(s);
  }

  /** The status line, without its line break. */
  function StatusLine(code: nat): string {
    "HTTP/1.1 " + FormatNat(code) + " " + StatusText(code)
  }

  /** The header fields in iteration order, then `Content-Length` (the
      body's length in UTF-8 bytes) and `Connection: close`. */
  function ResponseFields(resp: HttpResponse, order: seq<string>): (r: seq<(string, string)>)
    requires forall i :: 0 <= i < |order| ==> order[i] in resp.headers
    ensures |r| == |order| + 2
    ensures forall i :: 0 <= i < |order| ==> r[i] == (order[i], resp.headers[order[i]])
    ensures r[|order|] == ("Content-Length", FormatNat(Utf8Len(resp.body)))
    ensures r[|order| + 1] == ("Connection", "close")
  {
    seq(|order|, i requires 0 <= i < |order| => (order[i], resp.headers[order[i]]))
      + [("Content-Length", FormatNat(Utf8Len(resp.body))), ("Connection", "close")]
  }

  /** `format_response`, with the header map's iteration order as `order`. */
  function FormatResponse(resp: HttpResponse, order: seq<string>): (r: string)
    requires Enumerates(order, resp.headers.Keys)
    ensures StartsWith(r, StatusLine(resp.statusCode) + "\r\n")
    ensures EndsWith(r, "\r\n" + resp.body)
  {
    var fb := FieldBlock(ResponseFields(resp, order));
    var r := Message(StatusLine(resp.statusCode), ResponseFields(resp, order), resp.body);
    Assoc4(StatusLine(resp.statusCode), "\r\n", fb, "\r\n" + resp.body);
    Assoc3(StatusLine(resp.statusCode) + "\r\n" + fb, "\r\n", resp.body);
    PrefixOfConcat(StatusLine(resp.statusCode) + "\r\n", fb + ("\r\n" + resp.body));
    SuffixOfConcat(StatusLine(resp.statusCode) + "\r\n" + fb, "\r\n" + resp.body);
    r
  }

  lemma PrefixOfConcat(a: string, b: string)
    ensures StartsWith(a + b, a)
  {
    assert (a + b)[..|a|] == a;
  }

  lemma SuffixOfConcat(a: string, b: string)
    ensures EndsWith(a + b, b)
  {
    assert (a + b)[|a|..] == b;
  }

  lemma {:induction false} FieldBlockAppend(a: seq<(string, string)>, b: seq<(string, string)>)
    ensures FieldBlock(a + b) == FieldBlock(a) + FieldBlock(b)
    decreases |a|
  {
    if |a| == 0 {
      assert a + b == b;
      AppendNil(FieldBlock(b));
    } else {
      assert (a + b)[0] == a[0] && (a + b)[1..] == a[1..] + b;
      FieldBlockAppend(a[1..], b);
      Assoc3(FieldLine(a[0]) + "\r\n", FieldBlock(a[1..]), FieldBlock(b));
    }
  }

  /** The response ends with `Connection: close`, the empty line and the
      body. */
  lemma FormatResponseTail(resp: HttpResponse, order: seq<string>)
    requires Enumerates(order, resp.headers.Keys)
    ensures EndsWith(FormatResponse(resp, order), "Connection: close\r\n\r\n" + resp.body)
  {
    var fields := ResponseFields(resp, order);
    var k := |fields| - 1;
    var conn := [fields[k]];
    assert fields == fields[..k] + conn;
    FieldBlockAppend(fields[..k], conn);
    ConnectionBlock(conn);
    var sl := StatusLine(resp.statusCode);
    var pre := FieldBlock(fields[..k]);
    Regroup(sl, "\r\n", pre, "Connection: close\r\n", resp.body);
    ConnectionTail(resp.body);
    SuffixOfConcat(sl + "\r\n" + pre, "Connection: close\r\n\r\n" + resp.body);
  }

  lemma ConnectionBlock(conn: seq<(string, string)>)
    requires conn == [("Connection", "close")]
    ensures FieldBlock(conn) == "Connection: close\r\n"
  {
    assert conn[1..] == [];
  }

  lemma ConnectionTail(body: string)
    ensures "Connection: close\r\n" + "\r\n" + body == "Connection: close\r\n\r\n" + body
  {
  }

  lemma Regroup<T>(a: seq<T>, b: seq<T>, c: seq<T>, d: seq<T>, e: seq<T>)
    ensures a + b + (c + d) + b + e == (a + b + c) + (d + b + e)
  {
  }

  lemma DigitsPlain(s: string)
    requires AllDigits(s)
    ensures NoWhitespace(s) && '\n' !in s && '\r' !in s && ':' !in s
  {
    assert forall i :: 0 <= i < |s| ==> IsDigit(s[i]);
  }

  lemma FixedNamesPlain()
    ensures PlainName("Content-Length") && PlainName("Connection") && PlainValue("close")
    ensures "Content-Length" != "Connection"
    ensures |"HTTP/1.1"| > 0 && NoWhitespace("HTTP/1.1")
  {
    ContentLengthName();
    ConnectionName();
    CloseValue();
    VersionToken();
    assert "Content-Length"[3] == 't' && "Connection"[3] == 'n';
  }

  lemma ContentLengthName()
    ensures PlainName("Content-Length")
  {
    var s := "Content-Length";
    assert Visible(s) && forall i :: 0 <= i < |s| ==> s[i] != ':';
    VisibleName(s);
  }

  lemma ConnectionName()
    ensures PlainName("Connection")
  {
    var s := "Connection";
    assert Visible(s) && forall i :: 0 <= i < |s| ==> s[i] != ':';
    VisibleName(s);
  }

  lemma CloseValue()
    ensures PlainValue("close")
  {
    assert Visible("close");
    VisiblePlain("close");
  }

  lemma VersionToken()
    ensures NoWhitespace("HTTP/1.1")
  {
    assert Visible("HTTP/1.1");
    VisiblePlain("HTTP/1.1");
  }

  /** Round trip: the server's own request parser reads a formatted response
      back as status line tokens, fields and body. Every header of the
      response comes back unchanged, except that the computed
      `Content-Length` and `Connection: close`, written last, win over
      headers of the same name. */
  lemma ResponseReadsBack(resp: HttpResponse, order: seq<string>)
    requires Enumerates(order, resp.headers.Keys)
    requires forall k :: k in resp.headers ==> PlainName(k) && PlainValue(resp.headers[k])
    requires PlainBody(resp.body)
    ensures var p := ParseHttpRequest(FormatResponse(resp, order));
            && p.Success?
            && p.value.httpMethod == "HTTP/1.1"
            && p.value.path == FormatNat(resp.statusCode)
            && p.value.body == resp.body
            && p.value.headers.Keys == resp.headers.Keys + {"Content-Length", "Connection"}
            && p.value.headers["Content-Length"] == FormatNat(Utf8Len(resp.body))
            && p.value.headers["Connection"] == "close"
            && forall k :: k in resp.headers && k != "Content-Length" && k != "Connection" ==>
                             p.value.headers[k] == resp.headers[k]
  {
    var fields := ResponseFields(resp, order);
    var code := FormatNat(resp.statusCode);
    ResponseFieldsPlain(resp, order);
    FixedNamesPlain();
    DigitsPlain(code);
    StatusLineParts(resp.statusCode);
    StatusTextLine(resp.statusCode);
    PrintableLine(StatusText(resp.statusCode));
    ParseMessage("HTTP/1.1", code, StatusText(resp.statusCode), fields, resp.body);
    ResponseHeaderMap(resp, order);
  }

  lemma StatusLineParts(code: nat)
    ensures StatusLine(code) == "HTTP/1.1" + " " + FormatNat(code) + " " + StatusText(code)
  {
    var c := FormatNat(code);
    var t := StatusText(code);
    Assoc4("HTTP/1.1", " ", c, " " + t);
    Assoc3("HTTP/1.1", " ", c + " " + t);
    Assoc3("HTTP/1.1 " + c, " ", t);
  }

  lemma ResponseFieldsPlain(resp: HttpResponse, order: seq<string>)
    requires Enumerates(order, resp.headers.Keys)
    requires forall k :: k in resp.headers ==> PlainName(k) && PlainValue(resp.headers[k])
    ensures PlainFields(ResponseFields(resp, order))
  {
    var fields := ResponseFields(resp, order);
    var n := |order|;
    FixedNamesPlain();
    var d := FormatNat(Utf8Len(resp.body));
    DigitsPlain(d);
    assert PlainValue(d) by {
      assert !IsWhitespace(d[0]) && !IsWhitespace(d[|d| - 1]);
    }
    forall i | 0 <= i < |fields| ensures PlainName(fields[i].0) && PlainValue(fields[i].1) {
      if i < n {
        assert order[i] in order;
      }
    }
  }

  /** The map the parser builds from the response's fields: every header,
      with `Content-Length` and `Connection` taken from the last two. */
  lemma ResponseHeaderMap(resp: HttpResponse, order: seq<string>)
    requires Enumerates(order, resp.headers.Keys)
    ensures var hs := InsertAll(map[], ResponseFields(resp, order));
            && hs.Keys == resp.headers.Keys + {"Content-Length", "Connection"}
            && hs["Content-Length"] == FormatNat(Utf8Len(resp.body))
            && hs["Connection"] == "close"
            && forall k :: k in resp.headers && k != "Content-Length" && k != "Connection" ==>
                             hs[k] == resp.headers[k]
  {
    ResponseHeaderFixed(resp, order);
    ResponseHeaderOthers(resp, order);
    ResponseHeaderKeys(resp, order);
  }

  lemma ResponseHeaderFixed(resp: HttpResponse, order: seq<string>)
    requires Enumerates(order, resp.headers.Keys)
    ensures var hs := InsertAll(map[], ResponseFields(resp, order));
            && "Content-Length" in hs && hs["Content-Length"] == FormatNat(Utf8Len(resp.body))
            && "Connection" in hs && hs["Connection"] == "close"
  {
    var fields := ResponseFields(resp, order);
    var n := |order|;
    FixedNamesPlain();
    InsertAllLast(fields, n + 1);
    InsertAllLast(fields, n);
  }

  lemma ResponseHeaderOthers(resp: HttpResponse, order: seq<string>)
    requires Enumerates(order, resp.headers.Keys)
    ensures var hs := InsertAll(map[], ResponseFields(resp, order));
            forall k :: k in resp.headers && k != "Content-Length" && k != "Connection" ==>
                          k in hs && hs[k] == resp.headers[k]
  {
    var fields := ResponseFields(resp, order);
    var n := |order|;
    var hs := InsertAll(map[], fields);
    forall k | k in resp.headers && k != "Content-Length" && k != "Connection"
      ensures k in hs && hs[k] == resp.headers[k]
    {
      var i :| 0 <= i < n && order[i] == k;
      assert LastIndex(fields, k) == i by {
        InsertAllHas(fields, i);
        var j := LastIndex(fields, k);
        assert fields[j].0 == k;
        if j < n {
          assert order[j] == k;
        }
      }
      InsertAllLast(fields, i);
    }
  }

  lemma ResponseHeaderKeys(resp: HttpResponse, order: seq<string>)
    requires Enumerates(order, resp.headers.Keys)
    ensures InsertAll(map[], ResponseFields(resp, order)).Keys == resp.headers.Keys + {"Content-Length", "Connection"}
  {
    ResponseHeaderKeysFrom(resp, order);
    ResponseHeaderKeysTo(resp, order);
  }

  lemma ResponseHeaderKeysFrom(resp: HttpResponse, order: seq<string>)
    requires Enumerates(order, resp.headers.Keys)
    ensures forall k :: k in InsertAll(map[], ResponseFields(resp, order)) ==>
                          k in resp.headers || k == "Content-Length" || k == "Connection"
  {
    var fields := ResponseFields(resp, order);
    forall k | k in InsertAll(map[], fields) ensures k in resp.headers || k == "Content-Length" || k == "Connection" {
      var j := InsertAllSource(fields, k);
      if j < |order| {
        assert order[j] in order;
      }
    }
  }

  lemma ResponseHeaderKeysTo(resp: HttpResponse, order: seq<string>)
    requires Enumerates(order, resp.headers.Keys)
    ensures forall k :: k in resp.headers || k == "Content-Length" || k == "Connection" ==>
                          k in InsertAll(map[], ResponseFields(resp, order))
  {
    var fields := ResponseFields(resp, order);
    var n := |order|;
    forall k | k in resp.headers ensures k in InsertAll(map[], fields) {
      var i :| 0 <= i < n && order[i] == k;
      InsertAllHas(fields, i);
    }
    InsertAllHas(fields, n);
    InsertAllHas(fields, n + 1);
  }
}
