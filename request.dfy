/** `parseHTTPReq` in main.go: the whole pipeline from a raw buffer to a
    `Request`. The buffer is cut into CRLF lines, the first line into
    space-separated fields (method, target, version), the version is decoded
    and the header section is parsed into a map. */
module HttpRequest {
  import opened Wrappers
  import opened ByteStrings
  import opened Version
  import opened Headers

  /** The `Request` struct. `U` is whatever the URL parser produces. */
  datatype Request<U> = Request(
    Method: Bytes,
    URL: U,
    Proto: Bytes,
    ProtoMin: int,
    ProtoMaj: int,
    Header: HeaderMap)

  /** Every way a parse can end without a `Request`. Only `InvalidTarget`
      and `InvalidVersion` are errors the source returns; the others are
      the places where it indexes or slices out of range and panics. */
  datatype ParseError =
    | MissingTarget            // `ln1[1]` with fewer than two fields
    | InvalidTarget            // `url.Parse` returned an error
    | MissingProto             // `ln1[2]` with only two fields
    | InvalidVersion           // "invalid HTTP version string"
    | MissingHeaderTerminator  // `splits[1:-1]`: no empty line after the request line
    | MalformedHeaderLine      // a header line without a colon

  /** `bytes.Split(req, delim)`: the CRLF-separated lines of the buffer. */
  function Lines(req: Bytes): (lines: seq<Bytes>)
    ensures |lines| >= 1
  {
    Split(req, CRLF)
  }

  /** `bytes.Split(splits[0], space)`: the fields of the request line. */
  function Fields(req: Bytes): (fields: seq<Bytes>)
    ensures |fields| >= 1
  {
    Split(Lines(req)[0], [' '])
  }

  /** The lines strictly between the request line and the first empty line
      after it, or None when no later line is empty. */
  function HeaderSection(req: Bytes): (r: Option<seq<Bytes>>)
    ensures r.None? <==> forall j :: 1 <= j < |Lines(req)| ==> Lines(req)[j] != []
    ensures r.Some? ==>
      && |r.value| + 1 < |Lines(req)|
      && r.value == Lines(req)[1..|r.value| + 1]
      && Lines(req)[|r.value| + 1] == []
      && forall l <- r.value :: l != []
  {
    var lines := Lines(req);
    match FirstEmpty(lines[1..])
    case None => None
    case Some(i) => Some(lines[1..i + 1])
  }

  /** The request line has a method, a target the URL parser accepts and a
      version that decodes. */
  predicate RequestLineOk<U>(req: Bytes, parseUrl: Bytes -> Option<U>) {
    var fields := Fields(req);
    |fields| >= 3 && parseUrl(fields[1]).Some? && ParseHTTPVer(fields[2]).ok
  }

  /** `parseHTTPReq`. `parseUrl` stands for `url.Parse`. The outcome is the
      first failure in source order: the target field is read before the URL
      is parsed, the version field only after the URL has been accepted, and
      the header section is looked at only once the version has decoded. */
  method ParseHTTPReq<U>(req: Bytes, parseUrl: Bytes -> Option<U>) returns (r: Result<Request<U>, ParseError>)
    ensures r == Failure(MissingTarget) <==> |Fields(req)| < 2
    ensures r == Failure(InvalidTarget) <==> |Fields(req)| >= 2 && parseUrl(Fields(req)[1]).None?
    ensures r == Failure(MissingProto) <==> |Fields(req)| == 2 && parseUrl(Fields(req)[1]).Some?
    ensures r == Failure(InvalidVersion) <==>
      |Fields(req)| >= 3 && parseUrl(Fields(req)[1]).Some? && !ParseHTTPVer(Fields(req)[2]).ok
    ensures r == Failure(MissingHeaderTerminator) <==> RequestLineOk(req, parseUrl) && HeaderSection(req).None?
    ensures r == Failure(MalformedHeaderLine) <==>
      RequestLineOk(req, parseUrl) && HeaderSection(req).Some? && !AllHaveColon(HeaderSection(req).value)
    ensures r.Success? <==>
      RequestLineOk(req, parseUrl) && HeaderSection(req).Some? && AllHaveColon(HeaderSection(req).value)
    ensures r.Success? ==>
      && RequestLineOk(req, parseUrl) && HeaderSection(req).Some? && AllHaveColon(HeaderSection(req).value)
      && var fields := Fields(req);
         var version := ParseHTTPVer(fields[2]);
         r.value == Request(fields[0], parseUrl(fields[1]).value, fields[2],
                            version.minor, version.major, HeaderMapOf(HeaderSection(req).value))
  {
    var splits := Split(req, CRLF);
    var ln1 := Split(splits[0], [' ']);
    var method_ := ln1[0];
    if |ln1| < 2 {
      return Failure(MissingTarget);
    }
    var u := parseUrl(ln1[1]);
    if u.None? {
      return Failure(InvalidTarget);
    }
    if |ln1| < 3 {
      return Failure(MissingProto);
    }
    var proto := ln1[2];
    var version := ParseHTTPVer(proto);
    if !version.ok {
      return Failure(InvalidVersion);
    }
    var ln2 := splits[1..];
    var headerLen := CalculateHeaderLen(ln2);
    if headerLen == -1 {
      return Failure(MissingHeaderTerminator);
    }
    FirstEmptyUnique(ln2, headerLen - 1);
    var incomingHeaders := splits[1..headerLen];
    var headers := ParseHeaders(incomingHeaders);
    if headers.None? {
      return Failure(MalformedHeaderLine);
    }
    r := Success(Request(method_, u.value, proto, version.minor, version.major, headers.value));
  }

  /** A request line joined from space-free fields is cut back into them,
      and holds no '\r' when none of them does. */
  lemma RequestLineFields(fields: seq<Bytes>)
    requires |fields| >= 1
    requires forall f <- fields :: ' ' !in f && '\r' !in f
    ensures Split(Join(fields, [' ']), [' ']) == fields
    ensures '\r' !in Join(fields, [' '])
  {
    forall f <- fields
      ensures !Contains(f, [' '])
    {
      NoByteNoContains(f, ' ');
    }
    JoinThenSplit(fields, [' ']);
    JoinAvoidsByte(fields, [' '], '\r');
  }

  /** Lines without '\r', each followed by CRLF, come back as those lines
      ahead of the lines of whatever follows. */
  lemma LinesOfSections(parts: seq<Bytes>, body: Bytes)
    requires |parts| >= 1
    requires forall q <- parts :: '\r' !in q
    ensures Split(Join(parts, CRLF) + CRLF + body, CRLF) == parts + Split(body, CRLF)
  {
    forall q <- parts
      ensures !Contains(q, CRLF)
    {
      NoCRNoCRLF(q);
    }
    JoinThenSplitAppend(parts, CRLF, body);
  }

  /** Non-empty header lines followed by an empty line make up the header
      section, whatever comes after. */
  lemma SectionBeforeEmpty(lines: seq<Bytes>, headers: seq<Bytes>)
    requires |lines| > |headers| + 1
    requires lines[1..|headers| + 2] == headers + [[]]
    requires forall h <- headers :: h != []
    ensures FirstEmpty(lines[1..]) == Some(|headers|)
    ensures lines[1..|headers| + 1] == headers
  {
    var tail := lines[1..];
    assert tail[..|headers| + 1] == headers + [[]];
    assert forall j :: 0 <= j < |headers| ==> tail[j] == headers[j] && headers[j] in headers;
    assert IsFirstEmpty(tail, |headers|);
    FirstEmptyUnique(tail, |headers|);
    assert lines[1..|headers| + 1] == tail[..|headers|];
  }

  /** A buffer assembled from a request line of space-free fields, header
      lines, an empty line and any body is cut back into exactly those
      parts: the fields of the request line, and the header lines as the
      header section, whatever the body holds. */
  lemma RequestSections(fields: seq<Bytes>, headers: seq<Bytes>, body: Bytes)
    requires |fields| >= 1
    requires forall f <- fields :: ' ' !in f && '\r' !in f
    requires forall h <- headers :: h != [] && '\r' !in h
    ensures var req := Join([Join(fields, [' '])] + headers + [[]], CRLF) + CRLF + body;
      && Lines(req) == [Join(fields, [' '])] + headers + [[]] + Split(body, CRLF)
      && Fields(req) == fields
      && HeaderSection(req) == Some(headers)
  {
    var line := Join(fields, [' ']);
    var parts := [line] + headers + [[]];
    var req := Join(parts, CRLF) + CRLF + body;
    RequestLineFields(fields);
    var lines := Lines(req);
    assert lines == parts + Split(body, CRLF) by {
      assert forall q <- parts :: '\r' !in q;
      LinesOfSections(parts, body);
    }
    assert Fields(req) == fields by {
      assert lines[0] == line;
    }
    assert HeaderSection(req) == Some(headers) by {
      assert lines[1..|headers| + 2] == headers + [[]];
      SectionBeforeEmpty(lines, headers);
    }
  }
}
