/**
 * One body part between two boundary lines: the header block before its
 * first blank line, read line by line into header lines keyed by their
 * lower-cased names, and what the parser does with the part — skip it, keep
 * it as a form field, or keep it as an uploaded file.
 */
module Parts {
  import opened Wrappers
  import opened PhpString
  import opened Errors
  import opened HeaderLines
  import Segmenter

  /** The separator between a part's header block and its body. */
  const BlankLine: string := "\r\n\r\n"

  /** The media type an uploaded file gets when its part has no `Content-Type` header. */
  const DefaultContentType: string := "text/plain"

  const ContentDisposition: string := "content-disposition"
  const ContentType: string := "content-type"
  const FormData: string := "form-data"

  // ---------------------------------------------------------------------
  // Header block.

  /**
   * The header map `parseHeaders` builds from the given lines: each line is
   * parsed and stored under its lower-cased name, so a later line with the
   * same name replaces an earlier one; the first line that does not parse
   * aborts with its error.
   */
  function HeadersOf(lines: seq<string>): Result<map<string, HeaderLine>, ParseError>
  {
    if lines == [] then Success(map[]) else AddHeader(HeadersOf(lines[..|lines| - 1]), lines[|lines| - 1])
  }

  /** One more header line: stored under its lower-cased name, unless an earlier line already failed or this one does not parse. */
  function AddHeader(acc: Result<map<string, HeaderLine>, ParseError>, line: string): (r: Result<map<string, HeaderLine>, ParseError>)
    ensures r.Success? <==> acc.Success? && Parse(line).Success?
  {
    match acc
    case Failure(e) => Failure(e)
    case Success(m) =>
      match Parse(line)
      case Failure(e) => Failure(e)
      case Success(h) => Success(m[ToLower(h.name) := h])
  }

  /** A line that parses is stored under its lower-cased name. */
  lemma AddParsed(m: map<string, HeaderLine>, line: string)
    requires Parse(line).Success?
    ensures AddHeader(Success(m), line) == Success(m[ToLower(Parse(line).value.name) := Parse(line).value])
  {
  }

  /** The fold over one more line of a prefix. */
  lemma HeadersStep(lines: seq<string>, i: nat)
    requires i < |lines|
    ensures HeadersOf(lines[..i + 1]) == AddHeader(HeadersOf(lines[..i]), lines[i])
  {
    assert lines[..i + 1][..i] == lines[..i];
  }

  /** Header names are looked up lower-cased: every key of the header map is its own lower-cased form. */
  lemma {:induction false} HeaderKeysLower(lines: seq<string>)
    requires HeadersOf(lines).Success?
    ensures forall k :: k in HeadersOf(lines).value ==> ToLower(k) == k
  {
    if lines != [] {
      var init := lines[..|lines| - 1];
      HeaderKeysLower(init);
      ToLowerIdempotent(Parse(lines[|lines| - 1]).value.name);
    }
  }

  /** Once a line has failed, the lines after it change nothing. */
  lemma {:induction false} FailureSticks(lines: seq<string>, i: nat)
    requires i <= |lines| && HeadersOf(lines[..i]).Failure?
    ensures HeadersOf(lines) == HeadersOf(lines[..i])
  {
    if i < |lines| {
      var init := lines[..|lines| - 1];
      assert init[..i] == lines[..i];
      FailureSticks(init, i);
    } else {
      assert lines[..i] == lines;
    }
  }

  /** `parseHeaders`: split the block at every CRLF and store each line in turn. */
  method ParseHeaders(headerData: string) returns (r: Result<map<string, HeaderLine>, ParseError>)
    ensures r == HeadersOf(Explode(headerData, Segmenter.Crlf))
  {
    var rawHeaders := Explode(headerData, Segmenter.Crlf);
    var headers: map<string, HeaderLine> := map[];
    for i := 0 to |rawHeaders|
      invariant HeadersOf(rawHeaders[..i]) == Success(headers)
    {
      HeadersStep(rawHeaders, i);
      var header := NewHeaderLine(rawHeaders[i]);
      if header.Failure? {
        FailureSticks(rawHeaders, i + 1);
        return Failure(header.error);
      }
      AddParsed(headers, rawHeaders[i]);
      headers := headers[ToLower(header.value.GetName()) := header.value];
    }
    assert rawHeaders[..|rawHeaders|] == rawHeaders;
    return Success(headers);
  }

  /** The header block is rejected exactly when one of its lines does not parse. */
  lemma HeadersAccepted(lines: seq<string>)
    ensures HeadersOf(lines).Failure? <==> exists j :: 0 <= j < |lines| && Parse(lines[j]).Failure?
  {
    forall j | 0 <= j < |lines| && Parse(lines[j]).Failure? ensures HeadersOf(lines).Failure? {
      BadLineRejects(lines, j);
    }
    if HeadersOf(lines).Failure? {
      var j := RejectedLine(lines);
    }
  }

  lemma {:induction false} BadLineRejects(lines: seq<string>, j: nat)
    requires j < |lines| && Parse(lines[j]).Failure?
    ensures HeadersOf(lines).Failure?
  {
    var init := lines[..|lines| - 1];
    if j < |lines| - 1 {
      assert init[j] == lines[j];
      BadLineRejects(init, j);
    }
  }

  lemma {:induction false} RejectedLine(lines: seq<string>) returns (j: nat)
    requires HeadersOf(lines).Failure?
    ensures j < |lines| && Parse(lines[j]).Failure?
  {
    var init := lines[..|lines| - 1];
    if HeadersOf(init).Failure? {
      j := RejectedLine(init);
      assert init[j] == lines[j];
    } else {
      j := |lines| - 1;
    }
  }

  /** The first line that does not parse decides the error, whatever follows it. */
  lemma FirstBadLine(lines: seq<string>, i: nat)
    requires i < |lines| && HeadersOf(lines[..i]).Success? && Parse(lines[i]).Failure?
    ensures HeadersOf(lines) == Failure(Parse(lines[i]).error)
  {
    HeadersStep(lines, i);
    FailureSticks(lines, i + 1);
  }

  /** The line stores a header under the lower-cased name `key`. */
  predicate Names(line: string, key: string)
  {
    Parse(line).Success? && ToLower(Parse(line).value.name) == key
  }

  /** Of several lines with the same name, case-insensitively, the LAST one is kept. */
  lemma {:induction false} LastHeaderWins(lines: seq<string>, i: nat, key: string)
    requires HeadersOf(lines).Success?
    requires i < |lines| && Names(lines[i], key)
    requires forall j :: i < j < |lines| ==> !Names(lines[j], key)
    ensures key in HeadersOf(lines).value && HeadersOf(lines).value[key] == Parse(lines[i]).value
  {
    if i == |lines| - 1 {
      HeadersLast(lines);
    } else {
      var init := lines[..|lines| - 1];
      DropLastLine(lines, i, key);
      LastHeaderWins(init, i, key);
      OtherHeaderKept(lines, key);
    }
  }

  /** Dropping the last line, which does not carry the name, keeps the premises for the line that does. */
  lemma DropLastLine(lines: seq<string>, i: nat, key: string)
    requires HeadersOf(lines).Success?
    requires i < |lines| - 1 && Names(lines[i], key)
    requires forall j :: i < j < |lines| ==> !Names(lines[j], key)
    ensures var init := lines[..|lines| - 1];
      HeadersOf(init).Success? && Names(init[i], key) && !Names(lines[|lines| - 1], key)
      && forall j :: i < j < |init| ==> !Names(init[j], key)
  {
    var init := lines[..|lines| - 1];
    assert forall j :: i < j < |init| ==> init[j] == lines[j];
    assert init[i] == lines[i];
  }

  /** A last line stored under another name leaves the entry for `key` as it was. */
  lemma OtherHeaderKept(lines: seq<string>, key: string)
    requires lines != [] && HeadersOf(lines).Success?
    requires !Names(lines[|lines| - 1], key) && key in HeadersOf(lines[..|lines| - 1]).value
    ensures key in HeadersOf(lines).value
    ensures HeadersOf(lines).value[key] == HeadersOf(lines[..|lines| - 1]).value[key]
  {
    HeadersLast(lines);
  }

  /** A header map that was built is the one before the last line, with the last line stored. */
  lemma HeadersLast(lines: seq<string>)
    requires lines != [] && HeadersOf(lines).Success?
    ensures var init, last := lines[..|lines| - 1], lines[|lines| - 1];
      HeadersOf(init).Success? && Parse(last).Success?
      && HeadersOf(lines).value == HeadersOf(init).value[ToLower(Parse(last).value.name) := Parse(last).value]
  {
    var init, last := lines[..|lines| - 1], lines[|lines| - 1];
    AddParsed(HeadersOf(init).value, last);
  }

  /** A name that no line carries is absent from the header map. */
  lemma {:induction false} UnnamedHeaderAbsent(lines: seq<string>, key: string)
    requires HeadersOf(lines).Success?
    requires forall j :: 0 <= j < |lines| ==> !Names(lines[j], key)
    ensures key !in HeadersOf(lines).value
  {
    if lines != [] {
      var init := lines[..|lines| - 1];
      assert forall j :: 0 <= j < |init| ==> init[j] == lines[j];
      UnnamedHeaderAbsent(init, key);
      assert !Names(lines[|lines| - 1], key);
    }
  }

  // ---------------------------------------------------------------------
  // What becomes of a part.

  /** PHP truthiness of a string: everything but `""` and `"0"`. */
  predicate Truthy(s: string)
  {
    s != "" && s != "0"
  }

  /** `isFormDataPart`: the disposition's primary value is exactly `form-data`. */
  predicate IsFormDataPart(disposition: HeaderLine)
  {
    disposition.GetValue() == FormData
  }

  /** What the parser keeps of one part. An upload's form name is None when its disposition has no `name`. */
  datatype Part =
    | Skipped
    | Field(name: string, body: string)
    | Upload(formName: Option<string>, body: string, filename: string, contentType: string)

  /** The upload's media type: the primary value of its `Content-Type` header, `text/plain` without one. */
  function ContentTypeOf(headers: map<string, HeaderLine>): string
  {
    if ContentType in headers then headers[ContentType].GetValue() else DefaultContentType
  }

  /** The decision on a part with parsed headers and the given body. */
  function Route(headers: map<string, HeaderLine>, body: string): (p: Part)
    ensures p.Field? ==> p.name != "" && p.body == body
    ensures p.Upload? ==> Truthy(p.filename) && p.body == body
  {
    if ContentDisposition !in headers || !IsFormDataPart(headers[ContentDisposition]) then Skipped
    else
      var disposition := headers[ContentDisposition];
      var filename := disposition.GetKeyValue("filename");
      if filename.Some? && Truthy(filename.value) then
        Upload(disposition.GetKeyValue("name"), body, filename.value, ContentTypeOf(headers))
      else
        match disposition.GetKeyValue("name")
        case None => Skipped
        case Some(name) => if name == "" then Skipped else Field(name, body)
  }

  /**
   * One part: the header block is the text before the first blank line and
   * the body everything after it. A part without a blank line is skipped; a
   * header line that does not parse is an error.
   */
  function Classify(segment: string): Result<Part, ParseError>
  {
    match SplitFirst(segment, BlankLine)
    case None => Success(Skipped)
    case Some((headerData, body)) =>
      match HeadersOf(Explode(headerData, Segmenter.Crlf))
      case Failure(e) => Failure(e)
      case Success(headers) => Success(Route(headers, body))
  }

  // The next four lemmas read `Route` as a decision table, one outcome at a
  // time. Its independent check is the writer in the `Encoding` module:
  // `FieldPartDecodes` and `FormRoundTrip` show that parts written as
  // form-data fields are routed back to exactly those fields.

  /** A part is skipped, without reading it, when it has no `Content-Disposition` header of type `form-data`. */
  lemma NotFormData(headers: map<string, HeaderLine>, body: string)
    requires ContentDisposition !in headers || headers[ContentDisposition].GetValue() != FormData
    ensures Route(headers, body) == Skipped
  {
  }

  /**
   * A `form-data` part is an uploaded file exactly when its `filename` is
   * truthy; its name (possibly missing), body and file name are passed on
   * untouched.
   */
  lemma UploadIff(headers: map<string, HeaderLine>, body: string)
    requires ContentDisposition in headers && IsFormDataPart(headers[ContentDisposition])
    ensures var d := headers[ContentDisposition];
      Route(headers, body).Upload? <==> d.GetKeyValue("filename").Some? && Truthy(d.GetKeyValue("filename").value)
    ensures var d := headers[ContentDisposition];
      Route(headers, body).Upload? ==>
        Route(headers, body) == Upload(d.GetKeyValue("name"), body, d.GetKeyValue("filename").value, ContentTypeOf(headers))
  {
  }

  /**
   * A `form-data` part whose `filename` is missing, empty or `"0"` is a
   * field exactly when its `name` is present and non-empty, and then keeps
   * the body as it is.
   */
  lemma FieldIff(headers: map<string, HeaderLine>, body: string)
    requires ContentDisposition in headers && IsFormDataPart(headers[ContentDisposition])
    requires var f := headers[ContentDisposition].GetKeyValue("filename"); f.None? || !Truthy(f.value)
    ensures var n := headers[ContentDisposition].GetKeyValue("name");
      Route(headers, body) != Skipped <==> n.Some? && n.value != ""
    ensures var n := headers[ContentDisposition].GetKeyValue("name");
      n.Some? && n.value != "" ==> Route(headers, body) == Field(n.value, body)
  {
  }

  /** An upload without a `Content-Type` header is `text/plain`; with one it is that header's primary value. */
  lemma UploadContentType(headers: map<string, HeaderLine>, body: string)
    requires Route(headers, body).Upload?
    ensures ContentType !in headers ==> Route(headers, body).contentType == DefaultContentType
    ensures ContentType in headers ==> Route(headers, body).contentType == headers[ContentType].GetValue()
  {
  }

  /** A segment without a blank line is skipped: it has no header block to read. */
  lemma NoBlankLine(segment: string)
    requires forall k :: 0 <= k < |segment| ==> !OccursAt(segment, k, BlankLine)
    ensures Classify(segment) == Success(Skipped)
  {
  }

  /**
   * Header lines are CRLF-separated and non-empty: every CR in the block
   * starts a CRLF that another header line follows.
   */
  predicate HeaderBlock(head: string)
  {
    forall k :: 0 <= k < |head| && head[k] == '\r' ==> k + 2 < |head| && head[k + 1] == '\n' && head[k + 2] != '\r'
  }

  /**
   * The header block ends at the FIRST blank line: everything after it,
   * further blank lines included, is the body, byte for byte.
   */
  lemma {:induction false} FirstBlankLine(head: string, body: string)
    requires HeaderBlock(head)
    ensures SplitFirst(head + BlankLine + body, BlankLine) == Some((head, body))
    ensures Classify(head + BlankLine + body) ==
      match HeadersOf(Explode(head, Segmenter.Crlf))
      case Failure(e) => Failure(e)
      case Success(headers) => Success(Route(headers, body))
  {
    var s := head + BlankLine + body;
    forall k | 0 <= k < |head| ensures !OccursAt(s, k, BlankLine) {
      assert s[k] == head[k];
      if head[k] == '\r' {
        assert s[k + 2] == head[k + 2];
        assert s[k..k + 4][2] == s[k + 2];
      } else {
        assert k + 4 <= |s| ==> s[k..k + 4][0] == s[k];
      }
    }
    assert s[|head|..|head| + 4] == BlankLine;
    assert OccursAt(s, |head|, BlankLine);
    var r := SplitFirst(s, BlankLine);
    assert r.Some?;
    assert |r.value.0| == |head| by {
      assert |r.value.0| <= |head|;
      assert OccursAt(s, |r.value.0|, BlankLine) by {
        assert s == r.value.0 + BlankLine + r.value.1;
        assert s[|r.value.0|..|r.value.0| + 4] == BlankLine;
      }
    }
    assert r.value.0 == s[..|head|] == head;
    assert r.value.1 == s[|head| + 4..] == body;
  }
}
