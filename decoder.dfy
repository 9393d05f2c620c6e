/**
 * The parser object: it reads the boundary from the request's
 * `Content-Type`, cuts the raw body into parts at the boundary lines, keeps
 * each part as a form field or an uploaded file, and lays both out as the
 * nested arrays `parse_str` builds (the `Parser` class).
 *
 * The pure functions `Step`, `Process` and `Decode` state what the parse
 * loop computes; the class's methods are proved against them.
 */
module Decoder {
  import opened Wrappers
  import opened PhpString
  import opened Errors
  import opened HeaderLines
  import Boundary
  import Segmenter
  import opened FormTree
  import opened Parts

  /** PHP's `UPLOAD_ERR_OK`. */
  const UploadErrOk: int := 0

  /** The uploaded file the factory makes for a file part: stream content, size, error code, client file name and media type. */
  datatype UploadedFile = UploadedFile(stream: string, size: nat, error: int, clientFilename: string, clientMediaType: string)

  // ---------------------------------------------------------------------
  // The counter for unnamed uploads.

  /**
   * The name an upload is filed under and the counter afterwards: its
   * `name` when it has one, otherwise the counter's current value written
   * in decimal, after which the counter moves on by one.
   */
  function FileFormName(formName: Option<string>, fileIndex: nat): (string, nat)
  {
    match formName
    case Some(name) => (name, fileIndex)
    case None => (NatToDecimal(fileIndex), fileIndex + 1)
  }

  /**
   * The same step as written: the counter value is an `int`, and under
   * strict typing `rawurlencode` refuses it with a `TypeError`, after the
   * counter has already moved on.
   */
  function FileFormNameAsWritten(formName: Option<string>, fileIndex: nat): (Result<string, ParseError>, nat)
  {
    match formName
    case Some(name) => (Success(name), fileIndex)
    case None => (Failure(TypeError), fileIndex + 1)
  }

  /**
   * An upload without a `name`: as written it aborts the whole parse with a
   * `TypeError` and still bumps the counter; corrected, it is filed under
   * the counter's value and only the counter changes.
   */
  lemma UnnamedUploadAsWritten(fileIndex: nat)
    ensures FileFormNameAsWritten(None, fileIndex) == (Failure(TypeError), fileIndex + 1)
    ensures FileFormName(None, fileIndex) == (NatToDecimal(fileIndex), fileIndex + 1)
    ensures DecimalValue(FileFormName(None, fileIndex).0) == Some(fileIndex)
  {
    DecimalRoundTrip(fileIndex);
  }

  /** The two agree on every upload that has a `name`. */
  lemma NamedUploadsAgree(name: string, fileIndex: nat)
    ensures FileFormNameAsWritten(Some(name), fileIndex) == (Success(FileFormName(Some(name), fileIndex).0), FileFormName(Some(name), fileIndex).1)
  {
  }

  /** Unnamed uploads filed at different counter values get different names, so none overwrites another. */
  lemma UnnamedUploadsDistinct(i: nat, j: nat)
    requires i != j
    ensures FileFormName(None, i).0 != FileFormName(None, j).0
  {
    NatToDecimalInjective(i, j);
  }

  // ---------------------------------------------------------------------
  // The parse loop as a fold over the parts.

  /**
   * What the parse loop has gathered so far: the `name=value` pairs of the
   * fields, the `name=id` pairs of the files, the files by id, the counter
   * for unnamed uploads, and the next fresh object id.
   */
  datatype Pending = Pending(
    fields: seq<(string, string)>,
    files: seq<(string, string)>,
    flat: map<nat, UploadedFile>,
    fileIndex: nat,
    nextId: nat)

  /** The state before the first part, with the counter as it stands. */
  function Start(fileIndex: nat): Pending
  {
    Pending([], [], map[], fileIndex, 0)
  }

  /**
   * `parseUploadedFile`: the file gets the next fresh id, is registered
   * under it, and a pair `name=id` is added to the file pairs. An upload
   * without a name is filed under the counter (`FileFormName`, the corrected
   * behaviour; as written the code raises a `TypeError` there).
   */
  function AddFile(st: Pending, formName: Option<string>, body: string, filename: string, contentType: string): Pending
  {
    var file := UploadedFile(body, |body|, UploadErrOk, filename, contentType);
    var (name, fileIndex) := FileFormName(formName, st.fileIndex);
    st.(files := st.files + [(name, NatToDecimal(st.nextId))],
        flat := st.flat[st.nextId := file],
        fileIndex := fileIndex,
        nextId := st.nextId + 1)
  }

  /** What keeping a part does: a skipped part changes nothing, a field adds a pair, an upload is filed. */
  function Keep(st: Pending, part: Part): Pending
  {
    match part
    case Skipped => st
    case Field(name, body) => st.(fields := st.fields + [(name, body)])
    case Upload(formName, body, filename, contentType) => AddFile(st, formName, body, filename, contentType)
  }

  /** One turn of the parse loop. */
  function Step(st: Pending, segment: string): Result<Pending, ParseError>
  {
    match Classify(segment)
    case Failure(e) => Failure(e)
    case Success(part) => Success(Keep(st, part))
  }

  /** The loop over all parts: the state reached, and the error that stopped it, if any. */
  function Process(st: Pending, segments: seq<string>): (Pending, Option<ParseError>)
    decreases |segments|
  {
    if segments == [] then (st, None)
    else
      match Step(st, segments[0])
      case Failure(e) => (st, Some(e))
      case Success(next) => Process(next, segments[1..])
  }

  /**
   * Every file pair's id names a registered file, and every registered id
   * is below the next fresh one.
   */
  ghost predicate Consistent(st: Pending)
  {
    (forall id :: id in st.flat ==> id < st.nextId)
    && (forall i :: 0 <= i < |st.files| ==> Resolve(st.files[i].1, st.flat).Some?)
  }

  /** `layoutFilesAssocDeep`: the `parse_str` tree of the file pairs, each id replaced by its file. */
  function Layout(st: Pending): Tree<UploadedFile>
    requires Consistent(st)
  {
    var vals := set i | 0 <= i < |st.files| :: st.files[i].1;
    ParseStrLeaves(st.files);
    RegisteredFromValues(ParseStr(st.files), vals, st.flat);
    Substitute(ParseStr(st.files), st.flat)
  }

  /** What a parser built from a request holds. */
  datatype Decoded = Decoded(boundary: string, formFields: Tree<string>, files: Tree<UploadedFile>, filesFlat: map<nat, UploadedFile>)

  /**
   * The parser's constructor on a body and `Content-Type` header, with the
   * unnamed-upload counter as it stands: the decoded request or the error
   * thrown, and the counter afterwards (it keeps what it counted even when
   * a later part fails).
   */
  function Decode(rawData: string, contentTypeHeader: string, fileIndex: nat): (Result<Decoded, ParseError>, nat)
  {
    match Boundary.ReadBoundary(contentTypeHeader)
    case Failure(e) => (Failure(e), fileIndex)
    case Success(boundary) =>
      var segments := Segmenter.Segments(rawData, boundary);
      var p := Process(Start(fileIndex), segments);
      ProcessConsistent(Start(fileIndex), segments);
      if p.1.Some? then (Failure(p.1.value), p.0.fileIndex)
      else (Success(Decoded(boundary, ParseStr(p.0.fields), Layout(p.0), p.0.flat)), p.0.fileIndex)
  }

  // ---------------------------------------------------------------------
  // Properties of the loop.

  /** An upload's id is fresh and resolves to the file just made, and every earlier file keeps its id. */
  lemma AddFileConsistent(st: Pending, formName: Option<string>, body: string, filename: string, contentType: string)
    requires Consistent(st)
    ensures var next := AddFile(st, formName, body, filename, contentType);
      Consistent(next)
      && st.nextId !in st.flat
      && Resolve(next.files[|next.files| - 1].1, next.flat) == Some(UploadedFile(body, |body|, UploadErrOk, filename, contentType))
      && (forall id :: id in st.flat ==> id in next.flat && next.flat[id] == st.flat[id])
  {
    var next := AddFile(st, formName, body, filename, contentType);
    DecimalRoundTrip(st.nextId);
    forall i | 0 <= i < |next.files| ensures Resolve(next.files[i].1, next.flat).Some? {
      if i < |st.files| {
        assert next.files[i] == st.files[i];
        var id := DecimalValue(st.files[i].1).value;
        assert id in st.flat;
      }
    }
  }

  /** Each turn keeps the state valid and never loses a registered file. */
  lemma StepConsistent(st: Pending, segment: string)
    requires Consistent(st) && Step(st, segment).Success?
    ensures Consistent(Step(st, segment).value)
    ensures forall id :: id in st.flat ==> id in Step(st, segment).value.flat && Step(st, segment).value.flat[id] == st.flat[id]
  {
    match Classify(segment)
    case Success(Upload(formName, body, filename, contentType)) =>
      AddFileConsistent(st, formName, body, filename, contentType);
    case _ =>
  }

  /** The loop keeps the state valid whether or not it stops early. */
  lemma {:induction false} ProcessConsistent(st: Pending, segments: seq<string>)
    requires Consistent(st)
    ensures Consistent(Process(st, segments).0)
    decreases |segments|
  {
    if segments != [] && Step(st, segments[0]).Success? {
      StepConsistent(st, segments[0]);
      ProcessConsistent(Step(st, segments[0]).value, segments[1..]);
    }
  }

  /** The counter moves on by one for an upload without a `name` and stays put for every other part. */
  lemma StepCounter(st: Pending, segment: string)
    requires Step(st, segment).Success?
    ensures Step(st, segment).value.fileIndex ==
      match Classify(segment)
      case Success(Upload(None, _, _, _)) => st.fileIndex + 1
      case _ => st.fileIndex
  {
  }

  /** The counter for unnamed uploads never goes back. */
  lemma {:induction false} CounterGrows(st: Pending, segments: seq<string>)
    ensures Process(st, segments).0.fileIndex >= st.fileIndex
    decreases |segments|
  {
    if segments != [] && Step(st, segments[0]).Success? {
      StepCounter(st, segments[0]);
      CounterGrows(Step(st, segments[0]).value, segments[1..]);
    }
  }

  /** The field pair a part contributes: one for a field, none otherwise. */
  function FieldOf(segment: string): seq<(string, string)>
  {
    match Classify(segment)
    case Success(Field(name, body)) => [(name, body)]
    case _ => []
  }

  /** The field pairs of the parts, in the order the parts come. */
  function FieldsOf(segments: seq<string>): seq<(string, string)>
  {
    if segments == [] then [] else FieldOf(segments[0]) + FieldsOf(segments[1..])
  }

  /** A part classified as a field contributes that one field. */
  lemma FieldOfField(segment: string, name: string, body: string)
    requires Classify(segment) == Success(Field(name, body))
    ensures FieldOf(segment) == [(name, body)]
  {
  }

  /** The part in front contributes its fields ahead of the rest. */
  lemma FieldsOfCons(segment: string, rest: seq<string>)
    ensures FieldsOf([segment] + rest) == FieldOf(segment) + FieldsOf(rest)
  {
    assert ([segment] + rest)[1..] == rest;
  }

  /** A loop that runs to the end gathers the fields of all parts, in order, after those it started with. */
  lemma {:induction false} FieldsInOrder(st: Pending, segments: seq<string>)
    requires Process(st, segments).1.None?
    ensures Process(st, segments).0.fields == st.fields + FieldsOf(segments)
    decreases |segments|
  {
    if segments != [] {
      var next := Step(st, segments[0]).value;
      FieldsInOrder(next, segments[1..]);
      assert next.fields == st.fields + FieldOf(segments[0]);
    }
  }

  /** A part with no blank line is passed over: it changes nothing. */
  lemma PartWithoutHeaders(st: Pending, segment: string)
    requires forall k :: 0 <= k < |segment| ==> !OccursAt(segment, k, BlankLine)
    ensures Step(st, segment) == Success(st)
  {
    NoBlankLine(segment);
  }

  /**
   * The loop stops at the first part whose headers do not parse, with the
   * error of that part and the state the parts before it built (the counter
   * included).
   */
  lemma {:induction false} StopsAtFirstError(st: Pending, segments: seq<string>, i: nat)
    requires i < |segments| && Classify(segments[i]).Failure?
    requires Process(st, segments[..i]).1.None?
    ensures Process(st, segments) == (Process(st, segments[..i]).0, Some(Classify(segments[i]).error))
    decreases i
  {
    if i == 0 {
      assert segments[0] == segments[i];
    } else {
      var next := Step(st, segments[0]).value;
      assert segments[..i][1..] == segments[1..][..i - 1];
      assert segments[1..][i - 1] == segments[i];
      StopsAtFirstError(next, segments[1..], i - 1);
    }
  }

  /** The loop runs to the end exactly when no part's headers fail to parse. */
  lemma {:induction false} RunsToEnd(st: Pending, segments: seq<string>)
    ensures Process(st, segments).1.Some? <==> exists i :: 0 <= i < |segments| && Classify(segments[i]).Failure?
    decreases |segments|
  {
    if segments != [] {
      RunsToEnd(st, segments[1..]);
      if Step(st, segments[0]).Success? {
        RunsToEnd(Step(st, segments[0]).value, segments[1..]);
      }
      forall i | 1 <= i < |segments| ensures segments[1..][i - 1] == segments[i] {
      }
      forall i | 0 <= i < |segments| - 1 ensures segments[i + 1] == segments[1..][i] {
      }
    }
  }

  /** A form with no uploads registers no file and leaves the counter alone. */
  lemma {:induction false} FilesUntouched(st: Pending, segments: seq<string>)
    requires forall i :: 0 <= i < |segments| ==> Classify(segments[i]).Success? && !Classify(segments[i]).value.Upload?
    ensures Process(st, segments).1.None?
    ensures Process(st, segments).0.files == st.files && Process(st, segments).0.flat == st.flat
    ensures Process(st, segments).0.fileIndex == st.fileIndex && Process(st, segments).0.nextId == st.nextId
    decreases |segments|
  {
    if segments != [] {
      assert Classify(segments[0]).Success?;
      FilesUntouched(Step(st, segments[0]).value, segments[1..]);
    }
  }

  /**
   * A request whose parts all parse and none of which is an upload decodes
   * to its fields, in order, with no files and the counter untouched.
   */
  lemma TextFormDecodes(rawData: string, contentTypeHeader: string, boundary: string, fileIndex: nat)
    requires Boundary.ReadBoundary(contentTypeHeader) == Success(boundary)
    requires var segments := Segmenter.Segments(rawData, boundary);
      forall i :: 0 <= i < |segments| ==> Classify(segments[i]).Success? && !Classify(segments[i]).value.Upload?
    ensures Decode(rawData, contentTypeHeader, fileIndex)
      == (Success(Decoded(boundary, ParseStr(FieldsOf(Segmenter.Segments(rawData, boundary))), Empty(), map[])), fileIndex)
  {
    var segments := Segmenter.Segments(rawData, boundary);
    var st := Start(fileIndex);
    FilesUntouched(st, segments);
    FieldsInOrder(st, segments);
    var p := Process(st, segments);
    ProcessConsistent(st, segments);
    assert ParseStr(p.0.files) == Empty();
    assert Layout(p.0) == Empty();
    assert p.1.None? && p.0.fields == FieldsOf(segments);
    assert Decode(rawData, contentTypeHeader, fileIndex)
      == (Success(Decoded(boundary, ParseStr(p.0.fields), Layout(p.0), p.0.flat)), p.0.fileIndex);
  }

  // ---------------------------------------------------------------------
  // The objects.

  /** The counter of unnamed uploads, a function-level `static` shared by every parser in the process. */
  class FileIndex {
    var value: nat

    constructor ()
      ensures value == 0
    {
      value := 0;
    }
  }

  class Parser {
    const rawData: string
    const contentTypeHeader: string
    const fileIndex: FileIndex
    var boundary: string
    var formFields: Tree<string>
    var files: Tree<UploadedFile>
    var filesFlat: map<nat, UploadedFile>
    /** Ids not yet given to an uploaded file: what `spl_object_id` hands out. */
    var nextObjectId: nat

    /** Every registered file's id is below the next fresh one. */
    ghost predicate Valid()
      reads this
    {
      forall id :: id in filesFlat ==> id < nextObjectId
    }

    /** The state the loop sees, with the given field and file pairs. */
    ghost function Loop(fieldsSpec: seq<(string, string)>, filesSpec: seq<(string, string)>): Pending
      reads this, fileIndex
    {
      Pending(fieldsSpec, filesSpec, filesFlat, fileIndex.value, nextObjectId)
    }

    /** The fields the constructor sets before it reads the request. */
    constructor (rawData: string, contentTypeHeader: string, fileIndex: FileIndex)
      ensures this.rawData == rawData && this.contentTypeHeader == contentTypeHeader && this.fileIndex == fileIndex
      ensures boundary == "" && formFields == Empty() && files == Empty() && filesFlat == map[] && nextObjectId == 0
    {
      this.rawData := rawData;
      this.contentTypeHeader := contentTypeHeader;
      this.fileIndex := fileIndex;
      boundary := "";
      formFields := Empty();
      files := Empty();
      filesFlat := map[];
      nextObjectId := 0;
    }

    function GetBoundary(): string
      reads this
    {
      boundary
    }

    function GetFormFields(): Tree<string>
      reads this
    {
      formFields
    }

    function GetFiles(): Tree<UploadedFile>
      reads this
    {
      files
    }

    /** `readBoundary`: the boundary read from the `Content-Type` header is stored, or the error is returned and nothing changes. */
    method ReadBoundary() returns (err: Option<ParseError>)
      modifies this
      ensures var r := Boundary.ReadBoundary(contentTypeHeader);
        (r.Failure? ==> err == Some(r.error) && boundary == old(boundary))
        && (r.Success? ==> err == None && boundary == r.value)
      ensures formFields == old(formFields) && files == old(files) && filesFlat == old(filesFlat) && nextObjectId == old(nextObjectId)
    {
      var r := Boundary.ReadBoundary(contentTypeHeader);
      if r.Failure? {
        return Some(r.error);
      }
      boundary := r.value;
      return None;
    }

    /**
     * `parseUploadedFile`: make the uploaded file, take the counter's value
     * as its name when it has none, register it under a fresh id and add the
     * pair `name=id`. For an upload without a name this is the corrected
     * behaviour of `FileFormName`: the code as written raises a `TypeError`
     * there instead (`FileFormNameAsWritten`).
     */
    method ParseUploadedFile(filesSpec: seq<(string, string)>, headers: map<string, HeaderLine>, disposition: HeaderLine, body: string, filename: string)
      returns (filesSpecOut: seq<(string, string)>)
      modifies this, fileIndex
      ensures var next := AddFile(old(Loop([], filesSpec)), disposition.GetKeyValue("name"), body, filename, ContentTypeOf(headers));
        Loop([], filesSpecOut) == next
      ensures boundary == old(boundary) && formFields == old(formFields) && files == old(files)
    {
      var contentType := DefaultContentType;
      if ContentType in headers {
        contentType := headers[ContentType].GetValue();
      }
      var uploadedFile := UploadedFile(body, |body|, UploadErrOk, filename, contentType);
      var formName := disposition.GetKeyValue("name");
      var name: string;
      if formName.None? {
        name := NatToDecimal(fileIndex.value);
        fileIndex.value := fileIndex.value + 1;
      } else {
        name := formName.value;
      }
      var objectId := nextObjectId;
      nextObjectId := nextObjectId + 1;
      filesSpecOut := filesSpec + [(name, NatToDecimal(objectId))];
      filesFlat := filesFlat[objectId := uploadedFile];
    }

    /** `layoutFilesAssocDeep`: `parse_str` on the file pairs, then every id replaced by its file. */
    method LayoutFilesAssocDeep(filesSpec: seq<(string, string)>)
      requires forall i :: 0 <= i < |filesSpec| ==> Resolve(filesSpec[i].1, filesFlat).Some?
      modifies this
      ensures Registered(ParseStr(filesSpec), filesFlat)
      ensures files == Substitute(ParseStr(filesSpec), filesFlat)
      ensures boundary == old(boundary) && formFields == old(formFields) && filesFlat == old(filesFlat) && nextObjectId == old(nextObjectId)
    {
      var tree := ParseStr(filesSpec);
      ParseStrLeaves(filesSpec);
      RegisteredFromValues(tree, set i | 0 <= i < |filesSpec| :: filesSpec[i].1, filesFlat);
      files := Substitute(tree, filesFlat);
    }

    /**
     * `parse`: cut the body at the boundary lines and run through the parts,
     * then build the field and file trees. Proved to do what `Process`
     * states, from the files and counter it starts with.
     */
    method Parse() returns (err: Option<ParseError>)
      requires Valid()
      modifies this, fileIndex
      ensures var p := Process(old(Loop([], [])), Segmenter.Segments(rawData, boundary));
        err == p.1 && filesFlat == p.0.flat && fileIndex.value == p.0.fileIndex && nextObjectId == p.0.nextId
      ensures Valid()
      ensures var p := Process(old(Loop([], [])), Segmenter.Segments(rawData, boundary));
        err.None? ==> Consistent(p.0) && formFields == ParseStr(p.0.fields) && files == Layout(p.0)
      ensures boundary == old(boundary)
    {
      var parts := Segmenter.Segments(rawData, boundary);
      var formFieldsSpec: seq<(string, string)> := [];
      var filesSpec: seq<(string, string)> := [];
      ghost var start := Loop([], []);
      assert Consistent(start);
      for i := 0 to |parts|
        invariant Process(Loop(formFieldsSpec, filesSpec), parts[i..]) == Process(start, parts)
        invariant Consistent(Loop(formFieldsSpec, filesSpec))
        invariant boundary == old(boundary)
      {
        ghost var cur := Loop(formFieldsSpec, filesSpec);
        Unroll(cur, parts, i);
        var partMessage := SplitFirst(parts[i], BlankLine);
        if partMessage.None? {
          continue;
        }
        var (headerData, body) := partMessage.value;
        var headers := ParseHeaders(headerData);
        StepRead(cur, parts[i], headerData, body);
        if headers.Failure? {
          return Some(headers.error);
        }
        ghost var part := Route(headers.value, body);
        var disposition := if ContentDisposition in headers.value then Some(headers.value[ContentDisposition]) else None;
        if disposition.None? || !IsFormDataPart(disposition.value) {
          assert part == Skipped;
          continue;
        }
        var filename := disposition.value.GetKeyValue("filename");
        if filename.Some? && Truthy(filename.value) {
          assert part == Upload(disposition.value.GetKeyValue("name"), body, filename.value, ContentTypeOf(headers.value));
          ghost var before := Loop([], filesSpec);
          assert cur == before.(fields := formFieldsSpec);
          filesSpec := ParseUploadedFile(filesSpec, headers.value, disposition.value, body, filename.value);
          AddFileFields(before, formFieldsSpec, disposition.value.GetKeyValue("name"), body, filename.value, ContentTypeOf(headers.value));
          assert Loop(formFieldsSpec, filesSpec) == Loop([], filesSpec).(fields := formFieldsSpec);
          AddFileConsistent(cur, disposition.value.GetKeyValue("name"), body, filename.value, ContentTypeOf(headers.value));
          continue;
        }
        var formName := disposition.value.GetKeyValue("name");
        if formName.None? || formName.value == "" {
          assert part == Skipped;
          continue;
        }
        assert part == Field(formName.value, body);
        formFieldsSpec := formFieldsSpec + [(formName.value, body)];
      }
      assert parts[|parts|..] == [];
      formFields := ParseStr(formFieldsSpec);
      LayoutFilesAssocDeep(filesSpec);
      return None;
    }
  }

  /** The turn on a part whose header block reads as `headers`. */
  lemma StepRead(st: Pending, segment: string, headerData: string, body: string)
    requires SplitFirst(segment, BlankLine) == Some((headerData, body))
    ensures HeadersOf(Explode(headerData, Segmenter.Crlf)).Failure? ==>
      Step(st, segment) == Failure(HeadersOf(Explode(headerData, Segmenter.Crlf)).error)
    ensures HeadersOf(Explode(headerData, Segmenter.Crlf)).Success? ==>
      Step(st, segment) == Success(Keep(st, Route(HeadersOf(Explode(headerData, Segmenter.Crlf)).value, body)))
  {
  }

  /** Filing an upload leaves the field pairs alone. */
  lemma AddFileFields(st: Pending, fields: seq<(string, string)>, formName: Option<string>, body: string, filename: string, contentType: string)
    ensures AddFile(st.(fields := fields), formName, body, filename, contentType) == AddFile(st, formName, body, filename, contentType).(fields := fields)
  {
  }

  /** One turn of `Process` on the parts from `i` on. */
  lemma Unroll(st: Pending, parts: seq<string>, i: nat)
    requires i < |parts|
    ensures Step(st, parts[i]).Failure? ==> Process(st, parts[i..]) == (st, Some(Step(st, parts[i]).error))
    ensures Step(st, parts[i]).Success? ==> Process(st, parts[i..]) == Process(Step(st, parts[i]).value, parts[i + 1..])
  {
    assert parts[i..][0] == parts[i];
    assert parts[i..][1..] == parts[i + 1..];
  }

  /**
   * A new parser on a body and `Content-Type` header: it holds what
   * `Decode` states, or the construction fails with the error `Decode`
   * states; either way the shared counter ends where `Decode` says.
   */
  method NewParser(rawData: string, contentTypeHeader: string, fileIndex: FileIndex) returns (r: Result<Parser, ParseError>)
    modifies fileIndex
    ensures fileIndex.value == Decode(rawData, contentTypeHeader, old(fileIndex.value)).1
    ensures var d := Decode(rawData, contentTypeHeader, old(fileIndex.value)).0;
      d.Failure? ==> r == Failure(d.error)
    ensures var d := Decode(rawData, contentTypeHeader, old(fileIndex.value)).0;
      d.Success? ==>
        r.Success? && fresh(r.value)
        && r.value.GetBoundary() == d.value.boundary && r.value.GetFormFields() == d.value.formFields
        && r.value.GetFiles() == d.value.files && r.value.filesFlat == d.value.filesFlat
  {
    var parser := new Parser(rawData, contentTypeHeader, fileIndex);
    var err := parser.ReadBoundary();
    if err.Some? {
      return Failure(err.value);
    }
    err := parser.Parse();
    if err.Some? {
      return Failure(err.value);
    }
    return Success(parser);
  }
}
