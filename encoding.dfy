/**
 * The other direction: the request a browser sends for a form of text
 * fields, one `form-data` part per field under a given boundary. Decoding
 * it gives back the fields, in order, as `parse_str` lays them out.
 */
module Encoding {
  import opened Wrappers
  import opened PhpString
  import opened Errors
  import opened HeaderLines
  import Boundary
  import Segmenter
  import opened FormTree
  import opened Parts
  import opened Decoder

  const DispositionName: string := "Content-Disposition"
  const FormDataPiece: string := " form-data"
  const NameKey: string := "name"

  /** A field name that survives the quoted `name="…"` parameter: no `;`, no CR, and no quote at either end. */
  predicate QuotableName(name: string)
  {
    name != [] && ';' !in name && '\r' !in name
    && name[0] !in Quotes && name[|name| - 1] !in Quotes
  }

  /** `Content-Disposition: form-data; name="…"`. */
  function DispositionLine(name: string): string
  {
    DispositionName + ":" + FormDataPiece + ";" + " " + NameKey + "=" + "\"" + name + "\""
  }

  /** One field as a part: its disposition line, a blank line, then the value as it is. */
  function FieldPart(name: string, value: string): string
  {
    DispositionLine(name) + BlankLine + value
  }

  /** The parts of a form, one per field, in order. */
  function FieldParts(fields: seq<(string, string)>): (ps: seq<string>)
    ensures |ps| == |fields|
    ensures forall i :: 0 <= i < |fields| ==> ps[i] == FieldPart(fields[i].0, fields[i].1)
  {
    if fields == [] then []
    else
      var rest := FieldParts(fields[1..]);
      assert forall i :: 1 <= i < |fields| ==> fields[1..][i - 1] == fields[i];
      [FieldPart(fields[0].0, fields[0].1)] + rest
  }

  /** The request's `Content-Type` for the boundary. */
  function ContentTypeFor(boundary: string): string
  {
    Boundary.ContentTypeMultipart + "; " + Boundary.BoundaryPrefix + boundary
  }

  // ---------------------------------------------------------------------
  // One part.

  lemma DispositionNameNoColon()
    ensures ':' !in DispositionName
  {
  }

  lemma DispositionNameTrimmed()
    ensures Trim(DispositionName) == DispositionName
  {
    assert DispositionName[0] !in Whitespace && DispositionName[|DispositionName| - 1] !in Whitespace;
    TrimCharsUnchanged(DispositionName, Whitespace);
  }

  lemma DispositionNameLowered()
    ensures ToLower(DispositionName) == ContentDisposition
  {
  }

  lemma FormDataPieceFree()
    ensures ';' !in FormDataPiece && '=' !in FormDataPiece
  {
  }

  lemma FormDataPieceTrimmed()
    ensures Trim(FormDataPiece) == FormData
  {
    assert FormDataPiece == [' '] + FormData;
    TrimCharsLeading(' ', FormData, Whitespace);
    assert FormData[0] !in Whitespace && FormData[|FormData| - 1] !in Whitespace;
    TrimCharsUnchanged(FormData, Whitespace);
  }

  lemma NameKeyFree()
    ensures '=' !in NameKey && ';' !in NameKey && NameKey[0] !in Whitespace
  {
  }

  lemma NameKeyLowered()
    ensures ToLower(Trim(NameKey)) == NameKey
  {
    assert NameKey[0] !in Whitespace && NameKey[|NameKey| - 1] !in Whitespace;
    TrimCharsUnchanged(NameKey, Whitespace);
  }

  /** `explode(';', first . ';' . rest)` is `[first, rest]` when neither holds a `;`. */
  lemma TwoPieces(first: string, rest: string)
    requires ';' !in first && ';' !in rest
    ensures Explode(first + ";" + rest, ";") == [first, rest]
  {
    assert first + ";" + rest == first + [';'] + rest;
    ExplodeCons(first, ';', rest);
    ExplodeNoSeparator(rest, ';');
  }

  /** The pieces of a value part that cuts in two are the two halves, trimmed. */
  lemma PiecesOfTwo(v: string, x: string, y: string)
    requires Explode(v, ";") == [x, y]
    ensures Pieces(v) == [Trim(x), Trim(y)]
  {
    var ps := Pieces(v);
    assert |ps| == 2 && ps[0] == Trim(x) && ps[1] == Trim(y);
  }

  /** A value part `first; key="name"` cuts into the trimmed first piece and the parameter. */
  lemma ParamPieces(first: string, key: string, name: string)
    requires ';' !in first && ';' !in key && key != [] && key[0] !in Whitespace && QuotableName(name)
    ensures Pieces(first + ";" + " " + key + "=" + "\"" + name + "\"") == [Trim(first), key + "=" + "\"" + name + "\""]
  {
    var param := key + "=" + "\"" + name + "\"";
    ParamEnds(key, name);
    var v := first + ";" + (" " + param);
    assert first + ";" + " " + key + "=" + "\"" + name + "\"" == v;
    TwoPieces(first, " " + param);
    Boundary.SpacedPiece(param);
    PiecesOfTwo(v, first, " " + param);
  }

  lemma ParamEnds(key: string, name: string)
    requires ';' !in key && key != [] && key[0] !in Whitespace && ';' !in name
    ensures var param := key + "=" + "\"" + name + "\"";
      param != [] && param[0] !in Whitespace && param[|param| - 1] !in Whitespace && ';' !in " " + param
  {
    var param := key + "=" + "\"" + name + "\"";
    assert param[0] == key[0] && param[|param| - 1] == '"';
  }

  /** A piece without `=` and then one parameter store exactly that parameter. */
  lemma OneParam(a: string, b: string, key: string, val: string)
    requires Param(a) == None && Param(b) == Some((key, val))
    ensures StoreParams([a, b]) == map[key := val]
  {
    assert [a][..0] == [];
    assert StoreParams([a]) == map[];
    assert [a, b][..1] == [a];
  }

  /** The line `Name: first; key="name"` parses with the trimmed first piece as its value and the one parameter. */
  lemma ParamLineParses(hname: string, first: string, key: string, name: string)
    requires ':' !in hname && Trim(hname) == hname
    requires ';' !in first && '=' !in Trim(first)
    requires '=' !in key && ';' !in key && key != [] && key[0] !in Whitespace && ToLower(Trim(key)) == key
    requires QuotableName(name)
    ensures Parse(hname + ":" + first + ";" + " " + key + "=" + "\"" + name + "\"") ==
      Success(HeaderLine(hname, Trim(first), map[key := name]))
  {
    var rest := first + ";" + " " + key + "=" + "\"" + name + "\"";
    assert hname + ":" + first + ";" + " " + key + "=" + "\"" + name + "\"" == hname + ":" + rest;
    SplitsAtFirstColon(hname, rest);
    ParamPieces(first, key, name);
    assert key + "=" + "\"" + name + "\"" == key + "=" + ['"'] + name + ['"'];
    QuotedParam(key, '"', name);
    OneParam(Trim(first), key + "=" + "\"" + name + "\"", key, name);
  }

  /** The disposition line parses to `form-data` with the single parameter `name`. */
  lemma DispositionParses(name: string)
    requires QuotableName(name)
    ensures Parse(DispositionLine(name)) == Success(HeaderLine(DispositionName, FormData, map[NameKey := name]))
  {
    DispositionNameNoColon();
    DispositionNameTrimmed();
    FormDataPieceFree();
    FormDataPieceTrimmed();
    NameKeyFree();
    NameKeyLowered();
    ParamLineParses(DispositionName, FormDataPiece, NameKey, name);
  }

  /** A line without CR is one header line. */
  lemma OneLine(line: string)
    requires '\r' !in line
    ensures Explode(line, Segmenter.Crlf) == [line]
  {
    forall k | 0 <= k < |line| ensures !OccursAt(line, k, Segmenter.Crlf) {
      assert k + 2 <= |line| ==> line[k..k + 2][0] == line[k];
    }
  }

  /** A part whose header block is one `Content-Disposition` line is routed on that line alone. */
  lemma OneHeaderPart(line: string, header: HeaderLine, body: string)
    requires '\r' !in line && Parse(line) == Success(header) && ToLower(header.name) == ContentDisposition
    ensures Classify(line + BlankLine + body) == Success(Route(map[ContentDisposition := header], body))
  {
    assert HeaderBlock(line);
    FirstBlankLine(line, body);
    OneLine(line);
    assert [line][..0] == [];
    assert HeadersOf([line]) == Success(map[ContentDisposition := header]);
  }

  lemma DispositionLineNoCr(name: string)
    requires '\r' !in name
    ensures '\r' !in DispositionLine(name)
  {
    assert '\r' !in DispositionName;
    assert '\r' !in FormDataPiece;
    assert '\r' !in NameKey;
  }

  /** The `form-data` line with just a non-empty `name` makes the part a field with that name. */
  lemma NamedField(name: string, body: string)
    requires name != []
    ensures Route(map[ContentDisposition := HeaderLine(DispositionName, FormData, map[NameKey := name])], body) == Field(name, body)
  {
    var line := HeaderLine(DispositionName, FormData, map[NameKey := name]);
    assert NameKey != "filename";
    assert line.GetKeyValue("filename") == None;
    assert line.GetKeyValue("name") == Some(name);
  }

  /** A field's part decodes to that field, its value byte for byte, blank lines and all. */
  lemma FieldPartDecodes(name: string, value: string)
    requires QuotableName(name)
    ensures Classify(FieldPart(name, value)) == Success(Field(name, value))
  {
    DispositionLineNoCr(name);
    DispositionParses(name);
    DispositionNameLowered();
    OneHeaderPart(DispositionLine(name), HeaderLine(DispositionName, FormData, map[NameKey := name]), value);
    NamedField(name, value);
  }

  // ---------------------------------------------------------------------
  // A whole form.

  /** Every part of a text form is a field: the one it was made from. */
  lemma FieldPartsClassify(fields: seq<(string, string)>)
    requires forall i :: 0 <= i < |fields| ==> QuotableName(fields[i].0)
    ensures forall i :: 0 <= i < |fields| ==> Classify(FieldParts(fields)[i]) == Success(Field(fields[i].0, fields[i].1))
  {
    forall i | 0 <= i < |fields| ensures Classify(FieldParts(fields)[i]) == Success(Field(fields[i].0, fields[i].1)) {
      FieldPartDecodes(fields[i].0, fields[i].1);
    }
  }

  /** Together the parts of a text form are the form's fields, in order. */
  lemma {:induction false} FieldPartsDecode(fields: seq<(string, string)>)
    requires forall i :: 0 <= i < |fields| ==> QuotableName(fields[i].0)
    ensures FieldsOf(FieldParts(fields)) == fields
  {
    if fields != [] {
      var f, rest := fields[0], fields[1..];
      var p, ps := FieldPart(f.0, f.1), FieldParts(rest);
      assert FieldsOf([p] + ps) == [f] + FieldsOf(ps) by {
        FieldPartDecodes(f.0, f.1);
        FieldOfField(p, f.0, f.1);
        FieldsOfCons(p, ps);
      }
      assert FieldsOf(ps) == rest by {
        FieldPartsDecode(rest);
      }
      assert fields == [f] + rest;
    }
  }

  /**
   * Decoding the request a browser sends for a text form gives back its
   * fields, in order, as `parse_str` lays them out, with no files and the
   * counter untouched — whenever the boundary is a valid one that none of
   * the parts contains.
   */
  lemma FormRoundTrip(fields: seq<(string, string)>, boundary: string, fileIndex: nat)
    requires boundary != [] && ';' !in boundary && '\r' !in boundary
    requires boundary[0] != '"' && boundary[|boundary| - 1] != '"' && boundary[|boundary| - 1] !in Whitespace
    requires forall i :: 0 <= i < |fields| ==> QuotableName(fields[i].0)
    requires forall i, k :: 0 <= i < |fields| && 0 <= k < |FieldParts(fields)[i]| ==>
      !OccursAt(FieldParts(fields)[i], k, Segmenter.Delimiter(boundary))
    ensures Decode(Segmenter.Frame(FieldParts(fields), boundary), ContentTypeFor(boundary), fileIndex)
      == (Success(Decoded(boundary, ParseStr(fields), Empty(), map[])), fileIndex)
  {
    var ps := FieldParts(fields);
    Boundary.BoundaryRoundTrip(boundary);
    Segmenter.FrameSegments(ps, boundary);
    FieldPartsClassify(fields);
    FieldPartsDecode(fields);
    TextFormDecodes(Segmenter.Frame(ps, boundary), ContentTypeFor(boundary), boundary, fileIndex);
  }
}
