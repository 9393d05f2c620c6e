/**
 * Reading the boundary token out of the request's `Content-Type` value
 * (`Parser::readBoundary`): the media type must be exactly
 * `multipart/form-data` and the second `;`-piece must be the `boundary=`
 * parameter.
 */
module Boundary {
  import opened Wrappers
  import opened PhpString
  import opened Errors

  /** `Parser::CONTENT_TYPE_MULTIPART`. */
  const ContentTypeMultipart: string := "multipart/form-data"

  /** The parameter prefix the second piece must carry; nine characters long. */
  const BoundaryPrefix: string := "boundary="

  /** The boundary, or the exception `readBoundary` throws for this header. */
  function ReadBoundary(contentTypeHeader: string): (r: Result<string, ParseError>)
    ensures r.Failure? ==> r.error.WrongContentType? || r.error == MissingBoundary
  {
    var parts := TrimmedPieces(contentTypeHeader, ";");
    if parts[0] != ContentTypeMultipart then Failure(WrongContentType(parts[0]))
    else if |parts| < 2 || !StartsWith(parts[1], BoundaryPrefix) then Failure(MissingBoundary)
    else Success(TrimChars(parts[1][|BoundaryPrefix|..], {'"'}))
  }

  /** The media type is checked first: its error reports the trimmed text before the first `;`. */
  lemma WrongContentTypeIff(mediaType: string, rest: string)
    requires ';' !in mediaType
    requires rest == [] || rest[0] == ';'
    ensures ReadBoundary(mediaType + rest).Failure? && ReadBoundary(mediaType + rest).error.WrongContentType?
            <==> Trim(mediaType) != ContentTypeMultipart
    ensures Trim(mediaType) != ContentTypeMultipart ==>
            ReadBoundary(mediaType + rest) == Failure(WrongContentType(Trim(mediaType)))
  {
    if rest == [] {
      assert mediaType + rest == mediaType;
      ExplodeNoSeparator(mediaType, ';');
    } else {
      assert mediaType + rest == mediaType + [';'] + rest[1..];
      ExplodeCons(mediaType, ';', rest[1..]);
    }
  }

  /** The bare media type, with no parameter at all, has no boundary. */
  lemma NoParameters(mediaType: string)
    requires ';' !in mediaType && Trim(mediaType) == ContentTypeMultipart
    ensures ReadBoundary(mediaType) == Failure(MissingBoundary)
  {
    ExplodeNoSeparator(mediaType, ';');
  }

  /**
   * With the right media type, the outcome is decided by the second piece alone:
   * it must start with `boundary=`, and the boundary is the rest of it with its
   * surrounding `"` stripped. Another parameter in front gives `missingBoundary`.
   */
  lemma SecondPieceDecides(mediaType: string, piece: string, rest: string)
    requires ';' !in mediaType && ';' !in piece
    requires Trim(mediaType) == ContentTypeMultipart
    requires rest == [] || rest[0] == ';'
    ensures !StartsWith(Trim(piece), BoundaryPrefix) ==>
            ReadBoundary(mediaType + ";" + piece + rest) == Failure(MissingBoundary)
    ensures StartsWith(Trim(piece), BoundaryPrefix) ==>
            ReadBoundary(mediaType + ";" + piece + rest) == Success(TrimChars(Trim(piece)[|BoundaryPrefix|..], {'"'}))
  {
    var h := mediaType + ";" + piece + rest;
    assert h == mediaType + [';'] + (piece + rest);
    ExplodeCons(mediaType, ';', piece + rest);
    ExplodeFirst(piece, rest);
  }

  /** The first piece of `param + rest` is `param` when `rest` is empty or starts a new piece. */
  lemma ExplodeFirst(param: string, rest: string)
    requires ';' !in param
    requires rest == [] || rest[0] == ';'
    ensures Explode(param + rest, ";")[0] == param
  {
    if rest == [] {
      assert param + rest == param;
      ExplodeNoSeparator(param, ';');
    } else {
      assert param + rest == param + [';'] + rest[1..];
      ExplodeCons(param, ';', rest[1..]);
    }
  }

  lemma MediaTypeTrimmed()
    ensures Trim(ContentTypeMultipart) == ContentTypeMultipart
  {
    MediaTypeEnds();
    TrimCharsUnchanged(ContentTypeMultipart, Whitespace);
  }

  lemma MediaTypeEnds()
    ensures ContentTypeMultipart[0] !in Whitespace && ContentTypeMultipart[|ContentTypeMultipart| - 1] !in Whitespace
  {
    assert ContentTypeMultipart[0] == 'm' && ContentTypeMultipart[|ContentTypeMultipart| - 1] == 'a';
  }

  /** `trim(" " . P)` is `P` when `P` is already trimmed. */
  lemma SpacedPiece(param: string)
    requires param != [] && param[0] !in Whitespace && param[|param| - 1] !in Whitespace
    ensures Trim(" " + param) == param
  {
    assert " " + param == [' '] + param;
    TrimCharsLeading(' ', param, Whitespace);
    TrimCharsUnchanged(param, Whitespace);
  }

  /** `M; P` followed by nothing, with `P` carrying the `boundary=` prefix, reads as the text after the prefix with its quotes stripped. */
  lemma PrefixedSecondPiece(v: string)
    requires ';' !in v
    requires v != [] ==> v[|v| - 1] !in Whitespace
    ensures ReadBoundary(ContentTypeMultipart + ";" + (" " + (BoundaryPrefix + v)) + []) == Success(TrimChars(v, {'"'}))
  {
    var p := BoundaryPrefix;
    var param := p + v;
    assert param[0] == 'b' && param[|param| - 1] == (if v == [] then '=' else v[|v| - 1]);
    assert param[..|p|] == p && param[|p|..] == v;
    assert ';' !in p;
    SpacedPiece(param);
    MediaTypeTrimmed();
    SecondPieceDecides(ContentTypeMultipart, " " + param, []);
  }

  /** Rendering `multipart/form-data; boundary=B` and reading it back gives `B`. */
  lemma BoundaryRoundTrip(b: string)
    requires ';' !in b
    requires b != [] ==> b[0] != '"' && b[|b| - 1] != '"' && b[|b| - 1] !in Whitespace
    ensures ReadBoundary(ContentTypeMultipart + "; " + BoundaryPrefix + b) == Success(b)
  {
    Regroup(ContentTypeMultipart, BoundaryPrefix, b);
    PrefixedSecondPiece(b);
    TrimCharsUnchanged(b, {'"'});
  }

  /** A quoted boundary, `boundary="B"`, reads back as `B` without the quotes. */
  lemma QuotedBoundaryRoundTrip(b: string)
    requires ';' !in b && '"' !in b
    ensures ReadBoundary(ContentTypeMultipart + "; " + BoundaryPrefix + "\"" + b + "\"") == Success(b)
  {
    var v := "\"" + b + "\"";
    assert ContentTypeMultipart + "; " + BoundaryPrefix + "\"" + b + "\"" == ContentTypeMultipart + "; " + BoundaryPrefix + v;
    Regroup(ContentTypeMultipart, BoundaryPrefix, v);
    PrefixedSecondPiece(v);
    assert v == ['"'] + (b + "\"");
    TrimCharsLeading('"', b + "\"", {'"'});
    StripClosingQuote(b);
  }

  lemma Regroup(m: string, p: string, v: string)
    ensures m + "; " + p + v == m + ";" + (" " + (p + v)) + []
  {
  }

  /** Trimming `"` from `B"` gives `B` when `B` holds no quote. */
  lemma StripClosingQuote(b: string)
    requires '"' !in b
    ensures TrimChars(b + "\"", {'"'}) == b
  {
    var s := b + "\"";
    assert s[..|s| - 1] == b;
    if b == [] {
      assert s == ['"'] && s[1..] == [];
      assert TrimLeft(s, {'"'}) == [];
    } else {
      assert TrimLeft(s, {'"'}) == s;
      assert TrimRight(b, {'"'}) == b;
    }
  }

  /** A boundary that was read holds no `;` and neither starts nor ends with `"`. */
  lemma BoundaryShape(contentTypeHeader: string)
    requires ReadBoundary(contentTypeHeader).Success?
    ensures ';' !in ReadBoundary(contentTypeHeader).value
    ensures var b := ReadBoundary(contentTypeHeader).value;
            b != [] ==> b[0] != '"' && b[|b| - 1] != '"'
  {
    var e := Explode(contentTypeHeader, ";");
    ExplodePiecesFree(contentTypeHeader, ";");
    TrimmedPiecesAt(contentTypeHeader, ";");
    var p1 := e[1];
    assert ';' !in p1 by {
      assert !Contains(p1, ";");
      forall k | 0 <= k < |p1| ensures p1[k] != ';' {
        OccursAtChar(p1, k, ';');
      }
    }
    var t := Trim(p1);
    TrimCharsAvoids(p1, Whitespace, ';');
    var v := t[|BoundaryPrefix|..];
    var b := TrimChars(v, {'"'});
    assert b == ReadBoundary(contentTypeHeader).value;
    TrimCharsAvoids(v, {'"'}, ';');
    var k, l := TrimCharsSlice(v, {'"'});
  }
}
