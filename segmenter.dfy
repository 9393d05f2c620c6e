/**
 * Cutting a request body into part segments (`Parser::parse`, first half):
 * the body is split on every match of the delimiter pattern
 * `(\r\n)?--B\s*?(\r\n)?`, and the first and last pieces (preamble and
 * epilogue) are dropped. The lazy `\s*?` is followed by an optional CRLF, so
 * it never consumes anything; a match is an optional CRLF, the delimiter
 * `--B`, and an optional CRLF.
 */
module Segmenter {
  import opened Wrappers
  import opened PhpString

  const Crlf: string := "\r\n"

  /** The delimiter `--B` for boundary `B`. */
  function Delimiter(boundary: string): string
  {
    "--" + boundary
  }

  /** 2 when `s` starts with CRLF, else 0: the trailing `(\r\n)?` of the pattern. */
  function CrlfLen(s: string): (n: nat)
    ensures n <= |s|
  {
    if StartsWith(s, Crlf) then 2 else 0
  }

  /** The length of the pattern match that starts exactly at the front of `s`, or 0 when none does. */
  function MatchLen(s: string, d: string): (n: nat)
    ensures n <= |s|
  {
    if StartsWith(s, Crlf + d) then |Crlf + d| + CrlfLen(s[|Crlf + d|..])
    else if StartsWith(s, d) then |d| + CrlfLen(s[|d|..])
    else 0
  }

  /**
   * `preg_split` with the delimiter pattern: the pieces between leftmost,
   * non-overlapping matches, empty pieces included.
   */
  function Split(s: string, d: string): (r: seq<string>)
    ensures |r| >= 1
    decreases |s|
  {
    if s == [] then [""]
    else
      var n := MatchLen(s, d);
      if n > 0 then [""] + Split(s[n..], d)
      else
        var rest := Split(s[1..], d);
        [[s[0]] + rest[0]] + rest[1..]
  }

  /** The part segments: the split pieces without the first (`array_shift`) and the last (`array_pop`). */
  function Segments(body: string, boundary: string): seq<string>
  {
    var pieces := Split(body, Delimiter(boundary));
    if |pieces| <= 1 then [] else pieces[1..|pieces| - 1]
  }

  // ---------------------------------------------------------------------
  // Splitting.

  /** Text in which no match starts is glued onto the front of the first piece of what follows it. */
  lemma {:induction false} SplitUnmatchedPrefix(p: string, t: string, d: string)
    requires forall i :: 0 <= i < |p| ==> MatchLen((p + t)[i..], d) == 0
    ensures Split(p + t, d) == [p + Split(t, d)[0]] + Split(t, d)[1..]
    decreases |p|
  {
    if p == [] {
      var r := Split(t, d);
      assert p + t == t && p + r[0] == r[0];
      assert r == [r[0]] + r[1..];
    } else {
      var s := p + t;
      assert s[0..] == s;
      assert s[1..] == p[1..] + t;
      forall i | 0 <= i < |p| - 1 ensures MatchLen((p[1..] + t)[i..], d) == 0 {
        assert (p[1..] + t)[i..] == s[i + 1..];
      }
      SplitUnmatchedPrefix(p[1..], t, d);
      assert [s[0]] + (p[1..] + Split(t, d)[0]) == p + Split(t, d)[0];
    }
  }

  /** A body in which the pattern matches nowhere is one piece, so it has no segments. */
  lemma NoMatchNoSegments(body: string, boundary: string)
    requires forall i :: 0 <= i < |body| ==> MatchLen(body[i..], Delimiter(boundary)) == 0
    ensures Split(body, Delimiter(boundary)) == [body]
    ensures Segments(body, boundary) == []
  {
    var d := Delimiter(boundary);
    assert body + [] == body;
    SplitUnmatchedPrefix(body, [], d);
  }

  /** The leftmost position at or after `from` where the pattern matches, if any. */
  function FirstMatch(s: string, d: string, from: nat): (r: Option<nat>)
    requires from <= |s|
    ensures r.Some? ==> from <= r.value < |s| && MatchLen(s[r.value..], d) > 0
    ensures r.Some? ==> forall k :: from <= k < r.value ==> MatchLen(s[k..], d) == 0
    ensures r.None? ==> forall k :: from <= k < |s| ==> MatchLen(s[k..], d) == 0
    decreases |s| - from
  {
    if from == |s| then None
    else if MatchLen(s[from..], d) > 0 then Some(from)
    else FirstMatch(s, d, from + 1)
  }

  /** The number of matches `preg_split` cuts at: the leftmost one, then those in the text after it. */
  function MatchCount(s: string, d: string): nat
    decreases |s|
  {
    match FirstMatch(s, d, 0)
    case None => 0
    case Some(j) => 1 + MatchCount(s[j + MatchLen(s[j..], d)..], d)
  }

  /**
   * `preg_split` on any text: without a match the text is the only piece;
   * otherwise the first piece is the text before the leftmost match (no
   * match starts inside it) and the rest are the pieces of the text after
   * that match.
   */
  lemma SplitAtFirstMatch(s: string, d: string)
    ensures FirstMatch(s, d, 0).None? ==> Split(s, d) == [s]
    ensures FirstMatch(s, d, 0).Some? ==>
      var j := FirstMatch(s, d, 0).value;
      (forall k :: 0 <= k < j ==> MatchLen(s[k..], d) == 0)
      && Split(s, d) == [s[..j]] + Split(s[j + MatchLen(s[j..], d)..], d)
  {
    var r := FirstMatch(s, d, 0);
    if r.Some? {
      SplitAtMatch(s, d, r.value);
    } else {
      SplitNoMatch(s, d);
    }
  }

  lemma SplitNoMatch(s: string, d: string)
    requires forall k :: 0 <= k < |s| ==> MatchLen(s[k..], d) == 0
    ensures Split(s, d) == [s]
  {
    assert s + [] == s;
    SplitUnmatchedPrefix(s, [], d);
  }

  lemma SplitAtMatch(s: string, d: string, j: nat)
    requires j < |s| && MatchLen(s[j..], d) > 0
    requires forall k :: 0 <= k < j ==> MatchLen(s[k..], d) == 0
    ensures Split(s, d) == [s[..j]] + Split(s[j + MatchLen(s[j..], d)..], d)
  {
    var p, t := s[..j], s[j..];
    assert Split(s, d) == [p + Split(t, d)[0]] + Split(t, d)[1..] by {
      assert p + t == s;
      SplitUnmatchedPrefix(p, t, d);
    }
    SplitMatchFront(t, d);
    assert t[MatchLen(t, d)..] == s[j + MatchLen(s[j..], d)..];
    assert p + "" == p;
  }

  lemma SplitMatchFront(t: string, d: string)
    requires MatchLen(t, d) > 0
    ensures Split(t, d) == [""] + Split(t[MatchLen(t, d)..], d)
  {
  }

  /** `preg_split` returns one piece more than there are matches. */
  lemma {:induction false} SplitCount(s: string, d: string)
    ensures |Split(s, d)| == MatchCount(s, d) + 1
    decreases |s|
  {
    SplitAtFirstMatch(s, d);
    match FirstMatch(s, d, 0)
    case None =>
    case Some(j) =>
      SplitCount(s[j + MatchLen(s[j..], d)..], d);
  }

  /** With k >= 1 matches the body has k - 1 part segments; with none it has no segments. */
  lemma SegmentCount(body: string, boundary: string)
    ensures var k := MatchCount(body, Delimiter(boundary));
      |Segments(body, boundary)| == if k == 0 then 0 else k - 1
  {
    SplitCount(body, Delimiter(boundary));
  }

  /** A match that starts with the delimiter, with or without the leading CRLF, ends the current piece and eats one following CRLF. */
  lemma SplitAtDelimiter(t: string, d: string)
    requires d != [] && d[0] == '-'
    ensures Split(d + t, d) == [""] + Split(t[CrlfLen(t)..], d)
    ensures Split(Crlf + d + t, d) == Split(d + t, d)
  {
    var s := d + t;
    assert s[..|d|] == d && s[|d|..] == t;
    assert !StartsWith(s, Crlf + d) by { assert s[0] != Crlf[0]; }
    assert MatchLen(s, d) == |d| + CrlfLen(t);
    assert s[|d| + CrlfLen(t)..] == t[CrlfLen(t)..];
    var u := Crlf + d + t;
    assert u[..|Crlf + d|] == Crlf + d && u[|Crlf + d|..] == t;
    assert MatchLen(u, d) == |Crlf + d| + CrlfLen(t);
    assert u[|Crlf + d| + CrlfLen(t)..] == t[CrlfLen(t)..];
  }

  /**
   * A delimiter that contains no CR cannot start inside `p` and run on into
   * text that begins with CR; so if `p` itself holds no delimiter, no match
   * starts inside `p`.
   */
  lemma NoMatchInside(p: string, rest: string, d: string)
    requires '\r' !in d && d != []
    requires rest != [] && rest[0] == '\r'
    requires forall k :: 0 <= k < |p| ==> !OccursAt(p, k, d)
    ensures forall i :: 0 <= i < |p| ==> MatchLen((p + rest)[i..], d) == 0
  {
    var u := p + rest;
    forall i | 0 <= i < |p| ensures MatchLen(u[i..], d) == 0 {
      NoDelimiterAt(p, rest, d, i);
      assert !StartsWith(u[i..], Crlf + d) by {
        if i + 1 < |p| {
          NoDelimiterAt(p, rest, d, i + 2);
          StartsWithShift(u[i..], Crlf, d);
          assert u[i..][2..] == u[i + 2..];
        } else if |Crlf + d| <= |u| - i {
          assert u[i..][..|Crlf + d|][1] == rest[0];
        }
      }
    }
  }

  /** A string that starts with `a + b` has `b` right after `a`. */
  lemma StartsWithShift(s: string, a: string, b: string)
    ensures StartsWith(s, a + b) ==> StartsWith(s[|a|..], b)
  {
    if StartsWith(s, a + b) {
      assert s[|a|..][..|b|] == s[..|a + b|][|a|..];
    }
  }

  /** `d` does not occur in `p + rest` at any index up to `|p|`. */
  lemma NoDelimiterAt(p: string, rest: string, d: string, j: nat)
    requires '\r' !in d && d != []
    requires rest != [] && rest[0] == '\r'
    requires forall k :: 0 <= k < |p| ==> !OccursAt(p, k, d)
    requires j <= |p|
    ensures !StartsWith((p + rest)[j..], d)
  {
    var u := p + rest;
    if j + |d| <= |p| {
      assert u[j..][..|d|] == p[j..j + |d|];
      assert !OccursAt(p, j, d);
    } else if |d| <= |u| - j {
      assert u[j..][..|d|][|p| - j] == rest[0];
      assert d[|p| - j] in d;
    }
  }

  // ---------------------------------------------------------------------
  // A well-formed body.

  /** The closing delimiter's trailing `--` and CRLF. */
  const Closing: string := "--\r\n"

  /** The text after a body's opening `--B`: a CRLF, the part, a CRLF and `--B` for each part, then `--` and CRLF. */
  function Encapsulate(parts: seq<string>, d: string): string
  {
    if parts == [] then Closing
    else Crlf + parts[0] + Crlf + d + Encapsulate(parts[1..], d)
  }

  /** The body a client sends for `parts` under boundary `B`. */
  function Frame(parts: seq<string>, boundary: string): string
  {
    Delimiter(boundary) + Encapsulate(parts, Delimiter(boundary))
  }

  /** The closing `--` and CRLF hold no match for a delimiter that is longer than two characters and has no CR. */
  lemma SplitClosing(d: string)
    requires |d| >= 3 && d[0] == '-' && d[1] == '-' && '\r' !in d
    ensures Split(Closing, d) == [Closing]
  {
    var c := Closing;
    forall i | 0 <= i < |c| ensures MatchLen(c[i..], d) == 0 {
      var k := if i == 0 then 2 else if i == 1 then 1 else 0;
      assert c[i..][k] != d[k] by { assert d[k] in d; }
      NoShortMatch(c[i..], d, k);
    }
    assert c + [] == c;
    SplitUnmatchedPrefix(c, [], d);
  }

  /** Too short for `\r\n--B` and differing from `--B` at index `k`: no match at the front. */
  lemma NoShortMatch(s: string, d: string, k: nat)
    requires |s| < |Crlf + d| && k < |d| && (k < |s| ==> s[k] != d[k])
    ensures MatchLen(s, d) == 0
  {
    if |d| <= |s| {
      assert s[..|d|][k] == s[k];
    }
  }

  /** The pieces of a framed body: the empty preamble, the parts in order, the closing epilogue. */
  lemma {:induction false} SplitFrame(parts: seq<string>, d: string)
    requires |d| >= 3 && d[0] == '-' && d[1] == '-' && '\r' !in d
    requires forall i, k :: 0 <= i < |parts| && 0 <= k < |parts[i]| ==> !OccursAt(parts[i], k, d)
    ensures Split(d + Encapsulate(parts, d), d) == [""] + parts + [Closing]
  {
    if parts == [] {
      SplitFrameEmpty(d);
    } else {
      SplitFrame(parts[1..], d);
      SplitFrameCons(parts, d);
    }
  }

  lemma SplitFrameEmpty(d: string)
    requires |d| >= 3 && d[0] == '-' && d[1] == '-' && '\r' !in d
    ensures Split(d + Encapsulate([], d), d) == [""] + [] + [Closing]
  {
    ClosingNoCrlf();
    SplitClosing(d);
    SplitUnbrokenTail(Closing, d);
    assert Encapsulate([], d) == Closing;
  }

  lemma ClosingNoCrlf()
    ensures CrlfLen(Closing) == 0
  {
    assert Closing[0] == '-';
  }

  /** A delimiter followed by a tail that neither starts with CRLF nor splits further. */
  lemma SplitUnbrokenTail(c: string, d: string)
    requires d != [] && d[0] == '-'
    requires CrlfLen(c) == 0 && Split(c, d) == [c]
    ensures Split(d + c, d) == [""] + [] + [c]
  {
    SplitAtDelimiter(c, d);
    assert c[0..] == c;
  }

  lemma EncapsulateCons(parts: seq<string>, d: string)
    requires parts != []
    ensures Encapsulate(parts, d) == Crlf + (parts[0] + (Crlf + d + Encapsulate(parts[1..], d)))
  {
  }

  lemma SplitFrameCons(parts: seq<string>, d: string)
    requires parts != []
    requires d != [] && d[0] == '-' && '\r' !in d
    requires forall k :: 0 <= k < |parts[0]| ==> !OccursAt(parts[0], k, d)
    requires Split(d + Encapsulate(parts[1..], d), d) == [""] + parts[1..] + [Closing]
    ensures Split(d + Encapsulate(parts, d), d) == [""] + parts + [Closing]
  {
    var p, qs := parts[0], parts[1..];
    var e := Encapsulate(qs, d);
    assert parts == [p] + qs;
    RegroupFrame("", p, qs, Closing);
    SplitFrameStep(p, e, qs + [Closing], d);
    EncapsulateCons(parts, d);
  }

  lemma RegroupFrame<T>(x: T, p: T, qs: seq<T>, z: T)
    ensures [x] + qs + [z] == [x] + (qs + [z])
    ensures [x] + ([p] + (qs + [z])) == [x] + ([p] + qs) + [z]
  {
  }

  /** One more part in front: the piece after the opening delimiter is that part. */
  lemma SplitFrameStep(p: string, e: string, rest: seq<string>, d: string)
    requires d != [] && d[0] == '-' && '\r' !in d
    requires forall k :: 0 <= k < |p| ==> !OccursAt(p, k, d)
    requires Split(d + e, d) == [""] + rest
    ensures Split(d + (Crlf + (p + (Crlf + d + e))), d) == [""] + ([p] + rest)
  {
    var t := Crlf + (p + (Crlf + d + e));
    assert CrlfLen(t) == 2 && t[2..] == p + (Crlf + d + e);
    SplitAfterPart(p, e, rest, d);
    SplitAtDelimiter(t, d);
  }

  /** A part followed by the next delimiter is one whole piece. */
  lemma SplitAfterPart(p: string, e: string, rest: seq<string>, d: string)
    requires d != [] && d[0] == '-' && '\r' !in d
    requires forall k :: 0 <= k < |p| ==> !OccursAt(p, k, d)
    requires Split(d + e, d) == [""] + rest
    ensures Split(p + (Crlf + d + e), d) == [p] + rest
  {
    var u := Crlf + d + e;
    SplitAtDelimiter(e, d);
    NoMatchInside(p, u, d);
    SplitUnmatchedPrefix(p, u, d);
    assert p + "" == p;
  }

  /**
   * A body framed from `parts` under a boundary of at least one character
   * without CR, none of whose parts contains `--B`, yields exactly those parts,
   * in order.
   */
  lemma FrameSegments(parts: seq<string>, boundary: string)
    requires |boundary| >= 1 && '\r' !in boundary
    requires forall i, k :: 0 <= i < |parts| && 0 <= k < |parts[i]| ==> !OccursAt(parts[i], k, Delimiter(boundary))
    ensures Segments(Frame(parts, boundary), boundary) == parts
  {
    var d := Delimiter(boundary);
    assert '\r' !in d by {
      forall k | 0 <= k < |d| ensures d[k] != '\r' {
        if k >= 2 { assert d[k] == boundary[k - 2]; }
      }
    }
    SplitFrame(parts, d);
    var pieces := [""] + parts + [Closing];
    assert pieces[1..|pieces| - 1] == parts;
  }
}
