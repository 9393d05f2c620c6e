/**
 * One part-header line, `Name: value; key=val; key2="val 2"`, split into its
 * name, its primary value and a map of lower-cased parameter keys to unquoted
 * values (the `HttpHeaderLine` class). Once built, a header line never changes,
 * so it is a datatype; its constructor, which fills the parameter map in a
 * loop, is the method `NewHeaderLine`.
 */
module HeaderLines {
  import opened Wrappers
  import opened PhpString
  import opened Errors

  datatype HeaderLine = HeaderLine(name: string, value: string, keyValues: map<string, string>)
  {
    function GetName(): string { name }

    function GetValue(): string { value }

    /** The stored parameter, or None (PHP null) for a key that was never stored. */
    function GetKeyValue(key: string): Option<string>
    {
      if key in keyValues then Some(keyValues[key]) else None
    }
  }

  /** The characters stripped from both ends of a parameter value once it is trimmed. */
  const Quotes: set<char> := {'"', '\''}

  /** The value part of a header line cut at every `;`, each piece trimmed. */
  function Pieces(valuePart: string): (ps: seq<string>)
    ensures |ps| >= 1
  {
    TrimmedPieces(valuePart, ";")
  }

  /** The parameter one `;`-piece stores, if it has an `=`: the key trimmed and lower-cased, the value trimmed and unquoted. */
  function Param(piece: string): (r: Option<(string, string)>)
    ensures r.Some? <==> '=' in piece
    ensures r.Some? ==> ToLower(r.value.0) == r.value.0 && Trim(r.value.0) == r.value.0
  {
    SplitFirstChar(piece, '=');
    match SplitFirst(piece, "=")
    case None => None
    case Some((k, v)) =>
      TrimCharsIdempotent(k, Whitespace);
      LowerKeepsTrimmed(Trim(k));
      ToLowerIdempotent(Trim(k));
      Some((ToLower(Trim(k)), TrimChars(Trim(v), Quotes)))
  }

  /** Lower-casing never touches the characters `trim` strips, so a trimmed string stays trimmed. */
  lemma LowerKeepsTrimmed(s: string)
    requires Trim(s) == s
    ensures Trim(ToLower(s)) == ToLower(s)
  {
    TrimCharsUnchanged(s, Whitespace);
    TrimCharsUnchanged(ToLower(s), Whitespace);
  }

  /** The key/value map the constructor's loop has built after the given pieces: a later key overwrites an earlier one. */
  function StoreParams(ps: seq<string>): (m: map<string, string>)
    ensures forall k :: k in m ==> ToLower(k) == k && Trim(k) == k
  {
    if ps == [] then map[]
    else
      var m := StoreParams(ps[..|ps| - 1]);
      match Param(ps[|ps| - 1])
      case None => m
      case Some((k, v)) => m[k := v]
  }

  /** One more piece: its parameter, if any, overwrites the map built so far. */
  lemma StoreParamsSnoc(ps: seq<string>, i: nat)
    requires i < |ps|
    ensures StoreParams(ps[..i + 1]) == match Param(ps[i])
      case None => StoreParams(ps[..i])
      case Some((k, v)) => StoreParams(ps[..i])[k := v]
  {
    assert ps[..i + 1][..i] == ps[..i];
  }

  /** The piece stores a parameter under `key`. */
  predicate StoresKey(piece: string, key: string)
  {
    Param(piece).Some? && Param(piece).value.0 == key
  }

  /** PHP `new HttpHeaderLine($raw)`, as a value or the exception it throws. */
  function Parse(raw: string): (r: Result<HeaderLine, ParseError>)
    ensures r == Failure(HeaderLineError(raw)) <==> ':' !in raw
    ensures r.Failure? ==> r.error == HeaderLineError(raw) || r.error == HeaderLineNameError(raw)
    ensures r.Success? ==> ':' !in r.value.name && Trim(r.value.name) == r.value.name
    ensures r.Success? ==> StartsWith(raw, r.value.name + ":")
    ensures r.Success? ==> forall k :: k in r.value.keyValues ==> ToLower(k) == k
  {
    SplitFirstChar(raw, ':');
    match SplitFirst(raw, ":")
    case None => Failure(HeaderLineError(raw))
    case Some((name, value)) =>
      assert raw[..|name| + 1] == name + ":";
      if Trim(name) != name then Failure(HeaderLineNameError(raw))
      else
        var ps := Pieces(value);
        Success(HeaderLine(name, ps[0], StoreParams(ps)))
  }

  /** The constructor: split at the first `:`, check the name, then store the parameters piece by piece. */
  method NewHeaderLine(raw: string) returns (r: Result<HeaderLine, ParseError>)
    ensures r == Parse(raw)
  {
    var headerLine := SplitFirst(raw, ":");
    if headerLine.None? {
      assert Parse(raw) == Failure(HeaderLineError(raw));
      return Failure(HeaderLineError(raw));
    }
    var (name, value) := headerLine.value;
    if Trim(name) != name {
      assert Parse(raw) == Failure(HeaderLineNameError(raw));
      return Failure(HeaderLineNameError(raw));
    }
    var ps := Pieces(value);
    var keyValues: map<string, string> := map[];
    var i := 0;
    while i < |ps|
      invariant 0 <= i <= |ps|
      invariant keyValues == StoreParams(ps[..i])
    {
      var valuePart := SplitFirst(ps[i], "=");
      StoreParamsSnoc(ps, i);
      if valuePart.Some? {
        var (key, keyValue) := valuePart.value;
        keyValues := keyValues[ToLower(Trim(key)) := TrimChars(Trim(keyValue), Quotes)];
      }
      i := i + 1;
    }
    assert ps[..|ps|] == ps;
    assert Parse(raw) == Success(HeaderLine(name, ps[0], StoreParams(ps)));
    return Success(HeaderLine(name, ps[0], keyValues));
  }

  // ---------------------------------------------------------------------
  // Properties of a parsed header line.

  /** Only the first `:` splits: the name is the text before it and the value part may hold more colons. */
  lemma {:induction false} SplitsAtFirstColon(name: string, rest: string)
    requires ':' !in name
    ensures Parse(name + ":" + rest).Failure? <==> Trim(name) != name
    ensures Parse(name + ":" + rest) == Failure(HeaderLineNameError(name + ":" + rest)) <==> Trim(name) != name
    ensures Parse(name + ":" + rest).Success? ==>
      Parse(name + ":" + rest).value == HeaderLine(name, Pieces(rest)[0], StoreParams(Pieces(rest)))
  {
    SplitFirstCharAt(name, ':', rest);
  }

  /** The primary value is the trimmed text before the first `;`: `Content-Type: text/plain` gives `text/plain`. */
  lemma PrimaryValue(name: string, primary: string, rest: string)
    requires ':' !in name && Trim(name) == name && ';' !in primary
    requires rest == [] || rest[0] == ';'
    ensures Parse(name + ":" + primary + rest).Success?
    ensures Parse(name + ":" + primary + rest).value.GetValue() == Trim(primary)
  {
    assert name + ":" + primary + rest == name + ":" + (primary + rest);
    SplitsAtFirstColon(name, primary + rest);
    ExplodeFirstPiece(primary, rest);
  }

  lemma ExplodeFirstPiece(primary: string, rest: string)
    requires ';' !in primary
    requires rest == [] || rest[0] == ';'
    ensures Explode(primary + rest, ";")[0] == primary
  {
    var s := primary + rest;
    forall k | 0 <= k < |primary| ensures !OccursAt(s, k, ";") {
      assert s[k..k + 1] == [primary[k]];
    }
    if rest != [] {
      assert OccursAt(s, |primary|, ";");
    } else {
      assert s == primary;
    }
  }

  /** A value part without `=` stores no parameters: `Content-Type: text/plain` has an empty parameter map. */
  lemma {:induction false} NoEqualsNoParams(ps: seq<string>)
    requires forall i :: 0 <= i < |ps| ==> '=' !in ps[i]
    ensures StoreParams(ps) == map[]
  {
    if ps != [] {
      NoEqualsNoParams(ps[..|ps| - 1]);
    }
  }

  /** Only the first `=` of a piece splits, so a parameter value may itself contain `=`. */
  lemma ParamSplitsAtFirstEquals(key: string, val: string)
    requires '=' !in key
    ensures Param(key + "=" + val) == Some((ToLower(Trim(key)), TrimChars(Trim(val), Quotes)))
  {
    SplitFirstCharAt(key, '=', val);
  }

  /** `name="John Doe"` and `name='John Doe'` both store `John Doe`: surrounding quotes of either kind go. */
  lemma QuotedParam(key: string, q: char, text: string)
    requires '=' !in key && q in Quotes
    requires text != [] ==> text[0] !in Quotes && text[|text| - 1] !in Quotes
    ensures Param(key + "=" + [q] + text + [q]) == Some((ToLower(Trim(key)), text))
  {
    var v := [q] + text + [q];
    assert key + "=" + [q] + text + [q] == key + "=" + v;
    ParamSplitsAtFirstEquals(key, v);
    QuotedTrimmed(q, text);
    QuotesStripped(q, text);
  }

  lemma QuotedTrimmed(q: char, text: string)
    requires q in Quotes
    ensures Trim([q] + text + [q]) == [q] + text + [q]
  {
    var v := [q] + text + [q];
    assert q !in Whitespace;
    assert v[0] == q && v[|v| - 1] == q;
    TrimCharsUnchanged(v, Whitespace);
  }

  lemma {:induction false} QuotesStripped(q: char, text: string)
    requires q in Quotes
    requires text != [] ==> text[0] !in Quotes && text[|text| - 1] !in Quotes
    ensures TrimChars([q] + text + [q], Quotes) == text
  {
    var v := [q] + text + [q];
    var w := text + [q];
    assert v[1..] == w;
    assert TrimLeft(v, Quotes) == TrimLeft(w, Quotes);
    if text == [] {
      assert w[1..] == [];
      assert TrimLeft(w, Quotes) == [];
    } else {
      assert w[0] !in Quotes;
      assert TrimLeft(w, Quotes) == w;
      assert w[..|w| - 1] == text;
      assert TrimRight(w, Quotes) == TrimRight(text, Quotes);
      assert TrimRight(text, Quotes) == text;
    }
  }

  /** The value stored under a key is that of the LAST piece that stores the key: a repeated parameter keeps its last value. */
  lemma {:induction false} LastParamWins(ps: seq<string>, j: nat, key: string, val: string)
    requires j < |ps| && Param(ps[j]) == Some((key, val))
    requires forall j' :: j < j' < |ps| ==> !StoresKey(ps[j'], key)
    ensures key in StoreParams(ps) && StoreParams(ps)[key] == val
  {
    var init := ps[..|ps| - 1];
    if j < |ps| - 1 {
      assert init[j] == ps[j];
      forall j' | j < j' < |init| ensures !StoresKey(init[j'], key) {
        assert init[j'] == ps[j'];
      }
      LastParamWins(init, j, key, val);
      OtherKeyKept(ps, key);
    }
  }

  /** A last piece that does not store `key` leaves the entry for `key` as it was. */
  lemma OtherKeyKept(ps: seq<string>, key: string)
    requires ps != [] && !StoresKey(ps[|ps| - 1], key)
    ensures key in StoreParams(ps) <==> key in StoreParams(ps[..|ps| - 1])
    ensures key in StoreParams(ps) ==> StoreParams(ps)[key] == StoreParams(ps[..|ps| - 1])[key]
  {
  }

  /** A key that no piece stores is absent from the map. */
  lemma {:induction false} UnstoredKeyAbsent(ps: seq<string>, key: string)
    requires forall j :: 0 <= j < |ps| ==> !StoresKey(ps[j], key)
    ensures key !in StoreParams(ps)
  {
    if ps != [] {
      var init := ps[..|ps| - 1];
      assert forall j :: 0 <= j < |init| ==> init[j] == ps[j];
      UnstoredKeyAbsent(init, key);
      assert !StoresKey(ps[|ps| - 1], key);
    }
  }

  /** The index of the last piece at or after `j` that stores `key`. */
  lemma {:induction false} LastStoring(ps: seq<string>, j: nat, key: string) returns (last: nat)
    requires j < |ps| && StoresKey(ps[j], key)
    ensures j <= last < |ps| && StoresKey(ps[last], key)
    ensures forall j' :: last < j' < |ps| ==> !StoresKey(ps[j'], key)
    decreases |ps| - j
  {
    if forall j' :: j < j' < |ps| ==> !StoresKey(ps[j'], key) {
      last := j;
    } else {
      var j' :| j < j' < |ps| && StoresKey(ps[j'], key);
      last := LastStoring(ps, j', key);
    }
  }

  /** `getKeyValue` returns null exactly for a key that no `;`-piece of the line stores. */
  lemma KeyValueAbsent(name: string, rest: string, key: string)
    requires ':' !in name && Trim(name) == name
    ensures Parse(name + ":" + rest).Success?
    ensures Parse(name + ":" + rest).value.GetKeyValue(key).None? <==>
      forall j :: 0 <= j < |Pieces(rest)| ==> !StoresKey(Pieces(rest)[j], key)
  {
    SplitsAtFirstColon(name, rest);
    var ps := Pieces(rest);
    if forall j :: 0 <= j < |ps| ==> !StoresKey(ps[j], key) {
      UnstoredKeyAbsent(ps, key);
    } else {
      var j :| 0 <= j < |ps| && StoresKey(ps[j], key);
      var last := LastStoring(ps, j, key);
      LastParamWins(ps, last, key, Param(ps[last]).value.1);
    }
  }
}
