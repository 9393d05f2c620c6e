/**
 * The PHP string built-ins the decoder relies on, written out over `seq<char>`:
 * `trim` (with and without a character list), `explode` (with and without a
 * limit of 2), `implode`, `str_starts_with`, ASCII `strtolower`, and the
 * canonical decimal strings PHP uses for integer array keys.
 */
module PhpString {
  import opened Wrappers

  /** The characters `trim` strips when it is given no character list: " \t\n\r\0\x0B". */
  const Whitespace: set<char> := {' ', '\t', '\n', '\r', '\0', '\U{000B}'}

  /** Strips every leading character that belongs to `cs`. */
  function TrimLeft(s: string, cs: set<char>): string
  {
    if s != [] && s[0] in cs then TrimLeft(s[1..], cs) else s
  }

  /** Strips every trailing character that belongs to `cs`. */
  function TrimRight(s: string, cs: set<char>): string
  {
    if s != [] && s[|s| - 1] in cs then TrimRight(s[..|s| - 1], cs) else s
  }

  /** PHP `trim($s, $cs)`: every leading and trailing occurrence of a character of `cs` goes. */
  function TrimChars(s: string, cs: set<char>): string
  {
    TrimRight(TrimLeft(s, cs), cs)
  }

  /** PHP `trim($s)`. */
  function Trim(s: string): string
  {
    TrimChars(s, Whitespace)
  }

  /** A leading character of `cs` makes no difference to `trim`. */
  lemma TrimCharsLeading(c: char, s: string, cs: set<char>)
    requires c in cs
    ensures TrimChars([c] + s, cs) == TrimChars(s, cs)
  {
    assert ([c] + s)[1..] == s;
  }

  /** What `TrimLeft` removes is a run of characters of `cs`, and what it keeps does not start with one. */
  lemma {:induction false} TrimLeftFacts(s: string, cs: set<char>)
    ensures |TrimLeft(s, cs)| <= |s| && TrimLeft(s, cs) == s[|s| - |TrimLeft(s, cs)|..]
    ensures forall i :: 0 <= i < |s| - |TrimLeft(s, cs)| ==> s[i] in cs
    ensures TrimLeft(s, cs) != [] ==> TrimLeft(s, cs)[0] !in cs
    decreases |s|
  {
    if s != [] && s[0] in cs {
      TrimLeftFacts(s[1..], cs);
    }
  }

  /** What `TrimRight` removes is a run of characters of `cs`, and what it keeps does not end with one. */
  lemma {:induction false} TrimRightFacts(s: string, cs: set<char>)
    ensures |TrimRight(s, cs)| <= |s| && TrimRight(s, cs) == s[..|TrimRight(s, cs)|]
    ensures forall i :: |TrimRight(s, cs)| <= i < |s| ==> s[i] in cs
    ensures TrimRight(s, cs) != [] ==> TrimRight(s, cs)[|TrimRight(s, cs)| - 1] !in cs
    decreases |s|
  {
    if s != [] && s[|s| - 1] in cs {
      TrimRightFacts(s[..|s| - 1], cs);
    }
  }

  /**
   * `trim` keeps one contiguous slice `s[i..j]`: everything before `i` and from
   * `j` on is a character of `cs`, and the slice neither starts nor ends with one.
   */
  lemma TrimCharsSlice(s: string, cs: set<char>) returns (i: nat, j: nat)
    ensures i <= j <= |s| && TrimChars(s, cs) == s[i..j]
    ensures forall k :: 0 <= k < i ==> s[k] in cs
    ensures forall k :: j <= k < |s| ==> s[k] in cs
    ensures TrimChars(s, cs) != [] ==> s[i] !in cs && s[j - 1] !in cs
  {
    var l := TrimLeft(s, cs);
    TrimLeftFacts(s, cs);
    TrimRightFacts(l, cs);
    i := |s| - |l|;
    j := i + |TrimRight(l, cs)|;
    forall k | j <= k < |s| ensures s[k] in cs {
      assert s[k] == l[k - i];
    }
  }

  /** `trim` leaves a string alone exactly when it neither starts nor ends with a stripped character. */
  lemma TrimCharsUnchanged(s: string, cs: set<char>)
    ensures TrimChars(s, cs) == s <==> (s == [] || (s[0] !in cs && s[|s| - 1] !in cs))
  {
    var l := TrimLeft(s, cs);
    TrimLeftFacts(s, cs);
    TrimRightFacts(l, cs);
    if s != [] && s[0] !in cs && s[|s| - 1] !in cs {
      assert l == s;
    }
  }

  /** `trim` never brings in a character the text did not have. */
  lemma TrimCharsAvoids(s: string, cs: set<char>, c: char)
    requires c !in s
    ensures c !in TrimChars(s, cs)
  {
    var i, j := TrimCharsSlice(s, cs);
    assert forall k :: 0 <= k < j - i ==> TrimChars(s, cs)[k] == s[i + k];
  }

  /** Trimming twice is trimming once. */
  lemma TrimCharsIdempotent(s: string, cs: set<char>)
    ensures TrimChars(TrimChars(s, cs), cs) == TrimChars(s, cs)
  {
    var i, j := TrimCharsSlice(s, cs);
    TrimCharsUnchanged(TrimChars(s, cs), cs);
  }

  /** `p` occurs in `s` at index `i`. */
  predicate OccursAt(s: string, i: nat, p: string)
  {
    i + |p| <= |s| && s[i..i + |p|] == p
  }

  ghost predicate Contains(s: string, p: string)
  {
    exists i: nat :: OccursAt(s, i, p)
  }

  /** The first index at or after `from` where `p` occurs in `s` (PHP's `strpos` with an offset). */
  function FindFrom(s: string, p: string, from: nat): (r: Option<nat>)
    requires |p| > 0 && from <= |s|
    ensures r.Some? ==> from <= r.value && OccursAt(s, r.value, p)
    ensures r.Some? ==> forall k :: from <= k < r.value ==> !OccursAt(s, k, p)
    ensures r.None? ==> forall k :: from <= k <= |s| ==> !OccursAt(s, k, p)
    decreases |s| - from
  {
    if from + |p| > |s| then None
    else if s[from..from + |p|] == p then Some(from)
    else FindFrom(s, p, from + 1)
  }

  /** PHP `explode($sep, $s, 2)` when it yields two pieces: the text before and after the first `sep`. */
  function SplitFirst(s: string, sep: string): (r: Option<(string, string)>)
    requires |sep| > 0
    ensures r.Some? ==> s == r.value.0 + sep + r.value.1
    ensures r.Some? ==> forall k :: 0 <= k < |r.value.0| ==> !OccursAt(s, k, sep)
    ensures r.None? <==> forall k :: 0 <= k < |s| ==> !OccursAt(s, k, sep)
  {
    match FindFrom(s, sep, 0)
    case None => None
    case Some(i) =>
      assert s == s[..i] + sep + s[i + |sep|..];
      Some((s[..i], s[i + |sep|..]))
  }

  /** PHP `explode($sep, $s)`: the pieces between the non-overlapping occurrences of `sep`, left to right. */
  function Explode(s: string, sep: string): (r: seq<string>)
    requires |sep| > 0
    ensures |r| >= 1
    decreases |s|
  {
    match SplitFirst(s, sep)
    case None => [s]
    case Some((before, after)) => [before] + Explode(after, sep)
  }

  /** PHP `implode($sep, $parts)`. */
  function Implode(parts: seq<string>, sep: string): string
    requires |parts| >= 1
  {
    if |parts| == 1 then parts[0] else parts[0] + sep + Implode(parts[1..], sep)
  }

  /** `implode` undoes `explode`: no text is lost or added by splitting. */
  lemma {:induction false} ImplodeExplode(s: string, sep: string)
    requires |sep| > 0
    ensures Implode(Explode(s, sep), sep) == s
    decreases |s|
  {
    match SplitFirst(s, sep)
    case None =>
    case Some((before, after)) =>
      ImplodeExplode(after, sep);
      assert Explode(s, sep)[1..] == Explode(after, sep);
  }

  /** No piece `explode` returns contains the separator. */
  lemma {:induction false} ExplodePiecesFree(s: string, sep: string)
    requires |sep| > 0
    ensures forall j :: 0 <= j < |Explode(s, sep)| ==> !Contains(Explode(s, sep)[j], sep)
    decreases |s|
  {
    match SplitFirst(s, sep)
    case None =>
      forall k: nat | OccursAt(s, k, sep) ensures false {
      }
    case Some((before, after)) =>
      ExplodePiecesFree(after, sep);
      forall k: nat | OccursAt(before, k, sep) ensures false {
        assert s[k..k + |sep|] == before[k..k + |sep|];
        assert OccursAt(s, k, sep);
      }
      assert Explode(s, sep)[1..] == Explode(after, sep);
  }

  lemma OccursAtChar(s: string, k: nat, c: char)
    ensures OccursAt(s, k, [c]) <==> k < |s| && s[k] == c
  {
    if k < |s| {
      assert s[k..k + 1] == [s[k]];
    }
  }

  /** With a one-character separator, `explode($c, $s, 2)` yields two pieces exactly when `c` occurs, and the first piece holds no `c`. */
  lemma SplitFirstChar(s: string, c: char)
    ensures SplitFirst(s, [c]).None? <==> c !in s
    ensures SplitFirst(s, [c]).Some? ==> c !in SplitFirst(s, [c]).value.0
  {
    if c in s {
      var k :| 0 <= k < |s| && s[k] == c;
      OccursAtChar(s, k, c);
    } else {
      forall k | 0 <= k < |s| ensures !OccursAt(s, k, [c]) {
        OccursAtChar(s, k, c);
      }
    }
    if SplitFirst(s, [c]).Some? {
      var before := SplitFirst(s, [c]).value.0;
      forall k | 0 <= k < |before| ensures before[k] != c {
        OccursAtChar(s, k, c);
      }
    }
  }

  /** `explode($c, $before . $c . $after, 2)` is `[$before, $after]` when `before` holds no `c`. */
  lemma SplitFirstCharAt(before: string, c: char, after: string)
    requires c !in before
    ensures SplitFirst(before + [c] + after, [c]) == Some((before, after))
  {
    var s := before + [c] + after;
    forall k: nat {:trigger OccursAt(s, k, [c])} ensures OccursAt(s, k, [c]) <==> k < |s| && s[k] == c {
      OccursAtChar(s, k, c);
    }
    assert forall k :: 0 <= k < |before| ==> s[k] == before[k];
    assert OccursAt(s, |before|, [c]);
    var j := FindFrom(s, [c], 0).value;
    assert j <= |before|;
    assert j >= |before|;
    assert s[..|before|] == before;
    assert s[|before| + 1..] == after;
  }

  /** `explode($c, $s)` on a string without `c` is `[$s]`. */
  lemma ExplodeNoSeparator(s: string, c: char)
    requires c !in s
    ensures Explode(s, [c]) == [s]
  {
    SplitFirstChar(s, c);
  }

  /** `explode($c, $a . $c . $b)` is `$a` followed by the pieces of `$b`, when `a` holds no `c`. */
  lemma ExplodeCons(a: string, c: char, b: string)
    requires c !in a
    ensures Explode(a + [c] + b, [c]) == [a] + Explode(b, [c])
  {
    SplitFirstCharAt(a, c, b);
  }

  /** `array_map('trim', explode($sep, $s))`: never empty, and no piece starts or ends with whitespace. */
  function TrimmedPieces(s: string, sep: string): (ps: seq<string>)
    requires |sep| > 0
    ensures |ps| >= 1
    ensures forall i :: 0 <= i < |ps| ==> ps[i] == [] || (ps[i][0] !in Whitespace && ps[i][|ps[i]| - 1] !in Whitespace)
  {
    var e := Explode(s, sep);
    assert forall i :: 0 <= i < |e| ==> Trim(e[i]) == [] || (Trim(e[i])[0] !in Whitespace && Trim(e[i])[|Trim(e[i])| - 1] !in Whitespace) by {
      forall i | 0 <= i < |e| ensures Trim(e[i]) == [] || (Trim(e[i])[0] !in Whitespace && Trim(e[i])[|Trim(e[i])| - 1] !in Whitespace) {
        var a, b := TrimCharsSlice(e[i], Whitespace);
      }
    }
    seq(|e|, i requires 0 <= i < |e| => Trim(e[i]))
  }

  lemma TrimmedPiecesAt(s: string, sep: string)
    requires |sep| > 0
    ensures |TrimmedPieces(s, sep)| == |Explode(s, sep)|
    ensures forall i :: 0 <= i < |TrimmedPieces(s, sep)| ==> TrimmedPieces(s, sep)[i] == Trim(Explode(s, sep)[i])
  {
  }

  /** PHP `str_starts_with`. */
  predicate StartsWith(s: string, prefix: string)
  {
    |prefix| <= |s| && s[..|prefix|] == prefix
  }

  /** PHP 8 `strtolower` on one character: only ASCII `A`-`Z` change. */
  function LowerChar(c: char): char
  {
    if 'A' <= c <= 'Z' then (c as int + 32) as char else c
  }

  /** PHP 8 `strtolower`. */
  function ToLower(s: string): (r: string)
    ensures |r| == |s|
  {
    seq(|s|, i requires 0 <= i < |s| => LowerChar(s[i]))
  }

  /** Lower-casing is idempotent, so a lower-cased key is found again under its lower-cased form. */
  lemma ToLowerIdempotent(s: string)
    ensures ToLower(ToLower(s)) == ToLower(s)
  {
  }

  /** The position of the first `c` in `s`, if any (PHP `strpos` with a one-character needle). */
  function IndexOfChar(s: string, c: char): (r: Option<nat>)
    ensures r.Some? ==> r.value < |s| && s[r.value] == c && c !in s[..r.value]
    ensures r.None? <==> c !in s
  {
    if s == [] then None
    else if s[0] == c then Some(0)
    else match IndexOfChar(s[1..], c)
      case None => None
      case Some(i) => assert s[..i + 1] == [s[0]] + s[1..][..i]; Some(i + 1)
  }

  // ---------------------------------------------------------------------
  // Canonical decimal strings. PHP stores an array key written as a canonical
  // non-negative decimal ("0", "17", not "017") as the integer it denotes, and
  // `sprintf('%d')` / string conversion of a non-negative int produces one.

  function DigitChar(d: nat): char
    requires d < 10
  {
    ('0' as int + d) as char
  }

  predicate IsDigit(c: char)
  {
    '0' <= c <= '9'
  }

  /** The decimal rendering of `n`, as PHP's int-to-string conversion gives it. */
  function NatToDecimal(n: nat): (r: string)
    ensures |r| >= 1 && forall i :: 0 <= i < |r| ==> IsDigit(r[i])
    ensures r[0] == '0' ==> n == 0 && r == "0"
  {
    if n < 10 then [DigitChar(n)] else NatToDecimal(n / 10) + [DigitChar(n % 10)]
  }

  /** The value of a string of digits. */
  function DigitsValue(s: string): nat
    requires forall i :: 0 <= i < |s| ==> IsDigit(s[i])
  {
    if s == [] then 0
    else
      assert IsDigit(s[|s| - 1]);
      DigitsValue(s[..|s| - 1]) * 10 + (s[|s| - 1] as int - '0' as int)
  }

  /** A canonical non-negative decimal: "0", or digits without a leading zero. */
  predicate IsCanonicalDecimal(s: string)
  {
    |s| >= 1 && (forall i :: 0 <= i < |s| ==> IsDigit(s[i])) && (s[0] == '0' ==> s == "0")
  }

  /** The integer a canonical decimal string denotes, or None for any other string. */
  function DecimalValue(s: string): (r: Option<nat>)
    ensures r.Some? <==> IsCanonicalDecimal(s)
  {
    if IsCanonicalDecimal(s) then Some(DigitsValue(s)) else None
  }

  lemma {:induction false} DigitsValueOfDecimal(n: nat)
    ensures DigitsValue(NatToDecimal(n)) == n
  {
    if n >= 10 {
      var s := NatToDecimal(n);
      DigitsValueOfDecimal(n / 10);
      assert s[..|s| - 1] == NatToDecimal(n / 10);
    }
  }

  /** Every natural number's rendering reads back as that number. */
  lemma DecimalRoundTrip(n: nat)
    ensures DecimalValue(NatToDecimal(n)) == Some(n)
  {
    DigitsValueOfDecimal(n);
  }

  lemma {:induction false} DecimalOfDigitsValue(s: string)
    requires |s| >= 1 && (forall i :: 0 <= i < |s| ==> IsDigit(s[i])) && s[0] != '0'
    ensures NatToDecimal(DigitsValue(s)) == s
    decreases |s|
  {
    var init := s[..|s| - 1];
    var d := s[|s| - 1] as int - '0' as int;
    if |s| == 1 {
      assert DigitsValue(s) == DigitsValue(init) * 10 + d;
      assert init == [];
    } else {
      DecimalOfDigitsValue(init);
      assert init[0] == s[0] != '0';
      assert NatToDecimal(0) == "0";
      assert DigitsValue(init) != 0;
      var v := DigitsValue(s);
      assert v == DigitsValue(init) * 10 + d;
      assert v / 10 == DigitsValue(init) && v % 10 == d;
      assert s == init + [s[|s| - 1]];
    }
  }

  /** Every canonical decimal string is the rendering of the number it denotes. */
  lemma DecimalCanonical(s: string)
    requires DecimalValue(s).Some?
    ensures NatToDecimal(DecimalValue(s).value) == s
  {
    if s[0] == '0' {
      assert s == "0" && s[..0] == [];
      assert DigitsValue(s) == 0;
    } else {
      DecimalOfDigitsValue(s);
    }
  }

  /** Distinct numbers have distinct renderings. */
  lemma NatToDecimalInjective(m: nat, n: nat)
    ensures NatToDecimal(m) == NatToDecimal(n) ==> m == n
  {
    DecimalRoundTrip(m);
    DecimalRoundTrip(n);
  }
}
