/**
 * The nested arrays PHP's `parse_str` builds from `name=value` pairs, for
 * the bracket syntax of variable names: `a` sets a top-level entry,
 * `a[k]` an entry of the array under `a`, `a[]` appends at the next free
 * integer index. The field and file trees of the decoder are built this way.
 */
module FormTree {
  import opened Wrappers
  import opened PhpString

  /** One bracket group of a variable name: `[]` appends, `[key]` names an entry. */
  datatype Seg = Append | Key(name: string)

  /**
   * A PHP array as `parse_str` fills it. A branch maps keys to values or
   * nested arrays and remembers its next free integer index; integer keys
   * are held as their canonical decimal strings, which is how PHP tells an
   * integer key from a string key.
   */
  datatype Tree<V> = Leaf(value: V) | Branch(entries: map<string, Tree<V>>, next: nat)

  function Empty<V>(): Tree<V>
  {
    Branch(map[], 0)
  }

  /** The next free index once `key` has been written: an integer key at or above it moves it past the key. */
  function Bump(next: nat, key: string): nat
  {
    match DecimalValue(key)
    case Some(n) => if n >= next then n + 1 else next
    case None => next
  }

  /**
   * Writes `v` at `path` below `t`. Each step enters the entry it names; an
   * entry that is missing or is not an array is replaced by a new empty
   * array, and `[]` always opens a new array at the next free index. The
   * final step overwrites whatever was there.
   */
  function Set<V>(t: Tree<V>, path: seq<Seg>, v: V): (r: Tree<V>)
    requires path != []
    ensures r.Branch?
    decreases |path|
  {
    var entries := if t.Branch? then t.entries else map[];
    var next := if t.Branch? then t.next else 0;
    var key := if path[0].Append? then NatToDecimal(next) else path[0].name;
    if |path| == 1 then Branch(entries[key := Leaf(v)], Bump(next, key))
    else
      var child := if path[0].Key? && key in entries then entries[key] else Empty();
      Branch(entries[key := Set(child, path[1..], v)], Bump(next, key))
  }

  /** The characters an unterminated first bracket group turns into `_`. */
  function Mangle(s: string): (r: string)
    ensures |r| == |s| && '[' !in r
  {
    seq(|s|, i requires 0 <= i < |s| => if s[i] in {' ', '.', '['} then '_' else s[i])
  }

  /**
   * The top-level variable name as PHP stores it: every space and dot becomes
   * `_`. The result has neither, and a name without them is kept as it is.
   */
  function RootName(s: string): (r: string)
    ensures |r| == |s| && ' ' !in r && '.' !in r
    ensures ' ' !in s && '.' !in s ==> r == s
  {
    seq(|s|, i requires 0 <= i < |s| => if s[i] in {' ', '.'} then '_' else s[i])
  }

  /**
   * The path a variable name denotes: leading spaces are skipped, then its
   * root (the text before the first `[`, spaces and dots turned into `_`)
   * and one segment per bracket group; None when the root is empty, in
   * which case the pair is dropped.
   */
  function ParseName(name: string): (r: Option<seq<Seg>>)
    ensures r.Some? ==> r.value != [] && r.value[0].Key? && r.value[0].name != []
  {
    var n := TrimLeft(name, {' '});
    match IndexOfChar(n, '[')
    case None => if n == [] then None else Some([Key(RootName(n))])
    case Some(i) => if i == 0 then None else Some(Groups(RootName(n[..i]), [], n[i + 1..]))
  }

  /**
   * The segments of the bracket groups in `rest` (the text after a `[`),
   * following `segs`. `[` then an optional single space then `]` appends;
   * otherwise the group runs to the next `]`. After a `]` anything but `[`
   * ends the name. An unterminated first group makes the whole name a plain
   * variable with that `[` (and every space, dot or `[` after it) turned into
   * `_`; an unterminated later group is dropped.
   */
  function Groups(root: string, segs: seq<Seg>, rest: string): (r: seq<Seg>)
    requires root != []
    ensures r != [] && r[0].Key? && r[0].name != []
    decreases |rest|
  {
    var skip := if rest != [] && rest[0] == ' ' then 1 else 0;
    if skip < |rest| && rest[skip] == ']' then
      var after := rest[skip + 1..];
      if after != [] && after[0] == '[' then Groups(root, segs + [Append], after[1..])
      else [Key(root)] + segs + [Append]
    else
      match IndexOfChar(rest, ']')
      case None =>
        if segs == [] then [Key(root + "_" + Mangle(rest))] else [Key(root)] + segs
      case Some(j) =>
        var after := rest[j + 1..];
        if after != [] && after[0] == '[' then Groups(root, segs + [Key(rest[..j])], after[1..])
        else [Key(root)] + segs + [Key(rest[..j])]
  }

  /** One `name=value` pair written into the array. */
  function Insert<V>(t: Tree<V>, name: string, v: V): Tree<V>
  {
    match ParseName(name)
    case None => t
    case Some(path) => Set(t, path, v)
  }

  /** `parse_str` on the decoded pairs, in order. */
  function ParseStr<V>(pairs: seq<(string, V)>): (r: Tree<V>)
    ensures r.Branch?
  {
    if pairs == [] then Empty()
    else
      var t := ParseStr(pairs[..|pairs| - 1]);
      match ParseName(pairs[|pairs| - 1].0)
      case None => t
      case Some(path) => Set(t, path, pairs[|pairs| - 1].1)
  }

  /** The entry reached from `t` through `keys`, if every step finds an array holding the key. */
  function Get<V>(t: Tree<V>, keys: seq<string>): Option<Tree<V>>
    decreases |keys|
  {
    if keys == [] then Some(t)
    else if t.Branch? && keys[0] in t.entries then Get(t.entries[keys[0]], keys[1..])
    else None
  }

  /** The entries and next free index of the array at `keys`, or those of an empty array when there is none. */
  function NodeAt<V>(t: Tree<V>, keys: seq<string>): (map<string, Tree<V>>, nat)
  {
    match Get(t, keys)
    case Some(Branch(e, n)) => (e, n)
    case _ => (map[], 0)
  }

  /** A path of literal keys only. */
  function Keyed(ks: seq<string>): seq<Seg>
  {
    seq(|ks|, i requires 0 <= i < |ks| => Key(ks[i]))
  }

  /** The array `[v0, v1, ...]` as its entries. */
  function Indexed<V>(vs: seq<V>): map<string, Tree<V>>
  {
    if vs == [] then map[]
    else Indexed(vs[..|vs| - 1])[NatToDecimal(|vs| - 1) := Leaf(vs[|vs| - 1])]
  }

  function ValuesOf<V>(pairs: seq<(string, V)>): seq<V>
  {
    seq(|pairs|, i requires 0 <= i < |pairs| => pairs[i].1)
  }

  lemma KeyedAt(ks: seq<string>)
    ensures |Keyed(ks)| == |ks| && forall i :: 0 <= i < |ks| ==> Keyed(ks)[i] == Key(ks[i])
  {
  }

  lemma ValuesOfAt<V>(pairs: seq<(string, V)>)
    ensures |ValuesOf(pairs)| == |pairs| && forall i :: 0 <= i < |pairs| ==> ValuesOf(pairs)[i] == pairs[i].1
  {
  }

  // ---------------------------------------------------------------------
  // Variable names.

  /** The text of one bracket group. */
  function GroupText(s: Seg): string
  {
    if s.Append? then "" else s.name
  }

  /** Renders bracket groups: `[k1][k2][]`. */
  function RenderGroups(segs: seq<Seg>): string
  {
    if segs == [] then "" else "[" + GroupText(segs[0]) + "]" + RenderGroups(segs[1..])
  }

  /** A key that reads back as itself inside brackets: not empty, not a lone space, and without `]`. */
  predicate PlainKey(s: Seg)
  {
    s.Key? ==> s.name != [] && s.name != " " && ']' !in s.name
  }

  /** A name is dropped exactly when its root, the text before the first `[` once leading spaces are skipped, is empty. */
  lemma DroppedNames(name: string)
    ensures var n := TrimLeft(name, {' '});
      ParseName(name) == None <==> n == [] || n[0] == '['
  {
  }

  /** Leading spaces make no difference to the name. */
  lemma LeadingSpaceSkipped(name: string)
    ensures ParseName(" " + name) == ParseName(name)
  {
    assert (" " + name)[1..] == name;
  }

  /** A name without brackets is a top-level entry of its own, with its spaces and dots turned into `_`. */
  lemma PlainName(name: string)
    requires name != [] && name[0] != ' ' && '[' !in name
    ensures ParseName(name) == Some([Key(RootName(name))])
  {
  }

  /** A root with no space or dot is stored as written. */
  lemma PlainRoot(root: string)
    requires ' ' !in root && '.' !in root
    ensures RootName(root) == root
  {
  }

  /** A root that PHP keeps as written: not empty, and no `[`, space or dot in it. */
  predicate PlainRootName(root: string)
  {
    root != [] && '[' !in root && ' ' !in root && '.' !in root
  }

  /** Rendering a root and bracket groups and parsing the name back gives the path. */
  lemma ParseRenderedName(root: string, segs: seq<Seg>)
    requires PlainRootName(root)
    requires forall i :: 0 <= i < |segs| ==> PlainKey(segs[i])
    ensures ParseName(root + RenderGroups(segs)) == Some([Key(root)] + segs)
  {
    if segs == [] {
      RenderedPlainName(root, segs);
    } else {
      RenderGroupsCons(segs);
      RootThenGroups(root, RenderGroups(segs));
      GroupsRendered(root, [], segs);
      assert [Key(root)] + [] + segs == [Key(root)] + segs;
    }
  }

  lemma RenderedPlainName(root: string, segs: seq<Seg>)
    requires PlainRootName(root) && segs == []
    ensures ParseName(root + RenderGroups(segs)) == Some([Key(root)] + segs)
  {
    assert root + RenderGroups(segs) == root;
    assert [Key(root)] + segs == [Key(root)];
    assert root[0] != ' ';
    PlainName(root);
    PlainRoot(root);
  }

  /** The root of `root + g`, where `g` opens with `[`, is `root`. */
  lemma RootThenGroups(root: string, g: string)
    requires PlainRootName(root) && g != [] && g[0] == '['
    ensures ParseName(root + g) == Some(Groups(root, [], g[1..]))
  {
    var name := root + g;
    var i := |root|;
    assert name[0] == root[0] && root[0] != ' ';
    assert TrimLeft(name, {' '}) == name;
    assert name[i] == '[' && name[..i] == root && name[i + 1..] == g[1..];
    IndexOfCharAt(name, '[', i);
    PlainRoot(root);
  }

  /** The first `c` in `s` is at `i` when `s[i]` is `c` and `c` does not occur before it. */
  lemma IndexOfCharAt(s: string, c: char, i: nat)
    requires i < |s| && s[i] == c && c !in s[..i]
    ensures IndexOfChar(s, c) == Some(i)
  {
    var r := IndexOfChar(s, c);
    forall k | 0 <= k < i ensures s[k] != c {
      assert s[..i][k] == s[k];
    }
    forall k | 0 <= k < r.value ensures s[k] != c {
      assert s[..r.value][k] == s[k];
    }
  }

  /** Reading rendered bracket groups. */
  lemma {:induction false} GroupsRendered(root: string, pre: seq<Seg>, segs: seq<Seg>)
    requires root != [] && segs != []
    requires forall i :: 0 <= i < |segs| ==> PlainKey(segs[i])
    ensures Groups(root, pre, GroupText(segs[0]) + "]" + RenderGroups(segs[1..])) == [Key(root)] + pre + segs
    decreases |segs|
  {
    var s, ss := segs[0], segs[1..];
    assert segs == [s] + ss && PlainKey(s);
    if ss != [] {
      GroupsRendered(root, pre + [s], ss);
      GroupsRenderedStep(root, pre, s, ss);
    } else {
      GroupStep(root, pre, s, RenderGroups(ss));
    }
  }

  /** One more rendered group in front of groups already read back. */
  lemma GroupsRenderedStep(root: string, pre: seq<Seg>, s: Seg, ss: seq<Seg>)
    requires root != [] && PlainKey(s) && ss != []
    requires Groups(root, pre + [s], GroupText(ss[0]) + "]" + RenderGroups(ss[1..])) == [Key(root)] + (pre + [s]) + ss
    ensures Groups(root, pre, GroupText(s) + "]" + RenderGroups(ss)) == [Key(root)] + pre + ([s] + ss)
  {
    GroupStep(root, pre, s, RenderGroups(ss));
    RenderGroupsCons(ss);
    ConcatAssoc(pre, [s], ss);
  }

  lemma ConcatAssoc<T>(a: seq<T>, b: seq<T>, c: seq<T>)
    ensures (a + b) + c == a + (b + c)
  {
  }

  lemma RenderGroupsCons(segs: seq<Seg>)
    requires segs != []
    ensures RenderGroups(segs) != [] && RenderGroups(segs)[0] == '['
    ensures RenderGroups(segs)[1..] == GroupText(segs[0]) + "]" + RenderGroups(segs[1..])
  {
    var x := GroupText(segs[0]) + "]" + RenderGroups(segs[1..]);
    assert RenderGroups(segs) == "[" + GroupText(segs[0]) + "]" + RenderGroups(segs[1..]);
    assert "[" + GroupText(segs[0]) + "]" + RenderGroups(segs[1..]) == ['['] + x;
  }

  /** One rendered group followed by `tail`: its segment is read, then `tail` decides whether more groups follow. */
  lemma GroupStep(root: string, pre: seq<Seg>, s: Seg, tail: string)
    requires root != [] && PlainKey(s)
    ensures Groups(root, pre, GroupText(s) + "]" + tail)
            == if tail != [] && tail[0] == '[' then Groups(root, pre + [s], tail[1..]) else [Key(root)] + pre + [s]
  {
    var t := GroupText(s);
    var rest := t + "]" + tail;
    assert rest[|t|] == ']' && rest[|t| + 1..] == tail && rest[..|t|] == t;
    if s.Key? {
      KeyGroup(rest, t);
    }
  }

  /** A plain key's group is not read as `[]` or `[ ]`, and runs to the `]` after it. */
  lemma KeyGroup(rest: string, t: string)
    requires t != [] && t != " " && ']' !in t
    requires |t| < |rest| && rest[..|t|] == t && rest[|t|] == ']'
    ensures IndexOfChar(rest, ']') == Some(|t|)
    ensures !(rest[0] == ']') && !(rest[0] == ' ' && 1 < |rest| && rest[1] == ']')
  {
    assert rest[0] == t[0];
    if t[0] == ' ' {
      assert t[..1] == " ";
      assert t != t[..1];
      assert rest[1] == t[1];
    }
    IndexOfCharAt(rest, ']', |t|);
  }

  // ---------------------------------------------------------------------
  // Writes.

  lemma KeyedTail(ks: seq<string>)
    requires ks != []
    ensures Keyed(ks)[1..] == Keyed(ks[1..])
  {
  }

  /** Whatever was at a path of literal keys, writing there leaves the value readable at that path: the last write wins. */
  lemma {:induction false} SetKeyed<V>(t: Tree<V>, ks: seq<string>, v: V)
    requires ks != []
    ensures Get(Set(t, Keyed(ks), v), ks) == Some(Leaf(v))
    decreases |ks|
  {
    if |ks| > 1 {
      var entries := if t.Branch? then t.entries else map[];
      var child := if ks[0] in entries then entries[ks[0]] else Empty();
      KeyedTail(ks);
      SetKeyed(child, ks[1..], v);
    }
  }

  /** `[]` at the end of a path of literal keys adds the value under the array's next free index and moves that index on by one. */
  lemma {:induction false} AppendAt<V>(t: Tree<V>, ks: seq<string>, v: V)
    ensures Get(Set(t, Keyed(ks) + [Append], v), ks)
            == Some(Branch(NodeAt(t, ks).0[NatToDecimal(NodeAt(t, ks).1) := Leaf(v)], NodeAt(t, ks).1 + 1))
    decreases |ks|
  {
    if ks == [] {
      AppendHere(t, ks, v);
    } else {
      AppendAt(Child(t, ks[0]), ks[1..], v);
      AppendBelow(t, ks, v);
    }
  }

  lemma AppendHere<V>(t: Tree<V>, ks: seq<string>, v: V)
    requires ks == []
    ensures Get(Set(t, Keyed(ks) + [Append], v), ks)
            == Some(Branch(NodeAt(t, ks).0[NatToDecimal(NodeAt(t, ks).1) := Leaf(v)], NodeAt(t, ks).1 + 1))
  {
    assert Keyed(ks) + [Append] == [Append];
    var next := if t.Branch? then t.next else 0;
    DecimalRoundTrip(next);
  }

  /** The array a write through key `k` descends into. */
  function Child<V>(t: Tree<V>, k: string): Tree<V>
  {
    if t.Branch? && k in t.entries then t.entries[k] else Empty()
  }

  /** The step of `AppendAt` through the first key. */
  lemma AppendBelow<V>(t: Tree<V>, ks: seq<string>, v: V)
    requires ks != []
    requires Get(Set(Child(t, ks[0]), Keyed(ks[1..]) + [Append], v), ks[1..])
             == Some(Branch(NodeAt(Child(t, ks[0]), ks[1..]).0[NatToDecimal(NodeAt(Child(t, ks[0]), ks[1..]).1) := Leaf(v)],
                            NodeAt(Child(t, ks[0]), ks[1..]).1 + 1))
    ensures Get(Set(t, Keyed(ks) + [Append], v), ks)
            == Some(Branch(NodeAt(t, ks).0[NatToDecimal(NodeAt(t, ks).1) := Leaf(v)], NodeAt(t, ks).1 + 1))
  {
    var path := Keyed(ks) + [Append];
    assert path[0] == Key(ks[0]);
    assert path[1..] == Keyed(ks[1..]) + [Append];
    GetThroughKey(t, path, ks, v);
    NodeAtChild(t, ks);
  }

  /** Reading back through the first key of a write. */
  lemma GetThroughKey<V>(t: Tree<V>, path: seq<Seg>, ks: seq<string>, v: V)
    requires |path| >= 2 && ks != [] && path[0] == Key(ks[0])
    ensures Get(Set(t, path, v), ks) == Get(Set(Child(t, ks[0]), path[1..], v), ks[1..])
  {
  }

  lemma NodeAtChild<V>(t: Tree<V>, ks: seq<string>)
    requires ks != []
    ensures NodeAt(t, ks) == NodeAt(Child(t, ks[0]), ks[1..])
  {
    if ks[1..] != [] {
      assert Get(Empty<V>(), ks[1..]) == None;
    }
  }

  /** The last pair wins at a path of literal keys. */
  lemma LastWriteWins<V>(pairs: seq<(string, V)>, name: string, ks: seq<string>, v: V)
    requires ParseName(name) == Some(Keyed(ks))
    ensures Get(ParseStr(pairs + [(name, v)]), ks) == Some(Leaf(v))
  {
    var all := pairs + [(name, v)];
    assert all[..|all| - 1] == pairs;
    SetKeyed(ParseStr(pairs), ks, v);
  }

  /** Pairs that all carry the same `...[]` name collect their values, in order, at indices 0, 1, ... */
  lemma {:induction false} Collect<V>(pairs: seq<(string, V)>, name: string, ks: seq<string>)
    requires ParseName(name) == Some(Keyed(ks) + [Append])
    requires forall i :: 0 <= i < |pairs| ==> pairs[i].0 == name
    ensures NodeAt(ParseStr(pairs), ks) == (Indexed(ValuesOf(pairs)), |pairs|)
  {
    KeyedAt(ks);
    if pairs == [] {
      assert Keyed(ks) + [Append] != [] && (Keyed(ks) + [Append])[0].Key?;
      assert ks != [];
    } else {
      var init := pairs[..|pairs| - 1];
      var v := pairs[|pairs| - 1].1;
      Collect(init, name, ks);
      AppendAt(ParseStr(init), ks, v);
      ValuesOfAt(pairs);
      ValuesOfAt(init);
      assert ValuesOf(pairs)[..|pairs| - 1] == ValuesOf(init);
    }
  }

  /** Each value of an array built by appending sits under its index. */
  lemma {:induction false} IndexedAt<V>(vs: seq<V>, i: nat)
    requires i < |vs|
    ensures NatToDecimal(i) in Indexed(vs) && Indexed(vs)[NatToDecimal(i)] == Leaf(vs[i])
  {
    if i < |vs| - 1 {
      IndexedAt(vs[..|vs| - 1], i);
      assert vs[..|vs| - 1][i] == vs[i];
      NatToDecimalInjective(i, |vs| - 1);
    }
  }

  /** Every key of an array built by appending is one of its indices. */
  lemma {:induction false} IndexedKey<V>(vs: seq<V>, k: string) returns (i: nat)
    requires k in Indexed(vs)
    ensures i < |vs| && k == NatToDecimal(i)
  {
    var init := vs[..|vs| - 1];
    if k == NatToDecimal(|vs| - 1) {
      i := |vs| - 1;
    } else {
      i := IndexedKey(init, k);
    }
  }

  /** Reading one level further down. */
  lemma {:induction false} GetSnoc<V>(t: Tree<V>, ks: seq<string>, k: string)
    ensures Get(t, ks + [k]) == match Get(t, ks)
                                case Some(Branch(e, _)) => if k in e then Some(e[k]) else None
                                case _ => None
    decreases |ks|
  {
    if ks == [] {
      assert ks + [k] == [k];
    } else {
      assert (ks + [k])[0] == ks[0] && (ks + [k])[1..] == ks[1..] + [k];
      if t.Branch? && ks[0] in t.entries {
        GetSnoc(t.entries[ks[0]], ks[1..], k);
      }
    }
  }

  /** With `a[b][]`-style names, the i-th pair's value is read back at index i. */
  lemma CollectAt<V>(pairs: seq<(string, V)>, name: string, ks: seq<string>, i: nat)
    requires ParseName(name) == Some(Keyed(ks) + [Append])
    requires forall j :: 0 <= j < |pairs| ==> pairs[j].0 == name
    requires i < |pairs|
    ensures Get(ParseStr(pairs), ks + [NatToDecimal(i)]) == Some(Leaf(pairs[i].1))
  {
    Collect(pairs, name, ks);
    ValuesOfAt(pairs);
    IndexedAt(ValuesOf(pairs), i);
    GetSnoc(ParseStr(pairs), ks, NatToDecimal(i));
  }

  // ---------------------------------------------------------------------
  // Swapping placeholders for handles.

  /** The handle a placeholder leaf stands for: the leaf is the decimal id of a registered file. */
  function Resolve<H>(s: string, flat: map<nat, H>): Option<H>
  {
    match DecimalValue(s)
    case Some(id) => if id in flat then Some(flat[id]) else None
    case None => None
  }

  /** Every leaf of `t` stands for a registered handle. */
  ghost predicate Registered<H>(t: Tree<string>, flat: map<nat, H>)
  {
    match t
    case Leaf(s) => Resolve(s, flat).Some?
    case Branch(e, _) => forall k :: k in e ==> Registered(e[k], flat)
  }

  /** The tree of handles: the placeholder tree with each leaf replaced by the handle it stands for. */
  function Substitute<H>(t: Tree<string>, flat: map<nat, H>): Tree<H>
    requires Registered(t, flat)
  {
    match t
    case Leaf(s) => Leaf(Resolve(s, flat).value)
    case Branch(e, n) => Branch(map k | k in e :: Substitute(e[k], flat), n)
  }

  /**
   * Substitution keeps the shape: the same paths lead to arrays with the same
   * keys and next index, and each placeholder leaf becomes its handle.
   */
  lemma {:induction false} SubstituteGet<H>(t: Tree<string>, flat: map<nat, H>, ks: seq<string>)
    requires Registered(t, flat)
    ensures match Get(t, ks)
            case None => Get(Substitute(t, flat), ks) == None
            case Some(Leaf(s)) => Resolve(s, flat).Some? && Get(Substitute(t, flat), ks) == Some(Leaf(Resolve(s, flat).value))
            case Some(Branch(e, n)) =>
              Get(Substitute(t, flat), ks).Some? && Get(Substitute(t, flat), ks).value.Branch?
              && Get(Substitute(t, flat), ks).value.entries.Keys == e.Keys
              && Get(Substitute(t, flat), ks).value.next == n
    decreases |ks|
  {
    if ks != [] && t.Branch? && ks[0] in t.entries {
      SubstituteGet(t.entries[ks[0]], flat, ks[1..]);
    }
  }

  /** A tree whose leaves all come from values that stand for registered handles is registered. */
  lemma {:induction false} RegisteredFromValues<H>(t: Tree<string>, vals: set<string>, flat: map<nat, H>)
    requires LeavesIn(t, vals)
    requires forall s :: s in vals ==> Resolve(s, flat).Some?
    ensures Registered(t, flat)
    decreases t
  {
    if t.Branch? {
      forall k | k in t.entries ensures Registered(t.entries[k], flat) {
        RegisteredFromValues(t.entries[k], vals, flat);
      }
    }
  }

  // ---------------------------------------------------------------------
  // Next free index.

  /** An integer key is below the array's next free index. */
  predicate Below(key: string, next: nat)
  {
    DecimalValue(key).Some? ==> DecimalValue(key).value < next
  }

  /** Every array's integer keys lie below its next free index, all the way down. */
  ghost predicate WellIndexed<V>(t: Tree<V>)
  {
    t.Branch? ==> forall k :: k in t.entries ==> Below(k, t.next) && WellIndexed(t.entries[k])
  }

  /** So `[]` never lands on an existing entry. */
  lemma AppendIsFresh<V>(t: Tree<V>)
    requires WellIndexed(t) && t.Branch?
    ensures NatToDecimal(t.next) !in t.entries
  {
    DecimalRoundTrip(t.next);
  }

  lemma {:induction false} SetWellIndexed<V>(t: Tree<V>, path: seq<Seg>, v: V)
    requires path != [] && WellIndexed(t)
    ensures WellIndexed(Set(t, path, v))
    decreases |path|
  {
    var entries := if t.Branch? then t.entries else map[];
    var next := if t.Branch? then t.next else 0;
    var key := if path[0].Append? then NatToDecimal(next) else path[0].name;
    if |path| > 1 {
      var child := if path[0].Key? && key in entries then entries[key] else Empty();
      SetWellIndexed(child, path[1..], v);
    }
  }

  /** Every array `parse_str` builds is well indexed. */
  lemma {:induction false} ParseStrWellIndexed<V>(pairs: seq<(string, V)>)
    ensures WellIndexed(ParseStr(pairs))
  {
    if pairs != [] {
      ParseStrWellIndexed(pairs[..|pairs| - 1]);
      match ParseName(pairs[|pairs| - 1].0)
      case None =>
      case Some(path) => SetWellIndexed(ParseStr(pairs[..|pairs| - 1]), path, pairs[|pairs| - 1].1);
    }
  }

  // ---------------------------------------------------------------------
  // Leaves.

  /** Every leaf of `t` holds a value from `vals`. */
  ghost predicate LeavesIn<V>(t: Tree<V>, vals: set<V>)
  {
    match t
    case Leaf(v) => v in vals
    case Branch(e, _) => forall k :: k in e ==> LeavesIn(e[k], vals)
  }

  lemma {:induction false} SetLeaves<V>(t: Tree<V>, path: seq<Seg>, v: V, vals: set<V>)
    requires path != [] && (t.Branch? ==> LeavesIn(t, vals)) && v in vals
    ensures LeavesIn(Set(t, path, v), vals)
    decreases |path|
  {
    var entries := if t.Branch? then t.entries else map[];
    var next := if t.Branch? then t.next else 0;
    var key := if path[0].Append? then NatToDecimal(next) else path[0].name;
    if |path| > 1 {
      var child := if path[0].Key? && key in entries then entries[key] else Empty();
      SetLeaves(child, path[1..], v, vals);
    }
  }

  /** `parse_str` invents no values: each leaf is the value of one of the pairs. */
  lemma {:induction false} ParseStrLeaves<V>(pairs: seq<(string, V)>)
    ensures LeavesIn(ParseStr(pairs), set i | 0 <= i < |pairs| :: pairs[i].1)
  {
    var vals := set i | 0 <= i < |pairs| :: pairs[i].1;
    if pairs != [] {
      var init := pairs[..|pairs| - 1];
      ParseStrLeaves(init);
      var old_vals := set i | 0 <= i < |init| :: init[i].1;
      LeavesGrow(ParseStr(init), old_vals, vals);
      assert pairs[|pairs| - 1].1 in vals;
      match ParseName(pairs[|pairs| - 1].0)
      case None =>
      case Some(path) => SetLeaves(ParseStr(init), path, pairs[|pairs| - 1].1, vals);
    }
  }

  lemma {:induction false} LeavesGrow<V>(t: Tree<V>, small: set<V>, big: set<V>)
    requires LeavesIn(t, small) && small <= big
    ensures LeavesIn(t, big)
    decreases t
  {
    if t.Branch? {
      forall k | k in t.entries ensures LeavesIn(t.entries[k], big) {
        LeavesGrow(t.entries[k], small, big);
      }
    }
  }
}
