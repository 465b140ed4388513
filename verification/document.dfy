/**
 * Parsed configuration documents and navigation inside them.
 *
 * A document is the tree a YAML parser produces: null, booleans, numbers,
 * strings, sequences and maps from string keys to documents. A looked-up
 * value is `Option<Doc>`: `None` is JavaScript's `undefined` (nothing at the
 * path) and `Some(Null)` an explicit `null`.
 */
module Document {

  datatype Option<+T> = None | Some(value: T)

  datatype Doc =
    | Null
    | Bool(b: bool)
    | Num(n: int)
    | Str(s: string)
    | Seq(items: seq<Doc>)
    | Map(fields: map<string, Doc>)

  /** The document `{}`. */
  const EmptyMap: Doc := Map(map[])

  /** JavaScript falsiness of a value: undefined, null, false, 0 and "". */
  predicate Falsy(v: Option<Doc>) {
    match v
    case None => true
    case Some(d) => d == Null || d == Bool(false) || d == Num(0) || d == Str("")
  }

  /**
   * The configurator's emptiness test: only `null` and `undefined` are empty.
   * It is strictly narrower than falsiness: false, 0 and "" are values.
   */
  function IsEmpty(v: Option<Doc>): (empty: bool)
    ensures empty ==> Falsy(v)
    ensures Falsy(v) && !empty <==> v == Some(Bool(false)) || v == Some(Num(0)) || v == Some(Str(""))
  {
    v.None? || v.value.Null?
  }

  /**
   * The value at `segs` inside `d`: the document itself for no keys;
   * `None` as soon as a key is missing or the node reached is not a map.
   */
  function Lookup(d: Doc, segs: seq<string>): (r: Option<Doc>)
    ensures segs == [] ==> r == Some(d)
    ensures segs != [] && !d.Map? ==> r == None
    ensures segs != [] && d.Map? && segs[0] !in d.fields ==> r == None
    ensures |segs| == 1 && d.Map? && segs[0] in d.fields ==> r == Some(d.fields[segs[0]])
    decreases |segs|
  {
    if segs == [] then Some(d)
    else if d.Map? && segs[0] in d.fields then Lookup(d.fields[segs[0]], segs[1..])
    else None
  }

  /**
   * `d` with `v` stored at `segs`, creating the missing intermediate maps.
   * An empty path, or a node on the way that exists but is not a map,
   * leaves `d` as it was.
   */
  function SetPath(d: Doc, segs: seq<string>, v: Doc): (r: Doc)
    ensures !d.Map? || segs == [] ==> r == d
    ensures d.Map? && segs != [] ==> r.Map? && r.fields.Keys == d.fields.Keys + {segs[0]}
    decreases |segs|
  {
    if segs == [] || !d.Map? then d
    else if |segs| == 1 then Map(d.fields[segs[0] := v])
    else
      var child := if segs[0] in d.fields then d.fields[segs[0]] else EmptyMap;
      Map(d.fields[segs[0] := SetPath(child, segs[1..], v)])
  }

  /** Every node that exists strictly above the end of `segs` in `d` is a map. */
  predicate Settable(d: Doc, segs: seq<string>)
    decreases |segs|
  {
    d.Map? && (|segs| > 1 && segs[0] in d.fields ==> Settable(d.fields[segs[0]], segs[1..]))
  }

  /** Neither key sequence is a prefix of the other: the two address disjoint subtrees. */
  predicate Disjoint(s: seq<string>, t: seq<string>) {
    !(s <= t) && !(t <= s)
  }

  /** Looking up a path in two steps is looking it up at once. */
  lemma {:induction false} LookupAppend(d: Doc, s: seq<string>, t: seq<string>)
    ensures Lookup(d, s + t) == match Lookup(d, s) { case None => None case Some(x) => Lookup(x, t) }
    decreases |s|
  {
    if s == [] {
      assert s + t == t;
    } else {
      assert (s + t)[0] == s[0] && (s + t)[1..] == s[1..] + t;
      if d.Map? && s[0] in d.fields {
        LookupAppend(d.fields[s[0]], s[1..], t);
      }
    }
  }

  /** A value stored where every node above it is a map can be read back. */
  lemma {:induction false} LookupAfterSet(d: Doc, segs: seq<string>, v: Doc)
    requires segs != [] && Settable(d, segs)
    ensures Lookup(SetPath(d, segs, v), segs) == Some(v)
    decreases |segs|
  {
    if |segs| > 1 {
      var child := if segs[0] in d.fields then d.fields[segs[0]] else EmptyMap;
      LookupAfterSet(child, segs[1..], v);
    }
  }

  /** Storing a value leaves every disjoint path as it was. */
  lemma {:induction false} LookupAfterSetElsewhere(d: Doc, s: seq<string>, t: seq<string>, v: Doc)
    requires s != [] && Disjoint(s, t)
    ensures Lookup(SetPath(d, s, v), t) == Lookup(d, t)
    decreases |s|
  {
    if d.Map? && s[0] == t[0] {
      assert |s| > 1 && |t| > 1;
      assert Disjoint(s[1..], t[1..]) by {
        assert s == [s[0]] + s[1..] && t == [t[0]] + t[1..];
      }
      var child := if s[0] in d.fields then d.fields[s[0]] else EmptyMap;
      LookupAfterSetElsewhere(child, s[1..], t[1..], v);
    }
  }

  /** Storing at the same path or at a disjoint one keeps the nodes above `t` maps. */
  lemma {:induction false} SetKeepsSettable(d: Doc, s: seq<string>, t: seq<string>, v: Doc)
    requires s != [] && t != [] && Settable(d, t)
    requires s == t || Disjoint(s, t)
    ensures Settable(SetPath(d, s, v), t)
    decreases |s|
  {
    var r := SetPath(d, s, v);
    if |t| > 1 && t[0] in r.fields && s[0] == t[0] {
      assert |s| > 1;
      assert s[1..] == t[1..] || Disjoint(s[1..], t[1..]) by {
        assert s == [s[0]] + s[1..] && t == [t[0]] + t[1..];
      }
      var child := if s[0] in d.fields then d.fields[s[0]] else EmptyMap;
      SetKeepsSettable(child, s[1..], t[1..], v);
    }
  }
}
