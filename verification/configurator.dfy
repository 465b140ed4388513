/**
 * The layered configuration engine: an ordered list of parsed sources,
 * lowest priority first, and the path lookups and exports over it.
 *
 * Reading and parsing a source file happen outside the model: each source
 * arrives as `Some(doc)` when it loaded and `None` when reading or parsing
 * failed.
 */
module Configuration {
  import opened Document
  import opened Path

  // ---------------------------------------------------------------------
  // Specification functions
  // ---------------------------------------------------------------------

  /** The documents that loaded, in their original order; failed loads are dropped. */
  function Loaded(loads: seq<Option<Doc>>): (docs: seq<Doc>)
    ensures |docs| <= |loads|
    ensures |docs| == |loads| <==> forall i :: 0 <= i < |loads| ==> loads[i].Some?
    decreases |loads|
  {
    if loads == [] then []
    else
      var kept := Loaded(loads[..|loads| - 1]);
      match loads[|loads| - 1]
      case Some(doc) => kept + [doc]
      case None => kept
  }

  /**
   * The value a path resolves to over `docs`: the last non-empty lookup,
   * so that a later (higher-priority) document overrides an earlier one.
   * The result is never an explicit null.
   */
  function Resolve(docs: seq<Doc>, segs: seq<string>): (r: Option<Doc>)
    ensures r == None || !IsEmpty(r)
    decreases |docs|
  {
    if docs == [] then None
    else
      var v := Lookup(docs[|docs| - 1], segs);
      if !IsEmpty(v) then v else Resolve(docs[..|docs| - 1], segs)
  }

  /**
   * The document an export of `paths` builds: starting from `{}`, each path
   * in turn that resolves to something non-empty is stored at its own place.
   */
  function ExportDoc(docs: seq<Doc>, paths: seq<string>): (out: Doc)
    ensures out.Map?
    decreases |paths|
  {
    if paths == [] then EmptyMap
    else
      var out := ExportDoc(docs, paths[..|paths| - 1]);
      var path := paths[|paths| - 1];
      var value := Resolve(docs, Segments(path));
      if !IsEmpty(value) then SetPath(out, Segments(path), value.value) else out
  }

  /** Document `i` supplies the value at `segs`: it has one and no later document does. */
  predicate Wins(docs: seq<Doc>, segs: seq<string>, i: int) {
    && 0 <= i < |docs|
    && !IsEmpty(Lookup(docs[i], segs))
    && forall j :: i < j < |docs| ==> IsEmpty(Lookup(docs[j], segs))
  }

  // ---------------------------------------------------------------------
  // Source filtering
  // ---------------------------------------------------------------------

  /** Filtering two runs of sources one after the other is filtering them together. */
  lemma {:induction false} LoadedAppend(a: seq<Option<Doc>>, b: seq<Option<Doc>>)
    ensures Loaded(a + b) == Loaded(a) + Loaded(b)
    decreases |b|
  {
    if b == [] {
      assert a + b == a;
    } else {
      var b' := b[..|b| - 1];
      assert (a + b)[..|a + b| - 1] == a + b';
      LoadedAppend(a, b');
    }
  }

  /**
   * Source `i`, when it loaded, sits in the kept list right after the
   * documents kept from the sources before it.
   */
  lemma LoadedPosition(loads: seq<Option<Doc>>, i: int)
    requires 0 <= i < |loads| && loads[i].Some?
    ensures |Loaded(loads[..i])| < |Loaded(loads)|
    ensures Loaded(loads)[|Loaded(loads[..i])|] == loads[i].value
  {
    assert loads == loads[..i] + [loads[i]] + loads[i + 1..];
    LoadedAppend(loads[..i] + [loads[i]], loads[i + 1..]);
    LoadedAppend(loads[..i], [loads[i]]);
    assert Loaded([loads[i]]) == [loads[i].value] by {
      assert [loads[i]][..0] == [];
    }
  }

  /** A document is kept exactly when some source loaded it. */
  lemma {:induction false} LoadedMembers(loads: seq<Option<Doc>>, doc: Doc)
    ensures doc in Loaded(loads) <==> Some(doc) in loads
    decreases |loads|
  {
    if loads != [] {
      var init := loads[..|loads| - 1];
      LoadedMembers(init, doc);
      assert loads == init + [loads[|loads| - 1]];
    }
  }

  // ---------------------------------------------------------------------
  // Precedence
  // ---------------------------------------------------------------------

  /** The resolved value is absent exactly when every document is empty at the path. */
  lemma {:induction false} ResolveAbsent(docs: seq<Doc>, segs: seq<string>)
    ensures Resolve(docs, segs) == None <==> forall i :: 0 <= i < |docs| ==> IsEmpty(Lookup(docs[i], segs))
    decreases |docs|
  {
    if docs != [] {
      var n := |docs| - 1;
      ResolveAbsent(docs[..n], segs);
      assert forall i :: 0 <= i < n ==> docs[..n][i] == docs[i];
    }
  }

  /** The document that wins at a path is the one whose lookup is resolved. */
  lemma {:induction false} ResolveWinner(docs: seq<Doc>, segs: seq<string>, i: int)
    requires Wins(docs, segs, i)
    ensures Resolve(docs, segs) == Lookup(docs[i], segs)
    decreases |docs|
  {
    var n := |docs| - 1;
    if i < n {
      assert docs[..n][i] == docs[i];
      assert Wins(docs[..n], segs, i);
      ResolveWinner(docs[..n], segs, i);
    }
  }

  /** A resolved value always comes from a winning document. */
  lemma {:induction false} ResolveHasWinner(docs: seq<Doc>, segs: seq<string>)
    requires Resolve(docs, segs) != None
    ensures exists i :: Wins(docs, segs, i)
    decreases |docs|
  {
    var n := |docs| - 1;
    if IsEmpty(Lookup(docs[n], segs)) {
      ResolveHasWinner(docs[..n], segs);
      var i :| Wins(docs[..n], segs, i);
      assert Wins(docs, segs, i);
    } else {
      assert Wins(docs, segs, n);
    }
  }

  /**
   * The resolved value is absent exactly when every document is empty at
   * the path; otherwise it is the lookup in the last non-empty document.
   */
  lemma ResolvePrecedence(docs: seq<Doc>, segs: seq<string>)
    ensures Resolve(docs, segs) == None <==> forall i :: 0 <= i < |docs| ==> IsEmpty(Lookup(docs[i], segs))
    ensures forall i :: Wins(docs, segs, i) ==> Resolve(docs, segs) == Lookup(docs[i], segs)
    ensures Resolve(docs, segs) != None ==> exists i :: Wins(docs, segs, i)
  {
    ResolveAbsent(docs, segs);
    forall i | Wins(docs, segs, i) ensures Resolve(docs, segs) == Lookup(docs[i], segs) {
      ResolveWinner(docs, segs, i);
    }
    if Resolve(docs, segs) != None {
      ResolveHasWinner(docs, segs);
    }
  }

  /**
   * Stacking sources: the upper layer's value wins whenever it has one,
   * and an upper layer with nothing at the path leaves the lower value.
   */
  lemma {:induction false} ResolveLayers(lower: seq<Doc>, upper: seq<Doc>, segs: seq<string>)
    ensures Resolve(lower + upper, segs) == if Resolve(upper, segs) == None then Resolve(lower, segs) else Resolve(upper, segs)
    decreases |upper|
  {
    if upper == [] {
      assert lower + upper == lower;
    } else {
      var n := |upper| - 1;
      assert (lower + upper)[..|lower + upper| - 1] == lower + upper[..n];
      ResolveLayers(lower, upper[..n], segs);
    }
  }

  // ---------------------------------------------------------------------
  // Export
  // ---------------------------------------------------------------------

  /**
   * Every top-level key of an export is the first key of an exported path
   * that resolved; paths that resolve to nothing leave no trace.
   */
  lemma {:induction false} ExportSparse(docs: seq<Doc>, paths: seq<string>)
    ensures forall k :: k in ExportDoc(docs, paths).fields ==>
      exists p :: p in paths && Segments(p) != [] && Segments(p)[0] == k && !IsEmpty(Resolve(docs, Segments(p)))
    decreases |paths|
  {
    if paths != [] {
      var init := paths[..|paths| - 1];
      var path := paths[|paths| - 1];
      ExportSparse(docs, init);
      forall k | k in ExportDoc(docs, paths).fields
        ensures exists p :: p in paths && Segments(p) != [] && Segments(p)[0] == k && !IsEmpty(Resolve(docs, Segments(p)))
      {
        if k in ExportDoc(docs, init).fields {
          var p :| p in init && Segments(p) != [] && Segments(p)[0] == k && !IsEmpty(Resolve(docs, Segments(p)));
          assert p in paths;
        } else {
          assert path in paths;
        }
      }
    }
  }

  /** When no path resolves, the export is the empty document; in particular for no paths. */
  lemma {:induction false} ExportNothing(docs: seq<Doc>, paths: seq<string>)
    requires forall p :: p in paths ==> IsEmpty(Resolve(docs, Segments(p)))
    ensures ExportDoc(docs, paths) == EmptyMap
  {
    ExportSparse(docs, paths);
    assert ExportDoc(docs, paths).fields == map[];
  }

  /**
   * Reading an export back: for a path that no other exported path extends
   * or is a prefix of, the export holds at that path exactly what the path
   * resolves to (and nothing when it was not exported).
   */
  lemma {:induction false} ExportAt(docs: seq<Doc>, paths: seq<string>, p: string)
    requires p != ""
    requires forall q :: q in paths ==> q == "" || q == p || Disjoint(Segments(q), Segments(p))
    ensures Lookup(ExportDoc(docs, paths), Segments(p)) == if p in paths then Resolve(docs, Segments(p)) else None
    ensures Settable(ExportDoc(docs, paths), Segments(p))
    decreases |paths|
  {
    var segs := Segments(p);
    if paths == [] {
      assert Lookup(EmptyMap, segs) == None;
    } else {
      var init := paths[..|paths| - 1];
      var q := paths[|paths| - 1];
      assert paths == init + [q];
      ExportAt(docs, init, p);
      var out := ExportDoc(docs, init);
      var value := Resolve(docs, Segments(q));
      if !IsEmpty(value) {
        if q == p {
          LookupAfterSet(out, segs, value.value);
          SetKeepsSettable(out, segs, segs, value.value);
        } else if q != "" {
          LookupAfterSetElsewhere(out, Segments(q), segs, value.value);
          SetKeepsSettable(out, Segments(q), segs, value.value);
        }
      }
    }
  }

  // ---------------------------------------------------------------------
  // The configurator object
  // ---------------------------------------------------------------------

  class Configurator {
    /** The loaded documents, lowest priority first; fixed once construction ends. */
    const sources: seq<Doc>

    /** Keeps the sources that loaded, in order, skipping failed ones without error. */
    constructor (loads: seq<Option<Doc>>)
      ensures sources == Loaded(loads)
    {
      var kept := [];
      var i := 0;
      while i < |loads|
        invariant 0 <= i <= |loads|
        invariant kept == Loaded(loads[..i])
      {
        assert loads[..i + 1][..i] == loads[..i];
        match loads[i] {
          case Some(doc) => kept := kept + [doc];
          case None =>
        }
        i := i + 1;
      }
      assert loads[..|loads|] == loads;
      sources := kept;
    }

    /** The value at `path` from the highest-priority source that has a non-empty one. */
    method Get(path: string) returns (value: Option<Doc>)
      ensures value == Resolve(sources, Segments(path))
    {
      var segs := Segments(path);
      value := None;
      var i := 0;
      while i < |sources|
        invariant 0 <= i <= |sources|
        invariant value == Resolve(sources[..i], segs)
      {
        assert sources[..i + 1][..i] == sources[..i];
        var v := Lookup(sources[i], segs);
        value := if !IsEmpty(v) then v else value;
        i := i + 1;
      }
      assert sources[..|sources|] == sources;
    }

    /**
     * The resolved value at `path`, or `def` unchanged when no source has
     * a non-empty value there.
     */
    function GetOrDefault(path: string, def: Option<Doc>): (r: Option<Doc>)
      ensures (forall i :: 0 <= i < |sources| ==> IsEmpty(Lookup(sources[i], Segments(path)))) ==> r == def
      ensures forall i :: Wins(sources, Segments(path), i) ==> r == Lookup(sources[i], Segments(path))
    {
      ResolvePrecedence(sources, Segments(path));
      var value := Resolve(sources, Segments(path));
      if !IsEmpty(value) then value else def
    }

    /** A fresh document holding, at their own places, only the paths that resolve. */
    method Export(paths: seq<string>) returns (exported: Doc)
      ensures exported == ExportDoc(sources, paths)
    {
      exported := EmptyMap;
      var i := 0;
      while i < |paths|
        invariant 0 <= i <= |paths|
        invariant exported == ExportDoc(sources, paths[..i])
      {
        assert paths[..i + 1][..i] == paths[..i];
        var value := Get(paths[i]);
        if !IsEmpty(value) {
          exported := SetPath(exported, Segments(paths[i]), value.value);
        }
        i := i + 1;
      }
      assert paths[..|paths|] == paths;
    }
  }
}
