/**
 * Paths into a configuration document. A path is a string such as
 * "server.port"; the navigation library splits it on '.' into the keys
 * to follow, and treats the empty string as "the document itself".
 */
module Path {

  /** The pieces of `s` between the '.' separators (never empty: "" splits into [""]). */
  function Split(s: string): (parts: seq<string>)
    ensures |parts| >= 1
    ensures forall i :: 0 <= i < |parts| ==> '.' !in parts[i]
    decreases |s|
  {
    if |s| == 0 then [""]
    else
      var rest := Split(s[1..]);
      if s[0] == '.' then [""] + rest
      else [[s[0]] + rest[0]] + rest[1..]
  }

  /** The pieces glued back together with '.' between neighbours. */
  function Join(parts: seq<string>): string
    requires |parts| >= 1
    decreases |parts|
  {
    if |parts| == 1 then parts[0] else parts[0] + "." + Join(parts[1..])
  }

  /** The keys a string path addresses: none for the empty path, otherwise its '.'-separated pieces. */
  function Segments(path: string): (segs: seq<string>)
    ensures segs == [] <==> path == ""
    ensures forall i :: 0 <= i < |segs| ==> '.' !in segs[i]
  {
    if path == "" then [] else Split(path)
  }

  /** Splitting loses nothing: joining the pieces gives the original string back. */
  lemma {:induction false} JoinSplit(s: string)
    ensures Join(Split(s)) == s
    decreases |s|
  {
    if |s| > 0 {
      var rest := Split(s[1..]);
      JoinSplit(s[1..]);
      if s[0] == '.' {
        assert Split(s) == [""] + rest;
        assert Join(Split(s)) == "" + "." + Join(rest);
        assert s == [s[0]] + s[1..];
      } else if |rest| == 1 {
        assert Split(s) == [[s[0]] + rest[0]];
        assert s == [s[0]] + s[1..];
      } else {
        var parts := Split(s);
        assert parts == [[s[0]] + rest[0]] + rest[1..];
        assert parts[1..] == rest[1..];
        assert Join(rest) == rest[0] + "." + Join(rest[1..]);
        calc {
          Join(parts);
          ([s[0]] + rest[0]) + "." + Join(rest[1..]);
          [s[0]] + (rest[0] + "." + Join(rest[1..]));
          [s[0]] + s[1..];
          s;
        }
      }
    }
  }

  /** A piece without '.' followed by a separator starts a new piece. */
  lemma {:induction false} SplitAfterPiece(a: string, b: string)
    requires '.' !in a
    ensures Split(a + "." + b) == [a] + Split(b)
    decreases |a|
  {
    if |a| == 0 {
      assert a + "." + b == "." + b;
      assert ("." + b)[1..] == b;
    } else {
      SplitAfterPiece(a[1..], b);
      assert (a + "." + b)[1..] == a[1..] + "." + b;
      assert [a[0]] + a[1..] == a;
    }
  }

  /** A string without '.' is a single piece. */
  lemma {:induction false} SplitPiece(a: string)
    requires '.' !in a
    ensures Split(a) == [a]
    decreases |a|
  {
    if |a| > 0 {
      SplitPiece(a[1..]);
      assert [a[0]] + a[1..] == a;
    }
  }

  /** Joining pieces that contain no '.' and splitting again gives the same pieces. */
  lemma {:induction false} SplitJoin(parts: seq<string>)
    requires |parts| >= 1
    requires forall i :: 0 <= i < |parts| ==> '.' !in parts[i]
    ensures Split(Join(parts)) == parts
    decreases |parts|
  {
    if |parts| == 1 {
      SplitPiece(parts[0]);
    } else {
      SplitJoin(parts[1..]);
      SplitAfterPiece(parts[0], Join(parts[1..]));
      assert [parts[0]] + parts[1..] == parts;
    }
  }

  /** Two different string paths never address the same keys. */
  lemma SegmentsInjective(p: string, q: string)
    requires Segments(p) == Segments(q)
    ensures p == q
  {
    if p != "" {
      JoinSplit(p);
      JoinSplit(q);
    }
  }
}
