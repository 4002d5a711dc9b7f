/** Joining pieces of text with a separator, and the length-probe loop the
    serializer uses to place commas between array elements and object
    members. */
module TextJoin {

  /** The parts with `sep` between neighbours: n parts, n - 1 separators,
      and the empty text for no parts. */
  function Join(sep: string, parts: seq<string>): string
    decreases |parts|
  {
    if |parts| == 0 then ""
    else if |parts| == 1 then parts[0]
    else Join(sep, parts[..|parts| - 1]) + sep + parts[|parts| - 1]
  }

  /** Cuts `s` at every occurrence of `c`; the inverse of `Join` (below). */
  function Split(s: string, c: char): (r: seq<string>)
    decreases |s|
    ensures |r| >= 1
  {
    if |s| == 0 then [""]
    else
      var init := Split(s[..|s| - 1], c);
      if s[|s| - 1] == c then init + [""]
      else init[..|init| - 1] + [init[|init| - 1] + [s[|s| - 1]]]
  }

  /** The length-probe loop: start from `open`, and before each piece append
      "," exactly when the text built so far is longer than one character. */
  function ProbeJoin(open: string, pieces: seq<string>): string
    decreases |pieces|
  {
    if |pieces| == 0 then open
    else
      var acc := ProbeJoin(open, pieces[..|pieces| - 1]);
      (if |acc| > 1 then acc + "," else acc) + pieces[|pieces| - 1]
  }

  /** `parts` without its leading run of empty texts. */
  function DropLeadingEmpty(parts: seq<string>): (r: seq<string>)
    ensures r == [] || r[0] != ""
  {
    if |parts| == 0 then []
    else if parts[0] == "" then DropLeadingEmpty(parts[1..])
    else parts
  }

  /** A joined text is at least as long as its first part. */
  lemma {:induction false} JoinCoversFirst(sep: string, parts: seq<string>)
    requires |parts| >= 1
    ensures |Join(sep, parts)| >= |parts[0]|
    decreases |parts|
  {
    if |parts| > 1 {
      var init := parts[..|parts| - 1];
      JoinCoversFirst(sep, init);
      assert init[0] == parts[0];
    }
  }

  /** A text without `c` is not cut at all. */
  lemma {:induction false} SplitFree(b: string, c: char)
    requires c !in b
    ensures Split(b, c) == [b]
    decreases |b|
  {
    if |b| > 0 {
      var init := b[..|b| - 1];
      SplitFree(init, c);
      assert init + [b[|b| - 1]] == b;
    }
  }

  /** Cutting `a`, then `c`, then a `c`-free `b` adds `b` as one last part. */
  lemma {:induction false} SplitAfterSeparator(a: string, c: char, b: string)
    requires c !in b
    ensures Split(a + [c] + b, c) == Split(a, c) + [b]
    decreases |b|
  {
    var s := a + [c] + b;
    if |b| == 0 {
      assert s[..|s| - 1] == a;
    } else {
      var b' := b[..|b| - 1];
      SplitAfterSeparator(a, c, b');
      assert s[..|s| - 1] == a + [c] + b';
      assert b' + [b[|b| - 1]] == b;
    }
  }

  /** Joining with a one-character separator that no part contains puts
      exactly the |parts| - 1 cuts that `Split` finds back. */
  lemma {:induction false} SplitJoin(parts: seq<string>, c: char)
    requires |parts| >= 1
    requires forall i :: 0 <= i < |parts| ==> c !in parts[i]
    ensures Split(Join([c], parts), c) == parts
    decreases |parts|
  {
    if |parts| == 1 {
      SplitFree(parts[0], c);
    } else {
      var init := parts[..|parts| - 1];
      SplitJoin(init, c);
      SplitAfterSeparator(Join([c], init), c, parts[|parts| - 1]);
      assert init + [parts[|parts| - 1]] == parts;
    }
  }

  /** Dropping leading empties from `ps + [p]`, in terms of `ps`. */
  lemma {:induction false} DropLeadingEmptySnoc(ps: seq<string>, p: string)
    ensures DropLeadingEmpty(ps + [p]) ==
      if DropLeadingEmpty(ps) == [] then (if p == "" then [] else [p])
      else DropLeadingEmpty(ps) + [p]
    decreases |ps|
  {
    if |ps| > 0 {
      assert (ps + [p])[1..] == ps[1..] + [p];
      if ps[0] == "" {
        DropLeadingEmptySnoc(ps[1..], p);
      }
    } else {
      assert [p][1..] == [];
    }
  }

  /** The length-probe loop is a join of the pieces after their leading
      empty run: an empty piece before the first non-empty one adds neither
      text nor comma, and every later piece, even an empty one, is preceded
      by a comma. */
  lemma {:induction false} ProbeJoinIsJoin(open: string, pieces: seq<string>)
    requires |open| == 1
    ensures ProbeJoin(open, pieces) == open + Join(",", DropLeadingEmpty(pieces))
    decreases |pieces|
  {
    if |pieces| > 0 {
      var ps, p := pieces[..|pieces| - 1], pieces[|pieces| - 1];
      assert ps + [p] == pieces;
      ProbeJoinIsJoin(open, ps);
      ProbeJoinStep(open, ps, p);
    }
  }

  /** One turn of the loop keeps the text equal to the join. */
  lemma ProbeJoinStep(open: string, ps: seq<string>, p: string)
    requires |open| == 1
    requires ProbeJoin(open, ps) == open + Join(",", DropLeadingEmpty(ps))
    ensures ProbeJoin(open, ps + [p]) == open + Join(",", DropLeadingEmpty(ps + [p]))
  {
    var pieces := ps + [p];
    assert pieces[..|pieces| - 1] == ps;
    var acc := ProbeJoin(open, ps);
    assert ProbeJoin(open, pieces) == (if |acc| > 1 then acc + "," else acc) + p;
    DropLeadingEmptySnoc(ps, p);
    var d := DropLeadingEmpty(ps);
    if d == [] {
      assert acc == open + "" == open;
      assert ProbeJoin(open, pieces) == open + p;
      if p == "" {
        assert DropLeadingEmpty(pieces) == [];
        assert open + p == open + Join(",", []);
      } else {
        assert DropLeadingEmpty(pieces) == [p];
        assert Join(",", [p]) == p;
      }
    } else {
      ProbeJoinStepAfterText(open, ps, p);
    }
  }

  /** The turn of the loop once some piece has put text after `open`: the
      probe sees more than one character, so a comma precedes `p`. */
  lemma ProbeJoinStepAfterText(open: string, ps: seq<string>, p: string)
    requires |open| == 1
    requires DropLeadingEmpty(ps) != []
    requires ProbeJoin(open, ps) == open + Join(",", DropLeadingEmpty(ps))
    ensures ProbeJoin(open, ps + [p]) == open + Join(",", DropLeadingEmpty(ps) + [p])
  {
    var d := DropLeadingEmpty(ps);
    var j := Join(",", d);
    var acc := ProbeJoin(open, ps);
    assert ProbeJoin(open, ps + [p]) == acc + "," + p by {
      JoinCoversFirst(",", d);
      ProbeJoinAfterText(open, ps, p);
    }
    assert Join(",", d + [p]) == j + "," + p by {
      JoinSnoc(",", d, p);
    }
    assert acc + "," + p == open + (j + "," + p);
  }

  /** One more piece after text longer than one character: a comma, then
      the piece. */
  lemma ProbeJoinAfterText(open: string, ps: seq<string>, p: string)
    requires |ProbeJoin(open, ps)| > 1
    ensures ProbeJoin(open, ps + [p]) == ProbeJoin(open, ps) + "," + p
  {
    assert (ps + [p])[..|ps|] == ps;
  }

  /** One more part: `Join` adds the separator and the part. */
  lemma JoinSnoc(sep: string, parts: seq<string>, p: string)
    requires |parts| >= 1
    ensures Join(sep, parts + [p]) == Join(sep, parts) + sep + p
  {
    assert (parts + [p])[..|parts|] == parts;
  }

  /** When no piece is empty the loop yields `open` and the pieces joined
      by commas, in order. */
  lemma ProbeJoinNonEmpty(open: string, pieces: seq<string>)
    requires |open| == 1
    requires forall i :: 0 <= i < |pieces| ==> pieces[i] != ""
    ensures ProbeJoin(open, pieces) == open + Join(",", pieces)
  {
    ProbeJoinIsJoin(open, pieces);
  }

  /** An empty first piece is invisible: it also suppresses the comma that
      would otherwise precede the second piece. */
  lemma ProbeJoinEmptyHead(open: string, rest: seq<string>)
    requires |open| == 1
    ensures ProbeJoin(open, [""] + rest) == ProbeJoin(open, rest)
  {
    ProbeJoinIsJoin(open, [""] + rest);
    ProbeJoinIsJoin(open, rest);
    assert ([""] + rest)[1..] == rest;
  }
}
