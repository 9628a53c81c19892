/** The reconstructed element tree: nodes, their closing step, the id rule
    for start probes, and the shapes a node may take. */
module Shadow {
  import opened Values
  import opened Geometry

  /** One logical element. `start` is where the node was opened (the defaults
      page 1, x 0, y 0 for nodes that were never opened, like atomic ones). */
  datatype Node = Node(
    kind: Value,
    id: string,
    seqStart: int,
    children: seq<Node>,
    rects: seq<Rect>,
    payload: map<string, Value>,
    isAtomic: bool,
    start: Point)

  const NoStart: Point := Point(1, 0.0, 0.0)

  /** Closes `n` at `end`: identity and children stay, the fragments
      synthesised from the open and close points are appended. */
  function Close(n: Node, end: Point): (c: Node)
    ensures c.kind == n.kind && c.id == n.id && c.seqStart == n.seqStart
    ensures c.children == n.children && c.payload == n.payload
    ensures c.isAtomic == n.isAtomic && c.start == n.start
    ensures |c.rects| > |n.rects| && c.rects[..|n.rects|] == n.rects
    ensures n.start.page == end.page ==> |c.rects| == |n.rects| + 1
    ensures n.start.page != end.page ==> |c.rects| == |n.rects| + 2
    ensures c.rects[|n.rects|].page == n.start.page
    ensures c.rects[|c.rects| - 1].page == end.page
  {
    n.(rects := n.rects + CloseRects(n.start, end))
  }

  // ---------------------------------------------------------------------
  // Identifier of a start probe
  // ---------------------------------------------------------------------

  const StartTag: string := "-start"

  /** Does `s` have an occurrence of `-start` at position 0? */
  predicate TagAt(s: string) {
    |s| >= |StartTag| && s[..|StartTag|] == StartTag
  }

  predicate ContainsTag(s: string) {
    exists i :: 0 <= i <= |s| && TagAt(s[i..])
  }

  /** Every occurrence of `-start` removed, scanning left to right without
      overlap and without rescanning the result (Python's `str.replace(old, "")`). */
  function StripStart(s: string): (r: string)
    ensures |r| <= |s|
    decreases |s|
  {
    if s == [] then []
    else if TagAt(s) then StripStart(s[|StartTag|..])
    else [s[0]] + StripStart(s[1..])
  }

  /** An id without any `-start` is kept as it is. */
  lemma {:induction false} StripStartNoTag(s: string)
    requires !ContainsTag(s)
    ensures StripStart(s) == s
    decreases |s|
  {
    if s != [] {
      assert s[0..] == s;
      assert !TagAt(s);
      assert !ContainsTag(s[1..]) by {
        forall i | 0 <= i <= |s[1..]|
          ensures !TagAt(s[1..][i..])
        {
          assert s[1..][i..] == s[i + 1..];
        }
      }
      StripStartNoTag(s[1..]);
    }
  }

  /** No proper prefix of `-start` is also a suffix of it, so an occurrence
      cannot begin in `s` and end inside an appended `-start`. */
  lemma NoStraddle(s: string)
    requires 0 < |s| < |StartTag|
    ensures !TagAt(s + StartTag)
  {
    var t := s + StartTag;
    var k := |s|;
    assert t[k] == '-';
    assert StartTag[k] != '-';
    assert t[..|StartTag|][k] != StartTag[k];
  }

  /** A non-empty text that does not start with `-start` still does not once
      `-start` and more text follow it. */
  lemma NoTagAcross(a: string, b: string)
    requires a != [] && !TagAt(a)
    ensures !TagAt(a + StartTag + b)
  {
    var t := a + StartTag + b;
    if |a| < |StartTag| {
      NoStraddle(a);
      assert t[..|StartTag|] == (a + StartTag)[..|StartTag|];
    } else {
      assert t[..|StartTag|] == a[..|StartTag|];
    }
  }

  /** Every occurrence of `-start` is removed, wherever it stands: the text
      on either side of it is processed as if it stood alone. */
  lemma {:induction false} StripStartSplit(a: string, b: string)
    ensures StripStart(a + StartTag + b) == StripStart(a) + StripStart(b)
    decreases |a|
  {
    if a == [] {
      var t := a + StartTag + b;
      assert t == StartTag + b;
      assert t[..|StartTag|] == StartTag;
      assert t[|StartTag|..] == b;
    } else if TagAt(a) {
      StripStartSplit(a[|StartTag|..], b);
      SplitAfterTag(a, b);
    } else {
      StripStartSplit(a[1..], b);
      SplitAfterChar(a, b);
    }
  }

  lemma SplitAfterTag(a: string, b: string)
    requires TagAt(a)
    requires StripStart(a[|StartTag|..] + StartTag + b) == StripStart(a[|StartTag|..]) + StripStart(b)
    ensures StripStart(a + StartTag + b) == StripStart(a) + StripStart(b)
  {
    var t := a + StartTag + b;
    var rest := a[|StartTag|..] + StartTag + b;
    assert StripStart(t) == StripStart(rest) by {
      SplitConcat(a, StartTag, b, |StartTag|);
    }
  }

  lemma SplitAfterChar(a: string, b: string)
    requires a != [] && !TagAt(a)
    requires StripStart(a[1..] + StartTag + b) == StripStart(a[1..]) + StripStart(b)
    ensures StripStart(a + StartTag + b) == StripStart(a) + StripStart(b)
  {
    var t := a + StartTag + b;
    var rest := a[1..] + StartTag + b;
    assert StripStart(t) == [a[0]] + StripStart(rest) by {
      NoTagAcross(a, b);
      SplitConcat(a, StartTag, b, 1);
    }
    ConcatAssoc([a[0]], StripStart(a[1..]), StripStart(b));
  }

  lemma ConcatAssoc<T>(x: seq<T>, y: seq<T>, z: seq<T>)
    ensures x + (y + z) == (x + y) + z
  {
  }

  /** Cutting `x + y + z` inside `x`: the pieces of `x` carry over. */
  lemma SplitConcat<T>(x: seq<T>, y: seq<T>, z: seq<T>, k: nat)
    requires k <= |x|
    ensures (x + y + z)[..k] == x[..k]
    ensures (x + y + z)[k..] == x[k..] + y + z
  {
  }

  /** A trailing `-start` is always removed, whatever precedes it. */
  lemma StripStartSuffix(s: string)
    ensures StripStart(s + StartTag) == StripStart(s)
  {
    StripStartSplit(s, []);
    assert s + StartTag + [] == s + StartTag;
  }

  // ---------------------------------------------------------------------
  // Node shapes
  // ---------------------------------------------------------------------

  /** A finished subtree: atomic nodes carry exactly one marker and no
      children, paired nodes carry one or two fragments. */
  predicate Closed(n: Node)
    decreases n
  {
    && (if n.isAtomic then |n.rects| == 1 && IsMarker(n.rects[0]) && n.children == []
        else 1 <= |n.rects| <= 2)
    && forall i :: 0 <= i < |n.children| ==> Closed(n.children[i])
  }

  /** A node still on the build stack: paired, no fragments yet, every child
      already added to it finished. */
  predicate Open(n: Node) {
    && !n.isAtomic
    && n.rects == []
    && forall i :: 0 <= i < |n.children| ==> Closed(n.children[i])
  }

  /** Any node of a built tree: as `Closed`, except that a paired node left
      open by the input has no fragments. */
  predicate Shaped(n: Node)
    decreases n
  {
    && (if n.isAtomic then |n.rects| == 1 && IsMarker(n.rects[0]) && n.children == []
        else |n.rects| <= 2)
    && forall i :: 0 <= i < |n.children| ==> Shaped(n.children[i])
  }

  /** A stack frame once its own open children are folded into it. */
  predicate Frame(n: Node) {
    && !n.isAtomic
    && n.rects == []
    && forall i :: 0 <= i < |n.children| ==> Shaped(n.children[i])
  }

  lemma {:induction false} ClosedIsShaped(n: Node)
    requires Closed(n)
    ensures Shaped(n)
    decreases n
  {
    forall i | 0 <= i < |n.children|
      ensures Shaped(n.children[i])
    {
      ClosedIsShaped(n.children[i]);
    }
  }

  lemma OpenIsFrame(n: Node)
    requires Open(n)
    ensures Frame(n)
  {
    forall i | 0 <= i < |n.children|
      ensures Shaped(n.children[i])
    {
      ClosedIsShaped(n.children[i]);
    }
  }

  /** Closing an open node finishes it: it gains one or two fragments and
      all its children are already finished. */
  lemma CloseFinishes(n: Node, end: Point)
    requires Open(n)
    ensures Closed(Close(n, end))
  {
    var c := Close(n, end);
    assert c.children == n.children;
  }
}
