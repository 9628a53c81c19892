/** Flattening the tree into fragments, grouping them by page, and the
    one-line geometry summary of a node. */
module Fragments {
  import opened Values
  import opened Geometry
  import opened Shadow

  /** One rectangle with the kind and id of the node it belongs to. */
  datatype Fragment = Fragment(kind: Value, id: string, rect: Rect)

  /** A node's own rectangles as fragments, in order. */
  function Own(n: Node): (fs: seq<Fragment>)
    ensures |fs| == |n.rects|
    ensures forall i :: 0 <= i < |fs| ==> fs[i] == Fragment(n.kind, n.id, n.rects[i])
  {
    seq(|n.rects|, i requires 0 <= i < |n.rects| => Fragment(n.kind, n.id, n.rects[i]))
  }

  // ---------------------------------------------------------------------
  // Collection, as the source does it: appending to an accumulator
  // ---------------------------------------------------------------------

  /** Appends the fragments of `n` and of its subtree to `acc`. Only ever
      appends: what was collected before is kept as a prefix. */
  function CollectInto(acc: seq<Fragment>, n: Node): (r: seq<Fragment>)
    ensures |r| >= |acc| + |n.rects| && r[..|acc|] == acc
    ensures r[..|acc| + |n.rects|] == acc + Own(n)
    decreases n
  {
    var r := CollectChildrenInto(acc + Own(n), n.children);
    assert r[..|acc|] == r[..|acc| + |n.rects|][..|acc|];
    r
  }

  function CollectChildrenInto(acc: seq<Fragment>, cs: seq<Node>): (r: seq<Fragment>)
    ensures |r| >= |acc| && r[..|acc|] == acc
    decreases cs
  {
    if cs == [] then acc
    else
      var acc' := CollectInto(acc, cs[0]);
      var r := CollectChildrenInto(acc', cs[1..]);
      assert r[..|acc|] == r[..|acc'|][..|acc|];
      r
  }

  /** All fragments of the tree rooted at `root`. */
  function CollectAllRects(root: Node): (fs: seq<Fragment>)
    ensures fs == ConcatOwn(PreOrder(root))
  {
    CollectIntoPreOrder([], root);
    CollectInto([], root)
  }

  // ---------------------------------------------------------------------
  // Reference: pre-order listing of nodes
  // ---------------------------------------------------------------------

  /** The nodes of a tree in pre-order: a node, then its children's subtrees
      in stored order. */
  function PreOrder(n: Node): (ns: seq<Node>)
    ensures |ns| >= 1 && ns[0] == n
    decreases n
  {
    [n] + PreOrderAll(n.children)
  }

  function PreOrderAll(cs: seq<Node>): seq<Node>
    decreases cs
  {
    if cs == [] then [] else PreOrder(cs[0]) + PreOrderAll(cs[1..])
  }

  /** The own fragments of each listed node, concatenated. */
  function ConcatOwn(ns: seq<Node>): seq<Fragment>
    decreases |ns|
  {
    if ns == [] then [] else Own(ns[0]) + ConcatOwn(ns[1..])
  }

  /** Total number of rectangles over the listed nodes. */
  function RectCount(ns: seq<Node>): nat
    decreases |ns|
  {
    if ns == [] then 0 else |ns[0].rects| + RectCount(ns[1..])
  }

  lemma {:induction false} ConcatOwnAppend(a: seq<Node>, b: seq<Node>)
    ensures ConcatOwn(a + b) == ConcatOwn(a) + ConcatOwn(b)
    decreases |a|
  {
    if a == [] {
      assert a + b == b;
    } else {
      assert (a + b)[0] == a[0];
      assert (a + b)[1..] == a[1..] + b;
      ConcatOwnAppend(a[1..], b);
    }
  }

  lemma {:induction false} ConcatOwnLength(ns: seq<Node>)
    ensures |ConcatOwn(ns)| == RectCount(ns)
    decreases |ns|
  {
    if ns != [] {
      ConcatOwnLength(ns[1..]);
    }
  }

  /** Collecting appends exactly the tree's fragments in pre-order, each
      node's own rectangles before those of its children. */
  lemma {:induction false} CollectIntoPreOrder(acc: seq<Fragment>, n: Node)
    ensures CollectInto(acc, n) == acc + ConcatOwn(PreOrder(n))
    decreases n
  {
    CollectChildrenIntoPreOrder(acc + Own(n), n.children);
    var ns := PreOrder(n);
    assert ns[0] == n && ns[1..] == PreOrderAll(n.children);
  }

  lemma {:induction false} CollectChildrenIntoPreOrder(acc: seq<Fragment>, cs: seq<Node>)
    ensures CollectChildrenInto(acc, cs) == acc + ConcatOwn(PreOrderAll(cs))
    decreases cs
  {
    if cs != [] {
      CollectIntoPreOrder(acc, cs[0]);
      CollectChildrenIntoPreOrder(CollectInto(acc, cs[0]), cs[1..]);
      ConcatOwnAppend(PreOrder(cs[0]), PreOrderAll(cs[1..]));
    }
  }

  /** The collected list is the pre-order concatenation of every node's own
      fragments, and its length is the total number of rectangles. */
  lemma CollectAllRectsSpec(root: Node)
    ensures CollectAllRects(root) == ConcatOwn(PreOrder(root))
    ensures |CollectAllRects(root)| == RectCount(PreOrder(root))
  {
    CollectIntoPreOrder([], root);
    ConcatOwnLength(PreOrder(root));
  }

  // ---------------------------------------------------------------------
  // Grouping by page
  // ---------------------------------------------------------------------

  /** The fragments on page `p`, in their original relative order. */
  function OnPage(fs: seq<Fragment>, p: int): seq<Fragment>
    decreases |fs|
  {
    if fs == [] then []
    else OnPage(fs[..|fs| - 1], p) + (if fs[|fs| - 1].rect.page == p then [fs[|fs| - 1]] else [])
  }

  /** The pages the fragments lie on. */
  function PagesOf(fs: seq<Fragment>): set<int> {
    set i | 0 <= i < |fs| :: fs[i].rect.page
  }

  /** Buckets the fragments by page: one bucket per page that has a
      fragment, holding exactly that page's fragments in their order. */
  method GroupByPage(fs: seq<Fragment>) returns (groups: map<int, seq<Fragment>>)
    ensures groups.Keys == PagesOf(fs)
    ensures forall p :: p in groups ==> groups[p] == OnPage(fs, p)
  {
    groups := map[];
    var i := 0;
    while i < |fs|
      invariant 0 <= i <= |fs|
      invariant groups.Keys == PagesOf(fs[..i])
      invariant forall p :: p in groups ==> groups[p] == OnPage(fs[..i], p)
    {
      var f := fs[i];
      var bucket := if f.rect.page in groups then groups[f.rect.page] else [];
      if f.rect.page !in groups {
        OnPageAbsent(fs[..i], f.rect.page);
      }
      groups := groups[f.rect.page := bucket + [f]];
      assert fs[..i + 1][..i] == fs[..i];
      assert forall p :: OnPage(fs[..i + 1], p) == OnPage(fs[..i], p) + (if f.rect.page == p then [f] else []);
      i := i + 1;
    }
    assert fs[..|fs|] == fs;
  }

  lemma {:induction false} OnPageAbsent(fs: seq<Fragment>, p: int)
    requires p !in PagesOf(fs)
    ensures OnPage(fs, p) == []
    decreases |fs|
  {
    if fs != [] {
      var init := fs[..|fs| - 1];
      assert fs[|fs| - 1].rect.page in PagesOf(fs);
      assert PagesOf(init) <= PagesOf(fs) by {
        forall q | q in PagesOf(init) ensures q in PagesOf(fs) {
          var i :| 0 <= i < |init| && init[i].rect.page == q;
          assert fs[i] == init[i];
        }
      }
      OnPageAbsent(init, p);
    }
  }

  /** A fragment is on page `p`'s list exactly when it is in the input and
      lies on page `p`: the groups partition the input. */
  lemma {:induction false} OnPageMembers(fs: seq<Fragment>, p: int, f: Fragment)
    ensures f in OnPage(fs, p) <==> f in fs && f.rect.page == p
    decreases |fs|
  {
    if fs != [] {
      var init := fs[..|fs| - 1];
      OnPageMembers(init, p, f);
      assert fs == init + [fs[|fs| - 1]];
    }
  }

  /** Every occurrence of a fragment goes to its own page's list and to no
      other: the multiplicities of the groups add up to the input's. */
  lemma {:induction false} OnPageMultiplicity(fs: seq<Fragment>, p: int, f: Fragment)
    ensures multiset(OnPage(fs, p))[f] == if f.rect.page == p then multiset(fs)[f] else 0
    decreases |fs|
  {
    if fs != [] {
      var init := fs[..|fs| - 1];
      OnPageMultiplicity(init, p, f);
      assert fs == init + [fs[|fs| - 1]];
    }
  }

  // ---------------------------------------------------------------------
  // Geometry summary
  // ---------------------------------------------------------------------

  /** The geometry shown beside a node: nothing, the page and vertical span
      of its single rectangle, or the range of pages and fragment count. */
  datatype Summary =
    | NoGeometry
    | Span(page: int, top: real, bottom: real)
    | Spread(firstPage: int, lastPage: int, fragments: nat)

  function MinPage(rs: seq<Rect>): (m: int)
    requires |rs| >= 1
    ensures (exists i :: 0 <= i < |rs| && rs[i].page == m)
    ensures forall i :: 0 <= i < |rs| ==> m <= rs[i].page
    decreases |rs|
  {
    if |rs| == 1 then rs[0].page
    else
      var m := MinPage(rs[1..]);
      assert forall i :: 1 <= i < |rs| ==> rs[i] == rs[1..][i - 1];
      if rs[0].page <= m then rs[0].page else m
  }

  function MaxPage(rs: seq<Rect>): (m: int)
    requires |rs| >= 1
    ensures (exists i :: 0 <= i < |rs| && rs[i].page == m)
    ensures forall i :: 0 <= i < |rs| ==> rs[i].page <= m
    decreases |rs|
  {
    if |rs| == 1 then rs[0].page
    else
      var m := MaxPage(rs[1..]);
      assert forall i :: 1 <= i < |rs| ==> rs[i] == rs[1..][i - 1];
      if rs[0].page >= m then rs[0].page else m
  }

  function Summarize(rs: seq<Rect>): (s: Summary)
    ensures rs == [] <==> s.NoGeometry?
    ensures |rs| == 1 <==> s.Span?
    ensures s.Span? ==> s.page == rs[0].page && s.top == rs[0].y && s.bottom == rs[0].y + rs[0].h
    ensures s.Spread? ==>
      && s.fragments == |rs| && s.firstPage <= s.lastPage
      && (forall i :: 0 <= i < |rs| ==> s.firstPage <= rs[i].page <= s.lastPage)
      && (exists i :: 0 <= i < |rs| && rs[i].page == s.firstPage)
      && (exists i :: 0 <= i < |rs| && rs[i].page == s.lastPage)
  {
    if rs == [] then NoGeometry
    else if |rs| == 1 then Span(rs[0].page, rs[0].y, rs[0].y + rs[0].h)
    else Spread(MinPage(rs), MaxPage(rs), |rs|)
  }

  /** A node closed across pages is summarised by the range between its
      start and end pages, with two fragments. */
  lemma SummarizeCrossPage(start: Point, end: Point)
    requires start.page < end.page
    ensures Summarize(CloseRects(start, end)) == Spread(start.page, end.page, 2)
  {
    var rs := CloseRects(start, end);
    var s := Summarize(rs);
    assert s.firstPage == start.page;
    assert s.lastPage == end.page;
  }
}
