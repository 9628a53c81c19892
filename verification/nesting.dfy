/** Properties of whole probe streams: stack depth under well-nested input,
    and that every start or unpaired probe yields exactly one node. */
module Nesting {
  import opened Values
  import opened Geometry
  import opened Shadow
  import opened Builder

  /** +1 for a start probe, -1 for an end probe, 0 otherwise. */
  function Delta(p: Probe): int {
    match EdgeOf(p)
    case StartEdge => 1
    case EndEdge => -1
    case NoEdge => 0
  }

  /** Start probes minus end probes. */
  function Net(ps: seq<Probe>): int
    decreases |ps|
  {
    if ps == [] then 0 else Net(ps[..|ps| - 1]) + Delta(ps[|ps| - 1])
  }

  /** No prefix closes more than it opened. */
  predicate NeverUnderflows(ps: seq<Probe>) {
    forall k :: 0 <= k <= |ps| ==> Net(ps[..k]) >= 0
  }

  /** Every start is matched by a later end and every end by an earlier start. */
  predicate WellNested(ps: seq<Probe>) {
    NeverUnderflows(ps) && Net(ps) == 0
  }

  /** While no prefix closes more than it opened, the stack holds the root
      plus one frame per start not yet ended. */
  lemma {:induction false} RunDepth(ps: seq<Probe>)
    requires NeverUnderflows(ps)
    ensures |Run(ps).stack| == 1 + Net(ps)
    decreases |ps|
  {
    if ps != [] {
      var init := ps[..|ps| - 1];
      assert NeverUnderflows(init) by {
        forall k | 0 <= k <= |init|
          ensures Net(init[..k]) >= 0
        {
          assert init[..k] == ps[..k];
        }
      }
      RunDepth(init);
      assert ps[..|ps|] == ps;
      assert ps[..|ps| - 1] == init;
    }
  }

  /** A well-nested stream leaves only the root on the stack. */
  lemma WellNestedStack(ps: seq<Probe>)
    requires WellNested(ps)
    ensures |Run(ps).stack| == 1
  {
    RunDepth(ps);
  }

  /** For a well-nested stream every node below the root is finished:
      paired nodes with one or two fragments, atomic ones with their single
      marker; no node is left open. */
  lemma WellNestedBuild(ps: seq<Probe>)
    requires WellNested(ps)
    ensures forall i :: 0 <= i < |Build(ps).children| ==> Closed(Build(ps).children[i])
  {
    WellNestedStack(ps);
    RunValid(ps);
    var b := Run(ps);
    assert Materialize(b.stack) == b.stack[0];
    assert Open(b.stack[0]);
  }

  /** An unmatched end leaves the stack, and so the tree, untouched but
      still counts its page. */
  lemma UnmatchedEndIgnored(b: State, p: Probe)
    requires |b.stack| == 1 && EdgeOf(p) == EndEdge
    ensures Step(b, p).stack == b.stack
    ensures p.location.page.Some? ==> Step(b, p).pagesSeen == b.pagesSeen + {p.location.page.value}
  {
  }

  // ---------------------------------------------------------------------
  // Node count
  // ---------------------------------------------------------------------

  /** Number of nodes in a tree. */
  function Size(n: Node): nat
    decreases n
  {
    1 + SizeAll(n.children)
  }

  function SizeAll(cs: seq<Node>): nat
    decreases cs
  {
    if cs == [] then 0 else SizeAll(cs[..|cs| - 1]) + Size(cs[|cs| - 1])
  }

  /** Number of nodes held by the frames of a stack. */
  function StackSize(st: seq<Node>): nat
    decreases |st|
  {
    if st == [] then 0 else StackSize(st[..|st| - 1]) + Size(st[|st| - 1])
  }

  /** Probes that create a node: every one except end probes. */
  function Created(ps: seq<Probe>): nat
    decreases |ps|
  {
    if ps == [] then 0
    else Created(ps[..|ps| - 1]) + (if EdgeOf(ps[|ps| - 1]) == EndEdge then 0 else 1)
  }

  lemma SizeAddChild(n: Node, c: Node)
    ensures Size(n.(children := n.children + [c])) == Size(n) + Size(c)
  {
    var cs := n.children + [c];
    assert cs[..|cs| - 1] == n.children;
  }

  lemma StackSizeAppendToTop(st: seq<Node>, n: Node)
    requires |st| >= 1
    ensures StackSize(AppendToTop(st, n)) == StackSize(st) + Size(n)
  {
    var st' := AppendToTop(st, n);
    SizeAddChild(Top(st), n);
    assert st'[..|st'| - 1] == st[..|st| - 1];
  }

  lemma StepSize(b: State, p: Probe)
    requires |b.stack| >= 1
    ensures StackSize(Step(b, p).stack) == StackSize(b.stack) + (if EdgeOf(p) == EndEdge then 0 else 1)
  {
    var st := b.stack;
    match EdgeOf(p)
    case StartEdge =>
      assert (st + [OpenedNode(p)])[..|st|] == st;
      assert SizeAll([]) == 0;
    case EndEdge =>
      if |st| > 1 {
        var below := st[..|st| - 1];
        var closed := Close(Top(st), Resolve(p.location));
        StackSizeAppendToTop(below, closed);
        assert Size(closed) == Size(Top(st));
      }
    case NoEdge =>
      StackSizeAppendToTop(st, AtomicNode(p));
      assert SizeAll([]) == 0;
  }

  lemma {:induction false} MaterializeSize(st: seq<Node>)
    requires |st| >= 1
    ensures Size(Materialize(st)) == StackSize(st)
    decreases |st|
  {
    if |st| == 1 {
      assert st[..0] == [];
    } else {
      var below := st[..|st| - 1];
      StackSizeAppendToTop(below, Top(st));
      MaterializeSize(AppendToTop(below, Top(st)));
    }
  }

  lemma {:induction false} RunSize(ps: seq<Probe>)
    ensures StackSize(Run(ps).stack) == 1 + Created(ps)
    decreases |ps|
  {
    if ps == [] {
      assert Init.stack[..0] == [];
      assert SizeAll([]) == 0;
    } else {
      RunSize(ps[..|ps| - 1]);
      StepSize(Run(ps[..|ps| - 1]), ps[|ps| - 1]);
    }
  }

  /** No probe is dropped: the tree holds the root plus one node per start
      or unpaired probe, closed or not. */
  lemma BuildSize(ps: seq<Probe>)
    ensures Size(Build(ps)) == 1 + Created(ps)
  {
    RunSize(ps);
    MaterializeSize(Run(ps).stack);
  }
}
