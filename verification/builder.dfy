/** The single forward pass that turns the ordered probe stream into a tree.

    The source keeps each open node both on its stack and in its parent's
    child list. Here the stack holds open frames instead: a frame is the open
    node together with the children it has gathered so far, and a frame
    joins its parent's children when it is popped, or, for frames the input
    never closes, when the stack is folded at the end of input. Nothing is
    appended to a frame while another frame sits above it, so the child lands
    in the same position it was given on creation. */
module Builder {
  import opened Values
  import opened Geometry
  import opened Shadow

  /** One probe record. Fields that may be missing are optional; a missing
      payload is the empty map. */
  datatype Probe = Probe(
    ordinal: Option<int>,
    id: Option<string>,
    kind: Option<Value>,
    payload: map<string, Value>,
    location: Location)

  /** The pairing role of a probe, read only from its payload's `edge`. */
  datatype Edge = StartEdge | EndEdge | NoEdge

  function EdgeOf(p: Probe): (e: Edge)
    ensures e == StartEdge <==> "edge" in p.payload && p.payload["edge"] == Str("start")
    ensures e == EndEdge <==> "edge" in p.payload && p.payload["edge"] == Str("end")
  {
    if "edge" in p.payload && p.payload["edge"] == Str("start") then StartEdge
    else if "edge" in p.payload && p.payload["edge"] == Str("end") then EndEdge
    else NoEdge
  }

  /** The payload's kind, else the probe's own kind, else `marker`. */
  function KindOf(p: Probe): (k: Value)
    ensures "kind" in p.payload ==> k == p.payload["kind"]
    ensures "kind" !in p.payload && p.kind.Some? ==> k == p.kind.value
    ensures "kind" !in p.payload && p.kind.None? ==> k == Str("marker")
  {
    if "kind" in p.payload then p.payload["kind"] else p.kind.GetOr(Str("marker"))
  }

  /** The probe's id, `unknown` when it has none. */
  function IdOf(p: Probe): (id: string)
    ensures p.id.Some? ==> id == p.id.value
    ensures p.id.None? ==> id == "unknown"
  {
    p.id.GetOr("unknown")
  }

  /** The probe's ordinal, 0 when it has none. */
  function OrdinalOf(p: Probe): (k: int)
    ensures p.ordinal.Some? ==> k == p.ordinal.value
    ensures p.ordinal.None? ==> k == 0
  {
    p.ordinal.GetOr(0)
  }

  /** The build state: the stack of open frames (bottom first) and the pages
      seen so far. */
  datatype State = State(stack: seq<Node>, pagesSeen: set<int>)

  const Root: Node := Node(Str("DOCUMENT"), "ROOT", 0, [], [], map[], false, NoStart)

  const Init: State := State([Root], {})

  function Top(st: seq<Node>): Node
    requires |st| >= 1
  {
    st[|st| - 1]
  }

  /** `st` with `n` added as the last child of its top frame. */
  function AppendToTop(st: seq<Node>, n: Node): seq<Node>
    requires |st| >= 1
  {
    st[..|st| - 1] + [Top(st).(children := Top(st).children + [n])]
  }

  /** The node a start probe opens. */
  function OpenedNode(p: Probe): (n: Node)
    ensures Open(n) && n.children == []
    ensures n.kind == KindOf(p) && n.id == StripStart(IdOf(p)) && n.seqStart == OrdinalOf(p)
    ensures n.payload == p.payload && n.start == Resolve(p.location)
  {
    Node(KindOf(p), StripStart(IdOf(p)), OrdinalOf(p), [], [], p.payload, false, Resolve(p.location))
  }

  /** The leaf an unpaired probe produces. */
  function AtomicNode(p: Probe): (n: Node)
    ensures Closed(n) && n.isAtomic && n.children == []
    ensures n.kind == KindOf(p) && n.id == IdOf(p) && n.seqStart == OrdinalOf(p) && n.payload == p.payload
    ensures n.rects == [MarkerRect(Resolve(p.location))]
  {
    Node(KindOf(p), IdOf(p), OrdinalOf(p), [], [MarkerRect(Resolve(p.location))], p.payload, true, NoStart)
  }

  /** Processes one probe. */
  function Step(b: State, p: Probe): (b': State)
    requires |b.stack| >= 1
    ensures |b'.stack| >= 1
    ensures p.location.page.Some? ==> b'.pagesSeen == b.pagesSeen + {p.location.page.value}
    ensures p.location.page.None? ==> b'.pagesSeen == b.pagesSeen
    // start: push a fresh open node, leaving every frame below untouched
    ensures EdgeOf(p) == StartEdge ==>
      && |b'.stack| == |b.stack| + 1
      && b'.stack[..|b.stack|] == b.stack
      && var n := Top(b'.stack);
         && n.kind == KindOf(p) && n.id == StripStart(IdOf(p)) && n.seqStart == OrdinalOf(p)
         && n.payload == p.payload
         && !n.isAtomic && n.rects == [] && n.children == []
         && n.start == Resolve(p.location)
    // end on the root alone: nothing happens to the stack
    ensures EdgeOf(p) == EndEdge && |b.stack| == 1 ==> b'.stack == b.stack
    // end otherwise: pop exactly one frame, close it, add it to the new top
    ensures EdgeOf(p) == EndEdge && |b.stack| > 1 ==>
      && |b'.stack| == |b.stack| - 1
      && b'.stack[..|b'.stack| - 1] == b.stack[..|b.stack| - 2]
      && var parent := b.stack[|b.stack| - 2];
         Top(b'.stack) == parent.(children := parent.children + [Close(Top(b.stack), Resolve(p.location))])
    // unpaired: one atomic leaf with one marker joins the top frame; the stack depth stays
    ensures EdgeOf(p) == NoEdge ==>
      && |b'.stack| == |b.stack|
      && b'.stack[..|b.stack| - 1] == b.stack[..|b.stack| - 1]
      && var top := Top(b.stack);
         && |Top(b'.stack).children| == |top.children| + 1
         && var n := Top(b'.stack).children[|top.children|];
         && Top(b'.stack) == top.(children := top.children + [n])
         && n.isAtomic && n.children == [] && n.id == IdOf(p) && n.kind == KindOf(p)
         && n.seqStart == OrdinalOf(p) && n.payload == p.payload
         && |n.rects| == 1 && IsMarker(n.rects[0])
         && n.rects[0].page == Resolve(p.location).page
         && n.rects[0].x == Resolve(p.location).x && n.rects[0].y == Resolve(p.location).y
  {
    var pages := if p.location.page.Some? then b.pagesSeen + {p.location.page.value} else b.pagesSeen;
    match EdgeOf(p)
    case StartEdge =>
      State(b.stack + [OpenedNode(p)], pages)
    case EndEdge =>
      if |b.stack| > 1 then
        var closed := Close(Top(b.stack), Resolve(p.location));
        State(AppendToTop(b.stack[..|b.stack| - 1], closed), pages)
      else
        State(b.stack, pages)
    case NoEdge =>
      State(AppendToTop(b.stack, AtomicNode(p)), pages)
  }

  /** The state after processing `ps` in order from the initial state. */
  function Run(ps: seq<Probe>): (b: State)
    ensures |b.stack| >= 1
    decreases |ps|
  {
    if ps == [] then Init else Step(Run(ps[..|ps| - 1]), ps[|ps| - 1])
  }

  /** Folds every still-open frame into its parent, without closing it. */
  function Materialize(st: seq<Node>): (r: Node)
    requires |st| >= 1
    ensures r == st[0].(children := r.children)
    ensures |r.children| >= |st[0].children|
    ensures r.children[..|st[0].children|] == st[0].children
    decreases |st|
  {
    if |st| == 1 then st[0]
    else
      var st' := AppendToTop(st[..|st| - 1], Top(st));
      assert st'[0] == st[0].(children := st'[0].children);
      assert |st'[0].children| >= |st[0].children|;
      assert st'[0].children[..|st[0].children|] == st[0].children;
      var r := Materialize(st');
      assert r.children[..|st[0].children|] == r.children[..|st'[0].children|][..|st[0].children|];
      r
  }

  /** Read from the bottom: each frame above the root becomes, unclosed and
      otherwise unchanged, the last child of the frame below it. */
  lemma {:induction false} MaterializeNests(st: seq<Node>)
    requires |st| > 1
    ensures Materialize(st) == st[0].(children := st[0].children + [Materialize(st[1..])])
    decreases |st|
  {
    var k := |st|;
    var st' := AppendToTop(st[..k - 1], Top(st));
    if k == 2 {
      assert st[1..] == [st[1]];
      assert st' == [st[0].(children := st[0].children + [st[1]])];
    } else {
      MaterializeNests(st');
      assert st'[0] == st[0];
      AppendToTopTail(st[..k - 1], Top(st));
      assert st[..k - 1][1..] == st[1..][..k - 2];
    }
  }

  /** Dropping the bottom frame commutes with appending to the top one. */
  lemma AppendToTopTail(st: seq<Node>, n: Node)
    requires |st| >= 2
    ensures AppendToTop(st, n)[1..] == AppendToTop(st[1..], n)
  {
    assert Top(st[1..]) == Top(st);
    assert st[1..][..|st| - 2] == st[..|st| - 1][1..];
  }

  /** The reconstructed tree: the root, with its page count recorded. */
  function Build(ps: seq<Probe>): (root: Node)
    ensures IsRoot(root.(payload := map[])) && !root.isAtomic && root.rects == []
    ensures root.payload == map["pages" := Num(|PagesSeen(ps)|)]
  {
    RunValid(ps);
    RunPages(ps);
    var b := Run(ps);
    var root := Materialize(b.stack);
    root.(payload := root.payload["pages" := Num(|b.pagesSeen|)])
  }

  // ---------------------------------------------------------------------
  // Stack invariant
  // ---------------------------------------------------------------------

  /** The bottom frame is the synthetic document root. */
  predicate IsRoot(n: Node) {
    && n.kind == Str("DOCUMENT") && n.id == "ROOT" && n.seqStart == 0
    && n.payload == map[] && n.start == NoStart
  }

  /** The stack is never empty, its bottom is the root, and every frame on it
      is an open paired node with no fragments whose children are finished. */
  predicate Valid(b: State) {
    && |b.stack| >= 1
    && IsRoot(b.stack[0])
    && forall i :: 0 <= i < |b.stack| ==> Open(b.stack[i])
  }

  lemma AppendClosedKeepsOpen(n: Node, c: Node)
    requires Open(n) && Closed(c)
    ensures Open(n.(children := n.children + [c]))
  {
    var m := n.(children := n.children + [c]);
    forall i | 0 <= i < |m.children|
      ensures Closed(m.children[i])
    {
      if i < |n.children| {
        assert m.children[i] == n.children[i];
      }
    }
  }

  lemma StartValid(b: State, p: Probe)
    requires Valid(b) && EdgeOf(p) == StartEdge
    ensures Valid(Step(b, p))
  {
    var b' := Step(b, p);
    var k := |b.stack|;
    forall i | 0 <= i < |b'.stack|
      ensures Open(b'.stack[i])
    {
      if i < k {
        assert b'.stack[i] == b'.stack[..k][i];
      }
    }
  }

  /** Adding a finished node to the top frame keeps the invariant. */
  lemma AppendToTopValid(st: seq<Node>, n: Node, pages: set<int>)
    requires Valid(State(st, pages)) && Closed(n)
    ensures Valid(State(AppendToTop(st, n), pages))
  {
    var k := |st|;
    var st' := AppendToTop(st, n);
    AppendClosedKeepsOpen(Top(st), n);
    forall i | 0 <= i < k
      ensures Open(st'[i])
    {
      if i < k - 1 {
        assert st'[i] == st[i];
      }
    }
    if k > 1 {
      assert st'[0] == st[0];
    }
  }

  lemma PopValid(b: State)
    requires Valid(b) && |b.stack| > 1
    ensures Valid(State(b.stack[..|b.stack| - 1], b.pagesSeen))
  {
    var below := b.stack[..|b.stack| - 1];
    forall i | 0 <= i < |below|
      ensures Open(below[i])
    {
      assert below[i] == b.stack[i];
    }
  }

  lemma EndValid(b: State, p: Probe)
    requires Valid(b) && EdgeOf(p) == EndEdge
    ensures Valid(Step(b, p))
  {
    var k := |b.stack|;
    if k > 1 {
      var b' := Step(b, p);
      var below := b.stack[..k - 1];
      var closed := Close(Top(b.stack), Resolve(p.location));
      CloseFinishes(Top(b.stack), Resolve(p.location));
      PopValid(State(b.stack, b'.pagesSeen));
      AppendToTopValid(below, closed, b'.pagesSeen);
      assert b'.stack == AppendToTop(below, closed);
    }
  }

  lemma AtomicValid(b: State, p: Probe)
    requires Valid(b) && EdgeOf(p) == NoEdge
    ensures Valid(Step(b, p))
  {
    AppendToTopValid(b.stack, AtomicNode(p), Step(b, p).pagesSeen);
    assert Step(b, p) == State(AppendToTop(b.stack, AtomicNode(p)), Step(b, p).pagesSeen);
  }

  /** One step keeps the stack invariant. */
  lemma StepValid(b: State, p: Probe)
    requires Valid(b)
    ensures Valid(Step(b, p))
  {
    match EdgeOf(p)
    case StartEdge => StartValid(b, p);
    case EndEdge => EndValid(b, p);
    case NoEdge => AtomicValid(b, p);
  }

  /** Every reachable state is valid: the root is never popped, and every
      node still open has no fragments. */
  lemma {:induction false} RunValid(ps: seq<Probe>)
    ensures Valid(Run(ps))
    decreases |ps|
  {
    if ps != [] {
      RunValid(ps[..|ps| - 1]);
      StepValid(Run(ps[..|ps| - 1]), ps[|ps| - 1]);
    }
  }

  // ---------------------------------------------------------------------
  // Folding the stack at end of input
  // ---------------------------------------------------------------------

  lemma AppendShapedKeepsFrame(n: Node, c: Node)
    requires Frame(n) && Shaped(c)
    ensures Frame(n.(children := n.children + [c]))
  {
    var m := n.(children := n.children + [c]);
    forall i | 0 <= i < |m.children|
      ensures Shaped(m.children[i])
    {
      if i < |n.children| {
        assert m.children[i] == n.children[i];
      }
    }
  }

  /** Folding a stack of frames gives a well-shaped tree with the bottom
      frame's identity, its existing children first. */
  lemma {:induction false} MaterializeShape(st: seq<Node>)
    requires |st| >= 1
    requires forall i :: 0 <= i < |st| ==> Frame(st[i])
    ensures Shaped(Materialize(st)) && Frame(Materialize(st))
    ensures Materialize(st) == st[0].(children := Materialize(st).children)
    ensures |Materialize(st).children| >= |st[0].children|
    ensures Materialize(st).children[..|st[0].children|] == st[0].children
    decreases |st|
  {
    if |st| > 1 {
      var k := |st|;
      var below := st[..k - 1];
      var st' := AppendToTop(below, Top(st));
      AppendShapedKeepsFrame(below[k - 2], Top(st));
      forall i | 0 <= i < |st'|
        ensures Frame(st'[i])
      {
        if i < k - 2 {
          assert st'[i] == st[i];
        }
      }
      MaterializeShape(st');
      var r := Materialize(st');
      if k == 2 {
        assert st'[0] == st[0].(children := st[0].children + [Top(st)]);
        assert r.children[..|st[0].children|] == r.children[..|st'[0].children|][..|st[0].children|];
      } else {
        assert st'[0] == st[0];
      }
    }
  }

  /** The built tree: root identity, page count, and every node shaped. */
  lemma BuildRoot(ps: seq<Probe>)
    ensures var root := Build(ps);
      && IsRoot(root.(payload := map[]))
      && root.payload == map["pages" := Num(|Run(ps).pagesSeen|)]
      && !root.isAtomic && root.rects == []
      && Shaped(root)
  {
    var b := Run(ps);
    RunValid(ps);
    forall i | 0 <= i < |b.stack|
      ensures Frame(b.stack[i])
    {
      OpenIsFrame(b.stack[i]);
    }
    MaterializeShape(b.stack);
  }

  // ---------------------------------------------------------------------
  // Page count
  // ---------------------------------------------------------------------

  /** The distinct pages named by probes whose location has a page. */
  function PagesSeen(ps: seq<Probe>): set<int> {
    set i | 0 <= i < |ps| && ps[i].location.page.Some? :: ps[i].location.page.value
  }

  /** Adding one probe adds at most its own page. */
  lemma PagesSeenSnoc(ps: seq<Probe>)
    requires ps != []
    ensures var last := ps[|ps| - 1];
      PagesSeen(ps) == PagesSeen(ps[..|ps| - 1])
        + (if last.location.page.Some? then {last.location.page.value} else {})
  {
    var init := ps[..|ps| - 1];
    var last := ps[|ps| - 1];
    forall q | q in PagesSeen(ps)
      ensures q in PagesSeen(init) || (last.location.page.Some? && q == last.location.page.value)
    {
      var i :| 0 <= i < |ps| && ps[i].location.page.Some? && ps[i].location.page.value == q;
      if i < |ps| - 1 {
        assert init[i] == ps[i];
      }
    }
    forall q | q in PagesSeen(init)
      ensures q in PagesSeen(ps)
    {
      var i :| 0 <= i < |init| && init[i].location.page.Some? && init[i].location.page.value == q;
      assert ps[i] == init[i];
    }
  }

  lemma {:induction false} RunPages(ps: seq<Probe>)
    ensures Run(ps).pagesSeen == PagesSeen(ps)
    decreases |ps|
  {
    if ps != [] {
      RunPages(ps[..|ps| - 1]);
      PagesSeenSnoc(ps);
    }
  }

  /** The root records the number of distinct pages named by the probes. */
  lemma BuildPages(ps: seq<Probe>)
    ensures Build(ps).payload == map["pages" := Num(|PagesSeen(ps)|)]
  {
    RunPages(ps);
    BuildRoot(ps);
  }

  /** Empty input: a root with no children and zero pages. */
  lemma BuildEmpty()
    ensures Build([]).children == []
    ensures Build([]).payload == map["pages" := Num(0)]
  {
  }
}
