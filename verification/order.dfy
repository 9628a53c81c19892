/** Where each created node lands. The source adds a started node to its
    parent the moment it is opened; the model adds it when its frame is
    popped or folded. This module shows both give the same tree: reading the
    built tree in pre-order lists the nodes in the order their probes
    arrived. */
module Order {
  import opened Values
  import opened Geometry
  import opened Shadow
  import opened Builder
  import opened Fragments

  /** What identifies a node apart from its geometry and children. */
  datatype Label = Label(kind: Value, id: string, seqStart: int, isAtomic: bool)

  function LabelOf(n: Node): Label {
    Label(n.kind, n.id, n.seqStart, n.isAtomic)
  }

  function Labels(ns: seq<Node>): (ls: seq<Label>)
    ensures |ls| == |ns|
    decreases |ns|
  {
    if ns == [] then [] else [LabelOf(ns[0])] + Labels(ns[1..])
  }

  /** The label of the node a probe creates: start probes give a paired node
      with `-start` removed from the id, unpaired probes an atomic one. */
  function CreatedLabel(p: Probe): Label {
    if EdgeOf(p) == StartEdge then Label(KindOf(p), StripStart(IdOf(p)), OrdinalOf(p), false)
    else Label(KindOf(p), IdOf(p), OrdinalOf(p), true)
  }

  /** The labels of the nodes the probes create, in probe order; end probes
      create none. */
  function CreatedLabels(ps: seq<Probe>): seq<Label>
    decreases |ps|
  {
    if ps == [] then []
    else
      var last := ps[|ps| - 1];
      CreatedLabels(ps[..|ps| - 1]) + (if EdgeOf(last) == EndEdge then [] else [CreatedLabel(last)])
  }

  /** The pre-order labels of each frame, bottom frame first. */
  function StackLabels(st: seq<Node>): seq<Label>
    decreases |st|
  {
    if st == [] then [] else StackLabels(st[..|st| - 1]) + Labels(PreOrder(st[|st| - 1]))
  }

  lemma {:induction false} LabelsAppend(a: seq<Node>, b: seq<Node>)
    ensures Labels(a + b) == Labels(a) + Labels(b)
    decreases |a|
  {
    if a == [] {
      assert a + b == b;
    } else {
      assert (a + b)[0] == a[0];
      assert (a + b)[1..] == a[1..] + b;
      LabelsAppend(a[1..], b);
    }
  }

  lemma {:induction false} PreOrderAllSnoc(cs: seq<Node>, c: Node)
    ensures PreOrderAll(cs + [c]) == PreOrderAll(cs) + PreOrder(c)
    decreases |cs|
  {
    if cs == [] {
      assert cs + [c] == [c];
      assert [c][1..] == [];
    } else {
      assert (cs + [c])[0] == cs[0];
      assert (cs + [c])[1..] == cs[1..] + [c];
      PreOrderAllSnoc(cs[1..], c);
    }
  }

  /** Only a node's label and children matter to its pre-order labels. */
  lemma PreOrderLabelsSameShape(n: Node, m: Node)
    requires LabelOf(n) == LabelOf(m) && n.children == m.children
    ensures Labels(PreOrder(n)) == Labels(PreOrder(m))
  {
    LabelsAppend([n], PreOrderAll(n.children));
    LabelsAppend([m], PreOrderAll(m.children));
  }

  /** Adding a last child appends that child's pre-order to its parent's. */
  lemma PreOrderAddChild(n: Node, c: Node)
    ensures Labels(PreOrder(n.(children := n.children + [c]))) == Labels(PreOrder(n)) + Labels(PreOrder(c))
  {
    var m := n.(children := n.children + [c]);
    var a := PreOrderAll(n.children);
    var q := PreOrder(c);
    PreOrderAllSnoc(n.children, c);
    assert PreOrder(m) == [m] + (a + q);
    LabelsAppend([m], a + q);
    LabelsAppend(a, q);
    LabelsAppend([n], a);
    assert Labels([m]) == Labels([n]);
    ConcatAssoc(Labels([n]), Labels(a), Labels(q));
  }

  lemma StackLabelsAppendToTop(st: seq<Node>, n: Node)
    requires |st| >= 1
    ensures StackLabels(AppendToTop(st, n)) == StackLabels(st) + Labels(PreOrder(n))
  {
    var st' := AppendToTop(st, n);
    assert st'[..|st'| - 1] == st[..|st| - 1];
    PreOrderAddChild(Top(st), n);
  }

  lemma LeafLabels(n: Node)
    requires n.children == []
    ensures Labels(PreOrder(n)) == [LabelOf(n)]
  {
    assert PreOrder(n) == [n];
  }

  lemma StepLabels(b: State, p: Probe)
    requires |b.stack| >= 1
    ensures StackLabels(Step(b, p).stack)
      == StackLabels(b.stack) + (if EdgeOf(p) == EndEdge then [] else [CreatedLabel(p)])
  {
    var st := b.stack;
    match EdgeOf(p)
    case StartEdge =>
      var n := OpenedNode(p);
      assert (st + [n])[..|st|] == st;
      LeafLabels(n);
    case EndEdge =>
      if |st| > 1 {
        var below := st[..|st| - 1];
        var closed := Close(Top(st), Resolve(p.location));
        StackLabelsAppendToTop(below, closed);
        PreOrderLabelsSameShape(closed, Top(st));
      }
    case NoEdge =>
      var n := AtomicNode(p);
      StackLabelsAppendToTop(st, n);
      LeafLabels(n);
  }

  lemma InitLabels()
    ensures StackLabels(Init.stack) == [LabelOf(Root)]
  {
    assert Init.stack[..0] == [];
    LeafLabels(Root);
  }

  /** The labels a probe adds to the stack, in terms of the stream. */
  lemma RunStepLabels(ps: seq<Probe>)
    requires ps != []
    ensures StackLabels(Run(ps).stack) == StackLabels(Run(ps[..|ps| - 1]).stack)
      + (if EdgeOf(ps[|ps| - 1]) == EndEdge then [] else [CreatedLabel(ps[|ps| - 1])])
  {
    StepLabels(Run(ps[..|ps| - 1]), ps[|ps| - 1]);
  }

  lemma SnocAssoc(x: Label, a: seq<Label>, e: seq<Label>, s1: seq<Label>, s0: seq<Label>, c: seq<Label>)
    requires s0 == [x] + a && s1 == s0 + e && c == a + e
    ensures s1 == [x] + c
  {
  }

  lemma {:induction false} RunLabels(ps: seq<Probe>)
    ensures StackLabels(Run(ps).stack) == [LabelOf(Root)] + CreatedLabels(ps)
    decreases |ps|
  {
    if ps == [] {
      InitLabels();
    } else {
      var init := ps[..|ps| - 1];
      var last := ps[|ps| - 1];
      var extra := if EdgeOf(last) == EndEdge then [] else [CreatedLabel(last)];
      RunLabels(init);
      RunStepLabels(ps);
      SnocAssoc(LabelOf(Root), CreatedLabels(init), extra,
                StackLabels(Run(ps).stack), StackLabels(Run(init).stack), CreatedLabels(ps));
    }
  }

  lemma {:induction false} MaterializeLabels(st: seq<Node>)
    requires |st| >= 1
    ensures Labels(PreOrder(Materialize(st))) == StackLabels(st)
    decreases |st|
  {
    if |st| == 1 {
      assert st[..0] == [];
    } else {
      var below := st[..|st| - 1];
      StackLabelsAppendToTop(below, Top(st));
      MaterializeLabels(AppendToTop(below, Top(st)));
    }
  }

  /** Below the root, the built tree read in pre-order lists exactly the
      nodes created by the start and unpaired probes, in the order the probes
      arrived: every node sits where the source put it when it was created,
      whether or not it was closed. */
  lemma BuildPreOrder(ps: seq<Probe>)
    ensures Labels(PreOrder(Build(ps))[1..]) == CreatedLabels(ps)
  {
    var b := Run(ps);
    var root := Materialize(b.stack);
    RunLabels(ps);
    MaterializeLabels(b.stack);
    PreOrderLabelsSameShape(Build(ps), root);
    var pre := PreOrder(Build(ps));
    assert [pre[0]] + pre[1..] == pre;
    LabelsAppend([pre[0]], pre[1..]);
    assert LabelOf(pre[0]) == LabelOf(Root);
    var whole := Labels(pre);
    assert whole == [LabelOf(Root)] + CreatedLabels(ps);
    assert whole[1..] == Labels(pre[1..]);
    assert whole[1..] == CreatedLabels(ps);
  }
}
