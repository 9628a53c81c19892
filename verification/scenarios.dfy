/** Worked probe streams and the trees they must produce. */
module Scenarios {
  import opened Values
  import opened Geometry
  import opened Shadow
  import opened Builder

  function At(page: int, x: real, y: real): Location {
    Location(Some(page), Some(x), Some(y))
  }

  function Paired(ordinal: int, id: string, edge: string, loc: Location): Probe {
    Probe(Some(ordinal), Some(id), None, map["edge" := Str(edge)], loc)
  }

  /** The id `p1-start` names node `p1`. */
  lemma StripP1()
    ensures StripStart("p1-start") == "p1"
  {
    assert "p1" + StartTag == "p1-start";
    StripStartSuffix("p1");
    StripStartNoTag("p1");
  }

  /** A start followed by its end on a fresh builder: the root ends with
      exactly the closed node as its only child. */
  lemma RunPair(p0: Probe, p1: Probe)
    requires EdgeOf(p0) == StartEdge && EdgeOf(p1) == EndEdge
    ensures Build([p0, p1]).children == [Close(OpenedNode(p0), Resolve(p1.location))]
    ensures p0.location.page.Some? && p1.location.page.Some? ==>
      Build([p0, p1]).payload == map["pages" := Num(|{p0.location.page.value, p1.location.page.value}|)]
  {
    var ps := [p0, p1];
    var b1 := Run([p0]);
    RunStart(p0);
    assert ps[..1] == [p0];
    assert Run(ps) == Step(b1, p1);
    var closed := Close(OpenedNode(p0), Resolve(p1.location));
    var b2 := Step(b1, p1);
    assert b2.stack == AppendToTop([Root], closed);
    AppendToRoot(closed);
    if p0.location.page.Some? && p1.location.page.Some? {
      assert b2.pagesSeen == {p0.location.page.value, p1.location.page.value};
    }
  }

  /** A lone start leaves its node open above the root. */
  lemma RunStart(p0: Probe)
    requires EdgeOf(p0) == StartEdge
    ensures Run([p0]).stack == [Root, OpenedNode(p0)]
    ensures Run([p0]).pagesSeen == if p0.location.page.Some? then {p0.location.page.value} else {}
  {
    assert [p0][..0] == [];
  }

  lemma AppendToRoot(n: Node)
    ensures AppendToTop([Root], n) == [Root.(children := [n])]
  {
    assert [Root][..0] == [] && Top([Root]) == Root;
    assert Root.children + [n] == [n];
  }

  /** Open and close on page 1 at y 100 and 140: one child `p1` with one
      rectangle of height 40 on page 1. */
  lemma SamePagePair()
    ensures var root := Build([Paired(0, "p1-start", "start", At(1, 0.0, 100.0)),
                               Paired(1, "p1-end", "end", At(1, 0.0, 140.0))]);
      && |root.children| == 1
      && root.children[0].id == "p1"
      && root.children[0].rects == [Rect(1, 0.0, 100.0, 400.0, 40.0)]
      && root.payload == map["pages" := Num(1)]
  {
    var p0 := Paired(0, "p1-start", "start", At(1, 0.0, 100.0));
    var p1 := Paired(1, "p1-end", "end", At(1, 0.0, 140.0));
    RunPair(p0, p1);
    StripP1();
    assert {1, 1} == {1};
    var n0 := OpenedNode(p0);
    assert n0.start == Point(1, 0.0, 100.0);
    assert Close(n0, Point(1, 0.0, 140.0)).rects == [Rect(1, 0.0, 100.0, 400.0, 40.0)];
  }

  /** Open on page 1 at y 800, close on page 2 at y 100: two fragments of
      height 50, one on each page. */
  lemma CrossPagePair()
    ensures var root := Build([Paired(0, "p1-start", "start", At(1, 0.0, 800.0)),
                               Paired(1, "p1-end", "end", At(2, 0.0, 100.0))]);
      && |root.children| == 1
      && root.children[0].rects == [Rect(1, 0.0, 800.0, 400.0, 50.0), Rect(2, 0.0, 50.0, 400.0, 50.0)]
      && root.payload == map["pages" := Num(2)]
  {
    var p0 := Paired(0, "p1-start", "start", At(1, 0.0, 800.0));
    var p1 := Paired(1, "p1-end", "end", At(2, 0.0, 100.0));
    RunPair(p0, p1);
    assert |{1, 2}| == 2 by {
      assert {1, 2} == {1} + {2};
    }
    var n0 := OpenedNode(p0);
    assert n0.start == Point(1, 0.0, 800.0);
    assert Close(n0, Point(2, 0.0, 100.0)).rects == [Rect(1, 0.0, 800.0, 400.0, 50.0), Rect(2, 0.0, 50.0, 400.0, 50.0)];
  }

  /** A probe with no edge and no location: one atomic child with a 10 by 10
      marker at page 1, x 0, y 0. */
  lemma LoneAtomic()
    ensures var root := Build([Probe(None, Some("fig"), None, map[], Location(None, None, None))]);
      && |root.children| == 1
      && root.children[0].isAtomic
      && root.children[0].kind == Str("marker")
      && root.children[0].rects == [Rect(1, 0.0, 0.0, 10.0, 10.0)]
      && root.payload == map["pages" := Num(0)]
  {
    var ps := [Probe(None, Some("fig"), None, map[], Location(None, None, None))];
    assert ps[..0] == [];
  }

  /** An end with nothing open is absorbed: no child, but its page counts. */
  lemma StrayEnd()
    ensures var root := Build([Paired(0, "x-end", "end", At(3, 0.0, 10.0))]);
      && root.children == []
      && root.payload == map["pages" := Num(1)]
  {
    var ps := [Paired(0, "x-end", "end", At(3, 0.0, 10.0))];
    assert ps[..0] == [];
  }
}
