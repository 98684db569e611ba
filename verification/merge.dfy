/**
 * Merging the rule results of several frames into one result per rule
 * (lib/utils/merge-results.js).
 */
module Merge {
  import opened JsValues
  import opened Results

  /** `utils.nodeSorter`: document-order comparison of two elements (negative, zero or positive). */
  type Sorter = (Element, Element) -> int

  /** The node with the frame's selector put in front of its selector path. */
  function Prefixed(n: NodeRef, frameSelector: string): NodeRef {
    n.(selector := [frameSelector] + n.selector)
  }

  /**
   * `pushFrame`: every node's selector path gains the frame selector in front and the
   * node is rewrapped around the frame element. Related nodes gain the prefix too, but
   * their rewrap is assigned to a loop variable only, so their element is unchanged.
   */
  function PushFrame(nodes: seq<NodeResult>, frameElement: Element, frameSelector: string): (r: seq<NodeResult>)
    ensures |r| == |nodes|
    ensures forall i :: 0 <= i < |r| ==>
      && r[i].node.element == frameElement
      && |r[i].node.selector| == |nodes[i].node.selector| + 1
      && r[i].node.selector[0] == frameSelector && r[i].node.selector[1..] == nodes[i].node.selector
    ensures forall i :: 0 <= i < |r| ==> |r[i].checks| == |nodes[i].checks| && forall j :: 0 <= j < |r[i].checks| ==>
      var (c, c') := (nodes[i].checks[j], r[i].checks[j]);
      && c'.id == c.id && |c'.relatedNodes| == |c.relatedNodes|
      && forall k :: 0 <= k < |c.relatedNodes| ==>
           c'.relatedNodes[k].element == c.relatedNodes[k].element
           && |c'.relatedNodes[k].selector| == |c.relatedNodes[k].selector| + 1
           && c'.relatedNodes[k].selector[1..] == c.relatedNodes[k].selector
           && c'.relatedNodes[k].selector[0] == frameSelector
  {
    seq(|nodes|, i requires 0 <= i < |nodes| =>
      var res := nodes[i];
      NodeResult(
        NodeRef(frameElement, [frameSelector] + res.node.selector),
        seq(|res.checks|, j requires 0 <= j < |res.checks| =>
          var c := res.checks[j];
          c.(relatedNodes := seq(|c.relatedNodes|, k requires 0 <= k < |c.relatedNodes| => Prefixed(c.relatedNodes[k], frameSelector))))))
  }

  /** A block whose first node is `first` goes in front of the existing node `t`. */
  predicate InsertsBefore(sorter: Sorter, t: NodeRef, first: NodeRef) {
    var c := sorter(t.element, first.element);
    c > 0 || (c == 0 && |first.selector| < |t.selector|)
  }

  function InsertionIndexFrom(target: seq<NodeResult>, first: NodeRef, sorter: Sorter, i: nat): (r: nat)
    requires i <= |target|
    requires forall j :: 0 <= j < i ==> !InsertsBefore(sorter, target[j].node, first)
    ensures i <= r <= |target|
    ensures forall j :: 0 <= j < r ==> !InsertsBefore(sorter, target[j].node, first)
    ensures r < |target| ==> InsertsBefore(sorter, target[r].node, first)
    decreases |target| - i
  {
    if i == |target| then i
    else if InsertsBefore(sorter, target[i].node, first) then i
    else InsertionIndexFrom(target, first, sorter, i + 1)
  }

  /** The first position whose node the block must precede, or the end. */
  function InsertionIndex(target: seq<NodeResult>, first: NodeRef, sorter: Sorter): (r: nat)
    ensures r <= |target|
    ensures forall j :: 0 <= j < r ==> !InsertsBefore(sorter, target[j].node, first)
    ensures r < |target| ==> InsertsBefore(sorter, target[r].node, first)
  {
    InsertionIndexFrom(target, first, sorter, 0)
  }

  /**
   * `splicenodes`: the block `to` is inserted, whole and in order, in front of the first
   * node of `target` it must precede, or appended when there is none.
   */
  function SpliceNodes(target: seq<NodeResult>, to: seq<NodeResult>, sorter: Sorter): (r: seq<NodeResult>)
    requires |to| > 0
    ensures |r| == |target| + |to|
    ensures multiset(r) == multiset(target) + multiset(to)
    ensures exists i :: (0 <= i <= |target| && r == target[..i] + to + target[i..]
                         && (forall j :: 0 <= j < i ==> !InsertsBefore(sorter, target[j].node, to[0].node))
                         && (i < |target| ==> InsertsBefore(sorter, target[i].node, to[0].node)))
  {
    var i := InsertionIndex(target, to[0].node, sorter);
    assert target == target[..i] + target[i..];
    target[..i] + to + target[i..]
  }

  /**
   * The block of a frame embedded in the node `target[k]` lands right after that node
   * when `target` is in document order around it: earlier nodes precede the frame
   * element, later ones follow it, and the frame node's selector path is no longer than
   * the block's first.
   */
  lemma NestedBlockFollowsFrame(target: seq<NodeResult>, to: seq<NodeResult>, sorter: Sorter, k: nat)
    requires |to| > 0 && k < |target|
    requires sorter(target[k].node.element, to[0].node.element) == 0
    requires |target[k].node.selector| <= |to[0].node.selector|
    requires forall j :: 0 <= j < k ==> sorter(target[j].node.element, to[0].node.element) < 0
    requires forall j :: k < j < |target| ==> sorter(target[j].node.element, to[0].node.element) > 0
    ensures SpliceNodes(target, to, sorter) == target[..k + 1] + to + target[k + 1..]
  {
    var first := to[0].node;
    var i := InsertionIndex(target, first, sorter);
    assert forall j :: 0 <= j <= k ==> !InsertsBefore(sorter, target[j].node, first);
    assert k + 1 < |target| ==> InsertsBefore(sorter, target[k + 1].node, first);
    assert i == k + 1;
  }

  /** What a frame reports as `results`: nothing (any falsy value), one rule result, or an array. */
  datatype Payload = NoResults | OneResult(result: RuleResult) | ResultList(results: seq<RuleResult>)

  /** One frame's report: its results, its selector (when it is a frame) and its element. */
  datatype FrameResult = FrameResult(results: Payload, frame: Option<string>, frameElement: Element)

  /**
   * `normalizeResult`: a missing report, falsy results or an empty array give nothing; a
   * single result becomes a one-element list; a non-empty array is returned as it is.
   */
  function NormalizeResult(fr: Option<FrameResult>): (r: Option<seq<RuleResult>>)
    ensures r.Some? ==> |r.value| > 0
    ensures r.None? <==> fr.None? || fr.value.results.NoResults? || fr.value.results == ResultList([])
    ensures r.Some? && fr.value.results.OneResult? ==> r.value == [fr.value.results.result]
    ensures r.Some? && fr.value.results.ResultList? ==> r.value == fr.value.results.results
  {
    match fr
    case None => None
    case Some(f) =>
      match f.results
      case NoResults => None
      case OneResult(x) => Some([x])
      case ResultList(xs) => if |xs| == 0 then None else Some(xs)
  }

  /** A frame's rule result as merged: with the frame pushed onto its nodes when the frame selector is truthy. */
  function Prepared(fr: FrameResult, rr: RuleResult): RuleResult {
    if fr.frame.Some? && fr.frame.value != "" then rr.(nodes := PushFrame(rr.nodes, fr.frameElement, fr.frame.value))
    else rr
  }

  function Ids(rs: seq<RuleResult>): (ids: seq<string>)
    ensures |ids| == |rs| && forall i :: 0 <= i < |rs| ==> ids[i] == rs[i].id
  {
    seq(|rs|, i requires 0 <= i < |rs| => rs[i].id)
  }

  function FindByFrom(rs: seq<RuleResult>, id: string, i: nat): (r: Option<nat>)
    requires i <= |rs|
    requires forall j :: 0 <= j < i ==> rs[j].id != id
    ensures r.Some? ==> r.value < |rs| && rs[r.value].id == id && forall j :: 0 <= j < r.value ==> rs[j].id != id
    ensures r.None? ==> id !in Ids(rs)
    decreases |rs| - i
  {
    if i == |rs| then None
    else if rs[i].id == id then Some(i)
    else FindByFrom(rs, id, i + 1)
  }

  /** `utils.findBy(result, 'id', id)`: the position of the first merged result with that id. */
  function FindBy(rs: seq<RuleResult>, id: string): (r: Option<nat>)
    ensures r.Some? ==> r.value < |rs| && rs[r.value].id == id && forall j :: 0 <= j < r.value ==> rs[j].id != id
    ensures r.None? <==> id !in Ids(rs)
  {
    FindByFrom(rs, id, 0)
  }

  /** The id list with `id` appended unless it is already there. */
  function AddId(ids: seq<string>, id: string): seq<string> {
    if id in ids then ids else ids + [id]
  }

  /**
   * Merges one (prepared) rule result: a new id is appended; for a known id a non-empty
   * node list is spliced into the existing entry and an empty one changes nothing.
   */
  function MergeOne(acc: seq<RuleResult>, rr: RuleResult, sorter: Sorter): (r: seq<RuleResult>)
    ensures Ids(r) == AddId(Ids(acc), rr.id)
    ensures FindBy(acc, rr.id).None? ==> r == acc + [rr]
    ensures FindBy(acc, rr.id).Some? && |rr.nodes| == 0 ==> r == acc
    ensures FindBy(acc, rr.id).Some? && |rr.nodes| > 0 ==>
      var i := FindBy(acc, rr.id).value;
      r == acc[i := acc[i].(nodes := SpliceNodes(acc[i].nodes, rr.nodes, sorter))]
  {
    match FindBy(acc, rr.id)
    case None => acc + [rr]
    case Some(i) =>
      if |rr.nodes| > 0 then
        var r := acc[i := acc[i].(nodes := SpliceNodes(acc[i].nodes, rr.nodes, sorter))];
        assert Ids(r) == Ids(acc);
        r
      else acc
  }

  /** Merges rule results one after the other. */
  function MergeAll(acc: seq<RuleResult>, rrs: seq<RuleResult>, sorter: Sorter): seq<RuleResult>
    decreases |rrs|
  {
    if |rrs| == 0 then acc else MergeAll(MergeOne(acc, rrs[0], sorter), rrs[1..], sorter)
  }

  /** The prepared rule results of one frame, in its order. */
  function FrameContribution(fr: Option<FrameResult>): seq<RuleResult> {
    match NormalizeResult(fr)
    case None => []
    case Some(rs) => seq(|rs|, i requires 0 <= i < |rs| => Prepared(fr.value, rs[i]))
  }

  /** The frames processed one after the other, each merging its rule results in order. */
  function MergeFrames(acc: seq<RuleResult>, frames: seq<Option<FrameResult>>, sorter: Sorter): seq<RuleResult>
    decreases |frames|
  {
    if |frames| == 0 then acc
    else MergeFrames(MergeAll(acc, FrameContribution(frames[0]), sorter), frames[1..], sorter)
  }

  /** `utils.mergeResults`. */
  function MergeResults(frames: seq<Option<FrameResult>>, sorter: Sorter): seq<RuleResult> {
    MergeFrames([], frames, sorter)
  }

  /** Every prepared rule result of every frame, in processing order. */
  function Contributions(frames: seq<Option<FrameResult>>): seq<RuleResult>
    decreases |frames|
  {
    if |frames| == 0 then [] else FrameContribution(frames[0]) + Contributions(frames[1..])
  }

  lemma {:induction false} MergeAllAppend(acc: seq<RuleResult>, xs: seq<RuleResult>, ys: seq<RuleResult>, sorter: Sorter)
    ensures MergeAll(acc, xs + ys, sorter) == MergeAll(MergeAll(acc, xs, sorter), ys, sorter)
    decreases |xs|
  {
    if |xs| > 0 {
      assert (xs + ys)[1..] == xs[1..] + ys;
      MergeAllAppend(MergeOne(acc, xs[0], sorter), xs[1..], ys, sorter);
    } else {
      assert xs + ys == ys;
    }
  }

  /** Merging frame by frame is merging the flat list of their prepared rule results. */
  lemma {:induction false} MergeFramesFlat(acc: seq<RuleResult>, frames: seq<Option<FrameResult>>, sorter: Sorter)
    ensures MergeFrames(acc, frames, sorter) == MergeAll(acc, Contributions(frames), sorter)
    decreases |frames|
  {
    if |frames| > 0 {
      MergeFramesFlat(MergeAll(acc, FrameContribution(frames[0]), sorter), frames[1..], sorter);
      MergeAllAppend(acc, FrameContribution(frames[0]), Contributions(frames[1..]), sorter);
    }
  }

  /** The ids of `xs` added to `seen` in order of first appearance. */
  function FirstAppearance(seen: seq<string>, xs: seq<string>): seq<string>
    decreases |xs|
  {
    if |xs| == 0 then seen else FirstAppearance(AddId(seen, xs[0]), xs[1..])
  }

  ghost predicate Distinct(ids: seq<string>) {
    forall i, j :: 0 <= i < j < |ids| ==> ids[i] != ids[j]
  }

  lemma {:induction false} FirstAppearanceDistinct(seen: seq<string>, xs: seq<string>)
    requires Distinct(seen)
    ensures Distinct(FirstAppearance(seen, xs))
    ensures forall x :: x in FirstAppearance(seen, xs) <==> x in seen || x in xs
    decreases |xs|
  {
    if |xs| > 0 {
      FirstAppearanceDistinct(AddId(seen, xs[0]), xs[1..]);
      assert forall x :: x in xs <==> x == xs[0] || x in xs[1..];
    }
  }

  lemma {:induction false} MergeAllIds(acc: seq<RuleResult>, xs: seq<RuleResult>, sorter: Sorter)
    ensures Ids(MergeAll(acc, xs, sorter)) == FirstAppearance(Ids(acc), Ids(xs))
    decreases |xs|
  {
    if |xs| > 0 {
      MergeAllIds(MergeOne(acc, xs[0], sorter), xs[1..], sorter);
      assert Ids(xs[1..]) == Ids(xs)[1..];
    }
  }

  /**
   * The merged list holds exactly one result per rule id, ordered by the first
   * appearance of each id across the frames.
   */
  lemma MergeResultsIds(frames: seq<Option<FrameResult>>, sorter: Sorter)
    ensures Ids(MergeResults(frames, sorter)) == FirstAppearance([], Ids(Contributions(frames)))
    ensures Distinct(Ids(MergeResults(frames, sorter)))
    ensures forall id :: id in Ids(MergeResults(frames, sorter)) <==> id in Ids(Contributions(frames))
  {
    MergeFramesFlat([], frames, sorter);
    MergeAllIds([], Contributions(frames), sorter);
    FirstAppearanceDistinct([], Ids(Contributions(frames)));
  }

  /** The nodes the merged entry for `id` holds (none when there is no entry). */
  function EntryNodes(rs: seq<RuleResult>, id: string): seq<NodeResult> {
    match FindBy(rs, id)
    case Some(i) => rs[i].nodes
    case None => []
  }

  /** The nodes of every rule result with the given id, concatenated in order. */
  function NodesFor(xs: seq<RuleResult>, id: string): seq<NodeResult>
    decreases |xs|
  {
    if |xs| == 0 then [] else (if xs[0].id == id then xs[0].nodes else []) + NodesFor(xs[1..], id)
  }

  lemma FindByAt(rs: seq<RuleResult>, id: string, j: nat)
    requires j < |rs| && rs[j].id == id && forall k :: 0 <= k < j ==> rs[k].id != id
    ensures FindBy(rs, id) == Some(j)
  {
    assert id in Ids(rs) by { assert Ids(rs)[j] == id; }
    var f := FindBy(rs, id).value;
    assert !(f < j) && !(j < f);
  }

  /** Appending a result with a new id leaves the positions of the other ids alone. */
  lemma FindByAppend(acc: seq<RuleResult>, rr: RuleResult, id: string)
    requires rr.id !in Ids(acc)
    ensures FindBy(acc + [rr], id) == if id == rr.id then Some(|acc|) else FindBy(acc, id)
  {
    var r := acc + [rr];
    if id == rr.id {
      assert forall k :: 0 <= k < |acc| ==> r[k].id != id by {
        assert forall k :: 0 <= k < |acc| ==> Ids(acc)[k] == acc[k].id;
      }
      FindByAt(r, id, |acc|);
    } else if FindBy(acc, id).Some? {
      FindByAt(r, id, FindBy(acc, id).value);
    } else {
      assert id !in Ids(r) by {
        assert Ids(r) == Ids(acc) + [rr.id];
      }
    }
  }

  /** Replacing a result by one with the same id leaves every id's position alone. */
  lemma FindByUpdate(acc: seq<RuleResult>, i: nat, x: RuleResult, id: string)
    requires i < |acc| && x.id == acc[i].id
    ensures FindBy(acc[i := x], id) == FindBy(acc, id)
  {
    assert Ids(acc[i := x]) == Ids(acc);
    if FindBy(acc, id).Some? {
      FindByAt(acc[i := x], id, FindBy(acc, id).value);
    }
  }

  lemma MergeOneNodes(acc: seq<RuleResult>, rr: RuleResult, sorter: Sorter, id: string)
    ensures multiset(EntryNodes(MergeOne(acc, rr, sorter), id))
         == multiset(EntryNodes(acc, id)) + (if rr.id == id then multiset(rr.nodes) else multiset{})
  {
    var r := MergeOne(acc, rr, sorter);
    match FindBy(acc, rr.id)
    case None =>
      FindByAppend(acc, rr, id);
    case Some(i) =>
      if |rr.nodes| > 0 {
        var x := acc[i].(nodes := SpliceNodes(acc[i].nodes, rr.nodes, sorter));
        FindByUpdate(acc, i, x, id);
      }
  }

  lemma {:induction false} MergeAllNodes(acc: seq<RuleResult>, xs: seq<RuleResult>, sorter: Sorter, id: string)
    ensures multiset(EntryNodes(MergeAll(acc, xs, sorter), id)) == multiset(EntryNodes(acc, id)) + multiset(NodesFor(xs, id))
    decreases |xs|
  {
    if |xs| > 0 {
      MergeOneNodes(acc, xs[0], sorter, id);
      MergeAllNodes(MergeOne(acc, xs[0], sorter), xs[1..], sorter, id);
    }
  }

  /**
   * No node is lost or duplicated: the merged entry of each rule id holds exactly the
   * (frame-prefixed) nodes every frame reported for that id, as a multiset.
   */
  lemma MergeResultsNodes(frames: seq<Option<FrameResult>>, sorter: Sorter, id: string)
    ensures multiset(EntryNodes(MergeResults(frames, sorter), id)) == multiset(NodesFor(Contributions(frames), id))
  {
    MergeFramesFlat([], frames, sorter);
    MergeAllNodes([], Contributions(frames), sorter, id);
  }

  function Selectors(rs: seq<RuleResult>, k: nat): seq<seq<string>>
    requires k < |rs|
  {
    seq(|rs[k].nodes|, i requires 0 <= i < |rs[k].nodes| => rs[k].nodes[i].node.selector)
  }

  /** One `iframe` rule result holding the given nodes. */
  function IframeResult(nodes: seq<NodeResult>): RuleResult {
    RuleResult("iframe", Passed, nodes, None)
  }

  function Node(handle: nat, selector: seq<string>): NodeResult {
    NodeResult(NodeRef(Element(handle), selector), [])
  }

  /** A page reporting one rule result, without nested frames, merges to that result. */
  lemma SingleFrame(nodes: seq<NodeResult>, e: Element, sorter: Sorter)
    ensures MergeResults([Some(FrameResult(ResultList([IframeResult(nodes)]), None, e))], sorter) == [IframeResult(nodes)]
  {
    var rr := IframeResult(nodes);
    var f := Some(FrameResult(ResultList([rr]), None, e));
    assert FrameContribution(f) == [rr];
    calc {
      MergeResults([f], sorter);
      MergeFrames([], [f], sorter);
      MergeFrames(MergeAll([], [rr], sorter), [], sorter);
      MergeAll([], [rr], sorter);
      MergeAll(MergeOne([], rr, sorter), [], sorter);
    }
  }

  /** Pushing a frame onto nodes that carry no check results. */
  lemma PushFrameBare(nodes: seq<NodeResult>, fe: Element, fs: string)
    requires forall i :: 0 <= i < |nodes| ==> nodes[i].checks == []
    ensures PushFrame(nodes, fe, fs) == seq(|nodes|, i requires 0 <= i < |nodes| => NodeResult(NodeRef(fe, [fs] + nodes[i].node.selector), []))
  {
    var r := PushFrame(nodes, fe, fs);
    forall i | 0 <= i < |nodes| ensures r[i] == NodeResult(NodeRef(fe, [fs] + nodes[i].node.selector), []) {
      assert r[i].node.selector == [r[i].node.selector[0]] + r[i].node.selector[1..];
    }
  }

  /**
   * A page's result for a rule followed by a nested frame's result for the same rule:
   * when the frame's block belongs after every page node, it is appended.
   */
  lemma PageThenFrame(top: seq<NodeResult>, nested: seq<NodeResult>, e: Element, fe: Element, fs: string, sorter: Sorter)
    requires |top| > 0 && |nested| > 0 && fs != ""
    requires InsertionIndex(top, PushFrame(nested, fe, fs)[0].node, sorter) == |top|
    ensures MergeResults([
        Some(FrameResult(ResultList([IframeResult(top)]), None, e)),
        Some(FrameResult(ResultList([IframeResult(nested)]), Some(fs), fe))], sorter)
      == [IframeResult(top + PushFrame(nested, fe, fs))]
  {
    var a := IframeResult(top);
    var b := IframeResult(nested);
    var pushed := PushFrame(nested, fe, fs);
    var fa := Some(FrameResult(ResultList([a]), None, e));
    var fb := Some(FrameResult(ResultList([b]), Some(fs), fe));
    assert FrameContribution(fa) == [a];
    assert FrameContribution(fb) == [IframeResult(pushed)];
    assert MergeAll([], [a], sorter) == [a] by {
      assert MergeAll([], [a], sorter) == MergeAll([a], [], sorter);
    }
    assert FindBy([a], "iframe") == Some(0);
    assert SpliceNodes(top, pushed, sorter) == top + pushed by {
      assert top[..|top|] == top && top[|top|..] == [];
    }
    assert MergeAll([a], [IframeResult(pushed)], sorter) == [IframeResult(top + pushed)] by {
      assert MergeAll([a], [IframeResult(pushed)], sorter) == MergeAll(MergeOne([a], IframeResult(pushed), sorter), [], sorter);
    }
    calc {
      MergeResults([fa, fb], sorter);
      MergeFrames([], [fa, fb], sorter);
      MergeFrames(MergeAll([], [a], sorter), [fb], sorter);
      MergeFrames(MergeAll([a], [IframeResult(pushed)], sorter), [], sorter);
    }
  }

  /** The nodes frame `#level0` reports: its own `#level1` followed by `#level1`'s two frames. */
  lemma Level0Merge(level1: seq<RuleResult>, sorter: Sorter)
    requires sorter(Element(1), Element(1)) == 0
    requires level1 == [IframeResult([Node(2, ["#level2a"]), Node(3, ["#level2b"])])]
    ensures MergeResults([
        Some(FrameResult(ResultList([IframeResult([Node(1, ["#level1"])])]), None, Element(0))),
        Some(FrameResult(ResultList(level1), Some("#level1"), Element(1)))], sorter)
      == [IframeResult([Node(1, ["#level1"]), Node(1, ["#level1", "#level2a"]), Node(1, ["#level1", "#level2b"])])]
  {
    var inner := [Node(2, ["#level2a"]), Node(3, ["#level2b"])];
    var top := [Node(1, ["#level1"])];
    var pushed1 := PushFrame(inner, Element(1), "#level1");
    assert top + pushed1 == [Node(1, ["#level1"]), Node(1, ["#level1", "#level2a"]), Node(1, ["#level1", "#level2b"])] by {
      PushFrameBare(inner, Element(1), "#level1");
      assert pushed1[0] == Node(1, ["#level1"] + ["#level2a"]) && pushed1[1] == Node(1, ["#level1"] + ["#level2b"]);
      assert ["#level1"] + ["#level2a"] == ["#level1", "#level2a"] && ["#level1"] + ["#level2b"] == ["#level1", "#level2b"];
    }
    assert InsertionIndex(top, pushed1[0].node, sorter) == |top| by {
      PushFrameBare(inner, Element(1), "#level1");
      assert pushed1[0].node.element == Element(1);
      assert !InsertsBefore(sorter, top[0].node, pushed1[0].node);
    }
    PageThenFrame(top, inner, Element(0), Element(1), "#level1", sorter);
  }

  /** Pushing a frame onto three bare nodes prefixes each selector and points each at the frame. */
  lemma PushThree(h: nat, a: seq<string>, b: seq<string>, c: seq<string>, fe: Element, fs: string)
    ensures PushFrame([Node(h, a), Node(h, b), Node(h, c)], fe, fs)
      == [Node(fe.handle, [fs] + a), Node(fe.handle, [fs] + b), Node(fe.handle, [fs] + c)]
  {
    PushFrameBare([Node(h, a), Node(h, b), Node(h, c)], fe, fs);
  }

  /** Pushing frame `#level0` (element 0) onto the nodes `#level0` reports. */
  lemma PushLevel0()
    ensures PushFrame([Node(1, ["#level1"]), Node(1, ["#level1", "#level2a"]), Node(1, ["#level1", "#level2b"])], Element(0), "#level0")
      == [Node(0, ["#level0", "#level1"]), Node(0, ["#level0", "#level1", "#level2a"]), Node(0, ["#level0", "#level1", "#level2b"])]
  {
    PushThree(1, ["#level1"], ["#level1", "#level2a"], ["#level1", "#level2b"], Element(0), "#level0");
    assert ["#level0"] + ["#level1"] == ["#level0", "#level1"];
    assert ["#level0"] + ["#level1", "#level2a"] == ["#level0", "#level1", "#level2a"];
    assert ["#level0"] + ["#level1", "#level2b"] == ["#level0", "#level1", "#level2b"];
  }

  /** The page puts its own `#level0` before the nodes frame `#level0` reports, each prefixed by `#level0`. */
  lemma PageMerge(level0: seq<RuleResult>, sorter: Sorter)
    requires sorter(Element(0), Element(0)) == 0
    requires level0 == [IframeResult([Node(1, ["#level1"]), Node(1, ["#level1", "#level2a"]), Node(1, ["#level1", "#level2b"])])]
    ensures var page := MergeResults([
        Some(FrameResult(ResultList([IframeResult([Node(0, ["#level0"])])]), None, Element(0))),
        Some(FrameResult(ResultList(level0), Some("#level0"), Element(0)))], sorter);
      page == [IframeResult([Node(0, ["#level0"]), Node(0, ["#level0", "#level1"]), Node(0, ["#level0", "#level1", "#level2a"]), Node(0, ["#level0", "#level1", "#level2b"])])]
  {
    var mid := [Node(1, ["#level1"]), Node(1, ["#level1", "#level2a"]), Node(1, ["#level1", "#level2b"])];
    var top := [Node(0, ["#level0"])];
    PushLevel0();
    var pushed0 := PushFrame(mid, Element(0), "#level0");
    assert InsertionIndex(top, pushed0[0].node, sorter) == |top| by {
      assert !InsertsBefore(sorter, top[0].node, pushed0[0].node);
    }
    PageThenFrame(top, mid, Element(0), Element(0), "#level0", sorter);
    assert top + pushed0 == [Node(0, ["#level0"]), Node(0, ["#level0", "#level1"]), Node(0, ["#level0", "#level1", "#level2a"]), Node(0, ["#level0", "#level1", "#level2b"])];
  }

  /**
   * Three levels of nested frames merge into document order with each frame node before
   * its own contents: the page's `#level0`, then `#level1` inside it, then the two
   * frames inside `#level1`. This holds for any node sorter that ties an element with itself.
   */
  lemma NestedFramesOrder(sorter: Sorter)
    requires sorter(Element(0), Element(0)) == 0 && sorter(Element(1), Element(1)) == 0
    ensures var level1 := MergeResults([Some(FrameResult(ResultList([IframeResult([Node(2, ["#level2a"]), Node(3, ["#level2b"])])]), None, Element(0)))], sorter);
      var level0 := MergeResults([
        Some(FrameResult(ResultList([IframeResult([Node(1, ["#level1"])])]), None, Element(0))),
        Some(FrameResult(ResultList(level1), Some("#level1"), Element(1)))], sorter);
      var page := MergeResults([
        Some(FrameResult(ResultList([IframeResult([Node(0, ["#level0"])])]), None, Element(0))),
        Some(FrameResult(ResultList(level0), Some("#level0"), Element(0)))], sorter);
      |page| == 1 && Selectors(page, 0) == [["#level0"], ["#level0", "#level1"], ["#level0", "#level1", "#level2a"], ["#level0", "#level1", "#level2b"]]
  {
    var level1 := MergeResults([Some(FrameResult(ResultList([IframeResult([Node(2, ["#level2a"]), Node(3, ["#level2b"])])]), None, Element(0)))], sorter);
    SingleFrame([Node(2, ["#level2a"]), Node(3, ["#level2b"])], Element(0), sorter);
    Level0Merge(level1, sorter);
    var level0 := MergeResults([
      Some(FrameResult(ResultList([IframeResult([Node(1, ["#level1"])])]), None, Element(0))),
      Some(FrameResult(ResultList(level1), Some("#level1"), Element(1)))], sorter);
    PageMerge(level0, sorter);
    var page := MergeResults([
      Some(FrameResult(ResultList([IframeResult([Node(0, ["#level0"])])]), None, Element(0))),
      Some(FrameResult(ResultList(level0), Some("#level0"), Element(0)))], sorter);
    var sel := Selectors(page, 0);
    assert |sel| == 4;
    assert sel[0] == ["#level0"] && sel[1] == ["#level0", "#level1"];
    assert sel[2] == ["#level0", "#level1", "#level2a"] && sel[3] == ["#level0", "#level1", "#level2b"];
  }
}
