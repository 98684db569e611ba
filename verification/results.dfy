/**
 * The result records the audit produces and the merger combines. The DqElement and
 * RuleResult classes are not part of this model; these records keep the fields the
 * modelled code reads or writes.
 */
module Results {
  import opened JsValues

  /** An opaque handle to a DOM element, compared only through the node sorter. */
  datatype Element = Element(handle: nat)

  /** A DqElement: the element it stands for and its selector path, outermost frame first. */
  datatype NodeRef = NodeRef(element: Element, selector: seq<string>)

  /** A check result with the nodes the check flagged as related. */
  datatype CheckResult = CheckResult(id: string, relatedNodes: seq<NodeRef>)

  /** One node of a rule result with every check result recorded for it. */
  datatype NodeResult = NodeResult(node: NodeRef, checks: seq<CheckResult>)

  datatype Verdict = Passed | Failed | CantTell | Inapplicable

  /** A rule result; `message` carries the error message of a rule that failed to run. */
  datatype RuleResult = RuleResult(id: string, result: Verdict, nodes: seq<NodeResult>, message: Option<string>)
}
