/**
 * Reshaping driver entities into the records the graph-visualisation
 * front end consumes (`nodeToVis` and `relToVis`).
 *
 * A visual node is a JavaScript object: computed fields `id`, `label` and
 * `group`, followed by every property of the node spread over them, so a
 * property named `id`, `label` or `group` replaces the computed value.
 */
module Vis {
  import opened Js
  import LabelWrap

  /** A node as returned by the driver, with integer identities. */
  datatype Node = Node(identity: int, labels: seq<string>, properties: map<string, Value>)

  /** A relationship as returned by the driver. */
  datatype Rel = Rel(identity: int, start: int, end: int, relType: string)

  /** A node record for the front end: an object from keys to values. */
  type VisNode = map<string, Value>

  /** An edge record for the front end. */
  datatype Edge = Edge(id: string, from: string, to: string, relType: string, caption: string)

  /** `labels[0] || "Node"`. */
  function Group(n: Node): (g: string)
    ensures g != ""
    ensures g == "Node" || (|n.labels| > 0 && g == n.labels[0])
    ensures |n.labels| > 0 && n.labels[0] != "" ==> g == n.labels[0]
  {
    if |n.labels| > 0 && n.labels[0] != "" then n.labels[0] else "Node"
  }

  predicate HasTruthy(props: map<string, Value>, key: string)
  {
    key in props && Truthy(props[key])
  }

  /** `props.title || props.name || props.id || group`. */
  function RawLabel(n: Node): (v: Value)
    ensures Truthy(v)
    ensures HasTruthy(n.properties, "title") ==> v == n.properties["title"]
    ensures !HasTruthy(n.properties, "title") && HasTruthy(n.properties, "name") ==>
      v == n.properties["name"]
    ensures (!HasTruthy(n.properties, "title") && !HasTruthy(n.properties, "name") &&
             HasTruthy(n.properties, "id")) ==> v == n.properties["id"]
    ensures (!HasTruthy(n.properties, "title") && !HasTruthy(n.properties, "name") &&
             !HasTruthy(n.properties, "id")) ==> v == Str(Group(n))
  {
    var props := n.properties;
    if HasTruthy(props, "title") then props["title"]
    else if HasTruthy(props, "name") then props["name"]
    else if HasTruthy(props, "id") then props["id"]
    else Str(Group(n))
  }

  /** `String(label)` after wrapping: only a string label is ever wrapped. */
  function DisplayLabel(n: Node): (s: string)
    ensures !RawLabel(n).Str? ==> s == ToJsString(RawLabel(n))
    ensures RawLabel(n).Str? && |RawLabel(n).s| <= LabelWrap.MaxLineLength ==> s == RawLabel(n).s
    ensures RawLabel(n).Str? && |RawLabel(n).s| > LabelWrap.MaxLineLength ==>
      s == Join(LabelWrap.Wrap(Split(RawLabel(n).s)), "\n")
  {
    match RawLabel(n)
    case Str(text) => LabelWrap.WrappedLabel(text)
    case other => ToJsString(other)
  }

  /** `nodeToVis(n)`. */
  function NodeToVis(n: Node): (vis: VisNode)
    ensures vis.Keys == n.properties.Keys + {"id", "label", "group"}
    ensures forall k :: k in n.properties ==> vis[k] == n.properties[k]
    ensures "id" !in n.properties ==> vis["id"] == Str(IntToString(n.identity))
    ensures "label" !in n.properties ==> vis["label"] == Str(DisplayLabel(n))
    ensures "group" !in n.properties ==> vis["group"] == Str(Group(n))
  {
    map["id" := Str(IntToString(n.identity)),
        "label" := Str(DisplayLabel(n)),
        "group" := Str(Group(n))] + n.properties
  }

  /** `relToVis(r)`. */
  function RelToVis(r: Rel): (e: Edge)
    ensures e.id == IntToString(r.identity)
    ensures e.from == IntToString(r.start) && e.to == IntToString(r.end)
    ensures e.caption == e.relType == r.relType
  {
    Edge(IntToString(r.identity), IntToString(r.start), IntToString(r.end), r.relType, r.relType)
  }

  /**
   * The edge record loses nothing: two relationships give the same record
   * exactly when they have the same identity, endpoints and type.
   */
  lemma RelToVisLossless(a: Rel, b: Rel)
    ensures RelToVis(a) == RelToVis(b) <==> a == b
  {
    IntToStringInjective(a.identity, b.identity);
    IntToStringInjective(a.start, b.start);
    IntToStringInjective(a.end, b.end);
  }

  /**
   * An edge's `from` (and likewise `to`) names a node record's `id` exactly
   * when the relationship starts (ends) at that node, as long as the node has
   * no property `id` of its own to replace the computed one.
   */
  lemma EdgeEndsMatchNodeId(r: Rel, n: Node)
    requires "id" !in n.properties
    ensures NodeToVis(n)["id"] == Str(RelToVis(r).from) <==> r.start == n.identity
    ensures NodeToVis(n)["id"] == Str(RelToVis(r).to) <==> r.end == n.identity
  {
    IntToStringInjective(r.start, n.identity);
    IntToStringInjective(r.end, n.identity);
  }
}
