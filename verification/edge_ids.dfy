/** Identifiers of routed edge pieces: `${flow}:${from}-${to}:${layer}`.
    A rank gap routes each edge in three layers: the Source piece leaves the
    node, the JointSplit layer is where flows meet, the Target piece arrives. */
module EdgeIds {

  datatype EdgeLayer = Source | JointSplit | Target

  function LayerName(layer: EdgeLayer): string {
    match layer
    case Source => "Source"
    case JointSplit => "JointSplit"
    case Target => "Target"
  }

  function MakeEdgeId(from: string, to: string, flow: string, layer: EdgeLayer): string {
    flow + ":" + from + "-" + to + ":" + LayerName(layer)
  }

  /** The last seven characters of an id name its layer. */
  lemma LayerSuffix(from: string, to: string, flow: string, layer: EdgeLayer)
    ensures var id := MakeEdgeId(from, to, flow, layer);
      |id| >= 7 && id[|id| - 7..] == (match layer case Source => ":Source" case JointSplit => "ntSplit" case Target => ":Target")
  {
    var id := MakeEdgeId(from, to, flow, layer);
    var name := LayerName(layer);
    assert id == (flow + ":" + from + "-" + to + ":") + name;
    assert id[|id| - 7..] == (flow + ":" + from + "-" + to + ":" + name)[|id| - 7..];
  }

  /** Ids of different layers never coincide. */
  lemma LayerDetermined(from1: string, to1: string, flow1: string, layer1: EdgeLayer,
                        from2: string, to2: string, flow2: string, layer2: EdgeLayer)
    requires MakeEdgeId(from1, to1, flow1, layer1) == MakeEdgeId(from2, to2, flow2, layer2)
    ensures layer1 == layer2
  {
    LayerSuffix(from1, to1, flow1, layer1);
    LayerSuffix(from2, to2, flow2, layer2);
  }

  /** Splitting at the first occurrence of a separator that the head does
      not contain recovers head and tail. */
  lemma {:induction false} SplitAtFirst(a1: string, b1: string, a2: string, b2: string, sep: char)
    requires sep !in a1 && sep !in a2
    requires a1 + [sep] + b1 == a2 + [sep] + b2
    ensures a1 == a2 && b1 == b2
  {
    if a1 == [] || a2 == [] {
      assert (a1 + [sep] + b1)[0] == (a2 + [sep] + b2)[0];
      assert b1 == (a1 + [sep] + b1)[|a1| + 1..];
      assert b2 == (a2 + [sep] + b2)[|a2| + 1..];
    } else {
      assert (a1 + [sep] + b1)[0] == a1[0];
      assert (a2 + [sep] + b2)[0] == a2[0];
      assert (a1 + [sep] + b1)[1..] == a1[1..] + [sep] + b1;
      assert (a2 + [sep] + b2)[1..] == a2[1..] + [sep] + b2;
      assert forall c :: c in a1[1..] ==> c in a1;
      assert forall c :: c in a2[1..] ==> c in a2;
      SplitAtFirst(a1[1..], b1, a2[1..], b2, sep);
      assert a1 == [a1[0]] + a1[1..];
      assert a2 == [a2[0]] + a2[1..];
    }
  }

  /** An id is the flow, a ':', the edge, then the layer suffix. */
  lemma IdShape(from: string, to: string, flow: string, layer: EdgeLayer)
    ensures MakeEdgeId(from, to, flow, layer) == (flow + [':'] + (from + ['-'] + to)) + (":" + LayerName(layer))
  {
  }

  lemma CancelRight(a: string, b: string, t: string)
    requires a + t == b + t
    ensures a == b
  {
    assert a == (a + t)[..|a|];
    assert b == (b + t)[..|b|];
  }

  /** The id determines the edge and flow when the flow id has no ':' and
      the source node id has no '-'. */
  lemma EdgeIdInjective(from1: string, to1: string, flow1: string,
                        from2: string, to2: string, flow2: string, layer: EdgeLayer)
    requires ':' !in flow1 && ':' !in flow2 && '-' !in from1 && '-' !in from2
    requires MakeEdgeId(from1, to1, flow1, layer) == MakeEdgeId(from2, to2, flow2, layer)
    ensures from1 == from2 && to1 == to2 && flow1 == flow2
  {
    var mid1, mid2 := from1 + ['-'] + to1, from2 + ['-'] + to2;
    IdShape(from1, to1, flow1, layer);
    IdShape(from2, to2, flow2, layer);
    CancelRight(flow1 + [':'] + mid1, flow2 + [':'] + mid2, ":" + LayerName(layer));
    SplitAtFirst(flow1, mid1, flow2, mid2, ':');
    SplitAtFirst(from1, to1, from2, to2, '-');
  }

  /** Without those restrictions two different edges of a flow can share an
      id: "a-b" to "c" and "a" to "b-c". */
  lemma EdgeIdCollision()
    ensures MakeEdgeId("a-b", "c", "f", Source) == MakeEdgeId("a", "b-c", "f", Source)
  {
  }
}
