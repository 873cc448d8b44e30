/** A material's shader node tree reduced to what the material scripts inspect: the
    type of every node and the BSDF-to-Surface links they create. Node settings
    (colours, roughness, locations) are left out. */
module ShaderNodes {
  import opened Results
  import Seqs

  datatype NodeType = PrincipledBsdf | MaterialOutput | OtherNode(typeName: string)

  datatype Node = Node(id: nat, kind: NodeType)

  /** A link from the BSDF output of node `from` to the Surface input of node `to`. */
  datatype Link = Link(from: nat, to: nat)

  datatype Tree = Tree(nodes: seq<Node>, links: seq<Link>)

  predicate IsBsdf(n: Node) {
    n.kind == PrincipledBsdf
  }

  predicate IsOutput(n: Node) {
    n.kind == MaterialOutput
  }

  predicate HasBsdf(t: Tree) {
    exists i :: 0 <= i < |t.nodes| && IsBsdf(t.nodes[i])
  }

  predicate HasOutput(t: Tree) {
    exists i :: 0 <= i < |t.nodes| && IsOutput(t.nodes[i])
  }

  /** An id no node of `nodes` carries: one more than the largest. */
  function FreshId(nodes: seq<Node>): (r: nat)
    ensures forall i :: 0 <= i < |nodes| ==> nodes[i].id < r
  {
    if |nodes| == 0 then 0
    else
      var rest := FreshId(nodes[1..]);
      if nodes[0].id + 1 > rest then nodes[0].id + 1 else rest
  }

  /** Connect the new BSDF to the first output of `nodes`, creating an output when
      there is none. Removing every other node has already dropped every link: a link
      always leaves a node's output socket and a Material Output node has none. */
  function ConnectBsdf(nodes: seq<Node>, bsdf: Node): (r: Tree)
    requires forall i :: 0 <= i < |nodes| ==> IsOutput(nodes[i])
    requires bsdf.kind == PrincipledBsdf
  {
    if |nodes| > 0 then Tree(nodes + [bsdf], [Link(bsdf.id, nodes[0].id)])
    else
      var out := Node(bsdf.id + 1, MaterialOutput);
      Tree([bsdf, out], [Link(bsdf.id, out.id)])
  }

  /** `ensure_bsdf_node`: the first Principled BSDF of the tree, which is then left as it
      is; otherwise every non-output node is removed, one BSDF is added, an output is
      created if none remains, and the BSDF feeds the first output's Surface input. */
  function EnsureBsdf(t: Tree): (r: (Tree, nat))
    ensures HasBsdf(t) ==> r.0 == t
    ensures HasBsdf(t) ==> (exists i :: 0 <= i < |t.nodes| && IsBsdf(t.nodes[i]) && r.1 == t.nodes[i].id
                              && forall j :: 0 <= j < i ==> !IsBsdf(t.nodes[j]))
    ensures !HasBsdf(t) ==> (Seqs.Filter(r.0.nodes, IsOutput) ==
                               if HasOutput(t) then Seqs.Filter(t.nodes, IsOutput) else [Node(r.1 + 1, MaterialOutput)])
    ensures !HasBsdf(t) ==> forall i :: 0 <= i < |r.0.nodes| ==> IsOutput(r.0.nodes[i]) || r.0.nodes[i] == Node(r.1, PrincipledBsdf)
    ensures !HasBsdf(t) ==> (|r.0.links| == 1 && r.0.links[0].from == r.1
                               && exists i :: 0 <= i < |r.0.nodes| && IsOutput(r.0.nodes[i]) && r.0.links[0].to == r.0.nodes[i].id)
    ensures !HasBsdf(t) ==> (Seqs.Filter(r.0.nodes, IsOutput) != []
                               && r.0.links[0].to == Seqs.Filter(r.0.nodes, IsOutput)[0].id)
    ensures exists i :: 0 <= i < |r.0.nodes| && r.0.nodes[i] == Node(r.1, PrincipledBsdf)
  {
    match Seqs.FirstIndex(t.nodes, IsBsdf)
    case Some(i) => (t, t.nodes[i].id)
    case None =>
      var kept := Seqs.Filter(t.nodes, IsOutput);
      var bsdf := Node(FreshId(t.nodes), PrincipledBsdf);
      var r := ConnectBsdf(kept, bsdf);
      assert HasOutput(t) <==> |kept| > 0 by {
        if HasOutput(t) {
          var i :| 0 <= i < |t.nodes| && IsOutput(t.nodes[i]);
          Seqs.FilterMembers(t.nodes, IsOutput, t.nodes[i]);
        }
        if |kept| > 0 {
          Seqs.FilterMembers(t.nodes, IsOutput, kept[0]);
        }
      }
      if |kept| > 0 then
        assert r.nodes[|kept|] == bsdf;
        FilterAllKept(kept, bsdf);
        (r, bsdf.id)
      else
        assert r.nodes[0] == bsdf;
        assert [bsdf, Node(bsdf.id + 1, MaterialOutput)][1..] == [Node(bsdf.id + 1, MaterialOutput)];
        (r, bsdf.id)
  }

  /** Filtering a list every element of which already passes changes nothing. */
  lemma FilterAllKept(nodes: seq<Node>, b: Node)
    requires forall i :: 0 <= i < |nodes| ==> IsOutput(nodes[i])
    requires !IsOutput(b)
    ensures Seqs.Filter(nodes + [b], IsOutput) == nodes
  {
    Seqs.FilterAppend(nodes, [b], IsOutput);
    FilterOutputs(nodes);
  }

  lemma {:induction false} FilterOutputs(nodes: seq<Node>)
    requires forall i :: 0 <= i < |nodes| ==> IsOutput(nodes[i])
    ensures Seqs.Filter(nodes, IsOutput) == nodes
    decreases |nodes|
  {
    if |nodes| > 0 {
      FilterOutputs(nodes[1..]);
    }
  }

  /** Ensuring a BSDF twice is ensuring it once: the second call finds the node the
      first one returned and changes nothing. */
  lemma EnsureBsdfIdempotent(t: Tree)
    ensures EnsureBsdf(EnsureBsdf(t).0) == EnsureBsdf(t)
  {
    var (t1, b) := EnsureBsdf(t);
    if !HasBsdf(t) {
      var k :| 0 <= k < |t1.nodes| && t1.nodes[k] == Node(b, PrincipledBsdf);
      assert HasBsdf(t1);
      var i :| 0 <= i < |t1.nodes| && IsBsdf(t1.nodes[i]) && EnsureBsdf(t1).1 == t1.nodes[i].id
        && forall j :: 0 <= j < i ==> !IsBsdf(t1.nodes[j]);
      assert t1.nodes[i] == Node(b, PrincipledBsdf);
    }
  }

  /** The tree building of `get_or_create_material` for a new material: remove every
      non-output node, add a BSDF and link it to the first output. Unlike `EnsureBsdf`
      it never creates an output, and indexing the empty list of outputs raises. */
  function RebuildWithBsdf(t: Tree): (r: Result<(Tree, nat)>)
    ensures r.Err? <==> !HasOutput(t)
    ensures r.Err? ==> r.error == IndexError
    ensures r.Ok? ==> var (t1, b) := r.value;
      Seqs.Filter(t1.nodes, IsOutput) == Seqs.Filter(t.nodes, IsOutput)
      && |t1.links| == 1 && t1.links[0].from == b
      && Seqs.Filter(t1.nodes, IsOutput) != [] && t1.links[0].to == Seqs.Filter(t1.nodes, IsOutput)[0].id
      && (exists i :: 0 <= i < |t1.nodes| && t1.nodes[i] == Node(b, PrincipledBsdf))
      && forall i :: 0 <= i < |t1.nodes| ==> IsOutput(t1.nodes[i]) || t1.nodes[i] == Node(b, PrincipledBsdf)
  {
    var kept := Seqs.Filter(t.nodes, IsOutput);
    assert HasOutput(t) <==> |kept| > 0 by {
      if HasOutput(t) {
        var i :| 0 <= i < |t.nodes| && IsOutput(t.nodes[i]);
        Seqs.FilterMembers(t.nodes, IsOutput, t.nodes[i]);
      }
      if |kept| > 0 {
        Seqs.FilterMembers(t.nodes, IsOutput, kept[0]);
      }
    }
    if |kept| == 0 then Err(IndexError)
    else
      var bsdf := Node(FreshId(t.nodes), PrincipledBsdf);
      var t1 := Tree(kept + [bsdf], [Link(bsdf.id, kept[0].id)]);
      assert t1.nodes[|kept|] == bsdf;
      FilterAllKept(kept, bsdf);
      Ok((t1, bsdf.id))
  }

  /** On a tree with an output and no BSDF, the material scripts' two ways of building
      the BSDF agree: `get_or_create_material`'s rebuild gives exactly what
      `ensure_bsdf_node` gives. */
  lemma RebuildAgreesWithEnsure(t: Tree)
    requires HasOutput(t) && !HasBsdf(t)
    ensures RebuildWithBsdf(t) == Ok(EnsureBsdf(t))
  {
    var kept := Seqs.Filter(t.nodes, IsOutput);
    var i :| 0 <= i < |t.nodes| && IsOutput(t.nodes[i]);
    Seqs.FilterMembers(t.nodes, IsOutput, t.nodes[i]);
    assert |kept| > 0;
  }

  /** With a BSDF already present they differ: the rebuild drops it and adds a new one,
      while `ensure_bsdf_node` keeps the tree as it is. */
  lemma RebuildReplacesBsdf(t: Tree)
    requires HasOutput(t) && HasBsdf(t)
    ensures RebuildWithBsdf(t).Ok? && RebuildWithBsdf(t).value.0 != EnsureBsdf(t).0
  {
    var i :| 0 <= i < |t.nodes| && IsBsdf(t.nodes[i]);
    var (t1, b) := RebuildWithBsdf(t).value;
    assert t1.nodes[|Seqs.Filter(t.nodes, IsOutput)|].id == b;
    assert FreshId(t.nodes) == b;
    assert t.nodes[i].id < b;
  }
}
