/** fix_connector.py: the Satin Silver material is fetched or created (and given a
    Principled BSDF), then applied to every mesh whose name marks it as a connector and
    not as one of the parts the script must leave alone. */
module Connector {
  import opened Results
  import Text
  import Seqs
  import ShaderNodes
  import opened Scene

  const SatinSilver := "Mt_Satin_Silver"
  const ConnectorKeywords: seq<string> := ["connect", "bridge", "middle", "center", "bracket", "join"]
  const ExcludeKeywords: seq<string> := ["logo", "text", "body", "leg", "leg", "yellow", "badge"]

  /** `is_connector`: a connector keyword occurs in the lowered name and no exclude
      keyword does. */
  predicate IsConnector(name: string) {
    Text.AnyContains(Text.Lower(name), ConnectorKeywords) && !Text.AnyContains(Text.Lower(name), ExcludeKeywords)
  }

  /** Exclusion dominates: a name holding an exclude keyword is never a connector, whatever
      connector keywords it also holds. */
  lemma ExclusionDominates(name: string, k: nat, at: nat)
    requires k < |ExcludeKeywords| && Text.OccursAt(Text.Lower(name), ExcludeKeywords[k], at)
    ensures !IsConnector(name)
  {
    Text.ContainsAt(Text.Lower(name), ExcludeKeywords[k], at);
  }

  /** "logo_bridge" holds "bridge" but also "logo", so it is not a connector. */
  lemma LogoBridgeExcluded()
    ensures !IsConnector("logo_bridge")
  {
    var l := Text.Lower("logo_bridge");
    assert l[0..4] == "logo";
    ExclusionDominates("logo_bridge", 0, 0);
  }

  /** `create_satin_silver_material`: an existing material of that name is reused (and
      given a BSDF if it lacks one); otherwise one is created and placed by name. */
  function CreateSatinSilver(mats: seq<Material>, initial: ShaderNodes.Tree): (r: (seq<Material>, nat))
    ensures r.1 < |r.0| && r.0[r.1].name == SatinSilver && ShaderNodes.HasBsdf(r.0[r.1].tree)
    ensures HasMaterial(mats, SatinSilver) ==>
      |r.0| == |mats| && forall j :: 0 <= j < |mats| && j != r.1 ==> r.0[j] == mats[j]
    ensures !HasMaterial(mats, SatinSilver) ==> r.1 == InsertPos(mats, SatinSilver) && Without(r.0, r.1) == mats
    ensures CountNamed(r.0, SatinSilver) == if CountNamed(mats, SatinSilver) == 0 then 1 else CountNamed(mats, SatinSilver)
  {
    match GetMaterial(mats, SatinSilver)
    case Some(i) =>
      var (t, b) := ShaderNodes.EnsureBsdf(mats[i].tree);
      assert ShaderNodes.IsBsdf(ShaderNodes.Node(b, ShaderNodes.PrincipledBsdf));
      var r := mats[i := Material(SatinSilver, t)];
      CountPositive(mats, SatinSilver, i);
      CountReplace(mats, i, Material(SatinSilver, t), SatinSilver);
      (r, i)
    case None =>
      var (t, b) := ShaderNodes.EnsureBsdf(initial);
      assert ShaderNodes.IsBsdf(ShaderNodes.Node(b, ShaderNodes.PrincipledBsdf));
      var r := Insert(mats, Material(SatinSilver, t));
      CountNone(mats, SatinSilver);
      CountInsertFresh(mats, r.0, r.1, SatinSilver);
      r
  }

  /** Replacing a material by one of the same name keeps the count of that name. */
  lemma {:induction false} CountReplace(mats: seq<Material>, i: nat, m: Material, name: string)
    requires i < |mats| && mats[i].name == m.name
    ensures CountNamed(mats[i := m], name) == CountNamed(mats, name)
    decreases |mats|
  {
    if i > 0 {
      assert mats[i := m][1..] == mats[1..][i - 1 := m];
      CountReplace(mats[1..], i - 1, m, name);
    }
  }

  /** `apply_satin_silver_to_connectors`: with the material missing nothing changes and
      the list is empty; otherwise every connector mesh gets it in slot 0 and the
      returned list holds their names in iteration order. */
  method ApplySatinSilver(objs: seq<Obj>, mats: seq<Material>) returns (out: seq<Obj>, applied: seq<string>)
    ensures !HasMaterial(mats, SatinSilver) ==> out == objs && applied == []
    ensures HasMaterial(mats, SatinSilver) ==> out == AssignWhere(objs, IsConnector, SatinSilver)
    ensures HasMaterial(mats, SatinSilver) ==>
      applied == Seqs.Map(Seqs.Filter(objs, IsConnectorMesh), NameOf)
  {
    if GetMaterial(mats, SatinSilver).None? {
      return objs, [];
    }
    out := [];
    applied := [];
    var i := 0;
    while i < |objs|
      invariant 0 <= i <= |objs|
      invariant out == AssignWhere(objs[..i], IsConnector, SatinSilver)
      invariant applied == Seqs.Map(Seqs.Filter(objs[..i], IsConnectorMesh), NameOf)
    {
      var o := objs[i];
      Seqs.FilterMapSnoc(objs, i, IsConnectorMesh, NameOf);
      AssignWhereSnoc(objs, i, IsConnector, SatinSilver);
      if IsMesh(o) && IsConnector(o.name) {
        out := out + [Assign(o, SatinSilver)];
        applied := applied + [o.name];
      } else {
        out := out + [o];
      }
      i := i + 1;
    }
    assert objs[..i] == objs;
  }

  predicate IsConnectorMesh(o: Obj) {
    IsMesh(o) && IsConnector(o.name)
  }

  /** The returned list names exactly the connector meshes. */
  lemma AppliedNames(objs: seq<Obj>, name: string)
    ensures name in Seqs.Map(Seqs.Filter(objs, IsConnectorMesh), NameOf) <==>
      exists i :: 0 <= i < |objs| && IsConnectorMesh(objs[i]) && objs[i].name == name
  {
    Seqs.FilterMapMembers(objs, IsConnectorMesh, NameOf, name);
  }
}
