/** `assign_materials_by_keyword` of K1_MASTER_BUILD.py: the five-rule keyword table
    applied to every mesh, returning the per-material counters. */
module MasterBuild {
  import opened Results
  import Text
  import Seqs
  import opened Scene
  import opened KeywordRules

  const BodyMaterial := "Mt_Body_Anthracite"

  /** The rule table in its declared order, which decides priority. */
  const K1Rules: seq<Rule> := [
    Rule(BodyMaterial, ["body", "chassis", "main"]),
    Rule("Mt_Accent_Yellow", ["leg", "stand", "end", "yellow"]),
    Rule("Mt_Logo_Copper", ["logo", "text", "badge"]),
    Rule("Mt_Satin_Silver", ["connect", "bridge", "middle"]),
    Rule("Mt_SilverGhost", ["guide", "plate", "lgp"])
  ]

  /** The scene after the pass and the returned `assigned` dict, as (material, count)
      pairs in the table's order. */
  method AssignMaterialsByKeyword(objs: seq<Obj>, mats: seq<Material>)
    returns (out: seq<Obj>, tally: seq<(string, nat)>)
    ensures |out| == |objs|
    ensures forall i :: 0 <= i < |objs| ==> out[i] == Apply(objs[i], K1Rules, mats)
    ensures |tally| == |K1Rules| == 5
    ensures forall j :: 0 <= j < 5 ==> tally[j].0 == K1Rules[j].material
    ensures forall j :: 0 <= j < 5 ==>
      tally[j].1 == Seqs.Count(Decisions(objs, K1Rules, mats), (d: Option<nat>) => d == Some(j))
    ensures Seqs.Sum(seq(5, j requires 0 <= j < 5 => tally[j].1)) <= Seqs.Count(objs, IsMesh)
  {
    var counts;
    out, counts := AssignByRules(objs, K1Rules, mats);
    tally := seq(5, j requires 0 <= j < 5 => (K1Rules[j].material, counts[j]));
    forall j | 0 <= j < 5
      ensures tally[j].1 == Seqs.Count(Decisions(objs, K1Rules, mats), (d: Option<nat>) => d == Some(j))
    {
      TallyCount(Decisions(objs, K1Rules, mats), |K1Rules|, j);
    }
    DecisionsAtMostMeshes(objs, K1Rules, mats);
    assert seq(5, j requires 0 <= j < 5 => tally[j].1) == counts;
  }

  /** A mesh whose name contains "body" in any letter case takes the body material
      whenever it exists, whatever other keywords the name holds. */
  lemma BodyKeywordWins(o: Obj, mats: seq<Material>)
    requires IsMesh(o) && Text.Contains(Text.Lower(o.name), "body")
    requires HasMaterial(mats, BodyMaterial)
    ensures var r := Apply(o, K1Rules, mats); |r.slots| > 0 && r.slots[0] == BodyMaterial
  {
    assert K1Rules[0].keywords[0] == "body";
    assert RuleMatches(K1Rules[0], o.name);
    Seqs.FirstIndexUnique(K1Rules, (rule: Rule) => RuleMatches(rule, o.name), 0);
  }
}
