/** apply_cyber_scheme.py: find-or-create of the three scheme materials (body, accents,
    logo), each given a Principled BSDF, and the three-rule keyword pass over the meshes.
    Colour and shading values are left out; `hex_to_rgb` is HexColor. */
module CyberScheme {
  import opened Results
  import Text
  import Seqs
  import ShaderNodes
  import opened Scene
  import opened KeywordRules

  /** `find_material_by_name`: the first material in collection order whose lowered name
      contains any lowered term. */
  function FindMaterialByName(mats: seq<Material>, terms: seq<string>): (r: Option<nat>)
    ensures r.Some? ==> r.value < |mats| && Text.MatchesAny(mats[r.value].name, terms)
    ensures r.Some? ==> forall j :: 0 <= j < r.value ==> !Text.MatchesAny(mats[j].name, terms)
    ensures r.None? <==> forall j :: 0 <= j < |mats| ==> !Text.MatchesAny(mats[j].name, terms)
  {
    Seqs.FirstIndex(mats, (m: Material) => Text.MatchesAny(m.name, terms))
  }

  /** `update_*_material`: rename the first matching material to `target`, or create one
      named `target` (with the host's initial tree `initial`) when none matches; then
      ensure its BSDF. Renaming and creating both place the material by name, as the
      collection is kept sorted. Returns the collection and the position of the material. */
  function UpdateMaterial(mats: seq<Material>, terms: seq<string>, target: string,
                          initial: ShaderNodes.Tree): (r: (seq<Material>, nat))
    ensures r.1 < |r.0| && r.0[r.1].name == target && ShaderNodes.HasBsdf(r.0[r.1].tree)
    ensures FindMaterialByName(mats, terms).Some? ==>
      var i := FindMaterialByName(mats, terms).value;
      Without(r.0, r.1) == Without(mats, i) && r.1 == InsertPos(Without(mats, i), target)
      && r.0[r.1].tree == ShaderNodes.EnsureBsdf(mats[i].tree).0
    ensures FindMaterialByName(mats, terms).None? ==>
      Without(r.0, r.1) == mats && r.1 == InsertPos(mats, target)
      && r.0[r.1].tree == ShaderNodes.EnsureBsdf(initial).0
  {
    match FindMaterialByName(mats, terms)
    case Some(i) =>
      var (t, b) := ShaderNodes.EnsureBsdf(mats[i].tree);
      assert ShaderNodes.IsBsdf(ShaderNodes.Node(b, ShaderNodes.PrincipledBsdf));
      Insert(Without(mats, i), Material(target, t))
    case None =>
      var (t, b) := ShaderNodes.EnsureBsdf(initial);
      assert ShaderNodes.IsBsdf(ShaderNodes.Node(b, ShaderNodes.PrincipledBsdf));
      Insert(mats, Material(target, t))
  }

  /** Every matching material other than the first one sorts after `target`. */
  predicate OthersSortAfter(mats: seq<Material>, terms: seq<string>, target: string) {
    forall j :: 0 <= j < |mats| && Text.MatchesAny(mats[j].name, terms) ==>
      FindMaterialByName(mats, terms) == Some(j) || !NameLe(mats[j].name, target)
  }

  /** A material placed by name into a sorted collection is the first match for the
      terms when every other matching material sorts after it. */
  lemma PlacedFirst(rest: seq<Material>, m: Material, terms: seq<string>)
    requires SortedByName(rest) && Text.MatchesAny(m.name, terms)
    requires forall j :: 0 <= j < |rest| && Text.MatchesAny(rest[j].name, terms) ==> !NameLe(rest[j].name, m.name)
    ensures FindMaterialByName(Insert(rest, m).0, terms) == Some(Insert(rest, m).1)
  {
    var m1, p := Insert(rest, m).0, Insert(rest, m).1;
    InsertPosSplits(rest, m.name);
    assert forall j :: 0 <= j < p ==> m1[j] == rest[j] && NameLe(rest[j].name, m.name);
    Seqs.FirstIndexUnique(m1, (x: Material) => Text.MatchesAny(x.name, terms), p);
  }

  /** Running an update twice is running it once, when the new name itself matches one
      of the search terms (as all three scheme names do), the collection is sorted, and
      every other matching material sorts after the new name: the second run then finds
      the material the first one placed, and its BSDF is already there. */
  lemma UpdateIdempotent(mats: seq<Material>, terms: seq<string>, target: string, initial: ShaderNodes.Tree)
    requires Text.MatchesAny(target, terms) && SortedByName(mats)
    requires OthersSortAfter(mats, terms, target)
    ensures var once := UpdateMaterial(mats, terms, target, initial);
      UpdateMaterial(once.0, terms, target, initial) == once
  {
    var found := FindMaterialByName(mats, terms);
    var rest := if found.Some? then Without(mats, found.value) else mats;
    var t0 := if found.Some? then mats[found.value].tree else initial;
    var t := ShaderNodes.EnsureBsdf(t0).0;
    assert UpdateMaterial(mats, terms, target, initial) == Insert(rest, Material(target, t));
    assert SortedByName(rest) by {
      if found.Some? {
        WithoutKeepsSorted(mats, found.value);
      }
    }
    forall j | 0 <= j < |rest| && Text.MatchesAny(rest[j].name, terms)
      ensures !NameLe(rest[j].name, target)
    {
      var k := if found.Some? && j >= found.value then j + 1 else j;
      assert rest[j] == mats[k] && found != Some(k);
    }
    var (m1, p) := Insert(rest, Material(target, t));
    PlacedFirst(rest, Material(target, t), terms);
    assert ShaderNodes.EnsureBsdf(m1[p].tree).0 == t by {
      ShaderNodes.EnsureBsdfIdempotent(t0);
    }
    assert UpdateMaterial(m1, terms, target, initial) == Insert(Without(m1, p), Material(target, t));
  }

  const BodyName := "Mt_Body_Anthracite"
  const AccentName := "Mt_Accent_Yellow"
  const LogoName := "Mt_Logo_Copper"
  const BodyTerms: seq<string> := ["FoundersRed", "Body", "Black", "Red"]
  const AccentTerms: seq<string> := ["Gunmetal", "Leg", "Accent", "Stand"]
  const LogoTerms: seq<string> := ["Badge", "Logo", "Text", "LaserEtch", "SilverGhost"]

  function UpdateBody(mats: seq<Material>, initial: ShaderNodes.Tree): (r: (seq<Material>, nat))
    ensures r.1 < |r.0| && r.0[r.1].name == BodyName
  {
    UpdateMaterial(mats, BodyTerms, BodyName, initial)
  }

  function UpdateAccents(mats: seq<Material>, initial: ShaderNodes.Tree): (r: (seq<Material>, nat))
    ensures r.1 < |r.0| && r.0[r.1].name == AccentName
  {
    UpdateMaterial(mats, AccentTerms, AccentName, initial)
  }

  function UpdateLogo(mats: seq<Material>, initial: ShaderNodes.Tree): (r: (seq<Material>, nat))
    ensures r.1 < |r.0| && r.0[r.1].name == LogoName
  {
    UpdateMaterial(mats, LogoTerms, LogoName, initial)
  }

  /** "Mt_Body_Anthracite" contains "body", so rerunning the body update is harmless as
      long as every other body, black or red material sorts after that name. */
  lemma UpdateBodyIdempotent(mats: seq<Material>, initial: ShaderNodes.Tree)
    requires SortedByName(mats)
    requires OthersSortAfter(mats, BodyTerms, BodyName)
    ensures UpdateBody(UpdateBody(mats, initial).0, initial) == UpdateBody(mats, initial)
  {
    var l := Text.Lower(BodyName);
    assert l[3..7] == Text.Lower("Body");
    Text.ContainsAt(l, Text.Lower("Body"), 3);
    assert BodyTerms[1] == "Body";
    UpdateIdempotent(mats, BodyTerms, BodyName, initial);
  }

  /** Without the ordering condition a rerun is not harmless: in the sorted collection
      "Black_B", "Body_A" the first run renames "Black_B", which then sorts after
      "Body_A", so the second run renames "Body_A" too. */
  lemma RerunRenamesAnother(t: ShaderNodes.Tree, initial: ShaderNodes.Tree)
    ensures var mats := [Material("Black_B", t), Material("Body_A", t)];
      var once := UpdateBody(mats, initial);
      SortedByName(mats)
      && once.0[0].name == "Body_A" && once.1 == 1
      && UpdateBody(once.0, initial).0 != once.0
  {
    var mats := [Material("Black_B", t), Material("Body_A", t)];
    ExampleSorted(t);
    var once := ExampleFirstRun(t, initial);
    ExampleSecondRun(once.0, initial);
  }

  lemma ExampleSecondRun(mats: seq<Material>, initial: ShaderNodes.Tree)
    requires |mats| == 2 && mats[0].name == "Body_A" && mats[1].name == BodyName
    ensures UpdateBody(mats, initial).0 != mats
  {
    ExampleBodyAMatches();
    Seqs.FirstIndexUnique(mats, (m: Material) => Text.MatchesAny(m.name, BodyTerms), 0);
    assert FindMaterialByName(mats, BodyTerms) == Some(0);
    RenamedLeavesOthers(mats, initial);
    assert |mats[0].name| != |BodyName|;
  }

  /** When the first material is the one renamed, the result holds the target and the
      second material, so neither entry keeps the first one's name. */
  lemma RenamedLeavesOthers(mats: seq<Material>, initial: ShaderNodes.Tree)
    requires |mats| == 2 && mats[1].name == BodyName
    requires FindMaterialByName(mats, BodyTerms) == Some(0)
    ensures UpdateBody(mats, initial).0[0].name == BodyName
  {
    var twice := UpdateMaterial(mats, BodyTerms, BodyName, initial);
    assert Without(mats, 0) == [mats[1]];
    assert Without(twice.0, twice.1) == [mats[1]];
    if twice.1 != 0 {
      assert twice.0[0] == Without(twice.0, twice.1)[0];
    }
  }

  lemma ExampleSorted(t: ShaderNodes.Tree)
    ensures SortedByName([Material("Black_B", t), Material("Body_A", t)])
  {
    assert Text.Lower("Black_B") == "black_b" && Text.Lower("Body_A") == "body_a";
    assert Text.LexLe("lack_b", "ody_a");
  }

  lemma ExampleBodyAMatches()
    ensures Text.MatchesAny("Body_A", BodyTerms)
  {
    assert Text.Lower("Body_A") == "body_a" && Text.Lower(BodyTerms[1]) == "body";
    Text.ContainsAt("body_a", "body", 0);
  }

  lemma ExampleBlackBMatches()
    ensures Text.MatchesAny("Black_B", BodyTerms)
  {
    assert Text.Lower("Black_B") == "black_b" && Text.Lower(BodyTerms[2]) == "black";
    Text.ContainsAt("black_b", "black", 0);
  }

  lemma ExampleFirstRun(t: ShaderNodes.Tree, initial: ShaderNodes.Tree) returns (once: (seq<Material>, nat))
    ensures once == UpdateBody([Material("Black_B", t), Material("Body_A", t)], initial)
    ensures |once.0| == 2 && once.1 == 1
    ensures once.0[0] == Material("Body_A", t) && once.0[1].name == BodyName
  {
    var mats := [Material("Black_B", t), Material("Body_A", t)];
    ExampleBlackBMatches();
    Seqs.FirstIndexUnique(mats, (m: Material) => Text.MatchesAny(m.name, BodyTerms), 0);
    assert Without(mats, 0) == [Material("Body_A", t)];
    assert NameLe("Body_A", BodyName) by {
      assert Text.Lower("Body_A")[0] == 'b' && Text.Lower(BodyName)[0] == 'm';
    }
    once := UpdateBody(mats, initial);
  }

  /** The object pass: body before accent before logo. */
  const CyberRules: seq<Rule> := [
    Rule(BodyName, ["chassis", "body", "main", "case"]),
    Rule(AccentName, ["leg", "end_cap", "connector", "accent", "stand", "guide", "plate"]),
    Rule(LogoName, ["badge", "logo", "text"])
  ]

  const AppliedKeys: seq<string> := ["body", "accent", "logo"]

  /** `apply_materials_to_objects`: the scene after the pass and the `applied` dict as
      (key, count) pairs with exactly the keys body, accent and logo. */
  method ApplyMaterialsToObjects(objs: seq<Obj>, mats: seq<Material>)
    returns (out: seq<Obj>, applied: seq<(string, nat)>)
    ensures |out| == |objs|
    ensures forall i :: 0 <= i < |objs| ==> out[i] == Apply(objs[i], CyberRules, mats)
    ensures |applied| == 3
    ensures forall j :: 0 <= j < 3 ==> applied[j].0 == AppliedKeys[j]
    ensures forall j :: 0 <= j < 3 ==>
      applied[j].1 == Seqs.Count(Decisions(objs, CyberRules, mats), (d: Option<nat>) => d == Some(j))
    ensures Seqs.Sum(seq(3, j requires 0 <= j < 3 => applied[j].1)) <= Seqs.Count(objs, IsMesh)
  {
    var counts;
    out, counts := AssignByRules(objs, CyberRules, mats);
    applied := seq(3, j requires 0 <= j < 3 => (AppliedKeys[j], counts[j]));
    forall j | 0 <= j < 3
      ensures applied[j].1 == Seqs.Count(Decisions(objs, CyberRules, mats), (d: Option<nat>) => d == Some(j))
    {
      TallyCount(Decisions(objs, CyberRules, mats), |CyberRules|, j);
    }
    DecisionsAtMostMeshes(objs, CyberRules, mats);
    assert seq(3, j requires 0 <= j < 3 => applied[j].1) == counts;
  }

  /** An object matching a body keyword is never given the accent or logo material. */
  lemma BodyExcludesOthers(o: Obj, mats: seq<Material>)
    requires RuleMatches(CyberRules[0], o.name)
    ensures Decide(o, CyberRules, mats) != Some(1) && Decide(o, CyberRules, mats) != Some(2)
  {
    Priority(o, CyberRules, mats, 0, 1);
    Priority(o, CyberRules, mats, 0, 2);
  }
}
