/** apply_materials.py: a keyword pass over the meshes (red, then gunmetal, then badge),
    followed by a size-based fallback for every mesh the keyword pass did not assign:
    the largest gets red, the smallest flat one gets the badge material, and the rest get
    gunmetal or are reported unassigned. World-space extents are inputs: the bounding-box
    transform that produces them is left out. */
module FallbackMaterials {
  import opened Results
  import Text
  import Seqs
  import opened Scene

  /** A mesh's world extents along the three axes. */
  datatype Dims = Dims(dx: real, dy: real, dz: real)

  datatype Part = Part(obj: Obj, dims: Dims)

  datatype Category = Red | Gun | Badge

  datatype Counts = Counts(red: nat, gun: nat, badge: nat)

  /** What the function leaves behind: the meshes as assigned, the three counters and
      the returned list of unassigned names. */
  datatype Outcome = Outcome(meshes: seq<Part>, counts: Counts, unassigned: seq<string>)

  const RedName := "Mt_FoundersRed"
  const GunName := "Mt_Gunmetal"
  const BadgeName := "Mt_BadgeSteel"
  const RedKeywords: seq<string> := ["Body", "Chassis", "Main", "Case"]
  const GunKeywords: seq<string> := ["Leg", "Stand", "Screw", "Bolt", "USB", "Port", "Accent"]
  const BadgeKeywords: seq<string> := ["Badge", "Logo", "Text"]

  /** `ensure_material_on_object`: nothing happens for an object that is not a mesh or
      a material that does not exist; otherwise slot 0 is set and True returned. */
  function EnsureMaterialOnObject(o: Obj, m: Option<string>): (r: (bool, Obj))
    ensures r.0 <==> IsMesh(o) && m.Some?
    ensures !r.0 ==> r.1 == o
    ensures r.0 ==> r.1.name == o.name && r.1.kind == o.kind && r.1.slots == SetSlotZero(o.slots, m.value)
  {
    if !IsMesh(o) || m.None? then (false, o) else (true, Assign(o, m.value))
  }

  function Lookup(mats: seq<Material>, name: string): (r: Option<string>)
    ensures r.Some? <==> HasMaterial(mats, name)
    ensures r.Some? ==> r.value == name
  {
    if GetMaterial(mats, name).Some? then Some(name) else None
  }

  function MaterialName(c: Category): string {
    match c
    case Red => RedName
    case Gun => GunName
    case Badge => BadgeName
  }

  /** The keyword category of a name: red before gunmetal before badge. */
  function KeywordCategory(name: string): (r: Option<Category>)
    ensures r == Some(Red) <==> Text.MatchesAny(name, RedKeywords)
    ensures r == Some(Gun) <==> !Text.MatchesAny(name, RedKeywords) && Text.MatchesAny(name, GunKeywords)
    ensures r == Some(Badge) <==> !Text.MatchesAny(name, RedKeywords) && !Text.MatchesAny(name, GunKeywords)
                                   && Text.MatchesAny(name, BadgeKeywords)
  {
    if Text.MatchesAny(name, RedKeywords) then Some(Red)
    else if Text.MatchesAny(name, GunKeywords) then Some(Gun)
    else if Text.MatchesAny(name, BadgeKeywords) then Some(Badge)
    else None
  }

  /** The keyword pass assigned this mesh: it has a category and that material exists. */
  predicate KeywordDone(p: Part, mats: seq<Material>) {
    KeywordCategory(p.obj.name).Some? && HasMaterial(mats, MaterialName(KeywordCategory(p.obj.name).value))
  }

  /** The keyword pass matched this mesh but could not assign it. */
  predicate KeywordFailed(p: Part, mats: seq<Material>) {
    KeywordCategory(p.obj.name).Some? && !KeywordDone(p, mats)
  }

  function AfterKeyword(p: Part, mats: seq<Material>): (r: Part)
    ensures r.dims == p.dims && r.obj.name == p.obj.name
  {
    if KeywordDone(p, mats) then p.(obj := Assign(p.obj, MaterialName(KeywordCategory(p.obj.name).value))) else p
  }

  /** The volume used for ranking: negative extents count as zero. */
  function Volume(d: Dims): (v: real)
    ensures v >= 0.0
  {
    (if d.dx > 0.0 then d.dx else 0.0) * (if d.dy > 0.0 then d.dy else 0.0) * (if d.dz > 0.0 then d.dz else 0.0)
  }

  function Max3(a: real, b: real, c: real): (m: real)
    ensures m >= a && m >= b && m >= c && (m == a || m == b || m == c)
  {
    if a >= b && a >= c then a else if b >= c then b else c
  }

  function Min3(a: real, b: real, c: real): (m: real)
    ensures m <= a && m <= b && m <= c && (m == a || m == b || m == c)
  {
    if a <= b && a <= c then a else if b <= c then b else c
  }

  /** A badge candidate's shape: a non-zero largest extent and a smallest-to-largest
      extent ratio under 0.02. */
  predicate IsPlanar(d: Dims) {
    var hi := Max3(d.dx, d.dy, d.dz);
    hi != 0.0 && Min3(d.dx, d.dy, d.dz) / hi < 0.02
  }

  /** The remaining pool: positions of meshes whose name the keyword pass did not assign. */
  function Remaining(meshes: seq<Part>, mats: seq<Material>): (r: seq<nat>)
    ensures forall k :: 0 <= k < |r| ==> r[k] < |meshes|
  {
    var done := DoneNames(meshes, mats);
    Seqs.Filter(Seqs.Indices(|meshes|), (i: nat) => i < |meshes| && meshes[i].obj.name !in done)
  }

  function DoneNames(meshes: seq<Part>, mats: seq<Material>): set<string> {
    set i | 0 <= i < |meshes| && KeywordDone(meshes[i], mats) :: meshes[i].obj.name
  }

  function VolumeAt(meshes: seq<Part>): nat -> real {
    (i: nat) => if i < |meshes| then Volume(meshes[i].dims) else 0.0
  }

  /** `max(sized, key=volume)`: the first remaining mesh of largest volume. */
  function PickBody(meshes: seq<Part>, pool: seq<nat>): (b: nat)
    requires |pool| > 0 && forall k :: 0 <= k < |pool| ==> pool[k] < |meshes|
    ensures b in pool
    ensures forall k :: 0 <= k < |pool| ==> Volume(meshes[pool[k]].dims) <= Volume(meshes[b].dims)
    ensures exists k :: 0 <= k < |pool| && pool[k] == b && forall j :: 0 <= j < k ==> Volume(meshes[pool[j]].dims) < Volume(meshes[b].dims)
  {
    var k := Seqs.ArgMaxBy(pool, VolumeAt(meshes));
    pool[k]
  }

  /** The badge candidates: pool meshes not named like the body whose shape is flat. */
  function Planar(meshes: seq<Part>, pool: seq<nat>, bodyName: string): (r: seq<nat>)
    requires forall k :: 0 <= k < |pool| ==> pool[k] < |meshes|
    ensures forall k :: 0 <= k < |r| ==> r[k] < |meshes|
    ensures forall i: nat :: i in r <==> i in pool && meshes[i].obj.name != bodyName && IsPlanar(meshes[i].dims)
  {
    var r := Seqs.Filter(pool, (i: nat) => i < |meshes| && meshes[i].obj.name != bodyName && IsPlanar(meshes[i].dims));
    forall i: nat ensures i in r <==> i in pool && meshes[i].obj.name != bodyName && IsPlanar(meshes[i].dims) {
      Seqs.FilterMembers(pool, (i: nat) => i < |meshes| && meshes[i].obj.name != bodyName && IsPlanar(meshes[i].dims), i);
    }
    r
  }

  /** `min(planar_candidates, key=volume)`: the first flat candidate of smallest volume. */
  function PickBadge(meshes: seq<Part>, planar: seq<nat>): (b: nat)
    requires |planar| > 0 && forall k :: 0 <= k < |planar| ==> planar[k] < |meshes|
    ensures b in planar
    ensures forall k :: 0 <= k < |planar| ==> Volume(meshes[b].dims) <= Volume(meshes[planar[k]].dims)
    ensures exists k :: 0 <= k < |planar| && planar[k] == b && forall j :: 0 <= j < k ==> Volume(meshes[b].dims) < Volume(meshes[planar[j]].dims)
  {
    var k := Seqs.ArgMinBy(planar, VolumeAt(meshes));
    planar[k]
  }

  function WithoutName(meshes: seq<Part>, pool: seq<nat>, name: string): (r: seq<nat>)
    requires forall k :: 0 <= k < |pool| ==> pool[k] < |meshes|
    ensures forall k :: 0 <= k < |r| ==> r[k] < |meshes|
    ensures forall i: nat :: i in r <==> i in pool && meshes[i].obj.name != name
  {
    var p := (i: nat) => i < |meshes| && meshes[i].obj.name != name;
    forall i: nat ensures i in Seqs.Filter(pool, p) <==> i in pool && meshes[i].obj.name != name {
      Seqs.FilterMembers(pool, p, i);
    }
    Seqs.Filter(pool, p)
  }

  function AssignAt(meshes: seq<Part>, i: nat, m: string): (r: seq<Part>)
    requires i < |meshes|
    ensures |r| == |meshes|
  {
    meshes[i := meshes[i].(obj := Assign(meshes[i].obj, m))]
  }

  /** Give material `m` to every mesh of `pool`. */
  function AssignAll(meshes: seq<Part>, pool: seq<nat>, m: string): (r: seq<Part>)
    requires forall k :: 0 <= k < |pool| ==> pool[k] < |meshes|
    ensures |r| == |meshes|
    ensures forall i :: 0 <= i < |meshes| && i in pool ==> r[i] == meshes[i].(obj := Assign(meshes[i].obj, m))
    ensures forall i :: 0 <= i < |meshes| && i !in pool ==> r[i] == meshes[i]
  {
    if |pool| == 0 then meshes
    else
      var rest := AssignAll(meshes, pool[1..], m);
      assert forall i :: i in pool <==> i == pool[0] || i in pool[1..];
      if pool[0] in pool[1..] then rest
      else rest[pool[0] := meshes[pool[0]].(obj := Assign(meshes[pool[0]].obj, m))]
  }

  /** Who gets what in the fallback: the body, the badge (if there is a flat
      candidate), whether their materials exist, and the pool left for gunmetal. */
  datatype Plan = Plan(body: nat, badge: Option<nat>, redOk: bool, badgeOk: bool, rest: seq<nat>)

  function PlanFallback(meshes: seq<Part>, pool: seq<nat>, mats: seq<Material>): (p: Plan)
    requires |pool| > 0 && forall k :: 0 <= k < |pool| ==> pool[k] < |meshes|
    ensures p.body == PickBody(meshes, pool)
    ensures p.redOk <==> HasMaterial(mats, RedName)
    ensures var planar := Planar(meshes, pool, meshes[p.body].obj.name);
      p.badge == if |planar| > 0 then Some(PickBadge(meshes, planar)) else None
    ensures p.badgeOk <==> p.badge.Some? && HasMaterial(mats, BadgeName)
    ensures p.badge.Some? ==> p.badge.value < |meshes| && meshes[p.badge.value].obj.name != meshes[p.body].obj.name
    ensures forall k :: 0 <= k < |p.rest| ==> p.rest[k] < |meshes|
    ensures forall i: nat :: i in p.rest <==> (i in pool
                                               && (p.redOk ==> meshes[i].obj.name != meshes[p.body].obj.name)
                                               && (p.badgeOk ==> meshes[i].obj.name != meshes[p.badge.value].obj.name))
  {
    var body := PickBody(meshes, pool);
    var bodyName := meshes[body].obj.name;
    var redOk := HasMaterial(mats, RedName);
    var pool1 := if redOk then WithoutName(meshes, pool, bodyName) else pool;
    var planar := Planar(meshes, pool, bodyName);
    var badge := if |planar| > 0 then Some(PickBadge(meshes, planar)) else None;
    var badgeOk := badge.Some? && HasMaterial(mats, BadgeName);
    var rest := if badgeOk then WithoutName(meshes, pool1, meshes[badge.value].obj.name) else pool1;
    Plan(body, badge, redOk, badgeOk, rest)
  }

  /** The fallback after the keyword pass, on the pool of remaining positions. */
  function Fallback(meshes: seq<Part>, pool: seq<nat>, mats: seq<Material>, c: Counts,
                    unassigned: seq<string>): (r: Outcome)
    requires forall k :: 0 <= k < |pool| ==> pool[k] < |meshes|
    ensures |r.meshes| == |meshes|
    ensures |pool| == 0 ==> r == Outcome(meshes, c, unassigned)
    ensures |unassigned| <= |r.unassigned| && r.unassigned[..|unassigned|] == unassigned
  {
    if |pool| == 0 then Outcome(meshes, c, unassigned)
    else
      var p := PlanFallback(meshes, pool, mats);
      var m2 := Stage(meshes, p);
      var c1 := if p.redOk then c.(red := c.red + 1) else c;
      var c2 := if p.badgeOk then c1.(badge := c1.badge + 1) else c1;
      if HasMaterial(mats, GunName) then
        Outcome(AssignAll(m2, p.rest, GunName), c2.(gun := c2.gun + |p.rest|), unassigned)
      else
        Outcome(m2, c2, unassigned + Names(meshes, p.rest))
  }

  /** The body and the badge given their materials, in that order, before the
      gunmetal pass. */
  function Stage(meshes: seq<Part>, p: Plan): (r: seq<Part>)
    requires p.body < |meshes| && (p.badge.Some? ==> p.badge.value < |meshes|) && (p.badgeOk ==> p.badge.Some?)
    ensures |r| == |meshes|
    ensures forall i :: 0 <= i < |meshes| ==>
      r[i] == if p.badgeOk && i == p.badge.value then meshes[i].(obj := Assign(meshes[i].obj, BadgeName))
              else if p.redOk && i == p.body then meshes[i].(obj := Assign(meshes[i].obj, RedName))
              else meshes[i]
  {
    var m1 := if p.redOk then AssignAt(meshes, p.body, RedName) else meshes;
    if p.badgeOk then AssignAt(m1, p.badge.value, BadgeName) else m1
  }

  function Names(meshes: seq<Part>, pool: seq<nat>): (r: seq<string>)
    requires forall k :: 0 <= k < |pool| ==> pool[k] < |meshes|
    ensures |r| == |pool| && forall k :: 0 <= k < |pool| ==> r[k] == meshes[pool[k]].obj.name
  {
    seq(|pool|, k requires 0 <= k < |pool| => meshes[pool[k]].obj.name)
  }

  /** The roles of the fallback: the largest remaining mesh gets red when red exists,
      the chosen flat candidate gets the badge material when it exists, and every other
      pool mesh gets gunmetal, or its name is added to the unassigned list. */
  lemma FallbackRoles(meshes: seq<Part>, pool: seq<nat>, mats: seq<Material>, c: Counts,
                      unassigned: seq<string>, i: nat)
    requires |pool| > 0 && forall k :: 0 <= k < |pool| ==> pool[k] < |meshes|
    requires i < |meshes|
    ensures var p := PlanFallback(meshes, pool, mats);
      var r := Fallback(meshes, pool, mats, c, unassigned);
      (p.redOk && i == p.body ==> r.meshes[i].obj == Assign(meshes[i].obj, RedName))
      && (p.badgeOk && i == p.badge.value ==> r.meshes[i].obj == Assign(meshes[i].obj, BadgeName))
      && (i in p.rest && HasMaterial(mats, GunName) ==> r.meshes[i].obj == Assign(meshes[i].obj, GunName))
      && (i in p.rest && !HasMaterial(mats, GunName) ==> meshes[i].obj.name in r.unassigned)
      && (i !in pool ==> r.meshes[i] == meshes[i])
  {
    var p := PlanFallback(meshes, pool, mats);
    var r := Fallback(meshes, pool, mats, c, unassigned);
    var m2 := Stage(meshes, p);
    assert r.meshes == if HasMaterial(mats, GunName) then AssignAll(m2, p.rest, GunName) else m2;
    assert p.body in pool;
    assert p.badge.Some? ==> p.badge.value in pool by {
      if p.badge.Some? {
        assert p.badge.value in Planar(meshes, pool, meshes[p.body].obj.name);
      }
    }
    assert m2[i] == if p.badgeOk && i == p.badge.value then meshes[i].(obj := Assign(meshes[i].obj, BadgeName))
                    else if p.redOk && i == p.body then meshes[i].(obj := Assign(meshes[i].obj, RedName))
                    else meshes[i];
    if i in p.rest && !HasMaterial(mats, GunName) {
      var k :| 0 <= k < |p.rest| && p.rest[k] == i;
      assert Names(meshes, p.rest)[k] == meshes[i].obj.name;
    }
  }

  /** `assign_materials_by_keywords` over the scene's objects with their extents. */
  function AssignMaterialsByKeywords(objects: seq<Part>, mats: seq<Material>): (r: Outcome)
    ensures |r.meshes| == Seqs.Count(objects, (p: Part) => IsMesh(p.obj))
  {
    var meshes := Seqs.Filter(objects, (p: Part) => IsMesh(p.obj));
    Seqs.CountIsFilterLength(objects, (p: Part) => IsMesh(p.obj));
    var kw := Seqs.Map(meshes, (p: Part) => AfterKeyword(p, mats));
    var c := Counts(CountCategory(meshes, mats, Red), CountCategory(meshes, mats, Gun), CountCategory(meshes, mats, Badge));
    var failed := Seqs.Map(Seqs.Filter(meshes, (p: Part) => KeywordFailed(p, mats)), (p: Part) => p.obj.name);
    Fallback(kw, Remaining(meshes, mats), mats, c, failed)
  }

  function CountCategory(meshes: seq<Part>, mats: seq<Material>, cat: Category): nat {
    Seqs.Count(meshes, (p: Part) => KeywordDone(p, mats) && KeywordCategory(p.obj.name) == Some(cat))
  }

  /** The pool is exactly the meshes whose name the keyword pass did not assign: a mesh
      the pass assigned never reaches the fallback, and one whose keyword material was
      missing does, unless another mesh of the same name was assigned. */
  lemma RemainingMembers(meshes: seq<Part>, mats: seq<Material>, i: nat)
    requires i < |meshes|
    ensures i in Remaining(meshes, mats) <==>
      forall j :: 0 <= j < |meshes| && meshes[j].obj.name == meshes[i].obj.name ==> !KeywordDone(meshes[j], mats)
  {
    var done := DoneNames(meshes, mats);
    Seqs.FilterMembers(Seqs.Indices(|meshes|), (k: nat) => k < |meshes| && meshes[k].obj.name !in done, i);
    assert Seqs.Indices(|meshes|)[i] == i;
  }

  /** A mesh whose keyword material is missing is reported unassigned by the keyword pass. */
  lemma FailedReported(meshes: seq<Part>, mats: seq<Material>, i: nat)
    requires i < |meshes| && KeywordFailed(meshes[i], mats)
    ensures meshes[i].obj.name in Seqs.Map(Seqs.Filter(meshes, (p: Part) => KeywordFailed(p, mats)), (p: Part) => p.obj.name)
  {
    var failed := Seqs.Filter(meshes, (p: Part) => KeywordFailed(p, mats));
    Seqs.FilterMembers(meshes, (p: Part) => KeywordFailed(p, mats), meshes[i]);
    var k :| 0 <= k < |failed| && failed[k] == meshes[i];
    assert Seqs.Map(failed, (p: Part) => p.obj.name)[k] == meshes[i].obj.name;
  }

  /** The whole function, seen from one mesh: a mesh the keyword pass assigned keeps its
      keyword material, and one whose keyword material was missing is reported. */
  lemma KeywordOutcome(objects: seq<Part>, mats: seq<Material>, i: nat)
    requires i < |Seqs.Filter(objects, (p: Part) => IsMesh(p.obj))|
    ensures var m := Seqs.Filter(objects, (p: Part) => IsMesh(p.obj))[i];
      var r := AssignMaterialsByKeywords(objects, mats);
      (KeywordDone(m, mats) ==> r.meshes[i].obj == Assign(m.obj, MaterialName(KeywordCategory(m.obj.name).value)))
      && (KeywordFailed(m, mats) ==> m.obj.name in r.unassigned)
  {
    var meshes := Seqs.Filter(objects, (p: Part) => IsMesh(p.obj));
    var kw := Seqs.Map(meshes, (p: Part) => AfterKeyword(p, mats));
    var pool := Remaining(meshes, mats);
    var c := Counts(CountCategory(meshes, mats, Red), CountCategory(meshes, mats, Gun), CountCategory(meshes, mats, Badge));
    var failed := Seqs.Map(Seqs.Filter(meshes, (p: Part) => KeywordFailed(p, mats)), (p: Part) => p.obj.name);
    var r := Fallback(kw, pool, mats, c, failed);
    assert r == AssignMaterialsByKeywords(objects, mats);
    if KeywordDone(meshes[i], mats) {
      RemainingMembers(meshes, mats, i);
      if |pool| > 0 {
        FallbackRoles(kw, pool, mats, c, failed, i);
      }
    }
    if KeywordFailed(meshes[i], mats) {
      FailedReported(meshes, mats, i);
      var k :| 0 <= k < |failed| && failed[k] == meshes[i].obj.name;
      assert r.unassigned[..|failed|][k] == failed[k];
    }
  }
}
