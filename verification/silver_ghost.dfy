/** fix_silver_ghost.py: get-or-create of the light-guide material, its application to
    every mesh named like a guide plate, and the hero camera's aperture. Colour and
    shading inputs are left out. */
module SilverGhost {
  import opened Results
  import Text
  import ShaderNodes
  import opened Scene

  const SilverGhostName := "Mt_SilverGhost"
  const TargetKeys: seq<string> := ["guide", "plate", "lgp", "diffuser"]
  const HeroCamera := "Cam_Hero_1"
  const HeroFstop: real := 16.0

  /** `matches`: one of the target keys occurs in the lowered name. */
  predicate Matches(name: string) {
    Text.AnyContains(Text.Lower(name), TargetKeys)
  }

  /** The tree work done on a newly created material. */
  function Build(t: ShaderNodes.Tree): (r: Result<ShaderNodes.Tree>)
    ensures r.Err? <==> !ShaderNodes.HasOutput(t)
    ensures r.Err? ==> r.error == IndexError
    ensures r.Ok? ==> ShaderNodes.HasBsdf(r.value) && |r.value.links| == 1
  {
    match ShaderNodes.RebuildWithBsdf(t)
    case Err(e) => Err(e)
    case Ok((t1, b)) =>
      assert exists i :: 0 <= i < |t1.nodes| && t1.nodes[i] == ShaderNodes.Node(b, ShaderNodes.PrincipledBsdf);
      var i :| 0 <= i < |t1.nodes| && t1.nodes[i] == ShaderNodes.Node(b, ShaderNodes.PrincipledBsdf);
      assert ShaderNodes.IsBsdf(t1.nodes[i]);
      Ok(t1)
  }

  /** `get_or_create_material`: an existing "Mt_SilverGhost" is returned untouched; a new
      one gets the rebuilt tree, and raises IndexError when the host's initial tree has no
      output node. */
  function GetOrCreateMaterial(mats: seq<Material>, initial: ShaderNodes.Tree): (r: Result<(seq<Material>, nat)>)
    ensures HasMaterial(mats, SilverGhostName) ==> r == Ok((mats, GetMaterial(mats, SilverGhostName).value))
    ensures !HasMaterial(mats, SilverGhostName) ==> (r.Err? <==> !ShaderNodes.HasOutput(initial))
    ensures r.Err? ==> r.error == IndexError
    ensures r.Ok? ==> r.value.1 < |r.value.0| && r.value.0[r.value.1].name == SilverGhostName
    ensures !HasMaterial(mats, SilverGhostName) && r.Ok? ==>
      r.value.1 == InsertPos(mats, SilverGhostName) && Without(r.value.0, r.value.1) == mats
      && ShaderNodes.HasBsdf(r.value.0[r.value.1].tree)
  {
    GetOrCreate(mats, SilverGhostName, initial, Build)
  }

  /** Running it again on its own result finds the material it created. */
  lemma GetOrCreateMaterialIdempotent(mats: seq<Material>, initial: ShaderNodes.Tree)
    requires GetOrCreateMaterial(mats, initial).Ok?
    ensures var once := GetOrCreateMaterial(mats, initial).value;
      GetOrCreateMaterial(once.0, initial) == Ok(once)
  {
    Scene.GetOrCreateIdempotent(mats, SilverGhostName, initial, Build);
  }

  /** Never a second "Mt_SilverGhost". */
  lemma NoDuplicate(mats: seq<Material>, initial: ShaderNodes.Tree)
    requires GetOrCreateMaterial(mats, initial).Ok?
    ensures CountNamed(GetOrCreateMaterial(mats, initial).value.0, SilverGhostName) ==
      if CountNamed(mats, SilverGhostName) == 0 then 1 else CountNamed(mats, SilverGhostName)
  {
    GetOrCreateNoDuplicate(mats, SilverGhostName, initial, Build);
  }

  /** `apply_material_to_targets`: the material collection after the get-or-create and the
      objects after every matching mesh got the material in slot 0. */
  function ApplyMaterialToTargets(objs: seq<Obj>, mats: seq<Material>, initial: ShaderNodes.Tree)
    : (r: Result<(seq<Material>, seq<Obj>)>)
    ensures r.Err? <==> GetOrCreateMaterial(mats, initial).Err?
    ensures r.Ok? ==> HasMaterial(r.value.0, SilverGhostName) && |r.value.1| == |objs|
    ensures r.Ok? ==> forall i :: 0 <= i < |objs| && IsMesh(objs[i]) && Matches(objs[i].name) ==>
      r.value.1[i] == Assign(objs[i], SilverGhostName)
    ensures r.Ok? ==> forall i :: 0 <= i < |objs| && !(IsMesh(objs[i]) && Matches(objs[i].name)) ==>
      r.value.1[i] == objs[i]
  {
    match GetOrCreateMaterial(mats, initial)
    case Err(e) => Err(e)
    case Ok((m2, k)) =>
      assert m2[k].name == SilverGhostName;
      Ok((m2, AssignWhere(objs, Matches, SilverGhostName)))
  }

  /** A second run leaves everything as the first one left it. */
  lemma ApplyIdempotent(objs: seq<Obj>, mats: seq<Material>, initial: ShaderNodes.Tree)
    requires ApplyMaterialToTargets(objs, mats, initial).Ok?
    ensures var once := ApplyMaterialToTargets(objs, mats, initial).value;
      ApplyMaterialToTargets(once.1, once.0, initial) == Ok(once)
  {
    GetOrCreateMaterialIdempotent(mats, initial);
    AssignWhereIdempotent(objs, Matches, SilverGhostName);
  }

  /** `set_camera_aperture`: only an object named "Cam_Hero_1" that is a camera gets depth
      of field switched on at f/16; every other object, and the scene without such a
      camera, is left as it is. */
  function SetCameraAperture(objs: seq<Obj>): (r: seq<Obj>)
    ensures |r| == |objs|
    ensures forall j :: 0 <= j < |objs| ==> r[j].name == objs[j].name && r[j].slots == objs[j].slots
    ensures forall j :: 0 <= j < |objs| && r[j] != objs[j] ==>
      GetObject(objs, HeroCamera) == Some(j) && objs[j].kind.Camera?
    ensures GetObject(objs, HeroCamera).Some? && objs[GetObject(objs, HeroCamera).value].kind.Camera? ==>
      r[GetObject(objs, HeroCamera).value].kind == Camera(true, HeroFstop)
  {
    match GetObject(objs, HeroCamera)
    case None => objs
    case Some(i) =>
      if objs[i].kind.Camera? then objs[i := objs[i].(kind := Camera(true, HeroFstop))] else objs
  }

  lemma SetCameraApertureIdempotent(objs: seq<Obj>)
    ensures SetCameraAperture(SetCameraAperture(objs)) == SetCameraAperture(objs)
  {
    var once := SetCameraAperture(objs);
    match GetObject(objs, HeroCamera)
    case None =>
    case Some(i) =>
      assert forall j :: 0 <= j < |objs| ==> once[j].name == objs[j].name;
      assert GetObject(once, HeroCamera) == Some(i) by {
        assert forall j :: 0 <= j < i ==> objs[j].name != HeroCamera;
      }
  }
}
