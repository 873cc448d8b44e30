/** sam3d_reconstruct.py: the scene objects produced from the requested names, the mask
    and mesh file naming, the guards that decide whether SAM 3D inference is available,
    the placeholder stub and the manifest record. The reconstruction itself is opaque:
    it writes one `.ply` per object. */
module Reconstruct {
  import opened Results
  import Text
  import Seqs
  import FileStore
  import Segment

  datatype Vec3 = Vec3(x: real, y: real, z: real)

  const Zero := Vec3(0.0, 0.0, 0.0)
  const One := Vec3(1.0, 1.0, 1.0)

  /** `SceneObject`, the manifest entry for one object. */
  datatype SceneObject = SceneObject(name: string, meshPath: string, maskPath: string,
                                     location: Vec3, rotationEuler: Vec3, scale: Vec3)

  /** The placeholder transform every produced object carries. */
  predicate HasDefaultTransform(o: SceneObject) {
    o.location == Zero && o.rotationEuler == Zero && o.scale == One
  }

  function NewSceneObject(name: string, meshPath: string, maskPath: string): (o: SceneObject)
    ensures HasDefaultTransform(o)
  {
    SceneObject(name, meshPath, maskPath, Zero, Zero, One)
  }

  datatype Manifest = Manifest(envName: string, referenceImage: string, objects: seq<SceneObject>, notes: string)

  datatype FileData =
    | PlaceholderObj(objName: string, envName: string)   // the stub's commented .obj
    | Splat(slug: string)                                // a reconstruction output (or its failure note)
    | ManifestFile(manifest: Manifest)
    | OtherFile

  type Files = FileStore.Files<FileData>

  /** The object slug: lowered, spaces to underscores, and, unlike `slugify_prompt`, not
      stripped. */
  function ObjSlug(name: string): (r: string)
    ensures |r| == |name|
    ensures ' ' !in r
    ensures forall i :: 0 <= i < |r| ==> !Text.IsUpper(r[i])
  {
    Text.ReplaceChar(Text.Lower(name), ' ', '_')
  }

  lemma ObjSlugIdempotent(name: string)
    ensures ObjSlug(ObjSlug(name)) == ObjSlug(name)
  {
    var s := ObjSlug(name);
    assert Text.Lower(s) == s;
    assert Text.ReplaceChar(s, ' ', '_') == s;
  }

  /** A leading space survives as an underscore. */
  lemma ObjSlugKeepsSpaces(name: string)
    ensures ObjSlug(" " + name) == "_" + ObjSlug(name)
  {
  }

  /** On names without surrounding whitespace both scripts agree on the slug. */
  lemma SlugsAgreeWhenStripped(name: string)
    requires Text.Strip(name) == name
    ensures ObjSlug(name) == Segment.Slugify(name)
  {
  }

  function MaskDir(root: string, env: string): string {
    root + "/assets/masks/" + env
  }

  function MeshDir(root: string, env: string): string {
    root + "/assets/meshes/" + env
  }

  function MaskCandidates(root: string, env: string, name: string): (r: seq<string>)
    ensures |r| == 2
  {
    [MaskDir(root, env) + "/" + ObjSlug(name) + ".png", MaskDir(root, env) + "/" + ObjSlug(name) + ".jpg"]
  }

  const NoMask := FileNotFoundError("No mask found for object")

  /** `load_mask_path`: the .png, else the .jpg, else FileNotFoundError. */
  function LoadMaskPath<D>(fs: FileStore.Files<D>, root: string, env: string, name: string): (r: Result<string>)
    ensures var c := MaskCandidates(root, env, name);
      r == if c[0] in fs then Ok(c[0]) else if c[1] in fs then Ok(c[1]) else Err(NoMask)
    ensures r.Ok? ==> r.value in fs
  {
    var c := MaskCandidates(root, env, name);
    if c[0] in fs then Ok(c[0]) else if c[1] in fs then Ok(c[1]) else Err(NoMask)
  }

  /** The mask the segmentation wrote for a prompt is the one found for the object of the
      same name, provided the name has no surrounding whitespace. */
  lemma SegmentMaskFound<D>(fs: FileStore.Files<D>, root: string, env: string, name: string)
    requires Text.Strip(name) == name && Segment.MaskPath(root, env, name) in fs
    ensures LoadMaskPath(fs, root, env, name) == Ok(Segment.MaskPath(root, env, name))
  {
    SlugsAgreeWhenStripped(name);
  }

  function ConfigPath(repo: string): string {
    repo + "/checkpoints/hf/pipeline.yaml"
  }

  /** `get_sam3d_repo`: `SAM3D_REPO_DIR` when set and non-empty, else the default under
      the project root. (User expansion and resolution are left out.) */
  function RepoDir(root: string, repoEnv: string): string {
    if repoEnv != "" then repoEnv else root + "/external/sam-3d-objects"
  }

  /** An initialised `Inference`, known by the config it was built from. */
  datatype Inference = Inference(config: string)

  /** `try_import_inference`: None when the repository or its pipeline config is missing,
      or when importing or initialising (`loads`, opaque) fails. */
  function TryImportInference<D>(fs: FileStore.Files<D>, root: string, repoEnv: string, loads: bool): (r: Option<Inference>)
    ensures r.Some? <==> RepoDir(root, repoEnv) in fs && ConfigPath(RepoDir(root, repoEnv)) in fs && loads
    ensures r.Some? ==> r.value.config == ConfigPath(RepoDir(root, repoEnv))
  {
    var repo := RepoDir(root, repoEnv);
    if repo !in fs then None
    else if ConfigPath(repo) !in fs then None
    else if !loads then None
    else Some(Inference(ConfigPath(repo)))
  }

  function StubMeshPath(root: string, env: string, name: string): string {
    MeshDir(root, env) + "/" + ObjSlug(name) + ".obj"
  }

  /** The stub's mask path: the one found, else the .png that would be expected. */
  function StubMaskPath(fs: Files, root: string, env: string, name: string): string {
    match LoadMaskPath(fs, root, env, ObjSlug(name))
    case Ok(p) => p
    case Err(_) => MaskDir(root, env) + "/" + ObjSlug(name) + ".png"
  }

  /** `run_stub`: a placeholder .obj for every requested object whose file does not exist
      yet, and one scene object per requested name, in order. */
  function RunStub(fs: Files, root: string, env: string, objects: seq<string>): (r: (Files, seq<SceneObject>))
    ensures |r.1| == |objects|
    ensures forall i :: 0 <= i < |objects| ==>
      r.1[i].name == objects[i] && r.1[i].meshPath == StubMeshPath(root, env, objects[i])
      && HasDefaultTransform(r.1[i]) && r.1[i].meshPath in r.0
    ensures forall p :: p in fs ==> p in r.0 && r.0[p] == fs[p]
  {
    var writes := seq(|objects|, i requires 0 <= i < |objects| =>
      (StubMeshPath(root, env, objects[i]), PlaceholderObj(objects[i], env)));
    var files := FileStore.CreateMissing(fs, writes);
    forall i | 0 <= i < |objects|
      ensures StubMeshPath(root, env, objects[i]) in files
    {
      assert writes[i].0 == StubMeshPath(root, env, objects[i]);
      assert FileStore.Written(writes, writes[i].0);
    }
    var objs := seq(|objects|, i requires 0 <= i < |objects| =>
      NewSceneObject(objects[i], StubMeshPath(root, env, objects[i]), StubMaskPath(fs, root, env, objects[i])));
    (files, objs)
  }

  predicate HasMask(fs: Files, root: string, env: string, name: string) {
    LoadMaskPath(fs, root, env, ObjSlug(name)).Ok?
  }

  function PlyPath(root: string, env: string, name: string): string {
    MeshDir(root, env) + "/" + ObjSlug(name) + ".ply"
  }

  /** PIL's error for a file it cannot read as an image, such as the empty placeholder
      mask the segmentation stub writes. */
  const Unreadable := UnidentifiedImageError("cannot identify image file")

  /** The mask found for `name` can be read as an image (`decodes` says which files can). */
  predicate MaskDecodes(fs: Files, root: string, env: string, decodes: string -> bool, name: string) {
    match LoadMaskPath(fs, root, env, ObjSlug(name))
    case Ok(p) => decodes(p)
    case Err(_) => true
  }

  /** `run_sam3d_for_object` opens the reference and the mask outside its `try`, once per
      masked object: the run survives exactly when there is no masked object, or the
      reference and every masked object's mask can be read. */
  predicate ImagesDecode(fs: Files, root: string, env: string, decodes: string -> bool, reference: string, kept: seq<string>) {
    |kept| == 0 || (decodes(reference) && forall k :: 0 <= k < |kept| ==> MaskDecodes(fs, root, env, decodes, kept[k]))
  }

  function Kept(fs: Files, root: string, env: string, objects: seq<string>): (kept: seq<string>)
    ensures forall k :: 0 <= k < |kept| ==> HasMask(fs, root, env, kept[k])
  {
    var kept := Seqs.Filter(objects, (o: string) => HasMask(fs, root, env, o));
    forall k | 0 <= k < |kept| ensures HasMask(fs, root, env, kept[k]) {
      Seqs.FilterMembers(objects, (o: string) => HasMask(fs, root, env, o), kept[k]);
    }
    kept
  }

  /** With inference available, the backend raises: the reference image is missing, or
      an image it opens cannot be read. */
  predicate BackendRaises(fs: Files, root: string, env: string, objects: seq<string>, decodes: string -> bool) {
    Segment.LoadReferenceImage(fs, root, env).Err?
    || !ImagesDecode(fs, root, env, decodes, Segment.LoadReferenceImage(fs, root, env).value, Kept(fs, root, env, objects))
  }

  /** `run_sam3d_backend`: the stub when inference is unavailable; otherwise the reference
      image must exist (its absence raises), objects without a mask are skipped, an image
      that cannot be read raises, and each remaining object gets its reconstruction.
      Whether a file can be read as an image is the opaque `decodes`. */
  function RunBackend(fs: Files, root: string, env: string, objects: seq<string>, inference: Option<Inference>,
                      decodes: string -> bool)
    : (r: Result<(Files, seq<SceneObject>)>)
    ensures inference.None? ==> r == Ok(RunStub(fs, root, env, objects))
    ensures inference.Some? ==> (r.Err? <==> BackendRaises(fs, root, env, objects, decodes))
    ensures r.Err? ==> r.error == (if Segment.LoadReferenceImage(fs, root, env).Err? then Segment.NoReference else Unreadable)
    ensures inference.Some? && r.Ok? ==>
      var kept := Seqs.Filter(objects, (o: string) => HasMask(fs, root, env, o));
      |r.value.1| == |kept| <= |objects|
      && forall i :: 0 <= i < |kept| ==>
        r.value.1[i].name == kept[i] && HasDefaultTransform(r.value.1[i])
        && r.value.1[i].meshPath == PlyPath(root, env, kept[i]) && r.value.1[i].maskPath in fs
  {
    if inference.None? then Ok(RunStub(fs, root, env, objects))
    else
      var reference :- Segment.LoadReferenceImage(fs, root, env);
      var kept := Kept(fs, root, env, objects);
      if !ImagesDecode(fs, root, env, decodes, reference, kept) then Err(Unreadable)
      else
        var writes := seq(|kept|, i requires 0 <= i < |kept| => (PlyPath(root, env, kept[i]), Splat(ObjSlug(kept[i]))));
        Ok((FileStore.WriteAll(fs, writes), Reconstructed(fs, root, env, kept)))
  }

  /** One scene object per masked name, in order: its mesh under `meshes/`, the mask
      that was found, and the placeholder transform. */
  function Reconstructed(fs: Files, root: string, env: string, kept: seq<string>): (objs: seq<SceneObject>)
    requires forall k :: 0 <= k < |kept| ==> HasMask(fs, root, env, kept[k])
    ensures |objs| == |kept|
    ensures forall i :: 0 <= i < |kept| ==>
      objs[i].name == kept[i] && HasDefaultTransform(objs[i])
      && objs[i].meshPath == PlyPath(root, env, kept[i]) && objs[i].maskPath in fs
  {
    seq(|kept|, i requires 0 <= i < |kept| => ObjectFor(fs, root, env, kept[i]))
  }

  function ObjectFor(fs: Files, root: string, env: string, name: string): (o: SceneObject)
    requires HasMask(fs, root, env, name)
    ensures o.name == name && HasDefaultTransform(o) && o.meshPath == PlyPath(root, env, name) && o.maskPath in fs
  {
    NewSceneObject(name, PlyPath(root, env, name), LoadMaskPath(fs, root, env, ObjSlug(name)).value)
  }

  /** Once the reference exists, the backend succeeds exactly when the images it opens
      can be read, and then an object appears in its output exactly when its mask
      exists; order is kept. */
  lemma BackendKeepsMasked(fs: Files, root: string, env: string, objects: seq<string>, inference: Inference,
                           decodes: string -> bool, name: string)
    requires Segment.LoadReferenceImage(fs, root, env).Ok?
    requires name in objects
    ensures RunBackend(fs, root, env, objects, Some(inference), decodes).Ok? <==>
      ImagesDecode(fs, root, env, decodes, Segment.LoadReferenceImage(fs, root, env).value, Kept(fs, root, env, objects))
    ensures RunBackend(fs, root, env, objects, Some(inference), decodes).Ok? ==>
      ((exists i :: 0 <= i < |RunBackend(fs, root, env, objects, Some(inference), decodes).value.1|
              && RunBackend(fs, root, env, objects, Some(inference), decodes).value.1[i].name == name)
       <==> HasMask(fs, root, env, name))
  {
    var p := (o: string) => HasMask(fs, root, env, o);
    var kept := Kept(fs, root, env, objects);
    if RunBackend(fs, root, env, objects, Some(inference), decodes).Ok? {
      assert RunBackend(fs, root, env, objects, Some(inference), decodes).value.1 == Reconstructed(fs, root, env, kept);
      ReconstructedNames(fs, root, env, kept, name);
      Seqs.FilterMembers(objects, p, name);
    }
  }

  /** A name has an object in the output exactly when it is one of the masked names. */
  lemma ReconstructedNames(fs: Files, root: string, env: string, kept: seq<string>, name: string)
    requires forall k :: 0 <= k < |kept| ==> HasMask(fs, root, env, kept[k])
    ensures var out := Reconstructed(fs, root, env, kept);
      (exists i :: 0 <= i < |out| && out[i].name == name) <==> name in kept
  {
    var out := Reconstructed(fs, root, env, kept);
    if name in kept {
      var i :| 0 <= i < |kept| && kept[i] == name;
      assert out[i].name == name;
    }
  }

  /** The files the scripts write never shadow a mask: a mesh path is never a mask path,
      so looking masks up before or after the writes gives the same answer. */
  lemma MeshNeverMask(root: string, env: string, a: string, b: string, ext1: string, ext2: string)
    ensures MeshDir(root, env) + "/" + a + ext1 != MaskDir(root, env) + "/" + b + ext2
  {
    var x := MeshDir(root, env) + "/" + a + ext1;
    var y := MaskDir(root, env) + "/" + b + ext2;
    assert x[|root| + 9] == 'e';
    assert y[|root| + 9] == 'a';
  }

  const Notes := "Generated by sam3d_reconstruct.py. Transforms are placeholders."

  function ManifestPath(root: string, env: string): string {
    root + "/manifests/" + env + "_manifest.json"
  }

  /** `write_manifest`: the manifest file for the environment, naming the reference image
      found (or the raw .jpg that would be expected) and listing the objects as given. */
  function WriteManifest(fs: Files, root: string, env: string, objects: seq<SceneObject>): (r: (Files, string))
    ensures r.1 == ManifestPath(root, env) && r.1 in r.0
    ensures r.0[r.1].ManifestFile? && r.0[r.1].manifest.envName == env
      && r.0[r.1].manifest.objects == objects && r.0[r.1].manifest.notes == Notes
    ensures Segment.LoadReferenceImage(fs, root, env).Ok? ==>
      r.0[r.1].manifest.referenceImage == Segment.LoadReferenceImage(fs, root, env).value
    ensures forall p :: p in fs && p != r.1 ==> p in r.0 && r.0[p] == fs[p]
    ensures r.0.Keys == fs.Keys + {r.1}
  {
    var reference := match Segment.LoadReferenceImage(fs, root, env)
      case Ok(p) => p
      case Err(_) => root + "/assets/reference/" + env + ".jpg";
    var path := ManifestPath(root, env);
    (fs[path := ManifestFile(Manifest(env, reference, objects, Notes))], path)
  }

  /** `main`: reconstruct (or stub) and write the manifest; raises, and writes no
      manifest, only when inference is available and the reference image is missing or
      an image it opens cannot be read. */
  function ReconstructMain(fs: Files, root: string, env: string, objects: seq<string>,
                           repoEnv: string, loads: bool, decodes: string -> bool): (r: Result<Files>)
    ensures r.Err? <==> TryImportInference(fs, root, repoEnv, loads).Some? && BackendRaises(fs, root, env, objects, decodes)
    ensures r.Ok? ==> ManifestPath(root, env) in r.value && r.value[ManifestPath(root, env)].ManifestFile?
  {
    var inference := TryImportInference(fs, root, repoEnv, loads);
    var (fs1, objs) :- RunBackend(fs, root, env, objects, inference, decodes);
    Ok(WriteManifest(fs1, root, env, objs).0)
  }

  /** Without inference the manifest lists every requested object, in order, each with
      the placeholder transform. */
  lemma StubManifestComplete(fs: Files, root: string, env: string, objects: seq<string>, repoEnv: string, loads: bool,
                             decodes: string -> bool)
    requires TryImportInference(fs, root, repoEnv, loads).None?
    ensures var r := ReconstructMain(fs, root, env, objects, repoEnv, loads, decodes);
      r.Ok? && var m := r.value[ManifestPath(root, env)].manifest;
      |m.objects| == |objects|
      && forall i :: 0 <= i < |objects| ==> m.objects[i].name == objects[i] && HasDefaultTransform(m.objects[i])
  {
  }
}
