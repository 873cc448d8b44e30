/** build_dragon_desk_composite.py: finding the K1 object, linking K1 objects into the
    scene collection, the early exits of the .blend import, the mask coverage ratio and
    the occluder planes it gates. The scene collection is a sequence of object names;
    a mask image is its flat RGBA pixel list, as reals. */
module DragonDesk {
  import opened Results
  import Text
  import Seqs
  import opened Scene

  const K1Candidates: seq<string> := ["K1", "K1_Lightwave", "K1.Body", "K1_Body", "K1_Chassis"]

  /** `"k1" in obj.name.lower()` */
  predicate IsK1Name(name: string) {
    Text.Contains(Text.Lower(name), "k1")
  }

  const K1NotFound := RuntimeError("K1 object not found after K1_MASTER_BUILD")

  /** The first listed name that exists wins; otherwise the first object whose lowered
      name contains "k1". */
  function FindK1Object(objs: seq<Obj>): (r: Result<nat>)
    ensures r.Ok? ==> r.value < |objs| && IsK1Name(objs[r.value].name)
    ensures r.Err? ==> r.error == K1NotFound
    ensures r.Err? <==> forall i :: 0 <= i < |objs| ==> !IsK1Name(objs[i].name)
    ensures forall c :: (0 <= c < |K1Candidates| && GetObject(objs, K1Candidates[c]).Some?
                         && (forall d :: 0 <= d < c ==> GetObject(objs, K1Candidates[d]).None?)) ==>
      r == Ok(GetObject(objs, K1Candidates[c]).value)
    ensures (forall c :: 0 <= c < |K1Candidates| ==> GetObject(objs, K1Candidates[c]).None?) && r.Ok? ==>
      forall j :: 0 <= j < r.value ==> !IsK1Name(objs[j].name)
  {
    match Seqs.FirstIndex(K1Candidates, (n: string) => GetObject(objs, n).Some?)
    case Some(c) =>
      CandidatesAreK1(c);
      Ok(GetObject(objs, K1Candidates[c]).value)
    case None =>
      match Seqs.FirstIndex(objs, (o: Obj) => IsK1Name(o.name))
      case Some(i) => Ok(i)
      case None => Err(K1NotFound)
  }

  /** Every listed name counts as a K1 name, so the substring search would find the same
      kind of object; the list only fixes which one. */
  lemma CandidatesAreK1(c: nat)
    requires c < |K1Candidates|
    ensures IsK1Name(K1Candidates[c])
  {
    var n := K1Candidates[c];
    assert n[..2] == "K1";
    var l := Text.Lower(n);
    assert l[0..2] == "k1";
    Text.ContainsAt(l, "k1", 0);
  }

  /** An exact name beats an earlier object that only contains "k1". */
  lemma ExactNameWins(objs: seq<Obj>, j: nat)
    requires j < |objs| && objs[j].name == "K1"
    ensures FindK1Object(objs) == Ok(GetObject(objs, "K1").value)
  {
    assert K1Candidates[0] == "K1";
  }

  /** `ensure_k1_linked_to_scene`: link only a name that is not there yet. */
  function EnsureLinked(scene: seq<string>, name: string): (r: seq<string>)
    ensures name in r
    ensures forall n :: n in r <==> n in scene || n == name
    ensures name in scene ==> r == scene
    ensures name !in scene ==> r == scene + [name]
  {
    if name in scene then scene else scene + [name]
  }

  predicate NoDuplicates(names: seq<string>) {
    forall i, j :: 0 <= i < j < |names| ==> names[i] != names[j]
  }

  lemma EnsureLinkedIdempotent(scene: seq<string>, name: string)
    ensures EnsureLinked(EnsureLinked(scene, name), name) == EnsureLinked(scene, name)
  {
  }

  /** Linking keeps the collection free of duplicates. */
  lemma EnsureLinkedNoDuplicates(scene: seq<string>, name: string)
    requires NoDuplicates(scene)
    ensures NoDuplicates(EnsureLinked(scene, name))
  {
  }

  /** `ensure_all_k1_objects_linked`: every K1-named object ends up in the scene
      collection, nothing else is added, and none is linked twice. */
  method EnsureAllK1Linked(objs: seq<Obj>, scene: seq<string>) returns (r: seq<string>)
    requires NoDuplicates(scene)
    ensures NoDuplicates(r)
    ensures forall i :: 0 <= i < |objs| && IsK1Name(objs[i].name) ==> objs[i].name in r
    ensures forall n :: n in r <==> n in scene || exists i :: 0 <= i < |objs| && IsK1Name(objs[i].name) && objs[i].name == n
    ensures |scene| <= |r| && r[..|scene|] == scene
  {
    r := scene;
    var i := 0;
    while i < |objs|
      invariant 0 <= i <= |objs|
      invariant NoDuplicates(r)
      invariant |scene| <= |r| && r[..|scene|] == scene
      invariant forall k :: 0 <= k < i && IsK1Name(objs[k].name) ==> objs[k].name in r
      invariant forall n :: n in r <==> n in scene || exists k :: 0 <= k < i && IsK1Name(objs[k].name) && objs[k].name == n
    {
      if IsK1Name(objs[i].name) {
        EnsureLinkedNoDuplicates(r, objs[i].name);
        r := EnsureLinked(r, objs[i].name);
      }
      i := i + 1;
    }
  }

  /** The outcome of the library loads in `ensure_k1_imported_from_blend` (opaque): the
      K1 objects the first load brought in (none when it raised), the collections the
      .blend offers, which of those append without raising, and the objects each one
      brings along when appended. */
  datatype Library = Library(loaded: seq<Obj>, collections: seq<string>, appends: string -> bool,
                             brings: string -> seq<Obj>)

  /** Whether any object in `objs` has a K1 name. */
  predicate AnyK1(objs: seq<Obj>) {
    exists i :: 0 <= i < |objs| && IsK1Name(objs[i].name)
  }

  /** Whether some object in `objs` with a K1 name is called `n`. */
  predicate K1Named(objs: seq<Obj>, n: string) {
    exists i :: 0 <= i < |objs| && IsK1Name(objs[i].name) && objs[i].name == n
  }

  /** The objects the K1 collections among `cs` bring in, for those that append. */
  function Brought(lib: Library, cs: seq<string>): (r: seq<Obj>)
    ensures forall o :: o in r <==>
      exists c :: 0 <= c < |cs| && IsK1Name(cs[c]) && lib.appends(cs[c]) && o in lib.brings(cs[c])
  {
    if |cs| == 0 then []
    else
      var rest := Brought(lib, cs[1..]);
      assert forall c :: 0 < c < |cs| ==> cs[c] == cs[1..][c - 1];
      if IsK1Name(cs[0]) && lib.appends(cs[0]) then lib.brings(cs[0]) + rest else rest
  }

  /** `ensure_k1_imported_from_blend`: false without the .blend; true at once when a K1
      object already exists. Otherwise the loaded K1 objects join `bpy.data.objects` at
      their places by name and are linked into the scene collection, in that order; when
      none was loaded, the K1 collections are appended, which adds their objects to
      `bpy.data.objects` (the append links the collection, not its objects, so the scene
      collection's own objects do not change). Returns the flag, the objects and the
      scene collection afterwards. */
  method EnsureK1ImportedFromBlend(blendExists: bool, objs: seq<Obj>, scene: seq<string>, lib: Library)
    returns (linked: bool, objsAfter: seq<Obj>, sceneAfter: seq<string>)
    requires NoDuplicates(scene)
    ensures !blendExists ==> !linked && objsAfter == objs && sceneAfter == scene
    ensures blendExists && AnyK1(objs) ==> linked && objsAfter == objs && sceneAfter == scene
    ensures blendExists && !AnyK1(objs) ==>
      (linked <==> AnyK1(lib.loaded)
                   || exists c :: 0 <= c < |lib.collections| && IsK1Name(lib.collections[c]) && lib.appends(lib.collections[c]))
    ensures blendExists && !AnyK1(objs) && AnyK1(lib.loaded) ==>
      multiset(objsAfter) == multiset(objs) + multiset(Seqs.Filter(lib.loaded, (o: Obj) => IsK1Name(o.name)))
    ensures blendExists && !AnyK1(objs) && !AnyK1(lib.loaded) ==>
      multiset(objsAfter) == multiset(objs) + multiset(Brought(lib, lib.collections))
    ensures blendExists && !AnyK1(objs) ==>
      forall n :: n in sceneAfter <==> n in scene || K1Named(lib.loaded, n)
    ensures |scene| <= |sceneAfter| && sceneAfter[..|scene|] == scene
    ensures ObjsSorted(objs) ==> ObjsSorted(objsAfter)
    ensures NoDuplicates(sceneAfter)
  {
    if !blendExists {
      return false, objs, scene;
    }
    if Seqs.FirstIndex(objs, (o: Obj) => IsK1Name(o.name)).Some? {
      return true, objs, scene;
    }
    var isK1 := (o: Obj) => IsK1Name(o.name);
    var loaded := Seqs.Filter(lib.loaded, isK1);
    var objsLoaded := InsertObjs(objs, loaded);
    if ObjsSorted(objs) {
      InsertObjsKeepsSorted(objs, loaded);
    }
    sceneAfter := EnsureAllK1Linked(objsLoaded, scene);
    LoadedK1(objs, lib.loaded, objsLoaded);
    linked := Seqs.FirstIndex(objsLoaded, isK1).Some?;
    objsAfter := objsLoaded;
    if !linked {
      NothingLoaded(lib.loaded);
      linked := Seqs.FirstIndex(lib.collections, (c: string) => IsK1Name(c) && lib.appends(c)).Some?;
      objsAfter := InsertObjs(objsLoaded, Brought(lib, lib.collections));
      if ObjsSorted(objs) {
        InsertObjsKeepsSorted(objsLoaded, Brought(lib, lib.collections));
      }
    }
  }

  /** With no K1 object before the load, the K1 objects afterwards are exactly the ones
      the library brought. */
  lemma LoadedK1(objs: seq<Obj>, fromLib: seq<Obj>, after: seq<Obj>)
    requires !AnyK1(objs)
    requires multiset(after) == multiset(objs) + multiset(Seqs.Filter(fromLib, (o: Obj) => IsK1Name(o.name)))
    ensures forall n :: K1Named(after, n) <==> K1Named(fromLib, n)
    ensures AnyK1(after) <==> AnyK1(fromLib)
  {
    var isK1 := (o: Obj) => IsK1Name(o.name);
    var loaded := Seqs.Filter(fromLib, isK1);
    forall n
      ensures K1Named(after, n) ==> K1Named(fromLib, n)
    {
      if K1Named(after, n) {
        var i :| 0 <= i < |after| && IsK1Name(after[i].name) && after[i].name == n;
        var o := after[i];
        assert o in multiset(after);
        forall k | 0 <= k < |objs|
          ensures objs[k] != o
        {
          assert !IsK1Name(objs[k].name);
        }
        assert o !in multiset(objs);
        assert o in loaded;
        Seqs.FilterMembers(fromLib, isK1, o);
        var j :| 0 <= j < |fromLib| && fromLib[j] == o;
      }
    }
    forall n
      ensures K1Named(fromLib, n) ==> K1Named(after, n)
    {
      if K1Named(fromLib, n) {
        var j :| 0 <= j < |fromLib| && IsK1Name(fromLib[j].name) && fromLib[j].name == n;
        Seqs.FilterMembers(fromLib, isK1, fromLib[j]);
        assert fromLib[j] in multiset(after);
        var i :| 0 <= i < |after| && after[i] == fromLib[j];
      }
    }
    if AnyK1(after) {
      var i :| 0 <= i < |after| && IsK1Name(after[i].name);
      assert K1Named(after, after[i].name);
    }
    if AnyK1(fromLib) {
      var j :| 0 <= j < |fromLib| && IsK1Name(fromLib[j].name);
      assert K1Named(fromLib, fromLib[j].name);
    }
  }

  /** Whatever the load keeps is a K1 object of the library, so a load with no K1
      object adds nothing. */
  lemma NothingLoaded(fromLib: seq<Obj>)
    ensures Seqs.Filter(fromLib, (o: Obj) => IsK1Name(o.name)) != [] ==> AnyK1(fromLib)
  {
    var isK1 := (o: Obj) => IsK1Name(o.name);
    var loaded := Seqs.Filter(fromLib, isK1);
    if loaded != [] {
      Seqs.FilterMembers(fromLib, isK1, loaded[0]);
      var j :| 0 <= j < |fromLib| && fromLib[j] == loaded[0];
      assert IsK1Name(fromLib[j].name);
    }
  }

  /** `mask_nonzero_ratio`: the share of pixels (every fourth value, the red channel)
      above 0.01; 0 for a missing image, and an empty image divides by 1. */
  method MaskNonzeroRatio(img: Option<seq<real>>) returns (ratio: real)
    ensures 0.0 <= ratio <= 1.0
    ensures img.None? ==> ratio == 0.0
    ensures img.Some? ==> ratio == Ratio(img.value)
  {
    if img.None? {
      return 0.0;
    }
    var px := img.value;
    var total := |px| / 4;
    var nonzero := 0;
    var i := 0;
    while i < total
      invariant 0 <= i <= total
      invariant nonzero == Lit(px, i)
    {
      if px[i * 4] > 0.01 {
        nonzero := nonzero + 1;
      }
      i := i + 1;
    }
    ratio := Share(nonzero, total);
  }

  function Max1(n: nat): (r: nat)
    ensures r >= 1 && r >= n
  {
    if n >= 1 then n else 1
  }

  /** The number of lit pixels among the first `n`. */
  function Lit(px: seq<real>, n: nat): (c: nat)
    requires 4 * n <= |px|
    ensures c <= n
  {
    if n == 0 then 0 else Lit(px, n - 1) + (if px[(n - 1) * 4] > 0.01 then 1 else 0)
  }

  /** The coverage `mask_nonzero_ratio` computes for a loaded image: a share, so between
      0 and 1. */
  function Ratio(px: seq<real>): (r: real)
    ensures 0.0 <= r <= 1.0
  {
    Share(Lit(px, |px| / 4), |px| / 4)
  }

  /** `nonzero / max(total, 1)` */
  function Share(c: nat, n: nat): (r: real)
    requires c <= n
    ensures 0.0 <= r <= 1.0
    ensures n > 0 ==> (r == 1.0 <==> c == n)
  {
    c as real / Max1(n) as real
  }

  /** A mask with at least one pixel covers everything exactly when every pixel is lit. */
  lemma FullCoverage(px: seq<real>)
    requires |px| >= 4
    ensures Ratio(px) == 1.0 <==> forall k :: 0 <= k < |px| / 4 ==> px[k * 4] > 0.01
  {
    LitAll(px, |px| / 4);
  }

  /** The ratio is 1 exactly when the image has pixels and all of them are lit. */
  lemma {:induction false} LitAll(px: seq<real>, n: nat)
    requires 4 * n <= |px|
    ensures Lit(px, n) == n <==> forall k :: 0 <= k < n ==> px[k * 4] > 0.01
  {
    if n > 0 {
      LitAll(px, n - 1);
    }
  }

  const MaskNames: seq<string> := ["monitor.png", "pc_tower.png", "foreground_object.png"]
  const MinCoverage: real := 0.01

  /** `Plane_<base>_occluder`, where base is the file name before its first '.'. */
  function OccluderName(maskName: string): string {
    "Plane_" + Text.BeforeFirst(maskName, '.') + "_occluder"
  }

  lemma OccluderNameOf(base: string, ext: string)
    requires '.' !in base && |ext| > 0 && ext[0] == '.'
    ensures OccluderName(base + ext) == "Plane_" + base + "_occluder"
  {
    Text.BeforeFirstConcat(base, ext, '.');
  }

  /** A listed mask gets an occluder: it loaded and covers at least 1%. */
  predicate Passes(images: map<string, seq<real>>, maskName: string) {
    maskName in images && Ratio(images[maskName]) >= MinCoverage
  }

  /** `setup_occluders`: the occluders of the listed masks that pass, in list order. */
  method SetupOccluders(images: map<string, seq<real>>) returns (occluders: seq<string>)
    ensures occluders == Seqs.Map(Seqs.Filter(MaskNames, (mn: string) => Passes(images, mn)), OccluderName)
    ensures |occluders| <= |MaskNames|
  {
    var passes := (mn: string) => Passes(images, mn);
    occluders := [];
    var m := 0;
    while m < |MaskNames|
      invariant 0 <= m <= |MaskNames|
      invariant occluders == Seqs.Map(Seqs.Filter(MaskNames[..m], passes), OccluderName)
    {
      var mn := MaskNames[m];
      Seqs.FilterMapSnoc(MaskNames, m, passes, OccluderName);
      if mn in images {
        var ratio := MaskNonzeroRatio(Some(images[mn]));
        if ratio >= MinCoverage {
          occluders := occluders + [OccluderName(mn)];
        }
      }
      m := m + 1;
    }
    assert MaskNames[..m] == MaskNames;
  }

  /** Mask `m` has an occluder exactly when it loaded and covers at least 1%. */
  lemma OccluderIff(images: map<string, seq<real>>, m: nat)
    requires m < |MaskNames|
    ensures var passes := (mn: string) => Passes(images, mn);
      OccluderName(MaskNames[m]) in Seqs.Map(Seqs.Filter(MaskNames, passes), OccluderName) <==> Passes(images, MaskNames[m])
  {
    var passes := (mn: string) => Passes(images, mn);
    var f := Seqs.Filter(MaskNames, passes);
    var occ := Seqs.Map(f, OccluderName);
    Seqs.FilterMembers(MaskNames, passes, MaskNames[m]);
    OccluderNamesDistinct();
    if OccluderName(MaskNames[m]) in occ {
      var k :| 0 <= k < |occ| && occ[k] == OccluderName(MaskNames[m]);
      Seqs.FilterMembers(MaskNames, passes, f[k]);
      var j :| 0 <= j < |MaskNames| && MaskNames[j] == f[k];
      assert j == m;
    }
    if Passes(images, MaskNames[m]) {
      var k :| 0 <= k < |f| && f[k] == MaskNames[m];
      assert occ[k] == OccluderName(MaskNames[m]);
    }
  }

  /** The length of an occluder name: the base plus "Plane_" and "_occluder". */
  lemma OccluderNameLength(base: string, ext: string)
    requires '.' !in base && |ext| > 0 && ext[0] == '.'
    ensures |OccluderName(base + ext)| == |base| + 15
  {
    OccluderNameOf(base, ext);
  }

  /** The occluder name lengths of the three masks, one lemma each to keep every proof small. */
  lemma MonitorLength()
    ensures |OccluderName(MaskNames[0])| == 22
  {
    assert MaskNames[0] == "monitor" + ".png";
    OccluderNameLength("monitor", ".png");
  }

  lemma TowerLength()
    ensures |OccluderName(MaskNames[1])| == 23
  {
    assert MaskNames[1] == "pc_tower" + ".png";
    OccluderNameLength("pc_tower", ".png");
  }

  lemma ForegroundLength()
    ensures |OccluderName(MaskNames[2])| == 32
  {
    assert MaskNames[2] == "foreground_object" + ".png";
    OccluderNameLength("foreground_object", ".png");
  }

  /** The three occluder names differ (they even differ in length). */
  lemma OccluderNamesDistinct()
    ensures forall j, m :: 0 <= j < |MaskNames| && 0 <= m < |MaskNames| && j != m ==>
      OccluderName(MaskNames[j]) != OccluderName(MaskNames[m])
  {
    MonitorLength();
    TowerLength();
    ForegroundLength();
  }
}
