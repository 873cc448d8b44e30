/** build_environment_from_manifest.py: importer dispatch on the file suffix, the choice
    of the imported object, and the build loop that fills the environment collection
    from the manifest entries, skipping what cannot be imported. */
module ManifestImport {
  import opened Results
  import Text
  import Seqs
  import opened Scene

  /** The text after the last `c` (all of `s` when there is none). */
  function AfterLast(s: string, c: char): (r: string)
    ensures |r| <= |s| && r == s[|s| - |r|..]
    ensures c !in r
    ensures |r| < |s| ==> s[|s| - |r| - 1] == c
  {
    if |s| == 0 then ""
    else if s[|s| - 1] == c then ""
    else AfterLast(s[..|s| - 1], c) + [s[|s| - 1]]
  }

  /** The position of the last `c` in `s`. */
  function LastIndex(s: string, c: char): (r: Option<nat>)
    ensures r.Some? ==> r.value < |s| && s[r.value] == c && c !in s[r.value + 1..]
    ensures r.None? <==> c !in s
  {
    if |s| == 0 then None
    else if s[|s| - 1] == c then Some(|s| - 1)
    else
      var r := LastIndex(s[..|s| - 1], c);
      assert s == s[..|s| - 1] + [s[|s| - 1]];
      if r.Some? then
        assert s[r.value + 1..] == s[..|s| - 1][r.value + 1..] + [s[|s| - 1]];
        r
      else r
  }

  /** `Path.suffix`: the final component's text from its last '.', provided that dot is
      neither its first nor its last character; otherwise empty. */
  function Suffix(path: string): (r: string)
    ensures r == "" || (|r| >= 2 && r[0] == '.' && '.' !in r[1..] && '/' !in r)
  {
    var name := AfterLast(path, '/');
    match LastIndex(name, '.')
    case None => ""
    case Some(i) => if 0 < i < |name| - 1 then name[i..] else ""
  }

  /** The suffix of a file named `stem + ext`, where `ext` is a dot and at least one more
      character and the stem does not start the name with its only dot. */
  lemma SuffixOf(dir: string, stem: string, ext: string)
    requires |stem| > 0 && '.' !in stem && '/' !in stem
    requires |ext| >= 2 && ext[0] == '.' && '.' !in ext[1..] && '/' !in ext
    ensures Suffix(dir + "/" + stem + ext) == ext
  {
    var prefix := dir + "/";
    var name := stem + ext;
    assert dir + "/" + stem + ext == prefix + name;
    assert prefix[|prefix| - 1] == '/';
    NameShape(stem, ext);
    AfterLastTail(prefix, name, '/');
  }

  /** A file name `stem + ext` holds no '/' and its last dot starts `ext`. */
  lemma NameShape(stem: string, ext: string)
    requires |stem| > 0 && '.' !in stem && '/' !in stem
    requires |ext| >= 2 && ext[0] == '.' && '.' !in ext[1..] && '/' !in ext
    ensures '/' !in stem + ext
    ensures LastIndex(stem + ext, '.') == Some(|stem|) && (stem + ext)[|stem|..] == ext
  {
    var name := stem + ext;
    assert name[|stem| + 1..] == ext[1..];
    LastIndexAt(name, '.', |stem|);
    forall k | 0 <= k < |name| ensures name[k] != '/' {
      if k < |stem| {
        assert stem[k] in stem;
      } else {
        assert ext[k - |stem|] in ext;
      }
    }
  }

  lemma {:induction false} AfterLastTail(a: string, b: string, c: char)
    requires |a| > 0 && a[|a| - 1] == c && c !in b
    ensures AfterLast(a + b, c) == b
    decreases |b|
  {
    if |b| == 0 {
      assert a + b == a;
    } else {
      assert (a + b)[..|a + b| - 1] == a + b[..|b| - 1];
      AfterLastTail(a, b[..|b| - 1], c);
      assert b == b[..|b| - 1] + [b[|b| - 1]];
    }
  }

  /** The last `c` is at `i` when `c` sits there and not after it. */
  lemma LastIndexAt(s: string, c: char, i: nat)
    requires i < |s| && s[i] == c && c !in s[i + 1..]
    ensures LastIndex(s, c) == Some(i)
  {
    assert s[i] in s;
    var r := LastIndex(s, c).value;
    assert forall j :: r < j < |s| ==> s[j] != c by {
      forall j | r < j < |s| ensures s[j] != c {
        assert s[j] == s[r + 1..][j - r - 1];
      }
    }
    assert forall j :: i < j < |s| ==> s[j] != c by {
      forall j | i < j < |s| ensures s[j] != c {
        assert s[j] == s[i + 1..][j - i - 1];
      }
    }
  }

  datatype Importer = ObjImporter | GltfImporter

  const Unsupported := ValueError("Unsupported mesh format")

  /** The importer `import_mesh` picks from the lowered suffix. */
  function Dispatch(path: string): (r: Result<Importer>)
    ensures r.Err? ==> r.error == Unsupported
    ensures r == Ok(ObjImporter) <==> Text.Lower(Suffix(path)) == ".obj"
    ensures r == Ok(GltfImporter) <==> Text.Lower(Suffix(path)) in {".glb", ".gltf"}
  {
    var ext := Text.Lower(Suffix(path));
    if ext == ".obj" then Ok(ObjImporter)
    else if ext == ".glb" || ext == ".gltf" then Ok(GltfImporter)
    else Err(Unsupported)
  }

  /** Dispatch depends only on the lowered suffix. */
  lemma DispatchBySuffix(p: string, q: string)
    requires Text.Lower(Suffix(p)) == Text.Lower(Suffix(q))
    ensures Dispatch(p) == Dispatch(q)
  {
  }

  /** Upper-case suffixes dispatch like lower-case ones. */
  lemma DispatchIgnoresCase(dir: string, stem: string, ext: string)
    requires |stem| > 0 && '.' !in stem && '/' !in stem
    requires |ext| >= 2 && ext[0] == '.' && '.' !in ext[1..] && '/' !in ext
    ensures Dispatch(dir + "/" + stem + ext) == Dispatch(dir + "/" + stem + Text.Lower(ext))
  {
    var l := Text.Lower(ext);
    var p, q := dir + "/" + stem + ext, dir + "/" + stem + l;
    SuffixOf(dir, stem, ext);
    LowerExtension(ext);
    SuffixOf(dir, stem, l);
    Text.LowerIdempotent(ext);
    DispatchBySuffix(p, q);
  }

  /** Lowering keeps the shape of an extension. */
  lemma LowerExtension(ext: string)
    requires |ext| >= 2 && ext[0] == '.' && '.' !in ext[1..] && '/' !in ext
    ensures var l := Text.Lower(ext); |l| >= 2 && l[0] == '.' && '.' !in l[1..] && '/' !in l
  {
    var l := Text.Lower(ext);
    forall k | 1 <= k < |l| ensures l[k] != '.' {
      assert ext[k] == ext[1..][k - 1];
    }
    forall k | 0 <= k < |l| ensures l[k] != '/' {
      assert ext[k] in ext;
    }
  }

  function Names(objs: seq<Obj>): seq<string> {
    Seqs.Map(objs, (o: Obj) => o.name)
  }

  const NothingImported := RuntimeError("No objects imported")

  /** The objects present after the import whose names were not there before. */
  function NewObjects(before: seq<Obj>, after: seq<Obj>): (r: seq<Obj>)
    ensures forall o :: o in r <==> o in after && o.name !in Names(before)
  {
    var isNew := (o: Obj) => o.name !in Names(before);
    assert forall o :: o in Seqs.Filter(after, isNew) <==> o in after && isNew(o) by {
      forall o ensures o in Seqs.Filter(after, isNew) <==> o in after && isNew(o) {
        Seqs.FilterMembers(after, isNew, o);
      }
    }
    Seqs.Filter(after, isNew)
  }

  /** The first mesh among the new objects, else the first new object. */
  function PickImported(added: seq<Obj>): (r: Obj)
    requires |added| > 0
    ensures r in added
    ensures !IsMesh(r) ==> forall i :: 0 <= i < |added| ==> !IsMesh(added[i])
    ensures FirstOfNew(added, r)
  {
    match Seqs.FirstIndex(added, IsMesh)
    case Some(k) => added[k]
    case None => added[0]
  }

  /** `import_mesh`: dispatch, run the importer (opaque: the objects that exist afterwards,
      or the error it raises), then return the first new mesh, else the first new object;
      RuntimeError when nothing new appeared. */
  function ImportMesh(before: seq<Obj>, path: string, run: Importer -> Result<seq<Obj>>): (r: Result<Obj>)
    ensures Dispatch(path).Err? ==> r == Err(Unsupported)
    ensures Dispatch(path).Ok? && run(Dispatch(path).value).Err? ==> r == Err(run(Dispatch(path).value).error)
    ensures Dispatch(path).Ok? && run(Dispatch(path).value).Ok? ==>
      var after := run(Dispatch(path).value).value;
      ImportedFrom(before, after, r)
  {
    var importer :- Dispatch(path);
    var after :- run(importer);
    var added := NewObjects(before, after);
    if |added| == 0 then Err(NothingImported) else Ok(PickImported(added))
  }

  /** What `import_mesh` promises once the importer ran and left `after`: a new object,
      namely the first new mesh in the order the objects are listed, or the first new
      object when none of them is a mesh; RuntimeError exactly when nothing is new. */
  predicate ImportedFrom(before: seq<Obj>, after: seq<Obj>, r: Result<Obj>) {
    (r.Ok? ==> r.value in after && r.value.name !in Names(before))
    && (r.Ok? && !IsMesh(r.value) ==>
          forall o :: o in after && o.name !in Names(before) ==> !IsMesh(o))
    && (r.Ok? ==> FirstOfNew(NewObjects(before, after), r.value))
    && (r.Err? <==> forall o :: o in after ==> o.name in Names(before))
    && (r.Err? ==> r.error == NothingImported)
  }

  /** `r` sits at some position `k` of the new objects with no mesh before it, and it is
      the very first new object when it is not a mesh itself. */
  predicate FirstOfNew(added: seq<Obj>, r: Obj) {
    exists k :: 0 <= k < |added| && added[k] == r && (forall j :: 0 <= j < k ==> !IsMesh(added[j]))
      && (!IsMesh(r) ==> k == 0)
  }

  /** A manifest entry: the mesh path and the three transforms, each possibly absent. */
  datatype Entry = Entry(meshPath: string, location: Option<seq<real>>, rotationEuler: Option<seq<real>>,
                         scale: Option<seq<real>>)

  /** An object in the environment collection with the transforms it was given. */
  datatype Placed = Placed(obj: Obj, location: seq<real>, rotationEuler: seq<real>, scale: seq<real>)

  /** `value or default`: an absent or empty list gives the default. */
  function OrDefault(v: Option<seq<real>>, default: seq<real>): (r: seq<real>)
    ensures v.None? || v.value == [] ==> r == default
    ensures v.Some? && v.value != [] ==> r == v.value
  {
    if v.Some? && v.value != [] then v.value else default
  }

  const MinMeshBytes := 100

  /** Whether an entry gets imported: its file exists, has at least 100 bytes, and the
      import does not raise. File sizes are given as a map from path to byte count. */
  predicate Imports(sizes: map<string, nat>, importMesh: string -> Result<Obj>, e: Entry) {
    e.meshPath in sizes && sizes[e.meshPath] >= MinMeshBytes && importMesh(e.meshPath).Ok?
  }

  function Place(importMesh: string -> Result<Obj>, e: Entry): Placed
    requires importMesh(e.meshPath).Ok?
  {
    Placed(importMesh(e.meshPath).value,
           OrDefault(e.location, [0.0, 0.0, 0.0]),
           OrDefault(e.rotationEuler, [0.0, 0.0, 0.0]),
           OrDefault(e.scale, [1.0, 1.0, 1.0]))
  }

  /** Blender accepts a location, rotation or scale only as three numbers: a given,
      non-empty list of any other length makes the assignment raise ValueError. */
  predicate BadTransform(e: Entry) {
    |OrDefault(e.location, [0.0, 0.0, 0.0])| != 3
    || |OrDefault(e.rotationEuler, [0.0, 0.0, 0.0])| != 3
    || |OrDefault(e.scale, [1.0, 1.0, 1.0])| != 3
  }

  /** An entry whose import succeeds but whose transform Blender refuses. */
  predicate Aborts(sizes: map<string, nat>, importMesh: string -> Result<Obj>, e: Entry) {
    Imports(sizes, importMesh, e) && BadTransform(e)
  }

  const BadTransformError := ValueError("sequence must contain 3 items")

  /** The position of the first entry that aborts the build, if any. */
  function FirstAbort(sizes: map<string, nat>, importMesh: string -> Result<Obj>, entries: seq<Entry>): (r: Option<nat>)
    ensures r.Some? ==> r.value < |entries| && Aborts(sizes, importMesh, entries[r.value])
    ensures r.Some? ==> forall j :: 0 <= j < r.value ==> !Aborts(sizes, importMesh, entries[j])
    ensures r.None? <==> forall j :: 0 <= j < |entries| ==> !Aborts(sizes, importMesh, entries[j])
  {
    Seqs.FirstIndex(entries, (e: Entry) => Aborts(sizes, importMesh, e))
  }

  function PlacedObj(p: Placed): Obj {
    p.obj
  }

  /** What a completed build leaves: the collection's objects and the two counters. */
  datatype Built = Built(collection: seq<Placed>, imported: nat, skipped: nat)

  /** `build_from_manifest`: the collection is emptied (whatever it held before is
      removed, so it is not a parameter), then every entry is either imported and placed, or skipped; each one is
      counted exactly once. The transforms are assigned outside the `try`, so the first
      imported entry with a malformed transform ends the whole build with ValueError.
      `inCollection` is what the environment collection holds afterwards: after an abort,
      the objects placed so far and the failing object, already linked into it. */
  method BuildFromManifest(sizes: map<string, nat>, entries: seq<Entry>,
                           importMesh: string -> Result<Obj>)
    returns (r: Result<Built>, inCollection: seq<Obj>)
    ensures r.Err? <==> exists i :: 0 <= i < |entries| && Aborts(sizes, importMesh, entries[i])
    ensures r.Err? ==> r.error == BadTransformError
    ensures r.Err? ==> var k := FirstAbort(sizes, importMesh, entries);
      k.Some? && inCollection == Seqs.Map(Placements(sizes, entries[..k.value], importMesh), PlacedObj)
                                   + [importMesh(entries[k.value].meshPath).value]
    ensures r.Ok? ==> inCollection == Seqs.Map(r.value.collection, PlacedObj)
    ensures r.Ok? ==> r.value.imported + r.value.skipped == |entries|
    ensures r.Ok? ==> r.value.imported == Seqs.Count(entries, (e: Entry) => Imports(sizes, importMesh, e))
    ensures r.Ok? ==> |r.value.collection| == r.value.imported
    ensures r.Ok? ==> forall k :: 0 <= k < |r.value.collection| ==> PlacedFrom(r.value.collection[k], sizes, entries, importMesh)
    ensures r.Ok? ==> r.value.collection == Placements(sizes, entries, importMesh)
  {
    r, inCollection := PlaceEntries(sizes, entries, importMesh);
    if r.Ok? {
      PlacementsFrom(sizes, entries, importMesh);
    }
  }

  /** The loop of `build_from_manifest`, over an emptied collection. */
  method PlaceEntries(sizes: map<string, nat>, entries: seq<Entry>, importMesh: string -> Result<Obj>)
    returns (r: Result<Built>, inCollection: seq<Obj>)
    ensures r.Err? <==> exists i :: 0 <= i < |entries| && Aborts(sizes, importMesh, entries[i])
    ensures r.Err? ==> r.error == BadTransformError
    ensures r.Err? ==> var k := FirstAbort(sizes, importMesh, entries);
      k.Some? && inCollection == Seqs.Map(Placements(sizes, entries[..k.value], importMesh), PlacedObj)
                                   + [importMesh(entries[k.value].meshPath).value]
    ensures r.Ok? ==> r.value.imported + r.value.skipped == |entries|
    ensures r.Ok? ==> r.value.collection == Placements(sizes, entries, importMesh)
    ensures r.Ok? ==> |r.value.collection| == r.value.imported
    ensures r.Ok? ==> inCollection == Seqs.Map(r.value.collection, PlacedObj)
  {
    var collection := [];
    var imported, skipped := 0, 0;
    var i := 0;
    while i < |entries|
      invariant 0 <= i <= |entries|
      invariant imported + skipped == i
      invariant collection == Placements(sizes, entries[..i], importMesh)
      invariant imported == |collection|
      invariant forall j :: 0 <= j < i ==> !Aborts(sizes, importMesh, entries[j])
    {
      var e := entries[i];
      BuildStep(sizes, entries, importMesh, i);
      // The missing-file, placeholder-size and failed-import skips (see SkipRules).
      if !Imports(sizes, importMesh, e) {
        skipped := skipped + 1;
      } else if BadTransform(e) {
        FirstAbortAt(sizes, importMesh, entries, i);
        return Err(BadTransformError), Seqs.Map(collection, PlacedObj) + [importMesh(e.meshPath).value];
      } else {
        collection := collection + [Place(importMesh, e)];
        imported := imported + 1;
      }
      i := i + 1;
    }
    assert entries[..i] == entries;
    r, inCollection := Ok(Built(collection, imported, skipped)), Seqs.Map(collection, PlacedObj);
  }

  /** An aborting entry with no aborting entry before it is the first abort. */
  lemma FirstAbortAt(sizes: map<string, nat>, importMesh: string -> Result<Obj>, entries: seq<Entry>, i: nat)
    requires i < |entries| && Aborts(sizes, importMesh, entries[i])
    requires forall j :: 0 <= j < i ==> !Aborts(sizes, importMesh, entries[j])
    ensures FirstAbort(sizes, importMesh, entries) == Some(i)
  {
    Seqs.FirstIndexUnique(entries, (e: Entry) => Aborts(sizes, importMesh, e), i);
  }

  /** One more entry adds its placement exactly when it imports. */
  lemma BuildStep(sizes: map<string, nat>, entries: seq<Entry>, importMesh: string -> Result<Obj>, i: nat)
    requires i < |entries|
    ensures var e := entries[i];
      Placements(sizes, entries[..i + 1], importMesh) ==
        Placements(sizes, entries[..i], importMesh) + (if Imports(sizes, importMesh, e) then [Place(importMesh, e)] else [])
  {
    var e := entries[i];
    assert entries[..i + 1] == entries[..i] + [e];
    assert entries[..i + 1][..i] == entries[..i];
  }

  /** The placed objects of the entries that import, in manifest order. */
  function Placements(sizes: map<string, nat>, entries: seq<Entry>, importMesh: string -> Result<Obj>): (r: seq<Placed>)
    ensures |r| == Seqs.Count(entries, (e: Entry) => Imports(sizes, importMesh, e))
    decreases |entries|
  {
    if |entries| == 0 then []
    else
      var init := entries[..|entries| - 1];
      var e := entries[|entries| - 1];
      assert entries == init + [e];
      Seqs.CountAppend(init, [e], (e: Entry) => Imports(sizes, importMesh, e));
      Placements(sizes, init, importMesh) + (if Imports(sizes, importMesh, e) then [Place(importMesh, e)] else [])
  }

  /** `p` is the placement of some entry that imports. */
  ghost predicate PlacedFrom(p: Placed, sizes: map<string, nat>, entries: seq<Entry>, importMesh: string -> Result<Obj>) {
    exists i :: 0 <= i < |entries| && Imports(sizes, importMesh, entries[i]) && p == Place(importMesh, entries[i])
  }

  /** Every placed object comes from an entry that imports. */
  lemma {:induction false} PlacementsFrom(sizes: map<string, nat>, entries: seq<Entry>, importMesh: string -> Result<Obj>)
    ensures forall k :: 0 <= k < |Placements(sizes, entries, importMesh)| ==>
      PlacedFrom(Placements(sizes, entries, importMesh)[k], sizes, entries, importMesh)
    decreases |entries|
  {
    if |entries| > 0 {
      var init := entries[..|entries| - 1];
      var e := entries[|entries| - 1];
      PlacementsFrom(sizes, init, importMesh);
      var r := Placements(sizes, entries, importMesh);
      var ri := Placements(sizes, init, importMesh);
      assert r == ri + (if Imports(sizes, importMesh, e) then [Place(importMesh, e)] else []);
      forall k | 0 <= k < |r|
        ensures PlacedFrom(r[k], sizes, entries, importMesh)
      {
        if k < |ri| {
          assert r[k] == ri[k];
          assert PlacedFrom(ri[k], sizes, init, importMesh);
          var i :| 0 <= i < |init| && Imports(sizes, importMesh, init[i]) && ri[k] == Place(importMesh, init[i]);
          assert entries[i] == init[i];
        } else {
          assert r[k] == Place(importMesh, e);
          assert entries[|entries| - 1] == e;
        }
      }
    }
  }

  /** The three skip rules: a missing file, one under 100 bytes, or an import that raises
      (an unsupported suffix among them) keeps the entry out of the collection. */
  lemma SkipRules(sizes: map<string, nat>, importMesh: string -> Result<Obj>, e: Entry)
    ensures !Imports(sizes, importMesh, e) <==>
      (e.meshPath !in sizes || sizes[e.meshPath] < MinMeshBytes || importMesh(e.meshPath).Err?)
  {
  }

  /** With the importer built on `ImportMesh`, an unsupported suffix is always skipped. */
  lemma UnsupportedSkipped(sizes: map<string, nat>, before: seq<Obj>, run: Importer -> Result<seq<Obj>>, e: Entry)
    requires Dispatch(e.meshPath).Err?
    ensures !Imports(sizes, (p: string) => ImportMesh(before, p, run), e)
  {
  }

  /** Placed objects carry the manifest's transforms, or the defaults when one is absent
      or empty. */
  lemma PlaceDefaults(importMesh: string -> Result<Obj>, e: Entry)
    requires importMesh(e.meshPath).Ok?
    requires e.location.None? && e.rotationEuler == Some([]) && e.scale.None?
    ensures var p := Place(importMesh, e);
      p.location == [0.0, 0.0, 0.0] && p.rotationEuler == [0.0, 0.0, 0.0] && p.scale == [1.0, 1.0, 1.0]
  {
  }
}
