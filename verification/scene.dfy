/** Blender's scene data as the material scripts see it: objects with a name, a type and
    material slots, and the material collection in its iteration order. A material slot
    holds the name of the material assigned to it. */
module Scene {
  import opened Results
  import Seqs
  import Text
  import ShaderNodes

  /** The object types the scripts test for; a camera carries its depth-of-field settings. */
  datatype Kind = Mesh | Camera(useDof: bool, fstop: real) | OtherKind(typeName: string)

  datatype Obj = Obj(name: string, kind: Kind, slots: seq<string>)

  datatype Material = Material(name: string, tree: ShaderNodes.Tree)

  predicate IsMesh(o: Obj) {
    o.kind == Mesh
  }

  /** How every script assigns a material: slot 0 is replaced when the object has
      slots, and otherwise the material is appended as the only slot. */
  function SetSlotZero(slots: seq<string>, m: string): (r: seq<string>)
    ensures |r| == if |slots| == 0 then 1 else |slots|
    ensures r[0] == m
    ensures forall i :: 1 <= i < |slots| ==> r[i] == slots[i]
  {
    if |slots| > 0 then slots[0 := m] else [m]
  }

  /** Assigning a material twice is assigning it once, and a later assignment wins. */
  lemma SetSlotZeroLastWins(slots: seq<string>, m1: string, m2: string)
    ensures SetSlotZero(SetSlotZero(slots, m1), m2) == SetSlotZero(slots, m2)
  {
  }

  function Assign(o: Obj, m: string): (r: Obj)
    ensures r.name == o.name && r.kind == o.kind
    ensures |r.slots| > 0 && r.slots[0] == m
  {
    o.(slots := SetSlotZero(o.slots, m))
  }

  /** The loop shared by the single-material scripts: every mesh whose name passes
      `pred` gets material `m` in slot 0; nothing else changes. */
  function AssignWhere(objs: seq<Obj>, pred: string -> bool, m: string): (r: seq<Obj>)
    ensures |r| == |objs|
    ensures forall i :: 0 <= i < |objs| && IsMesh(objs[i]) && pred(objs[i].name) ==> r[i] == Assign(objs[i], m)
    ensures forall i :: 0 <= i < |objs| && !(IsMesh(objs[i]) && pred(objs[i].name)) ==> r[i] == objs[i]
  {
    seq(|objs|, i requires 0 <= i < |objs| => if IsMesh(objs[i]) && pred(objs[i].name) then Assign(objs[i], m) else objs[i])
  }

  /** Running the loop again with the same material changes nothing more. */
  lemma AssignWhereIdempotent(objs: seq<Obj>, pred: string -> bool, m: string)
    ensures AssignWhere(AssignWhere(objs, pred, m), pred, m) == AssignWhere(objs, pred, m)
  {
    var once := AssignWhere(objs, pred, m);
    forall i | 0 <= i < |objs| && IsMesh(objs[i]) && pred(objs[i].name)
      ensures Assign(once[i], m) == once[i]
    {
      SetSlotZeroLastWins(objs[i].slots, m, m);
    }
  }

  /** The loop over one more object: it is assigned when it passes, else kept. */
  lemma AssignWhereSnoc(objs: seq<Obj>, i: nat, pred: string -> bool, m: string)
    requires i < |objs|
    ensures AssignWhere(objs[..i + 1], pred, m) ==
      AssignWhere(objs[..i], pred, m) + [if IsMesh(objs[i]) && pred(objs[i].name) then Assign(objs[i], m) else objs[i]]
  {
  }

  function NameOf(o: Obj): string {
    o.name
  }

  /** `bpy.data.materials.get(name)`: the material with exactly that name, if any. */
  function GetMaterial(mats: seq<Material>, name: string): (r: Option<nat>)
    ensures r.Some? ==> r.value < |mats| && mats[r.value].name == name
    ensures r.None? <==> forall i :: 0 <= i < |mats| ==> mats[i].name != name
  {
    Seqs.FirstIndex(mats, (m: Material) => m.name == name)
  }

  predicate HasMaterial(mats: seq<Material>, name: string) {
    exists i :: 0 <= i < |mats| && mats[i].name == name
  }

  /** `bpy.data.objects.get(name)`: the object with exactly that name, if any. */
  function GetObject(objs: seq<Obj>, name: string): (r: Option<nat>)
    ensures r.Some? ==> r.value < |objs| && objs[r.value].name == name
    ensures r.None? <==> forall i :: 0 <= i < |objs| ==> objs[i].name != name
  {
    Seqs.FirstIndex(objs, (o: Obj) => o.name == name)
  }

  /** Blender keeps the material collection sorted by name, compared without regard
      to ASCII case: `a` sorts at or before `b`. */
  predicate NameLe(a: string, b: string) {
    Text.LexLe(Text.Lower(a), Text.Lower(b))
  }

  predicate SortedByName(mats: seq<Material>) {
    forall i, j :: 0 <= i < j < |mats| ==> NameLe(mats[i].name, mats[j].name)
  }

  /** Where a material called `name` lands when it is created or renamed: Blender scans
      the collection from the end for the last material that sorts at or before `name`
      and places it right after that one, or at the front when there is none. */
  function InsertPos(mats: seq<Material>, name: string): (p: nat)
    ensures p <= |mats|
    ensures p > 0 ==> NameLe(mats[p - 1].name, name)
    ensures forall j :: p <= j < |mats| ==> !NameLe(mats[j].name, name)
    decreases |mats|
  {
    if |mats| == 0 then 0
    else if NameLe(mats[|mats| - 1].name, name) then |mats|
    else InsertPos(mats[..|mats| - 1], name)
  }

  /** The collection without the material at position `i`. */
  function Without(mats: seq<Material>, i: nat): (r: seq<Material>)
    requires i < |mats|
    ensures |r| == |mats| - 1
    ensures forall j :: 0 <= j < i ==> r[j] == mats[j]
    ensures forall j :: i <= j < |r| ==> r[j] == mats[j + 1]
  {
    mats[..i] + mats[i + 1..]
  }

  /** The collection with `m` placed by name, and the position it took: taking it out
      again gives the collection back. */
  function Insert(mats: seq<Material>, m: Material): (r: (seq<Material>, nat))
    ensures r.1 == InsertPos(mats, m.name)
    ensures |r.0| == |mats| + 1 && r.0[r.1] == m
    ensures r.0[..r.1] == mats[..r.1] && r.0[r.1 + 1..] == mats[r.1..]
    ensures forall j :: 0 <= j < r.1 ==> r.0[j] == mats[j]
    ensures forall j :: r.1 < j < |r.0| ==> r.0[j] == mats[j - 1]
    ensures Without(r.0, r.1) == mats
  {
    var p := InsertPos(mats, m.name);
    var r := Seqs.InsertAt(mats, p, m);
    assert r[..p] == mats[..p] && r[p + 1..] == mats[p..];
    assert Without(r, p) == mats;
    (r, p)
  }

  /** In a sorted collection everything before the insertion point sorts at or before
      `name`, and everything from it on sorts at or after `name`. */
  lemma InsertPosSplits(mats: seq<Material>, name: string)
    requires SortedByName(mats)
    ensures forall j :: 0 <= j < InsertPos(mats, name) ==> NameLe(mats[j].name, name)
    ensures forall j :: InsertPos(mats, name) <= j < |mats| ==> NameLe(name, mats[j].name)
  {
    var p := InsertPos(mats, name);
    forall j | 0 <= j < p
      ensures NameLe(mats[j].name, name)
    {
      if j < p - 1 {
        Text.LexLeTrans(Text.Lower(mats[j].name), Text.Lower(mats[p - 1].name), Text.Lower(name));
      }
    }
    forall j | p <= j < |mats|
      ensures NameLe(name, mats[j].name)
    {
      Text.LexLeTotal(Text.Lower(name), Text.Lower(mats[j].name));
    }
  }

  /** A sorted collection with `m` put at a position `p` that splits it by name is sorted. */
  lemma SortedAround(mats: seq<Material>, r: seq<Material>, p: nat, m: Material)
    requires SortedByName(mats) && p <= |mats| && |r| == |mats| + 1 && r[p] == m
    requires forall j :: 0 <= j < p ==> r[j] == mats[j]
    requires forall j :: p < j < |r| ==> r[j] == mats[j - 1]
    requires forall j :: 0 <= j < p ==> NameLe(mats[j].name, m.name)
    requires forall j :: p <= j < |mats| ==> NameLe(m.name, mats[j].name)
    ensures SortedByName(r)
  {
    forall i, j | 0 <= i < j < |r|
      ensures NameLe(r[i].name, r[j].name)
    {
      if j < p {
        assert r[i] == mats[i] && r[j] == mats[j];
      } else if j == p {
        assert r[i] == mats[i];
      } else if i == p {
        assert r[j] == mats[j - 1];
      } else if i < p {
        assert r[i] == mats[i] && r[j] == mats[j - 1];
      } else {
        assert r[i] == mats[i - 1] && r[j] == mats[j - 1];
      }
    }
  }

  /** Placing a material by name keeps a sorted collection sorted. */
  lemma InsertKeepsSorted(mats: seq<Material>, m: Material)
    requires SortedByName(mats)
    ensures SortedByName(Insert(mats, m).0)
  {
    InsertPosSplits(mats, m.name);
    SortedAround(mats, Insert(mats, m).0, Insert(mats, m).1, m);
  }

  /** Removing a material keeps a sorted collection sorted. */
  lemma WithoutKeepsSorted(mats: seq<Material>, i: nat)
    requires i < |mats| && SortedByName(mats)
    ensures SortedByName(Without(mats, i))
  {
  }

  /** Blender keeps `bpy.data.objects` sorted by name in the same way. */
  predicate ObjsSorted(objs: seq<Obj>) {
    forall i, j :: 0 <= i < j < |objs| ==> NameLe(objs[i].name, objs[j].name)
  }

  /** Where a new object called `name` lands: right after the last object that sorts at
      or before it, as for materials. */
  function ObjInsertPos(objs: seq<Obj>, name: string): (p: nat)
    ensures p <= |objs|
    ensures p > 0 ==> NameLe(objs[p - 1].name, name)
    ensures forall j :: p <= j < |objs| ==> !NameLe(objs[j].name, name)
    decreases |objs|
  {
    if |objs| == 0 then 0
    else if NameLe(objs[|objs| - 1].name, name) then |objs|
    else ObjInsertPos(objs[..|objs| - 1], name)
  }

  /** The objects with `o` added at its place by name. */
  function InsertObj(objs: seq<Obj>, o: Obj): (r: seq<Obj>)
    ensures |r| == |objs| + 1 && r[ObjInsertPos(objs, o.name)] == o
    ensures forall j :: 0 <= j < ObjInsertPos(objs, o.name) ==> r[j] == objs[j]
    ensures forall j :: ObjInsertPos(objs, o.name) < j < |r| ==> r[j] == objs[j - 1]
    ensures multiset(r) == multiset(objs) + multiset{o}
  {
    Seqs.InsertAt(objs, ObjInsertPos(objs, o.name), o)
  }

  /** Placing an object by name keeps sorted objects sorted. */
  lemma InsertObjKeepsSorted(objs: seq<Obj>, o: Obj)
    requires ObjsSorted(objs)
    ensures ObjsSorted(InsertObj(objs, o))
  {
    var p := ObjInsertPos(objs, o.name);
    var r := InsertObj(objs, o);
    forall j | 0 <= j < p
      ensures NameLe(objs[j].name, o.name)
    {
      if j < p - 1 {
        Text.LexLeTrans(Text.Lower(objs[j].name), Text.Lower(objs[p - 1].name), Text.Lower(o.name));
      }
    }
    forall j | p <= j < |objs|
      ensures NameLe(o.name, objs[j].name)
    {
      Text.LexLeTotal(Text.Lower(o.name), Text.Lower(objs[j].name));
    }
    forall i, j | 0 <= i < j < |r|
      ensures NameLe(r[i].name, r[j].name)
    {
      if j < p {
        assert r[i] == objs[i] && r[j] == objs[j];
      } else if j == p {
        assert r[i] == objs[i];
      } else if i == p {
        assert r[j] == objs[j - 1];
      } else if i < p {
        assert r[i] == objs[i] && r[j] == objs[j - 1];
      } else {
        assert r[i] == objs[i - 1] && r[j] == objs[j - 1];
      }
    }
  }

  /** New objects added one after another, each at its place by name: the result holds
      exactly the old and the new objects. */
  function InsertObjs(objs: seq<Obj>, added: seq<Obj>): (r: seq<Obj>)
    ensures multiset(r) == multiset(objs) + multiset(added)
    decreases |added|
  {
    if |added| == 0 then objs
    else
      assert added == [added[0]] + added[1..];
      InsertObjs(InsertObj(objs, added[0]), added[1..])
  }

  /** Adding objects by name keeps sorted objects sorted. */
  lemma {:induction false} InsertObjsKeepsSorted(objs: seq<Obj>, added: seq<Obj>)
    requires ObjsSorted(objs)
    ensures ObjsSorted(InsertObjs(objs, added))
    decreases |added|
  {
    if |added| > 0 {
      InsertObjKeepsSorted(objs, added[0]);
      InsertObjsKeepsSorted(InsertObj(objs, added[0]), added[1..]);
    }
  }

  /** Get-or-create of a material by exact name: an existing material is returned as it
      is; otherwise a new one named `name` with the host's initial tree `initial` is placed
      by name and `build` is applied to its tree, which may raise. */
  function GetOrCreate(mats: seq<Material>, name: string, initial: ShaderNodes.Tree,
                       build: ShaderNodes.Tree -> Result<ShaderNodes.Tree>): (r: Result<(seq<Material>, nat)>)
    ensures HasMaterial(mats, name) ==> r.Ok? && r.value.0 == mats && r.value.1 < |mats| && mats[r.value.1].name == name
    ensures !HasMaterial(mats, name) ==> (r.Ok? <==> build(initial).Ok?)
    ensures r.Ok? ==> r.value.1 < |r.value.0| && r.value.0[r.value.1].name == name
    ensures !HasMaterial(mats, name) && r.Ok? ==>
      r.value.1 == InsertPos(mats, name) && Without(r.value.0, r.value.1) == mats
  {
    match GetMaterial(mats, name)
    case Some(i) => Ok((mats, i))
    case None =>
      match build(initial)
      case Err(e) => Err(e)
      case Ok(t) =>
        Ok(Insert(mats, Material(name, t)))
  }

  /** The number of materials called `name`. */
  function CountNamed(mats: seq<Material>, name: string): nat {
    Seqs.Count(mats, (m: Material) => m.name == name)
  }

  /** A second get-or-create on the first one's result finds the material the first
      one returned, and builds nothing. */
  lemma GetOrCreateIdempotent(mats: seq<Material>, name: string, initial: ShaderNodes.Tree,
                              build: ShaderNodes.Tree -> Result<ShaderNodes.Tree>)
    requires GetOrCreate(mats, name, initial, build).Ok?
    ensures var once := GetOrCreate(mats, name, initial, build).value;
      GetOrCreate(once.0, name, initial, build) == Ok(once)
  {
    var once := GetOrCreate(mats, name, initial, build).value;
    if GetMaterial(mats, name).None? {
      var p := once.1;
      assert forall k :: 0 <= k < p ==> once.0[k] == mats[k];
      Seqs.FirstIndexUnique(once.0, (m: Material) => m.name == name, p);
      assert GetMaterial(once.0, name) == Some(p);
    }
  }

  /** Get-or-create never makes a second material of the same name: afterwards there is
      exactly as many as before, or one when there was none. */
  lemma GetOrCreateNoDuplicate(mats: seq<Material>, name: string, initial: ShaderNodes.Tree,
                               build: ShaderNodes.Tree -> Result<ShaderNodes.Tree>)
    requires GetOrCreate(mats, name, initial, build).Ok?
    ensures var mats' := GetOrCreate(mats, name, initial, build).value.0;
      CountNamed(mats', name) == if CountNamed(mats, name) == 0 then 1 else CountNamed(mats, name)
  {
    var r := GetOrCreate(mats, name, initial, build).value;
    if HasMaterial(mats, name) {
      var i :| 0 <= i < |mats| && mats[i].name == name;
      CountPositive(mats, name, i);
    } else {
      CountNone(mats, name);
      CountInsertFresh(mats, r.0, r.1, name);
    }
  }

  /** Putting one material called `name` into a collection without one gives a count of one. */
  lemma CountInsertFresh(mats: seq<Material>, r: seq<Material>, p: nat, name: string)
    requires p < |r| && Without(r, p) == mats && r[p].name == name
    requires forall i :: 0 <= i < |mats| ==> mats[i].name != name
    ensures CountNamed(r, name) == 1
  {
    var q := (m: Material) => m.name == name;
    assert r == r[..p] + [r[p]] + r[p + 1..];
    assert r[..p] == mats[..p] && r[p + 1..] == mats[p..];
    CountNone(mats[..p], name);
    CountNone(mats[p..], name);
    Seqs.CountAppend(r[..p], [r[p]], q);
    Seqs.CountAppend(r[..p] + [r[p]], r[p + 1..], q);
  }

  lemma {:induction false} CountPositive(mats: seq<Material>, name: string, i: nat)
    requires i < |mats| && mats[i].name == name
    ensures CountNamed(mats, name) > 0
    decreases |mats|
  {
    if i > 0 {
      CountPositive(mats[1..], name, i - 1);
    }
  }

  lemma {:induction false} CountNone(mats: seq<Material>, name: string)
    requires forall i :: 0 <= i < |mats| ==> mats[i].name != name
    ensures CountNamed(mats, name) == 0
    decreases |mats|
  {
    if |mats| > 0 {
      CountNone(mats[1..], name);
    }
  }
}
