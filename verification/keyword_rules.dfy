/** The keyword classifier shared by `assign_materials_by_keyword` (K1_MASTER_BUILD.py)
    and `apply_materials_to_objects` (apply_cyber_scheme.py): every MESH object's lowered
    name is matched against an ordered table of (material, keywords) rules; the first rule
    with a keyword inside the name decides, and the object receives that rule's material
    in slot 0 when the material exists. A missing material leaves the object as it is and
    uncounted; later rules are never tried. */
module KeywordRules {
  import opened Results
  import Text
  import Seqs
  import opened Scene

  datatype Rule = Rule(material: string, keywords: seq<string>)

  /** `any(k in name_lower for k in keywords)`, the keywords taken as written. */
  predicate RuleMatches(r: Rule, name: string) {
    Text.AnyContains(Text.Lower(name), r.keywords)
  }

  /** The rule that decides for `name`: the first one that matches. */
  function FirstRule(rules: seq<Rule>, name: string): (r: Option<nat>)
    ensures r.Some? ==> r.value < |rules| && RuleMatches(rules[r.value], name)
    ensures r.Some? ==> forall k :: 0 <= k < r.value ==> !RuleMatches(rules[k], name)
    ensures r.None? <==> forall k :: 0 <= k < |rules| ==> !RuleMatches(rules[k], name)
  {
    Seqs.FirstIndex(rules, (rule: Rule) => RuleMatches(rule, name))
  }

  /** The rule applied to `o`: only for a mesh, only the deciding rule, and only when
      its material exists. */
  function Decide(o: Obj, rules: seq<Rule>, mats: seq<Material>): (r: Option<nat>)
    ensures r.Some? <==> IsMesh(o) && FirstRule(rules, o.name).Some?
                         && HasMaterial(mats, rules[FirstRule(rules, o.name).value].material)
    ensures r.Some? ==> r == FirstRule(rules, o.name)
  {
    if !IsMesh(o) then None
    else
      match FirstRule(rules, o.name)
      case None => None
      case Some(j) =>
        match GetMaterial(mats, rules[j].material)
        case None => None
        case Some(_) => Some(j)
  }

  /** The object after the loop body ran on it. */
  function Apply(o: Obj, rules: seq<Rule>, mats: seq<Material>): (r: Obj)
    ensures r.name == o.name && r.kind == o.kind
    ensures Decide(o, rules, mats).None? ==> r == o
    ensures Decide(o, rules, mats).Some? ==>
      r.slots == SetSlotZero(o.slots, rules[Decide(o, rules, mats).value].material)
  {
    match Decide(o, rules, mats)
    case None => o
    case Some(j) => Assign(o, rules[j].material)
  }

  /** The rule applied to each object, in list order. */
  function Decisions(objs: seq<Obj>, rules: seq<Rule>, mats: seq<Material>): (ds: seq<Option<nat>>)
    ensures |ds| == |objs|
    ensures forall i :: 0 <= i < |objs| ==> ds[i] == Decide(objs[i], rules, mats)
    ensures forall i :: 0 <= i < |ds| && ds[i].Some? ==> ds[i].value < |rules|
  {
    seq(|objs|, i requires 0 <= i < |objs| => Decide(objs[i], rules, mats))
  }

  /** The `n` counters after the decisions `ds` were taken in order: each decision for
      rule `j` adds one to counter `j`. */
  function Tally(ds: seq<Option<nat>>, n: nat): (c: seq<nat>)
    ensures |c| == n
    decreases |ds|
  {
    if |ds| == 0 then seq(n, _ => 0) else Bump(Tally(ds[..|ds| - 1], n), ds[|ds| - 1])
  }

  /** `assigned[mat] += 1` for the rule decided, if any. */
  function Bump(c: seq<nat>, d: Option<nat>): (r: seq<nat>)
    ensures |r| == |c|
  {
    match d
    case Some(j) => if j < |c| then c[j := c[j] + 1] else c
    case None => c
  }

  /** Taking one more decision bumps its counter. */
  lemma TallyStep(ds: seq<Option<nat>>, n: nat, i: nat)
    requires i < |ds|
    ensures Tally(ds[..i + 1], n) == Bump(Tally(ds[..i], n), ds[i])
  {
    assert ds[..i + 1][..i] == ds[..i];
  }

  /** The classifier over the whole object list: every object as `Apply` leaves it, and
      the counters of `Tally`, built one object at a time in iteration order. */
  method AssignByRules(objs: seq<Obj>, rules: seq<Rule>, mats: seq<Material>)
    returns (out: seq<Obj>, counts: seq<nat>)
    ensures out == Seqs.Map(objs, (o: Obj) => Apply(o, rules, mats))
    ensures counts == Tally(Decisions(objs, rules, mats), |rules|)
  {
    ghost var ds := Decisions(objs, rules, mats);
    ghost var apply := (o: Obj) => Apply(o, rules, mats);
    out := [];
    counts := seq(|rules|, _ => 0);
    var i := 0;
    while i < |objs|
      invariant 0 <= i <= |objs|
      invariant out == Seqs.Map(objs[..i], apply)
      invariant counts == Tally(ds[..i], |rules|)
    {
      var o := objs[i];
      TallyStep(ds, |rules|, i);
      Seqs.MapSnoc(objs, i, apply);
      counts := Bump(counts, Decide(o, rules, mats));
      out := out + [Apply(o, rules, mats)];
      i := i + 1;
    }
    assert ds[..i] == ds && objs[..i] == objs;
  }

  /** Each counter is the number of decisions for its rule. */
  lemma {:induction false} TallyCount(ds: seq<Option<nat>>, n: nat, j: nat)
    requires j < n
    ensures Tally(ds, n)[j] == Seqs.Count(ds, (d: Option<nat>) => d == Some(j))
    decreases |ds|
  {
    if |ds| > 0 {
      var init, last := ds[..|ds| - 1], ds[|ds| - 1];
      TallyCount(init, n, j);
      assert ds == init + [last];
      Seqs.CountSnoc(init, last, (d: Option<nat>) => d == Some(j));
      assert Tally(ds, n) == Bump(Tally(init, n), last);
    }
  }

  /** When every decision names one of the `n` rules, the counters add up to the number
      of decisions taken. */
  lemma {:induction false} TallyTotal(ds: seq<Option<nat>>, n: nat)
    requires forall i :: 0 <= i < |ds| && ds[i].Some? ==> ds[i].value < n
    ensures Seqs.Sum(Tally(ds, n)) == Seqs.Count(ds, (d: Option<nat>) => d.Some?)
    decreases |ds|
  {
    if |ds| == 0 {
      Seqs.SumZeros(n);
    } else {
      var init, last := ds[..|ds| - 1], ds[|ds| - 1];
      TallyTotal(init, n);
      assert ds == init + [last];
      Seqs.CountSnoc(init, last, (d: Option<nat>) => d.Some?);
      assert Tally(ds, n) == Bump(Tally(init, n), last);
      match last
      case None =>
      case Some(j) =>
        Seqs.SumBump(Tally(init, n), j);
    }
  }

  /** Only meshes are ever decided for, so the counters add up to at most the number of
      meshes. */
  lemma DecisionsAtMostMeshes(objs: seq<Obj>, rules: seq<Rule>, mats: seq<Material>)
    ensures Seqs.Sum(Tally(Decisions(objs, rules, mats), |rules|)) <= Seqs.Count(objs, IsMesh)
  {
    var ds := Decisions(objs, rules, mats);
    TallyTotal(ds, |rules|);
    Seqs.CountPointwise(ds, objs, (d: Option<nat>) => d.Some?, IsMesh);
  }

  /** No fall-through: when the deciding rule's material is missing the object is left
      as it is, even if a later rule matches and its material exists. */
  lemma NoFallThrough(o: Obj, rules: seq<Rule>, mats: seq<Material>, j: nat)
    requires j < |rules| && RuleMatches(rules[j], o.name)
    requires forall k :: 0 <= k < j ==> !RuleMatches(rules[k], o.name)
    requires !HasMaterial(mats, rules[j].material)
    ensures Apply(o, rules, mats) == o
  {
    Seqs.FirstIndexUnique(rules, (rule: Rule) => RuleMatches(rule, o.name), j);
  }

  /** Priority: an object matching rule `j` is never given the material of a later rule. */
  lemma Priority(o: Obj, rules: seq<Rule>, mats: seq<Material>, j: nat, k: nat)
    requires j < k < |rules| && RuleMatches(rules[j], o.name)
    ensures Decide(o, rules, mats) != Some(k)
  {
  }

  /** Objects other than meshes are never touched. */
  lemma NonMeshUntouched(o: Obj, rules: seq<Rule>, mats: seq<Material>)
    requires !IsMesh(o)
    ensures Apply(o, rules, mats) == o && Decide(o, rules, mats).None?
  {
  }
}
