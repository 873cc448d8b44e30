/** The file system as the scripts see it: a map from "/"-joined path to content, where
    a path is present exactly when `Path.exists()` holds. Writing replaces; the stubs'
    "write only if it does not exist yet" is `CreateMissing`. */
module FileStore {
  import Seqs

  type Files<D> = map<string, D>

  /** Paths written by `writes`. */
  predicate Written<D>(writes: seq<(string, D)>, p: string) {
    exists i :: 0 <= i < |writes| && writes[i].0 == p
  }

  /** Files after writing `writes` one after another. */
  function WriteAll<D>(fs: Files<D>, writes: seq<(string, D)>): (r: Files<D>)
    ensures forall p :: p in r <==> p in fs || Written(writes, p)
    ensures forall p :: p in fs && !Written(writes, p) ==> r[p] == fs[p]
    decreases |writes|
  {
    if |writes| == 0 then fs
    else
      var r := WriteAll(fs[writes[0].0 := writes[0].1], writes[1..]);
      assert forall i :: 1 <= i < |writes| ==> writes[i] == writes[1..][i - 1];
      r
  }

  /** The last write to a path decides its content. */
  lemma {:induction false} WriteAllLast<D>(fs: Files<D>, writes: seq<(string, D)>, i: nat)
    requires i < |writes|
    requires forall j :: i < j < |writes| ==> writes[j].0 != writes[i].0
    ensures WriteAll(fs, writes)[writes[i].0] == writes[i].1
    decreases |writes|
  {
    if i > 0 {
      WriteAllLast(fs[writes[0].0 := writes[0].1], writes[1..], i - 1);
    }
  }

  /** Each write happens only when its path does not exist yet. */
  function CreateMissing<D>(fs: Files<D>, writes: seq<(string, D)>): (r: Files<D>)
    ensures forall p :: p in fs ==> p in r && r[p] == fs[p]
    ensures forall p :: p in r <==> p in fs || Written(writes, p)
    decreases |writes|
  {
    if |writes| == 0 then fs
    else
      var fs1 := if writes[0].0 in fs then fs else fs[writes[0].0 := writes[0].1];
      var r := CreateMissing(fs1, writes[1..]);
      assert forall i :: 1 <= i < |writes| ==> writes[i] == writes[1..][i - 1];
      r
  }

  /** A path created by `CreateMissing` holds the content of its first write. */
  lemma {:induction false} CreateMissingFirst<D>(fs: Files<D>, writes: seq<(string, D)>, i: nat)
    requires i < |writes| && writes[i].0 !in fs
    requires forall j :: 0 <= j < i ==> writes[j].0 != writes[i].0
    ensures CreateMissing(fs, writes)[writes[i].0] == writes[i].1
    decreases |writes|
  {
    if i == 0 {
    } else {
      var fs1 := if writes[0].0 in fs then fs else fs[writes[0].0 := writes[0].1];
      CreateMissingFirst(fs1, writes[1..], i - 1);
    }
  }

  /** Creating what is missing twice is creating it once. */
  lemma {:induction false} CreateMissingIdempotent<D>(fs: Files<D>, writes: seq<(string, D)>)
    ensures CreateMissing(CreateMissing(fs, writes), writes) == CreateMissing(fs, writes)
  {
    var once := CreateMissing(fs, writes);
    CreateMissingPresent(once, writes);
  }

  /** Nothing is written when every path already exists. */
  lemma {:induction false} CreateMissingPresent<D>(fs: Files<D>, writes: seq<(string, D)>)
    requires forall i :: 0 <= i < |writes| ==> writes[i].0 in fs
    ensures CreateMissing(fs, writes) == fs
    decreases |writes|
  {
    if |writes| > 0 {
      CreateMissingPresent(fs, writes[1..]);
    }
  }

  /** A written path has a first write. */
  lemma FirstWrite<D>(writes: seq<(string, D)>, p: string)
    requires Written(writes, p)
    ensures exists i :: 0 <= i < |writes| && writes[i].0 == p && forall j :: 0 <= j < i ==> writes[j].0 != p
  {
    var f := Seqs.FirstIndex(writes, (w: (string, D)) => w.0 == p);
    assert f.Some?;
  }
}
