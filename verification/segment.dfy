/** sam3_segment.py: mask file naming, the reference-image lookup, the SAM2 assignment of
    ranked masks to prompts, the placeholder stub and the SAM3 -> SAM2 -> stub fallback
    chain. The models themselves are opaque: SAM3 either is unavailable or, once loaded,
    completes or raises at some prompt; SAM2 either is unavailable or yields the areas of
    its masks (a failed inference yields none). Files are a map from path to content;
    paths are "/"-joined strings under the project root. */
module Segment {
  import opened Results
  import Text
  import Seqs
  import MaskRanking
  import FileStore

  /** What a written mask file holds. */
  datatype MaskData =
    | Sam3Mask(prompt: string)   // SAM3's combined (or empty) mask for the prompt
    | Sam2Mask(index: nat)       // the SAM2 mask at this position of the pipeline's output
    | BlankMask                  // an all-zero image of the reference's size

  datatype FileData = EmptyFile | Image(mask: MaskData) | Picture

  type Files = FileStore.Files<FileData>

  /** `slugify_prompt`: strip, lower, spaces to underscores. */
  function Slugify(prompt: string): (r: string)
    ensures |r| <= |prompt|
    ensures ' ' !in r
    ensures forall i :: 0 <= i < |r| ==> !Text.IsUpper(r[i])
  {
    Text.ReplaceChar(Text.Lower(Text.Strip(prompt)), ' ', '_')
  }

  /** Lowering neither makes nor removes whitespace. */
  lemma LowerSpace(c: char)
    ensures Text.IsSpace(Text.LowerChar(c)) <==> Text.IsSpace(c)
  {
  }

  /** A slug has no surrounding whitespace. */
  lemma SlugifyStripped(prompt: string)
    ensures Text.Strip(Slugify(prompt)) == Slugify(prompt)
  {
    var t := Text.Strip(prompt);
    var r := Slugify(prompt);
    if |r| > 0 {
      LowerSpace(t[0]);
      LowerSpace(t[|t| - 1]);
      assert !Text.IsSpace(r[0]) && !Text.IsSpace(r[|r| - 1]);
      Text.StripByKeeps(r, Text.IsSpace);
    } else {
      assert Text.DropLeading(r, Text.IsSpace) == r;
    }
  }

  /** A slug is its own slug. */
  lemma SlugifyIdempotent(prompt: string)
    ensures Slugify(Slugify(prompt)) == Slugify(prompt)
  {
    var s := Slugify(prompt);
    SlugifyStripped(prompt);
    assert Text.Lower(s) == s;
    assert Text.ReplaceChar(s, ' ', '_') == s;
  }

  /** Letter case does not change the slug. */
  lemma SlugifyIgnoresCase(prompt: string)
    ensures Slugify(Text.Lower(prompt)) == Slugify(prompt)
  {
    var d := Text.DropLeading(prompt, Text.IsSpace);
    var t := Text.DropTrailing(d, Text.IsSpace);
    assert t == Text.Strip(prompt);
    DropLeadingLower(prompt);
    DropTrailingLower(d);
    var lt := Text.Lower(t);
    assert Text.Strip(Text.Lower(prompt)) == lt;
    assert Text.Lower(lt) == lt;
  }

  lemma {:induction false} DropLeadingLower(s: string)
    ensures Text.DropLeading(Text.Lower(s), Text.IsSpace) == Text.Lower(Text.DropLeading(s, Text.IsSpace))
    decreases |s|
  {
    if |s| > 0 {
      LowerSpace(s[0]);
      assert Text.Lower(s)[1..] == Text.Lower(s[1..]);
      DropLeadingLower(s[1..]);
    }
  }

  lemma {:induction false} DropTrailingLower(s: string)
    ensures Text.DropTrailing(Text.Lower(s), Text.IsSpace) == Text.Lower(Text.DropTrailing(s, Text.IsSpace))
    decreases |s|
  {
    if |s| > 0 {
      LowerSpace(s[|s| - 1]);
      assert Text.Lower(s)[..|s| - 1] == Text.Lower(s[..|s| - 1]);
      DropTrailingLower(s[..|s| - 1]);
    }
  }

  function MaskPath(root: string, env: string, prompt: string): string {
    root + "/assets/masks/" + env + "/" + Slugify(prompt) + ".png"
  }

  /** The list every backend returns: one `<slug>.png` per prompt, in prompt order. */
  function MaskPaths(root: string, env: string, prompts: seq<string>): (r: seq<string>)
    ensures |r| == |prompts|
    ensures forall i :: 0 <= i < |prompts| ==> r[i] == MaskPath(root, env, prompts[i])
  {
    seq(|prompts|, i requires 0 <= i < |prompts| => MaskPath(root, env, prompts[i]))
  }

  /** The reference images `load_reference_image` looks for, in its order. */
  function ReferenceCandidates(root: string, env: string): (r: seq<string>)
    ensures |r| == 4
  {
    [ root + "/assets/reference/processed/" + env + ".jpg",
      root + "/assets/reference/processed/" + env + ".png",
      root + "/assets/reference/" + env + ".jpg",
      root + "/assets/reference/" + env + ".png" ]
  }

  const NoReference := FileNotFoundError("No reference image found in assets/reference/")

  /** `load_reference_image`: the first candidate that exists, or FileNotFoundError. */
  function LoadReferenceImage<D>(fs: FileStore.Files<D>, root: string, env: string): (r: Result<string>)
    ensures var c := ReferenceCandidates(root, env);
      r.Err? <==> forall k :: 0 <= k < 4 ==> c[k] !in fs
    ensures r.Err? ==> r.error == NoReference
    ensures var c := ReferenceCandidates(root, env);
      r.Ok? ==> exists k :: 0 <= k < 4 && r.value == c[k] && c[k] in fs && forall j :: 0 <= j < k ==> c[j] !in fs
  {
    var c := ReferenceCandidates(root, env);
    match Seqs.FirstIndex(c, (p: string) => p in fs)
    case None => Err(NoReference)
    case Some(k) => Ok(c[k])
  }

  /** The check in `main`: only the two .jpg candidates count. */
  predicate Precheck<D>(fs: FileStore.Files<D>, root: string, env: string) {
    var c := ReferenceCandidates(root, env);
    c[0] in fs || c[2] in fs
  }

  /** Passing the check guarantees that the image loads. */
  lemma PrecheckSufficient<D>(fs: FileStore.Files<D>, root: string, env: string)
    requires Precheck(fs, root, env)
    ensures LoadReferenceImage(fs, root, env).Ok?
  {
  }

  /** The converse fails: with only a .png reference `main` exits with status 1 although
      `load_reference_image` would have found it. */
  lemma PngOnlyRejected<D>(fs: FileStore.Files<D>, root: string, env: string)
    requires var c := ReferenceCandidates(root, env); c[1] in fs && c[0] !in fs && c[2] !in fs
    ensures !Precheck(fs, root, env) && LoadReferenceImage(fs, root, env).Ok?
  {
  }

  /** The mask each prompt receives from SAM2: the i-th ranked mask, or a blank image when
      there are fewer masks than prompts. */
  function Sam2Writes(root: string, env: string, prompts: seq<string>, areas: seq<nat>): (r: seq<(string, FileData)>)
    ensures |r| == |prompts|
    ensures forall i :: 0 <= i < |prompts| ==> r[i].0 == MaskPath(root, env, prompts[i])
    ensures forall i :: 0 <= i < |prompts| && i < |areas| ==>
      r[i].1 == Image(Sam2Mask(MaskRanking.RankByArea(areas)[i]))
    ensures forall i :: |areas| <= i < |prompts| ==> r[i].1 == Image(BlankMask)
  {
    var rank := MaskRanking.RankByArea(areas);
    seq(|prompts|, i requires 0 <= i < |prompts| =>
      (MaskPath(root, env, prompts[i]), Image(if i < |rank| then Sam2Mask(rank[i]) else BlankMask)))
  }

  /** Earlier prompts receive masks at least as large as later ones, and every prompt
      with a mask receives a different one. */
  lemma Sam2LargestFirst(root: string, env: string, prompts: seq<string>, areas: seq<nat>, i: nat, j: nat)
    requires i < j < |prompts| && j < |areas|
    ensures var w := Sam2Writes(root, env, prompts, areas);
      w[i].1.mask.index != w[j].1.mask.index && areas[w[i].1.mask.index] >= areas[w[j].1.mask.index]
  {
    var rank := MaskRanking.RankByArea(areas);
    assert MaskRanking.Before(areas, rank[i], rank[j]);
  }

  /** `run_sam2_automatic`: raises only when the reference image is missing; an inference
      failure (`Err`) gives no masks and so blank images for every prompt. */
  function RunSam2Automatic(fs: Files, root: string, env: string, prompts: seq<string>,
                            inference: Result<seq<nat>>): (r: Result<(Files, seq<string>)>)
    ensures r.Err? <==> LoadReferenceImage(fs, root, env).Err?
    ensures r.Ok? ==> r.value.1 == MaskPaths(root, env, prompts)
    ensures r.Ok? ==> r.value.0 == FileStore.WriteAll(fs, Sam2Writes(root, env, prompts, if inference.Ok? then inference.value else []))
  {
    var _ :- LoadReferenceImage(fs, root, env);
    var areas := if inference.Ok? then inference.value else [];
    Ok((FileStore.WriteAll(fs, Sam2Writes(root, env, prompts, areas)), MaskPaths(root, env, prompts)))
  }

  /** SAM3's writes for the first `n` prompts. */
  function Sam3Writes(root: string, env: string, prompts: seq<string>, n: nat): (r: seq<(string, FileData)>)
    requires n <= |prompts|
    ensures |r| == n
    ensures forall i :: 0 <= i < n ==> r[i] == (MaskPath(root, env, prompts[i]), Image(Sam3Mask(prompts[i])))
  {
    seq(n, i requires 0 <= i < n => (MaskPath(root, env, prompts[i]), Image(Sam3Mask(prompts[i]))))
  }

  /** How the SAM3 model fares: not loadable, or loaded and raising at prompt `raisesAt`
      (a position at or past the last prompt means it never raises). */
  datatype Sam3Load = Sam3Unavailable | Sam3Loaded(raisesAt: nat)
  datatype Sam2Load = Sam2Unavailable | Sam2Loaded(inference: Result<seq<nat>>)

  /** `run_sam3_real`: the files afterwards (the masks written before a raise stay) and
      the result. */
  function RunSam3Real(fs: Files, root: string, env: string, prompts: seq<string>, raisesAt: nat)
    : (r: (Files, Result<seq<string>>))
    ensures r.1.Ok? <==> LoadReferenceImage(fs, root, env).Ok? && raisesAt >= |prompts|
    ensures r.1.Ok? ==> r.1.value == MaskPaths(root, env, prompts)
    ensures LoadReferenceImage(fs, root, env).Err? ==> r.0 == fs
  {
    if LoadReferenceImage(fs, root, env).Err? then (fs, Err(NoReference))
    else if raisesAt < |prompts| then (FileStore.WriteAll(fs, Sam3Writes(root, env, prompts, raisesAt)), Err(RuntimeError("SAM3 inference failed")))
    else (FileStore.WriteAll(fs, Sam3Writes(root, env, prompts, |prompts|)), Ok(MaskPaths(root, env, prompts)))
  }

  /** `run_stub`: an empty file for every mask path that does not exist yet. */
  function RunStub(fs: Files, paths: seq<string>): (r: Files)
    ensures forall p :: p in fs ==> p in r && r[p] == fs[p]
    ensures forall p :: p in r <==> p in fs || p in paths
    ensures forall p :: p in r && p !in fs ==> r[p] == EmptyFile
  {
    var writes := seq(|paths|, i requires 0 <= i < |paths| => (paths[i], EmptyFile));
    var r := FileStore.CreateMissing(fs, writes);
    assert forall p :: FileStore.Written(writes, p) <==> p in paths by {
      forall p | p in paths ensures FileStore.Written(writes, p) {
        var i :| 0 <= i < |paths| && paths[i] == p;
        assert writes[i].0 == p;
      }
    }
    forall p | p in r && p !in fs ensures r[p] == EmptyFile {
      var i :| 0 <= i < |writes| && writes[i].0 == p && forall j :: 0 <= j < i ==> writes[j].0 != p by {
        FileStore.FirstWrite(writes, p);
      }
      FileStore.CreateMissingFirst(fs, writes, i);
    }
    r
  }

  datatype Backend = Sam3 | Sam2 | Stub

  datatype Segmentation = Segmentation(backend: Backend, paths: seq<string>, files: Files)

  predicate Sam3Succeeds(fs: Files, root: string, env: string, prompts: seq<string>, sam3: Sam3Load) {
    sam3.Sam3Loaded? && LoadReferenceImage(fs, root, env).Ok? && sam3.raisesAt >= |prompts|
  }

  /** The files SAM3 leaves behind, whether or not it succeeded. */
  function AfterSam3(fs: Files, root: string, env: string, prompts: seq<string>, sam3: Sam3Load): Files {
    if sam3.Sam3Loaded? then RunSam3Real(fs, root, env, prompts, sam3.raisesAt).0 else fs
  }

  /** `run_segmentation`: SAM3 when it loads and completes; otherwise SAM2 when it loads
      and completes; otherwise the stub. */
  function RunSegmentation(fs: Files, root: string, env: string, prompts: seq<string>,
                           sam3: Sam3Load, sam2: Sam2Load): (r: Segmentation)
    ensures r.paths == MaskPaths(root, env, prompts)
    ensures r.backend == Sam3 <==> Sam3Succeeds(fs, root, env, prompts, sam3)
    ensures r.backend == Sam2 <==>
      !Sam3Succeeds(fs, root, env, prompts, sam3) && sam2.Sam2Loaded? && LoadReferenceImage(fs, root, env).Ok?
    ensures r.backend == Stub ==> r.files == RunStub(AfterSam3(fs, root, env, prompts, sam3), r.paths)
    ensures forall i :: 0 <= i < |prompts| ==> r.paths[i] in r.files
  {
    var paths := MaskPaths(root, env, prompts);
    var fs1 := AfterSam3(fs, root, env, prompts, sam3);
    if Sam3Succeeds(fs, root, env, prompts, sam3) then
      assert forall i :: 0 <= i < |prompts| ==> Sam3Writes(root, env, prompts, |prompts|)[i].0 == paths[i];
      Segmentation(Sam3, paths, fs1)
    else
      ReferenceUnchanged(fs, root, env, prompts, sam3);
      if sam2.Sam2Loaded? && LoadReferenceImage(fs1, root, env).Ok? then
        var areas := if sam2.inference.Ok? then sam2.inference.value else [];
        assert forall i :: 0 <= i < |prompts| ==> Sam2Writes(root, env, prompts, areas)[i].0 == paths[i];
        Segmentation(Sam2, paths, RunSam2Automatic(fs1, root, env, prompts, sam2.inference).value.0)
      else
        Segmentation(Stub, paths, RunStub(fs1, paths))
  }

  /** SAM3 only adds files, and writes none when the reference is missing, so the
      reference lookup after it succeeds exactly when it succeeded before. */
  lemma ReferenceUnchanged(fs: Files, root: string, env: string, prompts: seq<string>, sam3: Sam3Load)
    ensures LoadReferenceImage(AfterSam3(fs, root, env, prompts, sam3), root, env).Ok? <==>
      LoadReferenceImage(fs, root, env).Ok?
  {
    var fs1 := AfterSam3(fs, root, env, prompts, sam3);
    assert fs.Keys <= fs1.Keys;
  }

  /** Without a reference image both models fail and the stub writes the placeholders. */
  lemma MissingReferenceGivesStub(fs: Files, root: string, env: string, prompts: seq<string>,
                                  sam3: Sam3Load, sam2: Sam2Load)
    requires LoadReferenceImage(fs, root, env).Err?
    ensures var r := RunSegmentation(fs, root, env, prompts, sam3, sam2);
      r.backend == Stub && r.files == RunStub(fs, r.paths)
  {
  }

  /** The stub never overwrites: masks a failed SAM3 run already wrote are kept. */
  lemma StubKeepsPartialMasks(fs: Files, root: string, env: string, prompts: seq<string>, k: nat, i: nat)
    requires LoadReferenceImage(fs, root, env).Ok? && i < k < |prompts|
    requires forall j :: i < j < k ==> MaskPath(root, env, prompts[j]) != MaskPath(root, env, prompts[i])
    ensures var r := RunSegmentation(fs, root, env, prompts, Sam3Loaded(k), Sam2Unavailable);
      r.backend == Stub && r.files[MaskPath(root, env, prompts[i])] == Image(Sam3Mask(prompts[i]))
  {
    var writes := Sam3Writes(root, env, prompts, k);
    var fs1 := AfterSam3(fs, root, env, prompts, Sam3Loaded(k));
    assert fs1 == FileStore.WriteAll(fs, writes);
    FileStore.WriteAllLast(fs, writes, i);
    var r := RunSegmentation(fs, root, env, prompts, Sam3Loaded(k), Sam2Unavailable);
    assert r.backend == Stub;
    assert r.files == RunStub(fs1, r.paths);
  }

  /** `main`: exits with status 1 (`None`) unless a .jpg reference exists. */
  function SegmentMain(fs: Files, root: string, env: string, prompts: seq<string>,
                       sam3: Sam3Load, sam2: Sam2Load): (r: Option<Segmentation>)
    ensures r.None? <==> !Precheck(fs, root, env)
    ensures r.Some? ==> r.value.backend != Stub || sam2.Sam2Unavailable?
    ensures r.Some? ==> r.value.paths == MaskPaths(root, env, prompts)
    ensures r.Some? ==> forall i :: 0 <= i < |prompts| ==> r.value.paths[i] in r.value.files
    ensures r.Some? ==> (r.value.backend == Sam3 <==> Sam3Succeeds(fs, root, env, prompts, sam3))
    ensures r.Some? ==> (r.value.backend == Sam2 <==> !Sam3Succeeds(fs, root, env, prompts, sam3) && sam2.Sam2Loaded?)
    ensures r.Some? && r.value.backend == Stub ==>
      r.value.files == RunStub(AfterSam3(fs, root, env, prompts, sam3), r.value.paths)
  {
    if Precheck(fs, root, env) then
      PrecheckSufficient(fs, root, env);
      Some(RunSegmentation(fs, root, env, prompts, sam3, sam2))
    else None
  }
}
