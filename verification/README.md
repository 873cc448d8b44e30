# K1-Lightwave core, modelled in Dafny

The K1-Lightwave repository is mostly Blender scene-authoring scripts. Four pieces of
sequential logic inside it have stateable behaviour, and this project models those pieces
and proves properties of them.

1. **The digital-twin engine** (`src/sim/core.py`) and its two front ends: the `k1-dt`
   command line (`src/cli/main.py`) and the read-only JSON HTTP API (`src/api/server.py`).
   - The engine is a record (`TwinEngine.Engine`). `tick`, `load_assets`, `state` and
     `stop` are pure transitions on it.
   - The directory listing is an observation (`DirProbe`): not a directory, a listing that
     raises, or a list of names.
   - The CLI is a function from an invocation to the printed lines and the final engine.
   - The HTTP handler is a function from a path to a response. A response holds the
     status, the headers and the UTF-8 bytes of the `json.dumps` text.
   - `json.dumps` is modelled for flat objects of strings and integers, with its default
     separators and `ensure_ascii` escaping (`Json`). `str(int)` is modelled too (`Decimal`).
2. **Name-keyword material classifiers**. Blender objects are records of name, kind and
   material slots, and materials are records of name and node tree (`Scene`).
   - `ShaderNodes`: the node-type list operation `ensure_bsdf_node`.
   - `KeywordRules`: the first-match rule table shared by `K1_MASTER_BUILD.py`
     (`MasterBuild`) and `apply_cyber_scheme.py` (`CyberScheme`).
   - `FallbackMaterials`: the keyword pass and size-based fallback of `apply_materials.py`.
   - `Connector`: the include/exclude rule of `fix_connector.py`.
   - `SilverGhost`: the get-or-create material and camera guard of `fix_silver_ghost.py`.
   - `HexColor`: `hex_to_rgb` as a parser from text to three integers.
3. **Segmentation and reconstruction orchestration**.
   - `Segment` covers `sam3_segment.py`, and `MaskRanking` holds its largest-first mask
     order.
   - `Reconstruct` covers `sam3d_reconstruct.py`.
   - Files are a map from path to content (`FileStore`).
   - The ML models are opaque outcomes:
     - SAM3 is unavailable, or loads and then raises at some prompt or completes.
     - SAM2 is unavailable, or yields the areas of its masks.
     - SAM3D inference loads or does not.
4. **Manifest import and the K1 lookup**.
   - `ManifestImport` covers `build_environment_from_manifest.py`: importer dispatch,
     object selection, the skip rules, the counters and the default transforms.
   - `DragonDesk` covers `build_dragon_desk_composite.py`: K1 object lookup,
     link-if-absent, the library import's early returns, the mask coverage ratio and the
     occluder filter.

Shared helpers:
- `Results` holds `Option`/`Result`.
- `Text` holds `strip`, ASCII `lower`, substring search and `split('.')[0]`.
- `Seqs` holds filter, map, count, first index and argmax/argmin.

`json.dumps` puts a space after the colon (`{"status": "ok"}`). The model
(`Json.DumpsStringMember`) and the `Content-Length` it implies use that layout.

## Model

| member | source | states |
|---|---|---|
| TwinEngine.Create | src/sim/core.py:6-11 | A new engine keeps the configured directory and has tick 0 and asset count 0. It is not running. |
| TwinEngine.CountVisible | src/sim/core.py:18 | The number of non-hidden entries never exceeds the number of entries. |
| TwinEngine.Observe | src/sim/core.py:13-20 | The count is 0 when the path is not a directory or the listing raises. Otherwise it is at most the number of listed names. |
| TwinEngine.LoadAssets | src/sim/core.py:13-20 | Loading never changes the tick, the directory or the running flag. It sets the asset count as `Observe` defines it, and no error escapes. |
| TwinEngine.Tick | src/sim/core.py:26-28 | A tick adds exactly 1 to the tick counter and leaves the asset count, directory and running flag alone. |
| TwinEngine.State | src/sim/core.py:22-24 | The snapshot has exactly the two keys `tick` and `assets`, in that order. |
| TwinEngine.StateFaithful | src/sim/core.py:22-24 | The snapshot holds the current tick and asset count. Two engines give equal snapshots exactly when both fields agree. |
| TwinEngine.Stop | src/sim/core.py:36-37 | `stop` clears the running flag and changes nothing else. |
| TwinEngine.StopIdempotent | src/sim/core.py:36-37 | Stopping twice is stopping once, and stopping an idle engine changes nothing. |
| TwinEngine.Run | src/sim/core.py:30-34 | A loop stopped after n iterations has performed exactly n ticks. The asset count is unchanged and the engine ends idle. |
| TwinEngine.CountVisibleAppend | src/sim/core.py:18 | The visible count of a concatenated listing is the sum of the two visible counts. |
| TwinEngine.CountVisibleAll | src/sim/core.py:18 | Every entry is counted exactly when no entry starts with ".". |
| TwinEngine.CountVisibleNone | src/sim/core.py:18 | The count is 0 exactly when every entry starts with ".". |
| TwinEngine.TicksAdvance | src/sim/core.py:26-28 | n ticks add exactly n and change nothing else. From a fresh engine, n ticks give tick n. |
| TwinEngine.ApplyCounters | src/sim/core.py:13-28 | After any sequence of tick and load calls, the tick is the start value plus the number of ticks. The asset count is what the last load observed, or the start value when there was no load (snapshot semantics). |
| TwinCli.CmdState | src/cli/main.py:10-15 | Assets are loaded once and the tick is untouched. The three lines are "status: ok", the loaded asset count and the tick, in that order. |
| TwinCli.CmdRun | src/cli/main.py:18-26 | The command loads once, then ticks and sleeps `interval` seconds per iteration. With at least one iteration, the sleep after the first tick raises OverflowError when the interval in nanoseconds falls outside the signed 64-bit range, and otherwise ValueError when the interval is negative. Otherwise the command performs max(ticks, 0) ticks and prints the requested `ticks` verbatim (even when zero or negative), then the loaded asset count, then the final tick. |
| TwinCli.Dispatch | src/cli/main.py:29-45 | `run` goes to `cmd_run` on a fresh engine, with 10 ticks and a 0.2 s interval when none is given. It fails exactly when a run with at least one tick has an interval the sleep rejects: OverflowError beyond the 64-bit nanosecond range, ValueError for any other negative interval. Any other command, or none, goes to `cmd_state`, which prints tick 0 and never fails. |
| TwinCli.DefaultRun | src/cli/main.py:36-37 | `run` with no tick count performs 10 ticks and prints "done ticks: 10" first. |
| TwinCli.SleepOverflowsInSeconds | src/cli/main.py:22 | `time.sleep` overflows exactly for lengths of 9223372036.854775808 s or more, or below minus that. |
| TwinCli.LineReadsBack | src/cli/main.py:13-15 | The number after "key: " on a printed line parses back to the printed integer. |
| Decimal.IntToStringRoundTrip | src/api/server.py:17 | The decimal text of an integer parses back to that integer. |
| Json.EscapeAll | src/api/server.py:14 | The escaped text is printable ASCII. A printable string without quote or backslash is left as it is. |
| Json.Quote | src/api/server.py:14 | A quoted JSON string is printable ASCII. |
| Json.Utf8 | src/api/server.py:14 | The UTF-8 encoding is never shorter than the text. |
| Json.DumpsPrintable | src/api/server.py:14 | `json.dumps` of a flat object is printable ASCII (`ensure_ascii`). |
| Json.EncodedLength | src/api/server.py:14-17 | The UTF-8 encoding of a dumped object has exactly as many bytes as the text has characters. |
| Json.DumpsStringMember | src/api/server.py:14 | A one-string object dumps as `{"k": "v"}`: quoted key, a colon and a space, quoted value. |
| Json.DumpsIntMembers | src/api/server.py:14 | A two-integer object dumps as `{"k1": n1, "k2": n2}`, with a colon-space and a comma-space between the members. |
| Json.ReadPairRoundTrip | src/api/server.py:14 | Both integers can be read back from the dumped text of a two-integer object. |
| TwinServer.SendJson | src/api/server.py:13-19 | The response has the requested status and carries the UTF-8 bytes of the dumped object as its body. The headers `_send_json` sets are Content-Type application/json and Content-Length, the decimal byte count of the body. The Server and Date headers that `send_response` adds on its own are left out. |
| TwinServer.ContentLengthExact | src/api/server.py:14-17 | The Content-Length header parses back to the body's byte length, which equals the length of the JSON text. |
| TwinServer.HandleGet | src/api/server.py:21-28 | "/" and "/health" give 200 `{"status": "ok"}`, and "/state" gives 200 with the engine snapshot. Every other path gives 404 `{"error": "not found"}` (section 15.5.5 of RFC 9110). |
| TwinServer.ExactRouting | src/api/server.py:22-25 | Routing is exact string equality: "/health/", "/state?x=1" and "/missing" are 404. |
| TwinServer.StateRouteFaithful | src/api/server.py:25-26 | Two engines give the same "/state" response exactly when their tick and asset count agree. |
| TwinServer.ReadStateRoundTrip | src/api/server.py:25-26 | The tick and asset count can be read back from the "/state" body. |
| TwinServer.Utf8InjectiveOnJson | src/api/server.py:14 | Equal encoded bodies come from equal JSON texts. |
| TwinServer.StartUp | src/api/server.py:9-10 | The server's engine is fresh and has loaded its assets once, before any request. |
| TwinServer.Serve | src/api/server.py:21-28 | There is one response per request, and it is 200 exactly for "/", "/health" and "/state". The same path always gets the same response. "/state" carries the engine's snapshot, and every other path gets a response that no engine state can change. |
| Scene.SetSlotZero | 03_Scripts_MCP/K1_MASTER_BUILD.py:324-327 | Slot 0 is replaced if slots exist, otherwise the material is appended. No other slot changes. |
| Scene.SetSlotZeroLastWins | 03_Scripts_MCP/K1_MASTER_BUILD.py:324-327 | Setting slot 0 twice leaves the second material. |
| Scene.AssignWhere | 03_Scripts_MCP/fix_connector.py:126-137 | Every mesh whose name satisfies the predicate gets the material in slot 0. Every other object is unchanged. |
| Scene.AssignWhereIdempotent | 03_Scripts_MCP/fix_silver_ghost.py:43-53 | Assigning by predicate twice is assigning once. |
| Scene.GetMaterial | 03_Scripts_MCP/fix_connector.py:73 | The lookup returns the position of a material of that name. It returns none exactly when no material has that name. |
| Scene.GetObject | 03_Scripts_MCP/fix_silver_ghost.py:57 | The lookup returns the position of an object of that name. It returns none exactly when no object has that name. |
| Scene.GetOrCreate | 03_Scripts_MCP/fix_silver_ghost.py:7-36 | An existing material is returned and the collection is untouched. Otherwise a material is created only if building its node tree succeeds. It is placed by name, after the last material whose name sorts no later, and removing it gives back the old collection. |
| Scene.Insert | 03_Scripts_MCP/fix_silver_ghost.py:10 | A new material lands after the last material whose name sorts no later, case-insensitively, and before every material that sorts after it. The materials before and after it keep their order, and removing it gives back the old collection. |
| Scene.InsertKeepsSorted | 03_Scripts_MCP/apply_cyber_scheme.py:85-88 | Creating a material, or renaming one (removing it and placing it again), keeps the collection sorted by case-insensitive name, as Blender keeps it. |
| Scene.GetOrCreateIdempotent | 03_Scripts_MCP/fix_silver_ghost.py:7-36 | Running get-or-create on its own result returns that result unchanged. |
| Scene.GetOrCreateNoDuplicate | 03_Scripts_MCP/fix_connector.py:73-80 | Get-or-create never adds a second material of the same name. |
| ShaderNodes.EnsureBsdf | 03_Scripts_MCP/apply_cyber_scheme.py:41-75 | An existing Principled BSDF (the first one) is returned and the tree is unchanged. Otherwise the result has: every non-output node removed; the outputs kept, or one new output when there were none; one new BSDF; and a single link from the BSDF to the first output. |
| ShaderNodes.EnsureBsdfIdempotent | 03_Scripts_MCP/apply_cyber_scheme.py:51-53 | A second `ensure_bsdf_node` finds the BSDF the first one left and changes nothing. |
| ShaderNodes.RebuildWithBsdf | 03_Scripts_MCP/fix_silver_ghost.py:14-36 | Clearing the tree and indexing the output node fails with IndexError exactly when the tree has no output. Otherwise the outputs are kept, one BSDF is added and linked to the first output (the `[0]` at line 34), and nothing else remains. |
| ShaderNodes.RebuildAgreesWithEnsure | 03_Scripts_MCP/fix_silver_ghost.py:14-36 | On a tree with an output and no BSDF, the silver-ghost rebuild leaves exactly the tree that `ensure_bsdf_node` in apply_cyber_scheme.py leaves, with the same BSDF. |
| ShaderNodes.RebuildReplacesBsdf | 03_Scripts_MCP/fix_silver_ghost.py:14-36 | On a tree that already has a BSDF, the rebuild succeeds but throws that BSDF away and adds a new one, where `ensure_bsdf_node` would keep the tree as it is. |
| HexColor.ParseHex | 03_Scripts_MCP/K1_MASTER_BUILD.py:27 | `int(slice, 16)` on a slice of at most two characters gives a value in -15..255 or fails with ValueError. |
| HexColor.HexToRgbRoundTrip | 03_Scripts_MCP/K1_MASTER_BUILD.py:24-27 | "#RRGGBB" written from three bytes parses back to those bytes. |
| HexColor.HashOptional | 03_Scripts_MCP/K1_MASTER_BUILD.py:26 | A leading '#' does not change the result, so "#FFC400" and "FFC400" agree. |
| HexColor.OnlySixMatter | 03_Scripts_MCP/K1_MASTER_BUILD.py:27 | Only the first six characters after stripping affect the result. |
| HexColor.ShortFails | 03_Scripts_MCP/K1_MASTER_BUILD.py:27 | Fewer than five characters after stripping make a slice empty, and the parse fails. |
| HexColor.BadDigitFails | 03_Scripts_MCP/K1_MASTER_BUILD.py:27 | A first character that is not a hex digit, a sign or white space makes the parse fail. |
| HexColor.SignedChannelAccepted | 03_Scripts_MCP/K1_MASTER_BUILD.py:27 | As written, a minus sign in the first slice is accepted: "-1" followed by four hex digits yields a negative red channel. |
| HexColor.HexToRgbStrict | 03_Scripts_MCP/K1_MASTER_BUILD.py:24-27 | The intended parser accepts exactly six hex digits after stripping '#' (more may follow), and then every channel is in 0..255. |
| HexColor.StrictAgrees | 03_Scripts_MCP/K1_MASTER_BUILD.py:24-27 | Wherever the strict parser accepts, the parser as written gives the same triple. |
| KeywordRules.FirstRule | 03_Scripts_MCP/K1_MASTER_BUILD.py:320-321 | The deciding rule is the first in declared order with a keyword inside the lowered name. There is none exactly when no rule matches. |
| KeywordRules.Decide | 03_Scripts_MCP/K1_MASTER_BUILD.py:315-329 | A decision is taken exactly for a mesh whose first matching rule's material exists, and it names that rule. |
| KeywordRules.Apply | 03_Scripts_MCP/K1_MASTER_BUILD.py:315-329 | A decided object gets the rule's material in slot 0. An undecided object is unchanged. Name and kind never change. |
| KeywordRules.AssignByRules | 03_Scripts_MCP/K1_MASTER_BUILD.py:314-329 | The loop leaves every object as `Apply` defines it. The counters are the tally of the decisions in iteration order. |
| KeywordRules.TallyCount | 03_Scripts_MCP/K1_MASTER_BUILD.py:328 | Each counter equals the number of objects decided for its rule. |
| KeywordRules.TallyTotal | 03_Scripts_MCP/K1_MASTER_BUILD.py:328 | The counters add up to the number of decisions taken. |
| KeywordRules.DecisionsAtMostMeshes | 03_Scripts_MCP/K1_MASTER_BUILD.py:315-316 | The counters add up to at most the number of meshes. |
| KeywordRules.NoFallThrough | 03_Scripts_MCP/K1_MASTER_BUILD.py:320-329 | When the deciding rule's material is missing, the object is left unchanged even if a later rule would match. |
| KeywordRules.Priority | 03_Scripts_MCP/K1_MASTER_BUILD.py:320-329 | An object matching rule j is never given the material of a later rule. |
| KeywordRules.NonMeshUntouched | 03_Scripts_MCP/K1_MASTER_BUILD.py:315-316 | Objects other than meshes are never decided for and never changed. |
| MasterBuild.AssignMaterialsByKeyword | 03_Scripts_MCP/K1_MASTER_BUILD.py:302-335 | The result has exactly the five material keys in table order. Each count is the number of meshes assigned that material, and the total is at most the number of meshes. Every object is left as the rule table decides. |
| MasterBuild.BodyKeywordWins | 03_Scripts_MCP/K1_MASTER_BUILD.py:304-329 | A mesh whose name contains "body" in any case gets the body material when it exists, whatever other keywords it holds. |
| CyberScheme.FindMaterialByName | 03_Scripts_MCP/apply_cyber_scheme.py:28-38 | The result is the first material in collection order whose lowered name contains a lowered term. It is none exactly when no material matches. |
| CyberScheme.UpdateMaterial | 03_Scripts_MCP/apply_cyber_scheme.py:78-147 | The first matching material is renamed, or one is created when none matches. Either way it is placed by its new name, has a BSDF and keeps its own tree (or the fresh one) apart from the BSDF step. Removing it gives the old collection minus the renamed material. `UpdateBody`, `UpdateAccents` and `UpdateLogo` instantiate it. |
| CyberScheme.UpdateIdempotent | 03_Scripts_MCP/apply_cyber_scheme.py:78-147 | In a sorted collection, when the new name matches a search term and every other matching material sorts after it, a second update returns the first update's result. |
| CyberScheme.PlacedFirst | 03_Scripts_MCP/apply_cyber_scheme.py:28-38 | A matching material placed by name into a sorted collection whose other matches all sort after it is the first match the search finds. |
| CyberScheme.UpdateBodyIdempotent | 03_Scripts_MCP/apply_cyber_scheme.py:78-99 | Rerunning `update_body_material` on a sorted collection changes nothing when every other body-matching material sorts after "Mt_Body_Anthracite", which contains "body". |
| CyberScheme.RerunRenamesAnother | 03_Scripts_MCP/apply_cyber_scheme.py:78-99 | Without that ordering condition a rerun renames a second material: in the sorted collection "Black_B", "Body_A" the first run renames "Black_B", which then sorts after "Body_A", and the second run renames "Body_A". |
| CyberScheme.ApplyMaterialsToObjects | 03_Scripts_MCP/apply_cyber_scheme.py:150-197 | The result has exactly the keys body, accent and logo. Each count is the number of meshes given that material, and the total is at most the number of meshes. Each object is left as the body > accent > logo rules decide. |
| CyberScheme.BodyExcludesOthers | 03_Scripts_MCP/apply_cyber_scheme.py:168-195 | An object matching a body keyword never gets the accent or logo material. |
| FallbackMaterials.EnsureMaterialOnObject | 03_Scripts_MCP/apply_materials.py:14-21 | The function returns True exactly for a mesh and an existing material, and then sets slot 0. Otherwise it returns False and the object is unchanged. |
| FallbackMaterials.KeywordCategory | 03_Scripts_MCP/apply_materials.py:41-61 | A name falls in red if it matches a red keyword. It falls in gunmetal if it matches no red keyword and some gunmetal keyword, and in badge if it matches only badge keywords. |
| FallbackMaterials.Volume | 03_Scripts_MCP/apply_materials.py:75 | The ranking volume is never negative, because negative extents count as 0. |
| FallbackMaterials.PickBody | 03_Scripts_MCP/apply_materials.py:80 | The body is the first remaining mesh of maximal volume. |
| FallbackMaterials.Planar | 03_Scripts_MCP/apply_materials.py:84-93 | The candidates are the remaining meshes not named like the body whose largest extent is non-zero and whose smallest-to-largest extent ratio is under 0.02. |
| FallbackMaterials.PickBadge | 03_Scripts_MCP/apply_materials.py:94-95 | The badge is the first candidate of minimal volume, as `min` with a key returns it. |
| FallbackMaterials.PlanFallback | 03_Scripts_MCP/apply_materials.py:78-98 | The plan has the body, the badge (present exactly when there is a flat candidate) and whether each material exists. The gunmetal pool is the remaining meshes minus those named like an assigned body or badge. |
| FallbackMaterials.FallbackRoles | 03_Scripts_MCP/apply_materials.py:78-103 | The body gets red and the badge gets the badge material when those exist. Everything else left gets gunmetal, or is listed unassigned when gunmetal is missing. Meshes outside the pool are untouched. |
| FallbackMaterials.AssignMaterialsByKeywords | 03_Scripts_MCP/apply_materials.py:27-109 | The result has one entry per mesh of the scene, in bpy.data.objects order (name-sorted). |
| FallbackMaterials.KeywordOutcome | 03_Scripts_MCP/apply_materials.py:41-109 | A mesh assigned by the keyword pass ends with its keyword material. A mesh whose keyword material was missing is reported unassigned. |
| FallbackMaterials.RemainingMembers | 03_Scripts_MCP/apply_materials.py:62 | The fallback pool is exactly the meshes whose name the keyword pass did not assign. A matched mesh whose assignment failed is included. |
| FallbackMaterials.FailedReported | 03_Scripts_MCP/apply_materials.py:45-46 | A mesh whose keyword material is missing is listed as unassigned by the keyword pass. |
| Connector.ExclusionDominates | 03_Scripts_MCP/fix_connector.py:108-111 | A name containing an exclude keyword is never a connector, whatever include keywords it has. |
| Connector.CreateSatinSilver | 03_Scripts_MCP/fix_connector.py:68-93 | An existing "Mt_Satin_Silver" is reused and no other material changes. Otherwise one is created and placed by name, and removing it gives back the old collection. The result has a BSDF, and there is never a second material of that name. |
| Connector.ApplySatinSilver | 03_Scripts_MCP/fix_connector.py:114-140 | When the material is missing, nothing changes and the list is empty. Otherwise every connector mesh gets the material in slot 0 and the list is the names of those meshes, in iteration order. |
| Connector.AppliedNames | 03_Scripts_MCP/fix_connector.py:126-140 | A name is in the applied list exactly when some connector mesh carries it. |
| SilverGhost.GetOrCreateMaterial | 03_Scripts_MCP/fix_silver_ghost.py:7-36 | An existing material is returned untouched. Otherwise the tree is built, which fails with IndexError exactly when the initial tree has no output. The new material is placed by name and has a BSDF, and removing it gives back the old collection. |
| SilverGhost.GetOrCreateMaterialIdempotent | 03_Scripts_MCP/fix_silver_ghost.py:7-36 | A second call returns the first call's material and collection. |
| SilverGhost.NoDuplicate | 03_Scripts_MCP/fix_silver_ghost.py:8-10 | The call never adds a second "Mt_SilverGhost". |
| SilverGhost.ApplyMaterialToTargets | 03_Scripts_MCP/fix_silver_ghost.py:38-53 | The call fails only if get-or-create fails. Otherwise exactly the meshes whose lowered name contains guide, plate, lgp or diffuser get "Mt_SilverGhost" in slot 0, and all other objects are unchanged. |
| SilverGhost.ApplyIdempotent | 03_Scripts_MCP/fix_silver_ghost.py:43-53 | Applying to the result again changes nothing. |
| SilverGhost.SetCameraAperture | 03_Scripts_MCP/fix_silver_ghost.py:55-60 | Only an object named "Cam_Hero_1" that is a camera is changed, to depth of field on at the script's f-stop. Nothing else changes. |
| SilverGhost.SetCameraApertureIdempotent | 03_Scripts_MCP/fix_silver_ghost.py:55-60 | Setting the aperture twice is setting it once. |
| Segment.Slugify | 04_SAM3D_Environments/scripts/sam3_segment.py:111-113 | The slug is no longer than the prompt and has no space and no upper-case letter. |
| Segment.SlugifyStripped | 04_SAM3D_Environments/scripts/sam3_segment.py:111-113 | The slug has no leading or trailing white space. |
| Segment.SlugifyIdempotent | 04_SAM3D_Environments/scripts/sam3_segment.py:111-113 | Slugifying a slug gives it back. |
| Segment.SlugifyIgnoresCase | 04_SAM3D_Environments/scripts/sam3_segment.py:111-113 | Prompts that differ only in ASCII letter case get the same slug. |
| Segment.MaskPaths | 04_SAM3D_Environments/scripts/sam3_segment.py:293-311 | There is one path per prompt, in prompt order, each `<mask dir>/<slug>.png`. |
| Segment.LoadReferenceImage | 04_SAM3D_Environments/scripts/sam3_segment.py:90-108 | The result is the first existing candidate among processed .jpg, processed .png, raw .jpg and raw .png. It fails with FileNotFoundError exactly when none exists. |
| Segment.PrecheckSufficient | 04_SAM3D_Environments/scripts/sam3_segment.py:393-403 | Whenever `main`'s check passes, the reference image loads. |
| Segment.PngOnlyRejected | 04_SAM3D_Environments/scripts/sam3_segment.py:393-403 | With only a processed .png present, `main` exits although the image would load: the check looks at the two .jpg candidates only. |
| Segment.Sam2Writes | 04_SAM3D_Environments/scripts/sam3_segment.py:286-309 | Prompt i receives the i-th mask in largest-first order. Prompts beyond the number of masks receive an empty mask. |
| Segment.Sam2LargestFirst | 04_SAM3D_Environments/scripts/sam3_segment.py:286-301 | Earlier prompts receive distinct masks of area no smaller than later ones. |
| Segment.RunSam2Automatic | 04_SAM3D_Environments/scripts/sam3_segment.py:262-311 | The call fails only when the reference is missing, and a failed inference counts as no masks. It writes exactly the SAM2 assignment and returns one path per prompt, in order. |
| Segment.RunSam3Real | 04_SAM3D_Environments/scripts/sam3_segment.py:157-227 | The call succeeds exactly when the reference loads and no prompt raises, and then returns one path per prompt. Without a reference nothing is written. |
| Segment.RunStub | 04_SAM3D_Environments/scripts/sam3_segment.py:318-345 | Existing files are never overwritten. Every returned path exists afterwards, and only those paths are added, as empty files. |
| Segment.RunSegmentation | 04_SAM3D_Environments/scripts/sam3_segment.py:352-377 | SAM3 is used exactly when it loads and completes. SAM2 is used exactly when SAM3 did not complete, SAM2 loads and the reference exists. The stub runs otherwise, on whatever SAM3 left behind. Every returned path exists. |
| Segment.MissingReferenceGivesStub | 04_SAM3D_Environments/scripts/sam3_segment.py:352-377 | Without a reference image the chain always ends in the stub, on the untouched files. |
| Segment.StubKeepsPartialMasks | 04_SAM3D_Environments/scripts/sam3_segment.py:157-227 | When SAM3 raises at prompt k and SAM2 is unavailable, the stub keeps the masks SAM3 wrote for the earlier prompts. |
| Segment.SegmentMain | 04_SAM3D_Environments/scripts/sam3_segment.py:380-406 | Segmentation runs exactly when the precheck passes. It then writes one mask path per prompt, each named by the prompt, and every one of those files exists afterwards. SAM3 is the backend exactly when it succeeds. SAM2 is the backend exactly when SAM3 fails and SAM2 loads. Otherwise the stub writes the masks over what SAM3 left. The stub is reached only if SAM2 is unavailable, because a passing precheck means SAM2 can run. |
| MaskRanking.RankByArea | 04_SAM3D_Environments/scripts/sam3_segment.py:287-291 | The ranking is a permutation of the mask indices. Areas never increase along it, and equal areas keep index order. |
| MaskRanking.RankedUnique | 04_SAM3D_Environments/scripts/sam3_segment.py:287-291 | Two rankings of the same indices are equal, so the stable descending sort has one result. |
| MaskRanking.LargestFirst | 04_SAM3D_Environments/scripts/sam3_segment.py:287-291 | The first ranked mask has the largest area. |
| MaskRanking.StableOnTies | 04_SAM3D_Environments/scripts/sam3_segment.py:287-291 | Masks of equal area keep their original order. |
| FileStore.WriteAll | 04_SAM3D_Environments/scripts/sam3_segment.py:300-306 | Writing adds exactly the written paths and keeps every file not written. |
| FileStore.WriteAllLast | 04_SAM3D_Environments/scripts/sam3_segment.py:300-306 | A path holds the content of its last write. |
| FileStore.CreateMissing | 04_SAM3D_Environments/scripts/sam3_segment.py:330-331 | Create-if-absent keeps every existing file and adds exactly the missing written paths. |
| FileStore.CreateMissingIdempotent | 04_SAM3D_Environments/scripts/sam3d_reconstruct.py:267-272 | Creating placeholders twice is creating them once. |
| Reconstruct.ObjSlug | 04_SAM3D_Environments/scripts/sam3d_reconstruct.py:117 | The object slug has the name's length, no space and no upper-case letter. |
| Reconstruct.ObjSlugIdempotent | 04_SAM3D_Environments/scripts/sam3d_reconstruct.py:263-278 | Slugging a slug gives it back, so `run_stub` passing the slug to `load_mask_path` finds the same mask. |
| Reconstruct.ObjSlugKeepsSpaces | 04_SAM3D_Environments/scripts/sam3d_reconstruct.py:117 | Unlike the prompt slug, the object slug does not strip: a leading space becomes '_'. |
| Reconstruct.SlugsAgreeWhenStripped | 04_SAM3D_Environments/scripts/sam3d_reconstruct.py:117 | For a name without surrounding white space the two slugs agree. |
| Reconstruct.LoadMaskPath | 04_SAM3D_Environments/scripts/sam3d_reconstruct.py:113-128 | The lookup tries `<slug>.png` then `<slug>.jpg` and fails with FileNotFoundError when neither exists. |
| Reconstruct.SegmentMaskFound | 04_SAM3D_Environments/scripts/sam3d_reconstruct.py:113-128 | The mask `sam3_segment.py` wrote for a stripped name is the one `load_mask_path` finds. |
| Reconstruct.TryImportInference | 04_SAM3D_Environments/scripts/sam3d_reconstruct.py:143-184 | Inference is available exactly when the repo directory and checkpoints/hf/pipeline.yaml exist and loading succeeds. |
| Reconstruct.RunStub | 04_SAM3D_Environments/scripts/sam3d_reconstruct.py:253-301 | There is one object per requested name, in order, with the default transform and an existing placeholder .obj. No existing file is overwritten. |
| Reconstruct.RunBackend | 04_SAM3D_Environments/scripts/sam3d_reconstruct.py:308-344 | Without inference this is the stub. With it, the call fails with FileNotFoundError when the reference is missing, and with UnidentifiedImageError when some object has a mask and the reference or such a mask cannot be read as an image. Otherwise it keeps exactly the objects that have a mask, in input order, each with the default transform and an existing mask. |
| Reconstruct.BackendKeepsMasked | 04_SAM3D_Environments/scripts/sam3d_reconstruct.py:187-210 | With inference and an existing reference image, the backend succeeds exactly when every image it opens can be read. Then a requested object appears in its output exactly when its mask exists. |
| Reconstruct.MeshNeverMask | 04_SAM3D_Environments/scripts/sam3d_reconstruct.py:131-136 | A mesh path is never a mask path, so writing meshes cannot change which masks exist. |
| Reconstruct.WriteManifest | 04_SAM3D_Environments/scripts/sam3d_reconstruct.py:347-369 | The function writes `manifests/<env>_manifest.json` holding the env name, the found reference image, the objects in input order and the notes. The files afterwards are the old ones plus that one, and no other file changes. |
| Reconstruct.ReconstructMain | 04_SAM3D_Environments/scripts/sam3d_reconstruct.py:376-396 | The run fails, and writes no manifest, exactly when inference is available and the reference is missing or an image it opens cannot be read. Otherwise the manifest exists afterwards. |
| Reconstruct.StubManifestComplete | 04_SAM3D_Environments/scripts/sam3d_reconstruct.py:308-316 | Without inference the manifest lists every requested object, in order, with the default transform. |
| ManifestImport.Suffix | 04_SAM3D_Environments/scripts/build_environment_from_manifest.py:22 | The suffix is empty or a '.' followed by at least one character that is neither '.' nor '/'. |
| ManifestImport.SuffixOf | 04_SAM3D_Environments/scripts/build_environment_from_manifest.py:22 | The suffix of `dir/stem.ext` is `.ext`. |
| ManifestImport.Dispatch | 04_SAM3D_Environments/scripts/build_environment_from_manifest.py:22-37 | The OBJ importer handles exactly a lowered suffix .obj, and the glTF importer exactly .glb or .gltf. Any other suffix fails with ValueError. |
| ManifestImport.DispatchIgnoresCase | 04_SAM3D_Environments/scripts/build_environment_from_manifest.py:22 | The importer choice ignores the letter case of the extension. |
| ManifestImport.ImportMesh | 04_SAM3D_Environments/scripts/build_environment_from_manifest.py:20-53 | An unsupported suffix or a failing importer fails. When no new object appears, the import fails with RuntimeError. Otherwise the result is the first new mesh, or the first new object when none is a mesh. |
| ManifestImport.OrDefault | 04_SAM3D_Environments/scripts/build_environment_from_manifest.py:108-110 | A missing or empty value falls back to the default, and any other value is kept. |
| ManifestImport.BuildFromManifest | 04_SAM3D_Environments/scripts/build_environment_from_manifest.py:56-116 | The build raises ValueError exactly when an imported entry has a transform that is not three numbers (the assignment at lines 108-110). The error leaves the collection holding the objects of the entries before the first failing one, followed by the failing object, which was already linked (lines 102-105). Otherwise the collection is emptied first and then holds exactly the imported entries, in order, and imported + skipped = the number of entries. |
| ManifestImport.PlacementsFrom | 04_SAM3D_Environments/scripts/build_environment_from_manifest.py:81-113 | Every placed object comes from an entry that imports, with that entry's transform or the defaults. |
| ManifestImport.UnsupportedSkipped | 04_SAM3D_Environments/scripts/build_environment_from_manifest.py:95-100 | An entry with an unsupported suffix is skipped. |
| DragonDesk.FindK1Object | 04_SAM3D_Environments/scripts/build_dragon_desk_composite.py:125-140 | The first of the five exact names that exists wins. Otherwise the result is the first object in bpy.data.objects order (name-sorted) whose lowered name contains "k1". The lookup fails with RuntimeError exactly when no such object exists. |
| DragonDesk.CandidatesAreK1 | 04_SAM3D_Environments/scripts/build_dragon_desk_composite.py:126-136 | Each of the five exact names contains "k1" when lowered. |
| DragonDesk.ExactNameWins | 04_SAM3D_Environments/scripts/build_dragon_desk_composite.py:126-136 | An object named exactly "K1" is always the one found. |
| DragonDesk.EnsureLinked | 04_SAM3D_Environments/scripts/build_dragon_desk_composite.py:222-228 | An object is linked only when its name is absent, and it is then appended. Afterwards the name is present. |
| DragonDesk.EnsureLinkedIdempotent | 04_SAM3D_Environments/scripts/build_dragon_desk_composite.py:222-228 | Linking twice is linking once. |
| DragonDesk.EnsureLinkedNoDuplicates | 04_SAM3D_Environments/scripts/build_dragon_desk_composite.py:222-228 | Linking never duplicates a name. |
| DragonDesk.EnsureAllK1Linked | 04_SAM3D_Environments/scripts/build_dragon_desk_composite.py:231-238 | Afterwards every "k1" object is in the scene and no name is linked twice. Only those names are added, after the existing ones. |
| DragonDesk.EnsureK1ImportedFromBlend | 04_SAM3D_Environments/scripts/build_dragon_desk_composite.py:143-190 | A missing .blend gives False and no change, and an existing k1 object gives True and no change. Otherwise the loaded k1 objects join bpy.data.objects. The scene collection gains exactly their names, after its old contents. When none was loaded, the objects of every k1 collection that appends join bpy.data.objects instead. Name order is kept. The result is True exactly when some loaded object or appended collection is k1. |
| DragonDesk.LoadedK1 | 04_SAM3D_Environments/scripts/build_dragon_desk_composite.py:154-170 | After loading, the names of k1 objects are exactly the names of the k1 objects the library provided. |
| DragonDesk.Brought | 04_SAM3D_Environments/scripts/build_dragon_desk_composite.py:173-186 | An object is appended exactly when it belongs to a k1 collection that appends without raising. |
| Scene.InsertObjs | 04_SAM3D_Environments/scripts/build_dragon_desk_composite.py:154-159 | Adding objects to bpy.data.objects keeps the old ones and adds exactly the new ones. |
| Scene.InsertObjsKeepsSorted | 04_SAM3D_Environments/scripts/build_dragon_desk_composite.py:154-159 | Blender places each new object by name, so bpy.data.objects stays name-sorted. |
| DragonDesk.MaskNonzeroRatio | 04_SAM3D_Environments/scripts/build_dragon_desk_composite.py:250-260 | A missing image gives 0. Otherwise the ratio counts pixels whose first channel exceeds 0.01, stepping 4 values at a time. It is always in [0, 1]. |
| DragonDesk.Ratio | 04_SAM3D_Environments/scripts/build_dragon_desk_composite.py:255-260 | The ratio lies in [0, 1]. max(total, 1) keeps an empty image at 0. |
| DragonDesk.FullCoverage | 04_SAM3D_Environments/scripts/build_dragon_desk_composite.py:255-260 | The ratio is 1 exactly when every sampled pixel is lit. |
| DragonDesk.SetupOccluders | 04_SAM3D_Environments/scripts/build_dragon_desk_composite.py:297-311 | The occluders are `Plane_<base>_occluder` for the masks that exist and have a ratio of at least 0.01, in mask order. |
| DragonDesk.OccluderIff | 04_SAM3D_Environments/scripts/build_dragon_desk_composite.py:297-311 | A mask gets an occluder exactly when it passes the filter. |
| DragonDesk.OccluderNameOf | 04_SAM3D_Environments/scripts/build_dragon_desk_composite.py:309-310 | The occluder of `base.ext` is named `Plane_base_occluder`, where base is the text before the first '.'. |
| DragonDesk.OccluderNamesDistinct | 04_SAM3D_Environments/scripts/build_dragon_desk_composite.py:297-311 | The three masks give three distinct occluder names. |

## Left out

- Concurrency: the engine's lock, the thread-per-connection server and the background `run` loop are not modelled. `tick` and `state` are atomic sequential transitions, which is the lock's guarantee taken as an assumption.
- TwinEngine.Run: the loop runs until another thread calls `stop`. The model takes the number of iterations before that call as a parameter. `run`'s `interval` argument (core.py:30) is dropped with the sleep: no caller passes one, and the 0.5 s default never raises.
- The delay of `time.sleep` is left out; only the errors it raises in TwinCli.CmdRun are modelled. `argparse` parsing, sockets, `print`, directory listing and file-existence checks are left out. The listing, the file system and the file sizes are inputs.
- JSON text layout is modelled only for the flat string/integer objects the server sends. Nested values and `indent=2` (used for the reconstruction manifest, which is kept as a record) are left out.
- Blender node settings, colours, lights, cameras, render settings and all material-building bodies beyond "the tree has a linked BSDF" are left out. The other 03_Scripts_MCP files are left out for the same reason: they contain no logic beyond scene setup.
- HexColor.ParseHex: the `/255.0` scaling is left out, so channels are integers. Python's `int()` also accepts non-ASCII Unicode digits, which are left out.
- Text.Lower: `str.lower()` is modelled on ASCII letters only. Non-ASCII case mapping is left out.
- Floating-point bounding boxes: `world_bounds` in apply_materials.py works on transformed corner coordinates. The model takes the extents as inputs and uses exact reals.
- The ML calls (SAM3, SAM2, SAM3D `Inference`, torch device probing, PIL and numpy encoding) are opaque outcomes. `run_sam3d_for_object` is reduced to the .ply path it returns, and whether PIL can open a file as an image is an input (`decodes`). An empty placeholder mask is one it cannot open.
- Path handling: `expanduser`, `resolve` and the `SAM3D_REPO_DIR` override are reduced to a choice between two directory strings. Paths are "/"-joined strings, and trailing slashes and `..` are not normalised.
- Scene.AssignWhere: material slots are modelled per object. In Blender `obj.data.materials` lives on the mesh data, which linked duplicates share, so assigning to one object also changes every object sharing its mesh. The same holds for KeywordRules.Apply ("an undecided object is unchanged"), Connector.ApplySatinSilver, SilverGhost.ApplyMaterialToTargets and FallbackMaterials.EnsureMaterialOnObject.
- Scene.NameLe: Blender orders ID names with a case-insensitive comparison. The model lowers ASCII letters only, and library-linked materials, which Blender orders separately, are left out.
- Segment.LoadReferenceImage: whether the first existing candidate can be decoded is not modelled. In `sam3_segment.py` an undecodable file raises from `Image.open` and later candidates are not tried.
- Reconstruct.RunBackend: the .ply files written for objects before the one whose image cannot be read stay on disk after the run aborts. The model returns the error without them.
- TwinCli.CmdRun: NaN and infinite intervals are not representable as reals and are left out. The overflow bound is checked on the exact product of the interval and 10^9; the floating-point rounding of that product, which can move the bound by a few nanoseconds, is left out. The same holds for TwinCli.Dispatch.
- Blender's ".001" rename suffix when a name is already taken is left out. Renaming and creating set the exact name.
- The half-built material that `fix_silver_ghost.py` leaves behind when the output lookup raises IndexError is left out. The model returns the error without the new material.
- DragonDesk.EnsureK1ImportedFromBlend: the library load and collection append are inputs: what loads, which collections append without raising, and what each brings. The exceptions printed and swallowed around them are covered by those inputs. The collections themselves, and where the append links them, are not modelled.
- ManifestImport.BuildFromManifest: the model does not say which of the failing object's location, rotation and scale were set before the ValueError. It returns only what the collection holds.
- Duplicated copies of `find_k1_object`, `mask_nonzero_ratio` and `hex_to_rgb` in the other composite builders and in apply_cyber_scheme.py are not modelled separately. `hex_to_rgb` in apply_cyber_scheme.py is the same code as in K1_MASTER_BUILD.py.
- FallbackMaterials.AssignMaterialsByKeywords: its own contract states only the number of meshes. Who receives what is stated by `KeywordOutcome`, `FallbackRoles`, `RemainingMembers` and `FailedReported`. The printed counts are not tied to the fallback's counters by a lemma.
- Randomised prop rotations, scale normalisation and depth placement in the composite builders are left out.

## Findings

| source | as written | input that shows it | evidently intended | confidence | as-written member | corrected member |
|---|---|---|---|---|---|---|
| 03_Scripts_MCP/K1_MASTER_BUILD.py:24-27 | `int(hex_str[i:i+2], 16)` accepts a sign and surrounding white space, so a channel can be negative | "-10000" gives red -1 (before the /255.0), i.e. (-1, 0, 0) | each channel is two hex digits, 0..255, and anything else is rejected | not executed | HexColor.SignedChannelAccepted | HexColor.HexToRgbStrict |
