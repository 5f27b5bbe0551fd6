# Unreal editor project-hygiene tools, modelled in Dafny

This project models the logic of a set of Unreal Engine editor scripts:

- **The project audit tool** (`AuditLogTool.py`). It scans the asset registry for
  assets under `/Game`, and covers four things:
  - assets that fail to load;
  - naming-convention violations;
  - static meshes with Nanite disabled;
  - assets with no referencers.

  It has two fixes: one enables Nanite on the flagged meshes, the other renames
  assets to `<class prefix><cleaned name>`. The audit report adds up the issue
  total.
- **The world tools controller** (`WorldTools.py`). It has three families of
  operations:
  - a global family: isolate the selection by hiding every other actor, restore
    visibility, and a "ghost mode" that puts a wireframe material on slot 0 of
    every other actor's first StaticMeshComponent and restores it;
  - a focused-set family: build or grow a focused set of actors, isolate or
    ghost everything outside it, and restore;
  - a scan for missing meshes and empty material slots.
- **The simplified world tools** (`FocusedViewTool.py`). Isolate and ghost mode
  can keep lights visible: none, the lights near the selection, or all lights.
  Here ghost mode overwrites every slot of every StaticMeshComponent and saves
  each component's slot list; the restore writes back only non-empty saved
  entries.
- **The stand-alone controller** (`world_tools_main.py`). It has the same four
  global operations as the full controller.

## Module layout

| file | module | models |
|---|---|---|
| `wrappers.dfy` | `Wrappers` | the `Option` type |
| `naming.dfy` | `Naming` | object paths, the `/Game` filter, `bad_name`, `get_prefix_for_class`, `clean_asset_name` |
| `audit.dfy` | `Audit` | the asset registry as a sequence of records, the three scans, the two fixes, `on_audit` |
| `editor.dfy` | `Editor` | the level: actors, their hidden flags and their StaticMeshComponents. It also holds the hide/unhide and slot-0 ghost/restore loops that the controllers share |
| `world_tools.dfy` | `WorldTools` | class `WorldTools` of `WorldTools.py` |
| `focused_view.dfy` | `FocusedView` | `get_lights_in_radius`, the lighting modes, the all-slot ghost mode and class `WorldToolsSimple` |
| `world_tools_main.dfy` | `WorldToolsMain` | class `WorldTools` of `world_tools_main.py` |

How the editor is represented:

- **The level** is a `Level` object with these parts:
  - its actor list, in `get_all_level_actors` order;
  - each actor's class name;
  - the set of temporarily hidden actors;
  - a map from actor to its StaticMeshComponents.

  A component is an optional mesh plus a sequence of optional material slots.
  Actors, meshes and materials are integer identities.
- **The asset registry** is a `Registry` object holding a sequence of records,
  in `get_all_assets` order. Each record holds:
  - the registry data (package name, package path, asset name, class);
  - what the editor would answer: whether the load succeeds; whether reading
    the Nanite flag succeeds and what it says; whether writing it succeeds;
    whether the referencer lookup succeeds and what it returns; how the rename
    call ends.
- **Calls that raise** are explicit outcomes. Other answers the editor gives
  become parameters:
  - whether the wireframe material loads;
  - which lighting mode the dialog returns;
  - the distance test;
  - which components raise on `set_material`.
- **Each controller** is a class. Its fields are the source's fields. Every
  method's `modifies` clause names exactly the fields and level parts it
  writes. So the global and focused families of `WorldTools` leave each other's
  records alone.

Each loop of the source is a Dafny loop, proved against a specification
function. The properties the tools promise are lemmas about those functions:
- round trips: splitting a built object path, and ghosting then restoring;
- idempotence of the cleaner and of both fixes;
- exact membership of every issue list and actor list;
- "kept actors are untouched";
- the clean-project condition.

## Model

| member | source | states |
|---|---|---|
| Naming.BuildObjectPath | AuditLogTool.py:116-119 | The object path is the package name, then '.', then the asset name. |
| Naming.IsUnderGame | AuditLogTool.py:123-127 | The `/Game` filter holds exactly when the package name's first five characters are "/Game". |
| Naming.GameFilterIsPrefixTest | AuditLogTool.py:123-127 | The filter is a string-prefix test, not a path-segment test: "/GameplayX" passes it, as in the source, while "/Engine/..." and "/game/..." do not. |
| Naming.SplitObjectPath | AuditLogTool.py:116-119 | The inverse of `build_object_path`: the pieces it returns rebuild the path, and the asset part holds no '.'. It returns None only when the path has no '.'. |
| Naming.SplitBuildObjectPath | AuditLogTool.py:116-119 | Round trip: splitting a built object path gives back the package and the asset name, whenever the asset name has no '.'. |
| Naming.BuildObjectPathInjective | AuditLogTool.py:116-119 | Different (package, asset) pairs build different object paths, when asset names have no '.'. |
| Naming.BadName | AuditLogTool.py:144-153 | Returns the first violation that applies, in the source's order: spaces, then a "New"/"Untitled" prefix, then a first character that lower-casing leaves unchanged. Each outcome is stated as an if-and-only-if, including None. A leading digit or '_' counts as "starts lowercase". |
| Naming.PrefixForClass | AuditLogTool.py:156-169 | The prefix is one of the seven in the table, ends in '_' and starts upper case. It is "SM_" exactly when the class mentions StaticMesh. A MaterialInstance (not a StaticMesh) gets "MI_", never "M_". It is "A_" exactly when none of the five keywords occurs. |
| Naming.MaterialInstanceIsMaterial | AuditLogTool.py:159-162 | Any class that contains "MaterialInstance" contains "Material". So the "MI_" test must come before the "M_" test, as it does. |
| Naming.Sanitize | AuditLogTool.py:173 | Every character outside [A-Za-z0-9_] is replaced by '_' at its own position. Characters inside that class are kept in place, and the length is unchanged. |
| Naming.ReplaceSpaces | AuditLogTool.py:174 | No space is left, the length is unchanged, and a string with no space is returned unchanged. |
| Naming.Words | AuditLogTool.py:175 | The pieces of `split("_")` that are kept are non-empty and contain no '_', and over word characters they are alphanumeric. |
| Naming.Capitalize | AuditLogTool.py:175 | `capitalize` keeps the length and turns a word into a capitalised word. Each character keeps its letter: it is equal to the input's character up to ASCII case. A capitalised word is returned unchanged. |
| Naming.CleanAssetName | AuditLogTool.py:172-176 | The cleaned name uses only [A-Za-z0-9_], has no leading, trailing or doubled '_'. |
| Naming.WordsOfJoin | AuditLogTool.py:175 | Splitting `"_".join(ws)` at '_' gives back `ws`, for non-empty words without '_'. |
| Naming.CleanAssetNameWords | AuditLogTool.py:172-176 | The words of the cleaned name are the capitalised words of the sanitised input, and each is a capitalised alphanumeric word. |
| Naming.CleanAssetNameIdempotent | AuditLogTool.py:172-176 | Cleaning a cleaned name changes nothing. |
| Naming.FixedNamePassesAudit | AuditLogTool.py:286-294 | A name built by the fix (class prefix plus cleaned name) is non-empty and passes `bad_name`. |
| Audit.FindMissingOrBrokenAssets | AuditLogTool.py:183-192 | The loop returns exactly the load-failure issues of the `/Game` records, as `(object path, issue)`, in registry order. |
| Audit.IsStaticMesh | AuditLogTool.py:137-141 | An asset is a static mesh exactly when its class path reads and names "StaticMesh". When reading the class path raises, it is not one. |
| Audit.NamingClass | AuditLogTool.py:279-284 | The naming fix uses the class path's name, or the legacy class string when reading the class path raises. A static mesh always gets the "SM_" prefix. |
| Audit.MissingIssues | AuditLogTool.py:183-192 | A load-failure issue for a path is reported exactly when some `/Game` record with that object path fails to load. |
| Audit.AuditNamingAndNanite | AuditLogTool.py:195-223 | Returns None exactly when some `/Game` record has an empty name, where `bad_name` raises. Otherwise it returns the naming issues and the Nanite issues of the `/Game` records, in registry order. |
| Audit.NamingIssues | AuditLogTool.py:200-209 | A naming issue with a given problem and path is reported exactly when some `/Game` record with that path has a non-empty name that `bad_name` flags with that problem. |
| Audit.NaniteIssues | AuditLogTool.py:212-221 | A Nanite issue is reported for a path exactly when some `/Game` static mesh with that object path loaded and its flag does not read as enabled, whether it reads false or raises. |
| Audit.NaniteReadFailureReported | AuditLogTool.py:212-221 | A loaded `/Game` static mesh whose Nanite read raises is reported as disabled. |
| Audit.GameAssetsMember | AuditLogTool.py:229 | The filtered list holds exactly the records whose package name starts with `/Game`. |
| Audit.FindUnusedAssets | AuditLogTool.py:226-235 | Returns None exactly when a referencer lookup of a `/Game` asset raises. Otherwise it returns the `/Game` assets with no referencers, in order. |
| Audit.UnusedIssues | AuditLogTool.py:226-235 | An "unused" issue for a path is reported exactly when some `/Game` record with that path has an empty referencer list. |
| Audit.NoLookupRaises | AuditLogTool.py:232 | If no lookup of a `/Game` asset raises, the scan is not aborted. |
| Audit.Registry.SetNaniteEnabled | AuditLogTool.py:258-262 | The write succeeds exactly when the registry says it does. Then that one record's flag becomes on, and nothing else changes. |
| Audit.Registry.RenameAsset | AuditLogTool.py:299-305 | Returns the rename outcome. Only when it is success does that one record move to `<package path>/<new name>`. |
| Audit.EnableNaniteForAllFlagged | AuditLogTool.py:242-267 | The registry becomes the function-level fix of every record. The count is the number of loaded `/Game` meshes that read disabled and whose write succeeds. |
| Audit.NaniteFixIdempotent | AuditLogTool.py:242-267 | After one run of the Nanite fix, a second run has no mesh left to enable and leaves every record as the first run left it. |
| Audit.NaniteFixClearsIssues | AuditLogTool.py:212-221 | Each mesh the fix counts removes exactly one Nanite issue from the next audit. |
| Audit.FixOneName | AuditLogTool.py:274-308 | For one record, the step yields its `(old, new)` pair exactly when it is under `/Game`, lacks its prefix and the rename succeeds. The record changes only in that case. |
| Audit.AutoFixNaming | AuditLogTool.py:270-310 | The renamed pairs are those of the successful renames, in registry order. The registry becomes the function-level rename of every record. |
| Audit.AutoFixPairs | AuditLogTool.py:304-305 | Every reported pair comes from a renamed record, mapping its old name to prefix + cleaned name. The new name passes `bad_name`. |
| Audit.AutoFixRetriesOnlyFailures | AuditLogTool.py:288-308 | After the fix, a record still needs renaming exactly when it did before and its rename was refused or raised. |
| Audit.AutoFixIdempotent | AuditLogTool.py:270-310 | A second run renames nothing: every record either has its prefix or is refused again. |
| Audit.AutoFixHealsNaming | AuditLogTool.py:286-305 | A renamed record raises no naming issue in the next audit. |
| Audit.OnAudit | AuditLogTool.py:385-442 | Runs the three passes in order. It returns None exactly when a pass raises. Otherwise each section equals its scan's list, and the total is the sum of the four lengths. The total is 0 exactly when every record is clean. |
| Audit.AuditCleanIff | AuditLogTool.py:436-441 | All four sections are empty exactly when every `/Game` record: loads; has a passing name, or an empty one; if a mesh, has Nanite on; and has a referencer. |
| Editor.Level.SetHidden | WorldTools.py:152 | `set_is_temporarily_hidden_in_editor` adds the actor to the hidden set or removes it from it. |
| Editor.Level.SetMaterial | WorldTools.py:184 | `set_material(i, m)` changes slot i of that one component only. |
| Editor.Level.WriteSlots | FocusedViewTool.py:217-219 | Writing a saved list into a component overwrites each slot that exists, or only the non-empty ones, and nothing else. |
| Editor.OutsideMember | WorldTools.py:150-153 | The hidden list holds exactly the level actors outside the kept list. |
| Editor.OutsideNoDup | WorldTools.py:150-153 | The hidden list has no duplicates when the level's actor list has none. |
| Editor.HideOutside | WorldTools.py:150-153 | The loop records the actors outside the kept list, in level order, and adds exactly those to the hidden set. |
| Editor.UnhideRecorded | WorldTools.py:158-160 | The loop shows again exactly the recorded actors still in the level. |
| Editor.IsolateThenRestore | WorldTools.py:141-163 | After isolate then restore, an actor is hidden exactly when it was hidden before and is either kept or gone from the level. |
| Editor.GhostTargetsMember | WorldTools.py:177-185 | The ghosted list holds exactly the unselected level actors with a StaticMeshComponent. |
| Editor.GhostTargetsNoDup | WorldTools.py:177-185 | The ghosted list has no duplicates. |
| Editor.GhostFirstComponents | WorldTools.py:177-185 | The loop records the targets and saves each target's first slot list. It ghosts slot 0 of its first component and nothing else. |
| Editor.GhostFirstSparesKept | WorldTools.py:177-185 | Selected actors and actors without a StaticMeshComponent keep their components. |
| Editor.RestoreFirstComponents | WorldTools.py:191-196 | Each saved list is written back to the first component of its actor where one is still found, and those actors are counted. |
| Editor.GhostFirstThenRestore | WorldTools.py:165-200 | Round trip: ghosting slot 0 and then restoring what was saved gives back the components exactly. |
| WorldTools.WorldTools.IsolateSelected | WorldTools.py:141-155 | The record is cleared first. An empty selection hides nothing. Otherwise the hidden record and the new hidden set are the actors outside the selection. |
| WorldTools.WorldTools.RestoreVisibility | WorldTools.py:157-163 | Recorded actors still in the level are shown, the old record length is returned, and the record is emptied. |
| WorldTools.WorldTools.EnableGhostMode | WorldTools.py:165-187 | When the material is missing, nothing changes. Otherwise the record, the saved materials and the components are the ghost specification applied to the unselected actors. |
| WorldTools.WorldTools.DisableGhostMode | WorldTools.py:189-200 | Every saved list is written back where a component is found, the found actors are counted, and both records are emptied. |
| WorldTools.WorldTools.CreateFocusedSetFromSelection | WorldTools.py:205-214 | The selection replaces the focused set, unless it is empty. |
| WorldTools.WorldTools.AddSelectionToFocusedSet | WorldTools.py:216-233 | The selected actors that were not yet focused are appended in selection order. The count is the growth. |
| WorldTools.AddedActorsAreNew | WorldTools.py:216-233 | The old focused set is a prefix of the new one. The new set has no duplicates. An actor is added exactly when it is selected and was not focused. |
| WorldTools.WorldTools.FocusIsolateOnlyFocused | WorldTools.py:239-259 | An empty focused set changes nothing. Otherwise the actors outside the focused set are hidden and recorded in the focus record. The global record is untouched. |
| WorldTools.FocusIsolateSparesFocused | WorldTools.py:239-259 | A level actor is hidden by focus isolate exactly when it is not focused. |
| WorldTools.WorldTools.FocusGhostWorldExceptFocused | WorldTools.py:261-295 | An empty focused set or a missing material changes nothing. Otherwise the actors outside the set with a component have slot 0 ghosted and their lists saved, and they are counted. |
| WorldTools.WorldTools.FocusRestoreWorld | WorldTools.py:297-321 | The focus-hidden actors still in the level are shown. The focus-saved lists are written back. Both counts are returned and both focus records are emptied. |
| WorldTools.FindEmptySlots | WorldTools.py:352-354 | The inner loop lists `(actor, index)` for every empty slot of one component, in order. |
| WorldTools.WorldTools.FindMissingReferences | WorldTools.py:326-371 | The nested loops produce the missing-mesh list and the empty-slot list of the scanned actors, and their total. The scanned actors are the selection, or all actors when nothing is selected. |
| WorldTools.SlotGapsMember | WorldTools.py:352-354 | A pair is listed for a component exactly when that slot index exists and is empty. |
| WorldTools.MatGapsMember | WorldTools.py:346-354 | A pair is listed for an actor exactly when some component of it has that slot empty. |
| WorldTools.MeshGapsMember | WorldTools.py:346-349 | An actor is listed for missing meshes exactly when one of its components has no mesh. |
| WorldTools.MeshGapsCount | WorldTools.py:346-349 | An actor is listed once per component without a mesh. |
| WorldTools.MissingMatsMember | WorldTools.py:326-371 | The empty-slot report holds exactly the empty slots of the scanned actors. |
| WorldTools.MissingMeshesMember | WorldTools.py:326-371 | The missing-mesh report holds exactly the scanned actors with a mesh-less component. |
| FocusedView.AllLightsInMember | FocusedViewTool.py:141-142 | "All Lights" keeps exactly the level actors whose class name contains "Light". |
| FocusedView.Deduplicate | FocusedViewTool.py:34 | `list(set(...))` has no duplicates and the same elements. |
| FocusedView.NearAllMember | FocusedViewTool.py:25-33 | The nested loops collect exactly the unselected light actors within the radius of some selected actor. |
| FocusedView.GetLightsInRadius | FocusedViewTool.py:20-34 | The result has no duplicates, and holds exactly the unselected level lights within the radius of a selected actor. |
| FocusedView.ExtraLights | FocusedViewTool.py:138-142 | The extra lights are: none; the nearby lights, without duplicates; or all lights in level order, by lighting mode. |
| FocusedView.KeptLights | FocusedViewTool.py:144-149 | An actor is hidden or ghosted exactly when it is neither selected nor an extra light. In "All Lights" mode no light is hidden; in "Nearby Lights" mode no nearby light is. |
| FocusedView.GhostActor | FocusedViewTool.py:197-202 | The inner loop saves every component's slot list under `(actor, component)`. It overwrites every slot of every component of that actor, and only those. |
| FocusedView.GhostAllComponents | FocusedViewTool.py:193-204 | The outer loop records the non-kept actors with components. It saves every slot list of exactly those actors and ghosts them. |
| FocusedView.GhostAllSparesKept | FocusedViewTool.py:193-195 | The selection, the extra lights and actors without components keep their components. |
| FocusedView.RestoreAllComponents | FocusedViewTool.py:213-224 | Every saved list whose actor and component still exist, and whose writes do not raise, has its non-empty entries written back and is counted. Nothing else changes. |
| FocusedView.GhostAllThenRestore | FocusedViewTool.py:169-226 | Round trip: ghosting then restoring puts every saved material back. Slots that were empty keep the wireframe material. |
| FocusedView.GhostAllThenRestoreExact | FocusedViewTool.py:169-226 | When no ghosted slot was empty, the round trip gives back the components exactly. |
| FocusedView.WorldToolsSimple.IsolateSelected | FocusedViewTool.py:124-153 | The record is cleared first. An empty selection or a cancelled dialog hides nothing. Otherwise the hidden record is the actors outside the selection and the mode's extra lights. |
| FocusedView.WorldToolsSimple.RestoreVisibility | FocusedViewTool.py:158-164 | Recorded actors still in the level are shown, the count is returned, and the record is emptied. |
| FocusedView.WorldToolsSimple.EnableGhostMode | FocusedViewTool.py:169-206 | A cancelled dialog or a missing material changes nothing. Otherwise the non-kept actors with components are recorded and all their components saved and ghosted. |
| FocusedView.WorldToolsSimple.DisableGhostMode | FocusedViewTool.py:211-226 | The restore specification is applied, the restored components are counted, and both records are emptied. |
| WorldToolsMain.WorldTools.IsolateSelected | world_tools_main.py:23-37 | As the full controller: the record is cleared, and with a selection the actors outside it are hidden and recorded. |
| WorldToolsMain.WorldTools.RestoreVisibility | world_tools_main.py:40-46 | Recorded actors still in the level are shown, the count is returned, and the record is emptied. |
| WorldToolsMain.WorldTools.EnableGhostMode | world_tools_main.py:49-71 | A missing material changes nothing. Otherwise slot 0 of each unselected actor's first component is ghosted, and its list saved. |
| WorldToolsMain.WorldTools.DisableGhostMode | world_tools_main.py:74-85 | The saved lists are written back to the first components still found, counted, and the records emptied. |

## Left out

- The Qt windows, dialogs, menus, the log text and the list widgets are left out. Only the values the logic computes are modelled: issue lists, counts and records.
- The Unreal API is not modelled. Every editor answer the logic depends on is a field of the asset record or a parameter. These answers cover loading, Nanite reads and writes, referencer lookups, renames, the wireframe material and raising `set_material` calls.
- Distances are floating point in the source. `get_lights_in_radius` takes the test "within 5000 cm of a selected actor" as a parameter.
- FocusedView.GetLightsInRadius: `list(set(...))` has an unspecified order. The model fixes one order and promises only the elements and no duplicates.
- Naming.BadName: only ASCII letters are cased. A non-ASCII upper-case first letter would be called "starts lowercase", because Python's Unicode `lower()` is not modelled.
- The package name being converted to a string never raises. So `is_under_game`'s fallback to False is not modelled.
- Audit.AuditNamingAndNanite: `bad_name` raises on an empty asset name. That aborts the whole naming pass, and `on_audit` with it; the model returns None for this.
- Audit.FindUnusedAssets: a raising referencer lookup is not caught. It aborts the scan; the model returns None. The meaning of referencers, such as redirectors and soft references, is not modelled.
- Audit.EnableNaniteForAllFlagged: a write or save that raises is modelled as no change. If the flag was set before the save raised, that partial effect is not modelled.
- Audit.AutoFixNaming: the source does not check for name collisions. The rename call's answer decides the outcome, as in the source.
- Editor.Level.SetMaterial: a slot index past the component's slot count is a no-op in the model.
- FocusedView.RestoreAllComponents: a component whose `set_material` raises gets no writes in the model. A partial write before the exception is not modelled.
- Actors are compared by identity, not by `get_name()`.
- FocusedView: `original_materials` is keyed by (actor, component index) in the model, while the source keys it by the component object. The two agree as long as an actor's component list does not change between ghosting and restoring.
- The `if actor:` tests of the restore loops and FocusedView's `if not comp or not actor` are read as "the actor is still in the level" and "the component index still exists". Other ways an Unreal handle can become falsy are not modelled.
- Python dictionary iteration order is not modelled. The restore loops are proved for every order, because different keys write different components.

## Notes

In these cases the model follows what the source does:

- A leading digit or '_' counts as "starts lowercase".
- The empty name raises.
- Unused-asset scanning has no per-asset error handling.
- The FocusedView restore leaves the wireframe material in slots that were empty before ghosting (see `FocusedView.GhostAllThenRestore`).

The ghost operations require `Level.Valid()`, which says the level's actor list has no duplicates. This is what `get_all_level_actors` returns.
