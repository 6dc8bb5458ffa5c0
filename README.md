# svModelElement face bookkeeping, in Dafny

This project models the face and blend-radius bookkeeping of SimVascular's
`svModelElement`, together with its face-deletion algorithm, and proves
properties of that model.

A model element holds:
- an ordered list of faces (id, name, type, selected and visible flags, opacity, colour, optional mesh fragment);
- an ordered list of blend-radius entries `(faceID1, faceID2, radius)`;
- the names of the segmentations it was built from;
- an optional whole-surface mesh whose cells carry a `"ModelFaceID"` tag.

`DeleteFaces` removes faces in three steps: it deletes the mesh cells tagged
with the face id, erases the face, and purges every blend entry that mentions
the id.

Layout:
- `wrappers.dfy`: `Option`. It stands for a pointer that may be null.
- `model_data.dfy`: the `Face`, `BlendParamRadius`, `Mesh` and `Color` values.
- `face_spec.dfy`, `blend_spec.dfy`, `mesh_spec.dfy`: specification functions on
  sequences (first-match lookup, rename, selection, erase, merge, filters) and
  the lemmas about them.
- `model_element.dfy`: the class `ModelElement`. Its fields are `seq`s that its
  methods update with the same loops, early returns and erasures as the C++
  code. Each method is proved against the specification functions.

Modelling choices:
- Face and blend entries are `Option` values, because the code null-checks both
  lists. Every lookup skips a null entry. The copy constructor dereferences
  every entry without a check, so `Copy` and `Clone` require all entries to be
  present.
- Faces and blend entries are values. A pointer that the C++ code returns and
  then writes through (`GetFace(id)->selected = true`, or the existing entry in
  `AddBlendRadii`) is modelled as an update at the position the lookup found.
- The mesh is `Mesh(hasFaceIdArray, cellTags)`. Deleting the cells tagged `t`
  and then compacting the mesh (`DeleteCell` followed by `RemoveDeletedCells`)
  is an order-preserving filter on `cellTags`.
- Opacity, colour and radius are `real` values that are only copied or overwritten.

Behaviour worth knowing:
- `SetSelectedFace` selects one face and does not clear the others. After it,
  other faces are unselected only if they were unselected before (`FaceSpec.SelectKeepsOthers`).
- Lookup by name goes through the id. A name no face carries yields the id -1,
  so `GetFace(name)` then returns the first face whose id is -1, if there is one
  (`FaceSpec.FaceByNameResolves`).
- Blend lookup matches the ordered pair only: `(b, a)` does not find a stored
  `(a, b)` (`BlendSpec.LookupIsOrdered`). "Exactly once after a merge" holds for
  a pair that occurred at most once before the merge (`BlendSpec.MergeIncomingOnce`).
- Face ids need not be unique; lookups return the first match. Where a
  property needs unique ids, the lemma says so with `UniqueIds`.

## Model

| member | source | states |
|---|---|---|
| `FaceSpec.FaceIndex` | Code/Source/Modules/Model/svModelElement.cxx:131-140 | the result is -1 or a valid position; at that position is a non-null face with the id, no earlier entry has it, and -1 means no entry has it |
| `FaceSpec.NameIndex` | Code/Source/Modules/Model/svModelElement.cxx:207-216 | the first non-null face carrying the name, or -1 exactly when none carries it |
| `FaceSpec.FaceById` | Code/Source/Modules/Model/svModelElement.cxx:117-124 | the lookup is None exactly when no non-null face has the id; otherwise it is the entry at `FaceIndex` and has the id |
| `FaceSpec.ClearedSelection` | Code/Source/Modules/Model/svModelElement.cxx:183-191 | same length; each entry is the original with `selected` false, and null entries stay null |
| `FaceSpec.SameIdsSameIndex` | Code/Source/Modules/Model/svModelElement.cxx:131-140 | two lists with the same ids at every position answer every id lookup at the same position |
| `FaceSpec.FaceByNameResolves` | Code/Source/Modules/Model/svModelElement.cxx:126-129 | with unique ids, look-up by name finds the first face carrying the name; a missing name resolves to the lookup of id -1 |
| `FaceSpec.ClearedSelectionNoneSelected` | Code/Source/Modules/Model/svModelElement.cxx:183-191 | after clearing, no id reports a selected face, and the ids and lookup positions are unchanged |
| `FaceSpec.SelectByIdEffect` | Code/Source/Modules/Model/svModelElement.cxx:193-198 | an unknown id changes nothing; a known id becomes selected; any id that resolves to another position keeps its selection state |
| `FaceSpec.SelectKeepsOthers` | Code/Source/Modules/Model/svModelElement.cxx:193-198 | with unique ids, selecting one face does not change whether any other id is selected (others are not cleared) |
| `FaceSpec.RenameEffect` | Code/Source/Modules/Model/svModelElement.cxx:151-156 | only the name of the first face with the id changes; its lookup reports the new name; every other entry is unchanged; an unknown id is a no-op; id lookups are unaffected |
| `FaceSpec.RemoveFirstEffect` | Code/Source/Modules/Model/svModelElement.cxx:285-291 | an unknown id is a no-op; otherwise the length drops by one and the entries before and after the erased face keep their order |
| `FaceSpec.RemoveFirstMultiset` | Code/Source/Modules/Model/svModelElement.cxx:285-291 | exactly the first face with the id leaves the multiset of entries |
| `FaceSpec.UniqueNoLaterMatch` | Code/Source/Modules/Model/svModelElement.cxx:131-140 | with unique ids, no entry after the first match carries the id |
| `FaceSpec.RemoveFirstUnique` | Code/Source/Modules/Model/svModelElement.cxx:285-291 | with unique ids, after the erase no face has the id and the ids stay unique |
| `FaceSpec.FacesWithoutIdsAppend` | Code/Source/Modules/Model/svModelElement.cxx:285-291 | filtering the faces with given ids distributes over concatenation |
| `FaceSpec.FacesWithoutIdsNoMatch` | Code/Source/Modules/Model/svModelElement.cxx:285-291 | filtering is the identity when no face has a listed id |
| `FaceSpec.FacesWithoutIdsMembers` | Code/Source/Modules/Model/svModelElement.cxx:328-349 | the filter leaves no face with a listed id, and an entry survives exactly when it was present and has no listed id |
| `FaceSpec.FacesWithoutIdsCompose` | Code/Source/Modules/Model/svModelElement.cxx:328-349 | filtering by a list of ids and then by one more id equals filtering by the longer list |
| `FaceSpec.EraseOnlyMatchIsFilter` | Code/Source/Modules/Model/svModelElement.cxx:285-291 | erasing the only face with an id is the same as filtering that id out |
| `FaceSpec.RemoveFirstIsFilter` | Code/Source/Modules/Model/svModelElement.cxx:285-291 | with unique ids, erasing the first face with an id removes every face with it |
| `FaceSpec.RemoveFirstEachIsFilter` | Code/Source/Modules/Model/svModelElement.cxx:345 | with unique ids, erasing the first face for each requested id, in order, leaves exactly the faces with an unrequested id, in order, and the ids stay unique |
| `BlendSpec.BlendIndex` | Code/Source/Modules/Model/svModelElement.cxx:274-283 | the first non-null entry with exactly the ordered pair, or -1 exactly when there is none |
| `BlendSpec.LastRadius` | Code/Source/Modules/Model/svModelElement.cxx:257-271 | None exactly when no incoming entry has the pair; otherwise it is the radius of an incoming entry with the pair that has no later entry with the same pair |
| `BlendSpec.MergeOneShape` | Code/Source/Modules/Model/svModelElement.cxx:259-269 | if the pair exists, the length is unchanged and only that entry may change; otherwise the incoming entry is appended |
| `BlendSpec.MergeOneRadius` | Code/Source/Modules/Model/svModelElement.cxx:259-269 | after merging one entry, its pair reports its radius and every other pair reports the radius it had before |
| `BlendSpec.MergeRadius` | Code/Source/Modules/Model/svModelElement.cxx:255-272 | after the merge, each incoming pair reports the radius of its last incoming entry, and every other pair reports the radius it had before |
| `BlendSpec.MergeOneAtMostOnce` | Code/Source/Modules/Model/svModelElement.cxx:259-269 | merging one entry never creates a second occurrence of a pair |
| `BlendSpec.MergeAtMostOnce` | Code/Source/Modules/Model/svModelElement.cxx:255-272 | a pair that occurred at most once still occurs at most once after the merge |
| `BlendSpec.MergeIncomingOnce` | Code/Source/Modules/Model/svModelElement.cxx:255-272 | an incoming pair that occurred at most once before occurs exactly once afterwards, carrying the last incoming radius |
| `BlendSpec.LookupIsOrdered` | Code/Source/Modules/Model/svModelElement.cxx:278 | a stored `(a, b)` is found as `(a, b)` but not as `(b, a)` when a differs from b |
| `BlendSpec.UnmentionedSpec` | Code/Source/Modules/Model/svModelElement.cxx:293-302 | no surviving entry mentions a removed id; each other entry, null ones included, survives as often as it occurred; the list does not grow |
| `BlendSpec.UnmentionedNoMatch` | Code/Source/Modules/Model/svModelElement.cxx:293-302 | nothing is removed when no entry mentions the ids |
| `BlendSpec.UnmentionedCompose` | Code/Source/Modules/Model/svModelElement.cxx:347 | purging the entries for a list of ids and then for one more id equals purging them for the longer list |
| `MeshSpec.UntaggedSpec` | Code/Source/Modules/Model/svModelElement.cxx:335-343 | no remaining cell has a deleted tag; every other tag survives as often as it occurred; the mesh does not grow |
| `MeshSpec.UntaggedNoMatch` | Code/Source/Modules/Model/svModelElement.cxx:335-343 | no cell is deleted when no cell has a requested tag |
| `MeshSpec.UntaggedCompose` | Code/Source/Modules/Model/svModelElement.cxx:328-343 | deleting the cells for each id in turn equals one deletion of every cell tagged with any of the ids |
| `ModelElements.DeleteFacesEffect` | Code/Source/Modules/Model/svModelElement.cxx:328-349 | after a run, no cell is tagged with a requested id and other tags keep their counts; with unique ids, exactly the faces with unrequested ids remain, in order; no blend entry mentions a requested id; other entries keep their counts |
| `ModelElements.DeleteNothing` | Code/Source/Modules/Model/svModelElement.cxx:328-349 | deleting an empty batch of ids changes neither the cells, the faces nor the blend entries |
| `ModelElements.DeleteUnknownFaces` | Code/Source/Modules/Model/svModelElement.cxx:345 | requested ids that no face carries leave the face list unchanged |
| `ModelElements.ModelElement.constructor` | Code/Source/Modules/Model/svModelElement.cxx:5-9 | a new element has an empty type and no segmentation names, faces, mesh or blend entries |
| `ModelElements.ModelElement.Copy` | Code/Source/Modules/Model/svModelElement.cxx:11-53 | the copy, made field by field, equals the original in every field; all entries must be non-null |
| `ModelElements.ModelElement.Clone` | Code/Source/Modules/Model/svModelElement.cxx:77-80 | a freshly allocated element equal to this one in every field |
| `ModelElements.ModelElement.HasSeg` | Code/Source/Modules/Model/svModelElement.cxx:97-105 | true exactly when the name is among the segmentation names |
| `ModelElements.ModelElement.GetFaceIndex` | Code/Source/Modules/Model/svModelElement.cxx:131-140 | returns the first-match position `FaceIndex`, or -1 |
| `ModelElements.ModelElement.GetFace` | Code/Source/Modules/Model/svModelElement.cxx:117-124 | None exactly when no non-null face has the id; otherwise the first face with the id |
| `ModelElements.ModelElement.GetFaceID` | Code/Source/Modules/Model/svModelElement.cxx:207-216 | -1 when no face carries the name; otherwise the id of the first face carrying it |
| `ModelElements.ModelElement.GetFaceByName` | Code/Source/Modules/Model/svModelElement.cxx:126-129 | the lookup by the id that `GetFaceID` reports |
| `ModelElements.ModelElement.GetFaceName` | Code/Source/Modules/Model/svModelElement.cxx:142-149 | the name of the face found by id; "" when no face has the id |
| `ModelElements.ModelElement.IsFaceSelected` | Code/Source/Modules/Model/svModelElement.cxx:223-226 | true exactly when the face found by id exists and is selected |
| `ModelElements.ModelElement.IsFaceSelectedByName` | Code/Source/Modules/Model/svModelElement.cxx:218-221 | true exactly when the face found by name (through its id) exists and is selected |
| `ModelElements.ModelElement.SetFaceName` | Code/Source/Modules/Model/svModelElement.cxx:151-156 | the face list becomes `Renamed` (see `RenameEffect`); no other field changes |
| `ModelElements.ModelElement.SetSelectedFaceIndex` | Code/Source/Modules/Model/svModelElement.cxx:173-181 | sets the flag only when 0 <= idx < length and the entry is non-null; no other field changes |
| `ModelElements.ModelElement.ClearFaceSelection` | Code/Source/Modules/Model/svModelElement.cxx:183-191 | every entry becomes the original with `selected` false; no other field changes |
| `ModelElements.ModelElement.SetSelectedFace` | Code/Source/Modules/Model/svModelElement.cxx:193-198 | selects the entry at the id's first-match position, or nothing for an unknown id; no other field changes |
| `ModelElements.ModelElement.SetSelectedFaceByName` | Code/Source/Modules/Model/svModelElement.cxx:200-205 | selects the face found by name through its id, or nothing; no other field changes |
| `ModelElements.ModelElement.RemoveFace` | Code/Source/Modules/Model/svModelElement.cxx:285-291 | the face list becomes `RemoveFirst` (see `RemoveFirstEffect`); the mesh and blend entries are untouched |
| `ModelElements.ModelElement.FindBlendParamRadius` | Code/Source/Modules/Model/svModelElement.cxx:274-283 | returns the position of the first entry with the ordered pair, or -1 |
| `ModelElements.ModelElement.GetBlendParamRadius` | Code/Source/Modules/Model/svModelElement.cxx:274-283 | None exactly when no entry has the ordered pair; otherwise an entry with that pair and the radius that lookup reports |
| `ModelElements.ModelElement.AddBlendRadii` | Code/Source/Modules/Model/svModelElement.cxx:255-272 | the blend list becomes `Merge` of the old list and the incoming entries (see `MergeRadius`, `MergeIncomingOnce`); no other field changes |
| `ModelElements.ModelElement.RemoveFaceFromBlendParamRadii` | Code/Source/Modules/Model/svModelElement.cxx:293-302 | the reverse-order erasing loop leaves exactly the entries that do not mention the id, in order (see `UnmentionedSpec`); no other field changes |
| `ModelElements.ModelElement.DeleteFaces` | Code/Source/Modules/Model/svModelElement.cxx:304-352 | returns false and changes nothing without a mesh or without the tag array; otherwise returns true, deletes every cell tagged with a requested id, erases the first face for each id in order, and purges every blend entry mentioning one |

## Left out

- Plain accessors (`GetType`, `GetSegNames`, `SetSegNames`, `GetFaces`, `SetFaces`, `GetWholeVtkPolyData`, `SetWholeVtkPolyData`, `GetBlendRadii`, `SetBlendRadii`): they only read or assign a field, and the Dafny fields are read and assigned directly.
- The destructor and every raw `new`/`delete`, including the entries that `RemoveFace` and `RemoveFaceFromBlendParamRadii` erase without freeing; memory ownership has no counterpart in a value model.
- Aliasing through returned pointers: `GetFace` and `GetBlendParamRadius` return copies, so a caller cannot write through them. The same goes for sharing the incoming entries' storage in `AddBlendRadii`.
- `CalculateBoundingBox`: floating-point geometry computed by VTK.
- VTK internals: `BuildLinks`, point arrays and orphaned points. The downcast of the `"ModelFaceID"` array to an integer array is taken to succeed, so `hasFaceIdArray` means an integer tag array.
- The mark-then-compact pair `DeleteCell`/`RemoveDeletedCells` is modelled as one loop that keeps the untagged cells.
- The per-face mesh fragment `vpd`: an opaque optional `Mesh`, only copied.
- The plugin activator (`svProjectDataNodesPluginActivator.cxx`): framework registration with no logic.
- Concurrency: the element is single-threaded.
