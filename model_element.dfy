/**
 * A model element: an ordered list of faces, an ordered list of blend-radius
 * entries, the names of the segmentations it was built from, and an optional
 * whole-surface mesh whose cells are tagged with face ids.  Entries of both
 * lists may be null (None); every lookup skips them.
 */
module ModelElements {
  import opened Wrappers
  import opened ModelData
  import opened FaceSpec
  import opened BlendSpec
  import opened MeshSpec

  /** Every entry of the list is non-null. */
  predicate AllPresent<T>(s: seq<Option<T>>) {
    forall i :: 0 <= i < |s| ==> s[i].Some?
  }

  /**
   * What a successful DeleteFaces leaves behind: no cell tagged with a
   * requested id, every other cell as often as before; with unique face ids,
   * exactly the faces whose id was not requested, in order; and no blend entry
   * mentioning a requested id.
   */
  lemma DeleteFacesEffect(tags: seq<int>, fs: seq<Option<Face>>, rs: seq<Option<BlendParamRadius>>, ids: seq<int>)
    requires UniqueIds(fs)
    ensures forall j :: 0 <= j < |Untagged(tags, ids)| ==> Untagged(tags, ids)[j] !in ids
    ensures forall t :: t !in ids ==> multiset(Untagged(tags, ids))[t] == multiset(tags)[t]
    ensures RemoveFirstEach(fs, ids) == FacesWithoutIds(fs, ids)
    ensures forall j :: 0 <= j < |RemoveFirstEach(fs, ids)| ==> !HasIdIn(RemoveFirstEach(fs, ids)[j], ids)
    ensures forall f :: f in RemoveFirstEach(fs, ids) <==> f in fs && !HasIdIn(f, ids)
    ensures forall j :: 0 <= j < |Unmentioned(rs, ids)| ==> !MentionsAny(Unmentioned(rs, ids)[j], ids)
    ensures forall e :: !MentionsAny(e, ids) ==> multiset(Unmentioned(rs, ids))[e] == multiset(rs)[e]
  {
    UntaggedSpec(tags, ids);
    RemoveFirstEachIsFilter(fs, ids);
    FacesWithoutIdsMembers(fs, ids);
    UnmentionedSpec(rs, ids);
  }

  /** Deleting an empty batch of faces changes neither the cells, the faces nor the blend entries. */
  lemma DeleteNothing(tags: seq<int>, fs: seq<Option<Face>>, rs: seq<Option<BlendParamRadius>>)
    ensures Untagged(tags, []) == tags
    ensures RemoveFirstEach(fs, []) == fs
    ensures Unmentioned(rs, []) == rs
  {
    UntaggedNoMatch(tags, []);
    UnmentionedNoMatch(rs, []);
  }

  /** Requested ids that no face carries are tolerated: the face list is left as it was. */
  lemma {:induction false} DeleteUnknownFaces(fs: seq<Option<Face>>, ids: seq<int>)
    requires forall j :: 0 <= j < |fs| ==> !HasIdIn(fs[j], ids)
    ensures RemoveFirstEach(fs, ids) == fs
  {
    if ids != [] {
      var init := ids[..|ids| - 1];
      forall j | 0 <= j < |fs| ensures !HasIdIn(fs[j], init) {
        assert HasIdIn(fs[j], init) ==> HasIdIn(fs[j], ids);
      }
      DeleteUnknownFaces(fs, init);
      var last := ids[|ids| - 1];
      assert last in ids;
      assert forall j :: 0 <= j < |fs| ==> !HasId(fs[j], last);
    }
  }

  class ModelElement {
    var modelType: string
    var segNames: seq<string>
    var faces: seq<Option<Face>>
    var wholeMesh: Option<Mesh>
    var blendRadii: seq<Option<BlendParamRadius>>

    /** An empty element: no type, no faces, no mesh, no blend radii. */
    constructor ()
      ensures modelType == "" && segNames == [] && faces == [] && wholeMesh == None && blendRadii == []
    {
      modelType := "";
      segNames := [];
      faces := [];
      wholeMesh := None;
      blendRadii := [];
    }

    /**
     * The copy constructor: every face, its fragment, the whole mesh and every
     * blend entry are copied field by field, so the copy equals the original
     * and shares nothing with it.  The original dereferences every face and
     * every blend entry, so they must all be non-null.
     */
    constructor Copy(other: ModelElement)
      requires AllPresent(other.faces) && AllPresent(other.blendRadii)
      ensures modelType == other.modelType && segNames == other.segNames
      ensures faces == other.faces && wholeMesh == other.wholeMesh && blendRadii == other.blendRadii
    {
      modelType := other.modelType;
      segNames := other.segNames;
      var fs: seq<Option<Face>> := [];
      for i := 0 to |other.faces|
        invariant fs == other.faces[..i]
      {
        var f := other.faces[i].value;
        var vpd := if f.vpd.Some? then Some(f.vpd.value) else None;
        fs := fs + [Some(Face(f.id, f.name, f.faceType, f.selected, f.visible, f.opacity,
                              Color(f.color.r, f.color.g, f.color.b), vpd))];
      }
      assert other.faces[..|other.faces|] == other.faces;
      faces := fs;
      wholeMesh := if other.wholeMesh.Some? then Some(other.wholeMesh.value) else None;
      var rs: seq<Option<BlendParamRadius>> := [];
      for i := 0 to |other.blendRadii|
        invariant rs == other.blendRadii[..i]
      {
        var r := other.blendRadii[i].value;
        rs := rs + [Some(BlendParamRadius(r.faceID1, r.faceID2, r.radius))];
      }
      assert other.blendRadii[..|other.blendRadii|] == other.blendRadii;
      blendRadii := rs;
    }

    /** A new, independent element equal to this one. */
    method Clone() returns (c: ModelElement)
      requires AllPresent(faces) && AllPresent(blendRadii)
      ensures fresh(c)
      ensures c.modelType == modelType && c.segNames == segNames && c.faces == faces
      ensures c.wholeMesh == wholeMesh && c.blendRadii == blendRadii
    {
      c := new ModelElement.Copy(this);
    }

    // -------------------------------------------------------------------
    // Queries

    /** Whether `segName` is one of the element's segmentation names. */
    method HasSeg(segName: string) returns (found: bool)
      ensures found <==> segName in segNames
    {
      var i := 0;
      while i < |segNames|
        invariant 0 <= i <= |segNames|
        invariant segName !in segNames[..i]
      {
        if segName == segNames[i] {
          return true;
        }
        assert segNames[..i + 1] == segNames[..i] + [segNames[i]];
        i := i + 1;
      }
      assert segNames[..i] == segNames;
      return false;
    }

    /** Position of the first non-null face with id `id`, or -1. */
    method GetFaceIndex(id: int) returns (idx: int)
      ensures idx == FaceIndex(faces, id)
    {
      var i := 0;
      while i < |faces|
        invariant 0 <= i <= |faces|
        invariant forall j :: 0 <= j < i ==> !HasId(faces[j], id)
      {
        if faces[i].Some? && faces[i].value.id == id {
          return i;
        }
        i := i + 1;
      }
      return -1;
    }

    /** The face with id `id` (the first one), or None when no face has it. */
    method GetFace(id: int) returns (f: Option<Face>)
      ensures f == FaceById(faces, id)
      ensures f.None? <==> forall j :: 0 <= j < |faces| ==> !HasId(faces[j], id)
      ensures f.Some? ==> f.value.id == id
    {
      var idx := GetFaceIndex(id);
      if idx < 0 {
        return None;
      }
      return faces[idx];
    }

    /** The id of the first non-null face named `name`, or -1. */
    method GetFaceID(name: string) returns (id: int)
      ensures NameIndex(faces, name) < 0 ==> id == -1
      ensures NameIndex(faces, name) >= 0 ==> id == faces[NameIndex(faces, name)].value.id
      ensures id == FaceIdOf(faces, name)
    {
      var i := 0;
      while i < |faces|
        invariant 0 <= i <= |faces|
        invariant forall j :: 0 <= j < i ==> !HasName(faces[j], name)
      {
        if faces[i].Some? && faces[i].value.name == name {
          return faces[i].value.id;
        }
        i := i + 1;
      }
      return -1;
    }

    /** The face found by name: lookup by the id that GetFaceID reports. */
    method GetFaceByName(name: string) returns (f: Option<Face>)
      ensures f == FaceById(faces, FaceIdOf(faces, name))
    {
      var id := GetFaceID(name);
      f := GetFace(id);
    }

    /** The name of the face with id `id`, or "" when there is none. */
    method GetFaceName(id: int) returns (name: string)
      ensures name == NameOf(faces, id)
      ensures (forall j :: 0 <= j < |faces| ==> !HasId(faces[j], id)) ==> name == ""
    {
      var f := GetFace(id);
      if f.Some? {
        return f.value.name;
      }
      return "";
    }

    /** Whether the face with id `id` exists and is selected. */
    method IsFaceSelected(id: int) returns (b: bool)
      ensures b == IsSelected(faces, id)
      ensures b ==> exists j :: 0 <= j < |faces| && HasId(faces[j], id) && faces[j].value.selected
    {
      var f := GetFace(id);
      if f.None? {
        return false;
      }
      var g := GetFace(id);
      b := g.value.selected;
    }

    /** Whether the face found by name exists and is selected. */
    method IsFaceSelectedByName(name: string) returns (b: bool)
      ensures b == IsSelected(faces, FaceIdOf(faces, name))
    {
      var f := GetFaceByName(name);
      if f.None? {
        return false;
      }
      var g := GetFaceByName(name);
      b := g.value.selected;
    }

    // -------------------------------------------------------------------
    // Face mutation

    /** Renames the first face with id `id`; a no-op when there is none. */
    method SetFaceName(name: string, id: int)
      modifies this
      ensures faces == Renamed(old(faces), id, name)
      ensures modelType == old(modelType) && segNames == old(segNames)
      ensures wholeMesh == old(wholeMesh) && blendRadii == old(blendRadii)
    {
      var index := GetFaceIndex(id);
      if index > -1 {
        faces := faces[index := Some(faces[index].value.(name := name))];
      }
    }

    /** Marks the face at position `idx` selected, when `idx` is in range and the entry is non-null. */
    method SetSelectedFaceIndex(idx: int)
      modifies this
      ensures faces == SelectedAt(old(faces), idx)
      ensures modelType == old(modelType) && segNames == old(segNames)
      ensures wholeMesh == old(wholeMesh) && blendRadii == old(blendRadii)
    {
      if idx > -1 && idx < |faces| {
        if faces[idx].Some? {
          faces := faces[idx := Some(faces[idx].value.(selected := true))];
        }
      }
    }

    /** Clears the selected flag of every face; nothing else changes. */
    method ClearFaceSelection()
      modifies this
      ensures faces == ClearedSelection(old(faces))
      ensures modelType == old(modelType) && segNames == old(segNames)
      ensures wholeMesh == old(wholeMesh) && blendRadii == old(blendRadii)
    {
      var i := 0;
      while i < |faces|
        invariant 0 <= i <= |faces| == |old(faces)|
        invariant forall j :: 0 <= j < i ==> faces[j] == WithSelected(old(faces)[j], false)
        invariant forall j :: i <= j < |faces| ==> faces[j] == old(faces)[j]
        invariant modelType == old(modelType) && segNames == old(segNames)
        invariant wholeMesh == old(wholeMesh) && blendRadii == old(blendRadii)
      {
        if faces[i].Some? {
          faces := faces[i := Some(faces[i].value.(selected := false))];
        }
        i := i + 1;
      }
    }

    /** Marks the face with id `id` selected; others keep their flags; a no-op for an unknown id. */
    method SetSelectedFace(id: int)
      modifies this
      ensures faces == SelectedAt(old(faces), FaceIndex(old(faces), id))
      ensures modelType == old(modelType) && segNames == old(segNames)
      ensures wholeMesh == old(wholeMesh) && blendRadii == old(blendRadii)
    {
      // The face GetFace(id) returns is the entry at GetFaceIndex(id).
      var idx := GetFaceIndex(id);
      if idx >= 0 {
        faces := faces[idx := Some(faces[idx].value.(selected := true))];
      }
    }

    /** Marks the face found by name selected; a no-op when the lookup finds none. */
    method SetSelectedFaceByName(name: string)
      modifies this
      ensures faces == SelectedAt(old(faces), FaceIndex(old(faces), FaceIdOf(old(faces), name)))
      ensures modelType == old(modelType) && segNames == old(segNames)
      ensures wholeMesh == old(wholeMesh) && blendRadii == old(blendRadii)
    {
      var id := GetFaceID(name);
      var idx := GetFaceIndex(id);
      if idx >= 0 {
        faces := faces[idx := Some(faces[idx].value.(selected := true))];
      }
    }

    /** Erases the first face with id `faceID`; a no-op when there is none. */
    method RemoveFace(faceID: int)
      modifies this
      ensures faces == RemoveFirst(old(faces), faceID)
      ensures modelType == old(modelType) && segNames == old(segNames)
      ensures wholeMesh == old(wholeMesh) && blendRadii == old(blendRadii)
    {
      var idx := GetFaceIndex(faceID);
      if idx > -1 {
        faces := faces[..idx] + faces[idx + 1..];
      }
    }

    // -------------------------------------------------------------------
    // Blend radii

    /** Position of the first entry for the ordered pair (faceID1, faceID2), or -1. */
    method FindBlendParamRadius(faceID1: int, faceID2: int) returns (k: int)
      ensures k == BlendIndex(blendRadii, faceID1, faceID2)
    {
      var i := 0;
      while i < |blendRadii|
        invariant 0 <= i <= |blendRadii|
        invariant forall j :: 0 <= j < i ==> !MatchesPair(blendRadii[j], faceID1, faceID2)
      {
        if blendRadii[i].Some? && blendRadii[i].value.faceID1 == faceID1 && blendRadii[i].value.faceID2 == faceID2 {
          return i;
        }
        i := i + 1;
      }
      return -1;
    }

    /** The entry for the ordered pair (faceID1, faceID2), or None; (faceID2, faceID1) does not match. */
    method GetBlendParamRadius(faceID1: int, faceID2: int) returns (r: Option<BlendParamRadius>)
      ensures r.None? <==> forall j :: 0 <= j < |blendRadii| ==> !MatchesPair(blendRadii[j], faceID1, faceID2)
      ensures r.Some? ==> r.value.faceID1 == faceID1 && r.value.faceID2 == faceID2
      ensures r.Some? ==> Some(r.value.radius) == RadiusOf(blendRadii, faceID1, faceID2)
    {
      var k := FindBlendParamRadius(faceID1, faceID2);
      if k < 0 {
        return None;
      }
      return blendRadii[k];
    }

    /**
     * Merges the incoming entries in order: an entry whose ordered pair is
     * already present overwrites that entry's radius, any other is appended.
     */
    method AddBlendRadii(moreBlendRadii: seq<BlendParamRadius>)
      modifies this
      ensures blendRadii == Merge(old(blendRadii), moreBlendRadii)
      ensures modelType == old(modelType) && segNames == old(segNames)
      ensures wholeMesh == old(wholeMesh) && faces == old(faces)
    {
      for i := 0 to |moreBlendRadii|
        invariant blendRadii == Merge(old(blendRadii), moreBlendRadii[..i])
        invariant modelType == old(modelType) && segNames == old(segNames)
        invariant wholeMesh == old(wholeMesh) && faces == old(faces)
      {
        var newParamRadius := moreBlendRadii[i];
        var existing := FindBlendParamRadius(newParamRadius.faceID1, newParamRadius.faceID2);
        if existing >= 0 {
          blendRadii := blendRadii[existing := Some(blendRadii[existing].value.(radius := newParamRadius.radius))];
        } else {
          blendRadii := blendRadii + [Some(newParamRadius)];
        }
        assert moreBlendRadii[..i + 1][..i] == moreBlendRadii[..i];
      }
      assert moreBlendRadii[..|moreBlendRadii|] == moreBlendRadii;
    }

    /** Erases every entry that mentions `faceID`, scanning from the back; the rest keep their order. */
    method RemoveFaceFromBlendParamRadii(faceID: int)
      modifies this
      ensures blendRadii == Unmentioned(old(blendRadii), [faceID])
      ensures modelType == old(modelType) && segNames == old(segNames)
      ensures wholeMesh == old(wholeMesh) && faces == old(faces)
    {
      var i := |blendRadii| - 1;
      while i > -1
        invariant -1 <= i < |old(blendRadii)|
        invariant blendRadii == old(blendRadii)[..i + 1] + Unmentioned(old(blendRadii)[i + 1..], [faceID])
        invariant modelType == old(modelType) && segNames == old(segNames)
        invariant wholeMesh == old(wholeMesh) && faces == old(faces)
        decreases i
      {
        ghost var was := old(blendRadii);
        assert blendRadii[i] == was[i];
        assert was[i..] == [was[i]] + was[i + 1..];
        assert was[..i + 1] == was[..i] + [was[i]];
        if blendRadii[i].Some? && (blendRadii[i].value.faceID1 == faceID || blendRadii[i].value.faceID2 == faceID) {
          blendRadii := blendRadii[..i] + blendRadii[i + 1..];
        }
        i := i - 1;
      }
      assert old(blendRadii)[0..] == old(blendRadii);
    }

    // -------------------------------------------------------------------
    // Face deletion

    /**
     * Deletes the faces `faceIDs`, in order: for each id, every mesh cell
     * tagged with it, then the first face with it, then every blend entry
     * mentioning it.  Refuses, changing nothing, unless the element has a mesh
     * carrying the "ModelFaceID" cell array.
     */
    method DeleteFaces(faceIDs: seq<int>) returns (ok: bool)
      modifies this
      ensures ok <==> old(wholeMesh).Some? && old(wholeMesh).value.hasFaceIdArray
      ensures !ok ==> faces == old(faces) && blendRadii == old(blendRadii) && wholeMesh == old(wholeMesh)
      ensures ok ==> wholeMesh == Some(old(wholeMesh).value.(cellTags := Untagged(old(wholeMesh).value.cellTags, faceIDs)))
      ensures ok ==> faces == RemoveFirstEach(old(faces), faceIDs)
      ensures ok ==> blendRadii == Unmentioned(old(blendRadii), faceIDs)
      ensures modelType == old(modelType) && segNames == old(segNames)
    {
      if wholeMesh.None? {
        return false;
      }
      if !wholeMesh.value.hasFaceIdArray {
        return false;
      }
      ghost var m0, f0, b0 := wholeMesh.value, faces, blendRadii;
      UntaggedNoMatch(m0.cellTags, []);
      UnmentionedNoMatch(b0, []);
      for i := 0 to |faceIDs|
        invariant wholeMesh == Some(m0.(cellTags := Untagged(m0.cellTags, faceIDs[..i])))
        invariant faces == RemoveFirstEach(f0, faceIDs[..i])
        invariant blendRadii == Unmentioned(b0, faceIDs[..i])
        invariant modelType == old(modelType) && segNames == old(segNames)
      {
        var id := faceIDs[i];
        var mesh := wholeMesh.value;
        // Mark every cell tagged `id` and compact: the cells left are the others, in order.
        var kept: seq<int> := [];
        for c := 0 to |mesh.cellTags|
          invariant kept == Untagged(mesh.cellTags[..c], [id])
        {
          assert mesh.cellTags[..c + 1][..c] == mesh.cellTags[..c];
          if mesh.cellTags[c] != id {
            kept := kept + [mesh.cellTags[c]];
          }
        }
        assert mesh.cellTags[..|mesh.cellTags|] == mesh.cellTags;
        wholeMesh := Some(mesh.(cellTags := kept));

        RemoveFace(id);
        RemoveFaceFromBlendParamRadii(id);

        assert faceIDs[..i + 1] == faceIDs[..i] + [id];
        assert faceIDs[..i + 1][..i] == faceIDs[..i];
        UntaggedCompose(m0.cellTags, faceIDs[..i], id);
        UnmentionedCompose(b0, faceIDs[..i], id);
      }
      assert faceIDs[..|faceIDs|] == faceIDs;
      return true;
    }
  }
}
