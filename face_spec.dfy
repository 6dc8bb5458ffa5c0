/**
 * Specification of the face list of a model element: the list is a
 * sequence of possibly-null face entries, searched front to back.
 */
module FaceSpec {
  import opened Wrappers
  import opened ModelData

  /** The entry is a non-null face whose id is `id`. */
  predicate HasId(f: Option<Face>, id: int) {
    f.Some? && f.value.id == id
  }

  /** The entry is a non-null face whose name is `name`. */
  predicate HasName(f: Option<Face>, name: string) {
    f.Some? && f.value.name == name
  }

  /** The entry is a non-null face whose id is one of `ids`. */
  predicate HasIdIn(f: Option<Face>, ids: seq<int>) {
    f.Some? && f.value.id in ids
  }

  /** Position of the first non-null face with id `id`, or -1 when there is none. */
  function FaceIndex(fs: seq<Option<Face>>, id: int): (k: int)
    ensures -1 <= k < |fs|
    ensures 0 <= k ==> HasId(fs[k], id)
    ensures forall j :: 0 <= j < |fs| && (k < 0 || j < k) ==> !HasId(fs[j], id)
  {
    if fs == [] then -1
    else if HasId(fs[0], id) then 0
    else
      var k := FaceIndex(fs[1..], id);
      if k < 0 then -1 else k + 1
  }

  /** Position of the first non-null face named `name`, or -1 when there is none. */
  function NameIndex(fs: seq<Option<Face>>, name: string): (k: int)
    ensures -1 <= k < |fs|
    ensures 0 <= k ==> HasName(fs[k], name)
    ensures forall j :: 0 <= j < |fs| && (k < 0 || j < k) ==> !HasName(fs[j], name)
  {
    if fs == [] then -1
    else if HasName(fs[0], name) then 0
    else
      var k := NameIndex(fs[1..], name);
      if k < 0 then -1 else k + 1
  }

  /** The face found by id: the entry at FaceIndex, or None. */
  function FaceById(fs: seq<Option<Face>>, id: int): (r: Option<Face>)
    ensures r.None? <==> forall j :: 0 <= j < |fs| ==> !HasId(fs[j], id)
    ensures r.Some? ==> r.value.id == id && 0 <= FaceIndex(fs, id) && r == fs[FaceIndex(fs, id)]
  {
    var k := FaceIndex(fs, id);
    if k < 0 then None else fs[k]
  }

  /** The id of the first face named `name`, or the sentinel -1. */
  function FaceIdOf(fs: seq<Option<Face>>, name: string): int {
    var k := NameIndex(fs, name);
    if k < 0 then -1 else fs[k].value.id
  }

  /** Whether the face found by id exists and is selected. */
  predicate IsSelected(fs: seq<Option<Face>>, id: int) {
    var f := FaceById(fs, id);
    f.Some? && f.value.selected
  }

  /** The name of the face found by id, or "" when there is none. */
  function NameOf(fs: seq<Option<Face>>, id: int): string {
    var f := FaceById(fs, id);
    if f.Some? then f.value.name else ""
  }

  /** No two non-null faces share an id (the element's informal invariant). */
  predicate UniqueIds(fs: seq<Option<Face>>) {
    forall i, j :: 0 <= i < j < |fs| && fs[i].Some? && fs[j].Some? ==> fs[i].value.id != fs[j].value.id
  }

  /** `gs` has the same null entries and the same ids as `fs`, position by position. */
  predicate SameIds(fs: seq<Option<Face>>, gs: seq<Option<Face>>) {
    |fs| == |gs| &&
    forall i :: 0 <= i < |fs| ==>
      (fs[i].Some? <==> gs[i].Some?) && (fs[i].Some? ==> fs[i].value.id == gs[i].value.id)
  }

  /** Sets the selected flag of a non-null entry; a null entry stays null. */
  function WithSelected(f: Option<Face>, b: bool): Option<Face> {
    match f
    case None => None
    case Some(x) => Some(x.(selected := b))
  }

  /** Marks the entry at `k` selected when `k` is a valid position. */
  function SelectedAt(fs: seq<Option<Face>>, k: int): seq<Option<Face>> {
    if 0 <= k < |fs| then fs[k := WithSelected(fs[k], true)] else fs
  }

  /** Every entry with its selected flag cleared. */
  function ClearedSelection(fs: seq<Option<Face>>): (r: seq<Option<Face>>)
    ensures |r| == |fs|
    ensures forall i :: 0 <= i < |fs| ==> r[i] == WithSelected(fs[i], false)
  {
    if fs == [] then []
    else ClearedSelection(fs[..|fs| - 1]) + [WithSelected(fs[|fs| - 1], false)]
  }

  /** The first face with `id` renamed to `name`. */
  function Renamed(fs: seq<Option<Face>>, id: int, name: string): seq<Option<Face>> {
    var k := FaceIndex(fs, id);
    if k < 0 then fs else fs[k := Some(fs[k].value.(name := name))]
  }

  /** The list with the first face with `id` erased. */
  function RemoveFirst(fs: seq<Option<Face>>, id: int): seq<Option<Face>> {
    var k := FaceIndex(fs, id);
    if k < 0 then fs else fs[..k] + fs[k + 1..]
  }

  /** RemoveFirst applied for each of `ids`, in order. */
  function RemoveFirstEach(fs: seq<Option<Face>>, ids: seq<int>): seq<Option<Face>> {
    if ids == [] then fs
    else RemoveFirst(RemoveFirstEach(fs, ids[..|ids| - 1]), ids[|ids| - 1])
  }

  /** Reference definition: the entries that are not a face with an id in `ids`, in order. */
  function FacesWithoutIds(fs: seq<Option<Face>>, ids: seq<int>): seq<Option<Face>> {
    if fs == [] then []
    else
      FacesWithoutIds(fs[..|fs| - 1], ids)
      + (if HasIdIn(fs[|fs| - 1], ids) then [] else [fs[|fs| - 1]])
  }

  // ---------------------------------------------------------------------
  // Lookups

  /** Lists with the same ids answer every lookup by id at the same position. */
  lemma SameIdsSameIndex(fs: seq<Option<Face>>, gs: seq<Option<Face>>, id: int)
    requires SameIds(fs, gs)
    ensures FaceIndex(fs, id) == FaceIndex(gs, id)
  {
    var k, l := FaceIndex(fs, id), FaceIndex(gs, id);
    if 0 <= k { assert HasId(gs[k], id); }
    if 0 <= l { assert HasId(fs[l], id); }
  }

  /**
   * Lookup by name goes through the id: with unique ids, the face found is the
   * first one carrying the name, and a missing name finds no face unless some
   * face has the sentinel id -1.
   */
  lemma FaceByNameResolves(fs: seq<Option<Face>>, name: string)
    requires UniqueIds(fs)
    ensures NameIndex(fs, name) >= 0 ==> FaceById(fs, FaceIdOf(fs, name)) == fs[NameIndex(fs, name)]
    ensures NameIndex(fs, name) < 0 ==> FaceById(fs, FaceIdOf(fs, name)) == FaceById(fs, -1)
  {
    var k := NameIndex(fs, name);
    if k >= 0 {
      var id := fs[k].value.id;
      var m := FaceIndex(fs, id);
      assert HasId(fs[k], id);
      assert m == k;
    }
  }

  // ---------------------------------------------------------------------
  // Selection

  /** After clearing, no lookup by id finds a selected face, and only the flags changed. */
  lemma ClearedSelectionNoneSelected(fs: seq<Option<Face>>, id: int)
    ensures !IsSelected(ClearedSelection(fs), id)
    ensures SameIds(fs, ClearedSelection(fs))
    ensures FaceIndex(ClearedSelection(fs), id) == FaceIndex(fs, id)
  {
    var r := ClearedSelection(fs);
    assert SameIds(fs, r);
    SameIdsSameIndex(fs, r, id);
  }

  /**
   * Selecting the face found by id makes it selected and leaves every lookup
   * that resolves to another position as it was; an unknown id changes nothing.
   */
  lemma SelectByIdEffect(fs: seq<Option<Face>>, id: int, other: int)
    ensures FaceIndex(fs, id) < 0 ==> SelectedAt(fs, FaceIndex(fs, id)) == fs
    ensures FaceIndex(fs, id) >= 0 ==> IsSelected(SelectedAt(fs, FaceIndex(fs, id)), id)
    ensures FaceIndex(fs, other) != FaceIndex(fs, id) ==>
              IsSelected(SelectedAt(fs, FaceIndex(fs, id)), other) == IsSelected(fs, other)
  {
    var k := FaceIndex(fs, id);
    var r := SelectedAt(fs, k);
    assert SameIds(fs, r);
    SameIdsSameIndex(fs, r, id);
    SameIdsSameIndex(fs, r, other);
  }

  /** With unique ids, selecting one face leaves the selection of every other id alone. */
  lemma SelectKeepsOthers(fs: seq<Option<Face>>, id: int, other: int)
    requires UniqueIds(fs)
    requires other != id
    ensures IsSelected(SelectedAt(fs, FaceIndex(fs, id)), other) == IsSelected(fs, other)
  {
    SelectByIdEffect(fs, id, other);
  }

  // ---------------------------------------------------------------------
  // Renaming

  /**
   * Renaming changes only the name of the first face with `id`: the new name
   * is what lookup by id reports, every other entry is unchanged, and an
   * unknown id is a no-op.
   */
  lemma RenameEffect(fs: seq<Option<Face>>, id: int, name: string, other: int)
    ensures FaceIndex(fs, id) < 0 ==> Renamed(fs, id, name) == fs
    ensures FaceIndex(fs, id) >= 0 ==> NameOf(Renamed(fs, id, name), id) == name
    ensures FaceIndex(fs, id) >= 0 ==>
              Renamed(fs, id, name)[FaceIndex(fs, id)] == Some(fs[FaceIndex(fs, id)].value.(name := name))
    ensures |Renamed(fs, id, name)| == |fs|
    ensures forall j :: 0 <= j < |fs| && j != FaceIndex(fs, id) ==> Renamed(fs, id, name)[j] == fs[j]
    ensures FaceIndex(Renamed(fs, id, name), other) == FaceIndex(fs, other)
  {
    var r := Renamed(fs, id, name);
    assert SameIds(fs, r);
    SameIdsSameIndex(fs, r, id);
    SameIdsSameIndex(fs, r, other);
  }

  // ---------------------------------------------------------------------
  // Removal

  /**
   * RemoveFirst erases exactly the first face with `id` and keeps the rest in
   * order; an unknown id is a no-op.
   */
  lemma RemoveFirstEffect(fs: seq<Option<Face>>, id: int)
    ensures FaceIndex(fs, id) < 0 ==> RemoveFirst(fs, id) == fs
    ensures FaceIndex(fs, id) >= 0 ==> |RemoveFirst(fs, id)| == |fs| - 1
    ensures forall j :: 0 <= j < |RemoveFirst(fs, id)| ==>
              RemoveFirst(fs, id)[j] == (if FaceIndex(fs, id) < 0 || j < FaceIndex(fs, id) then fs[j] else fs[j + 1])
  {
  }

  /** Exactly the erased face leaves the multiset of entries. */
  lemma RemoveFirstMultiset(fs: seq<Option<Face>>, id: int)
    requires FaceIndex(fs, id) >= 0
    ensures multiset(RemoveFirst(fs, id)) + multiset{fs[FaceIndex(fs, id)]} == multiset(fs)
  {
    EraseMultiset(fs, FaceIndex(fs, id));
  }

  /** Erasing position `k` removes exactly one copy of the element there. */
  lemma EraseMultiset<T>(s: seq<T>, k: int)
    requires 0 <= k < |s|
    ensures multiset(s[..k] + s[k + 1..]) + multiset{s[k]} == multiset(s)
  {
    var pre, post := s[..k], s[k + 1..];
    assert s == pre + [s[k]] + post;
    assert multiset(s) == multiset(pre) + multiset{s[k]} + multiset(post);
  }

  /** With unique ids, nothing after the first face with `id` has that id. */
  lemma UniqueNoLaterMatch(fs: seq<Option<Face>>, id: int)
    requires UniqueIds(fs)
    ensures forall j :: FaceIndex(fs, id) < j < |fs| ==> !HasId(fs[j], id)
  {
  }

  /** With unique ids, removing the first face with `id` leaves no face with `id`, and ids stay unique. */
  lemma RemoveFirstUnique(fs: seq<Option<Face>>, id: int)
    requires UniqueIds(fs)
    ensures UniqueIds(RemoveFirst(fs, id))
    ensures forall j :: 0 <= j < |RemoveFirst(fs, id)| ==> !HasId(RemoveFirst(fs, id)[j], id)
  {
    var k := FaceIndex(fs, id);
    var r := RemoveFirst(fs, id);
    RemoveFirstEffect(fs, id);
    UniqueNoLaterMatch(fs, id);
    if k >= 0 {
      forall i, j | 0 <= i < j < |r| && r[i].Some? && r[j].Some?
        ensures r[i].value.id != r[j].value.id
      {
        var i', j' := if i < k then i else i + 1, if j < k then j else j + 1;
        assert r[i] == fs[i'] && r[j] == fs[j'] && i' < j';
      }
      forall j | 0 <= j < |r| ensures !HasId(r[j], id) {
        if j >= k { assert r[j] == fs[j + 1]; }
      }
    }
  }

  /** FacesWithoutIds splits over a concatenation. */
  lemma {:induction false} FacesWithoutIdsAppend(a: seq<Option<Face>>, b: seq<Option<Face>>, ids: seq<int>)
    ensures FacesWithoutIds(a + b, ids) == FacesWithoutIds(a, ids) + FacesWithoutIds(b, ids)
    decreases |b|
  {
    if b == [] {
      assert a + b == a;
    } else {
      var b' := b[..|b| - 1];
      assert (a + b)[..|a + b| - 1] == a + b';
      FacesWithoutIdsAppend(a, b', ids);
    }
  }

  /** When no entry is a face with an id in `ids`, FacesWithoutIds keeps everything. */
  lemma {:induction false} FacesWithoutIdsNoMatch(fs: seq<Option<Face>>, ids: seq<int>)
    requires forall j :: 0 <= j < |fs| ==> !HasIdIn(fs[j], ids)
    ensures FacesWithoutIds(fs, ids) == fs
  {
    if fs != [] {
      FacesWithoutIdsNoMatch(fs[..|fs| - 1], ids);
    }
  }

  /** What FacesWithoutIds keeps: no face with a listed id, and every other entry. */
  lemma {:induction false} FacesWithoutIdsMembers(fs: seq<Option<Face>>, ids: seq<int>)
    ensures forall j :: 0 <= j < |FacesWithoutIds(fs, ids)| ==> !HasIdIn(FacesWithoutIds(fs, ids)[j], ids)
    ensures forall f :: f in FacesWithoutIds(fs, ids) <==> f in fs && !HasIdIn(f, ids)
  {
    if fs != [] {
      var init := fs[..|fs| - 1];
      FacesWithoutIdsMembers(init, ids);
      assert fs == init + [fs[|fs| - 1]];
    }
  }

  /** Filtering by a list and then by one more id is filtering by the longer list. */
  lemma {:induction false} FacesWithoutIdsCompose(fs: seq<Option<Face>>, ids: seq<int>, x: int)
    ensures FacesWithoutIds(FacesWithoutIds(fs, ids), [x]) == FacesWithoutIds(fs, ids + [x])
  {
    if fs != [] {
      var init, last := fs[..|fs| - 1], fs[|fs| - 1];
      FacesWithoutIdsCompose(init, ids, x);
      var once := FacesWithoutIds(init, ids);
      assert HasIdIn(last, ids + [x]) <==> HasIdIn(last, ids) || HasIdIn(last, [x]);
      var keep := if HasIdIn(last, ids + [x]) then [] else [last];
      assert FacesWithoutIds(fs, ids + [x]) == FacesWithoutIds(init, ids + [x]) + keep;
      if HasIdIn(last, ids) {
        assert FacesWithoutIds(fs, ids) == once + [];
        assert once + [] == once;
      } else {
        assert FacesWithoutIds(fs, ids) == once + [last];
        assert (once + [last])[..|once + [last]| - 1] == once;
        assert FacesWithoutIds(once + [last], [x]) == FacesWithoutIds(once, [x]) + keep;
      }
    }
  }

  /** Erasing position `k`, where the only face with `id` sits, is filtering `id` out. */
  lemma {:induction false} EraseOnlyMatchIsFilter(fs: seq<Option<Face>>, id: int, k: int)
    requires 0 <= k < |fs| && HasId(fs[k], id)
    requires forall j :: 0 <= j < |fs| && j != k ==> !HasId(fs[j], id)
    ensures fs[..k] + fs[k + 1..] == FacesWithoutIds(fs, [id])
  {
    var init, last := fs[..|fs| - 1], fs[|fs| - 1];
    if k == |fs| - 1 {
      assert forall j :: 0 <= j < |init| ==> !HasIdIn(init[j], [id]);
      FacesWithoutIdsNoMatch(init, [id]);
      assert fs[..k] + fs[k + 1..] == init;
    } else {
      EraseOnlyMatchIsFilter(init, id, k);
      assert !HasIdIn(last, [id]);
      assert fs[..k] + fs[k + 1..] == (init[..k] + init[k + 1..]) + [last];
    }
  }

  /** With unique ids, erasing the first face with `id` erases every face with `id`. */
  lemma RemoveFirstIsFilter(fs: seq<Option<Face>>, id: int)
    requires UniqueIds(fs)
    ensures RemoveFirst(fs, id) == FacesWithoutIds(fs, [id])
  {
    var k := FaceIndex(fs, id);
    UniqueNoLaterMatch(fs, id);
    if k < 0 {
      FacesWithoutIdsNoMatch(fs, [id]);
    } else {
      EraseOnlyMatchIsFilter(fs, id, k);
    }
  }

  /**
   * With unique ids, erasing the first face for each requested id, in order,
   * leaves exactly the faces whose id was not requested, in their original order,
   * and the ids stay unique.
   */
  lemma {:induction false} RemoveFirstEachIsFilter(fs: seq<Option<Face>>, ids: seq<int>)
    requires UniqueIds(fs)
    ensures RemoveFirstEach(fs, ids) == FacesWithoutIds(fs, ids)
    ensures UniqueIds(RemoveFirstEach(fs, ids))
  {
    if ids == [] {
      FacesWithoutIdsNoMatch(fs, ids);
    } else {
      var init, last := ids[..|ids| - 1], ids[|ids| - 1];
      RemoveFirstEachIsFilter(fs, init);
      var before := RemoveFirstEach(fs, init);
      RemoveFirstUnique(before, last);
      RemoveFirstIsFilter(before, last);
      FacesWithoutIdsCompose(fs, init, last);
      assert init + [last] == ids;
    }
  }
}
