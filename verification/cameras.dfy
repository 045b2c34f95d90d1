/**
  The render-camera registry (src/rendering/rendering.cc): cameras looked up
  by name, reference counted, and ordered by render priority with `dQsort`.
*/
module RenderCameras {
  import opened Types

  /** A `StringTableEntry`: interned names are compared by identity, so an entry is an opaque key. */
  type Name = nat

  /** `refCount` as the `RenderCamera` constructor leaves it; `createRenderCamera` then counts the first reference. */
  const INITIAL_REF_COUNT: int := 0

  /** The render priority a new camera starts with. */
  const INITIAL_PRIORITY: int := 0

  /** A `RenderCamera`: its identity (the object's address), name, rendering path, reference count and render priority. */
  datatype Camera = Camera(id: nat, name: Name, renderingPath: Name, refCount: int, priority: int)

  /** `renderCameraList`, and the identity the next new camera gets. */
  datatype Registry = Registry(cameras: seq<Camera>, nextId: nat)

  /** Identities and names are unique, identities were handed out, and every registered camera is referenced. */
  predicate Valid(r: Registry) {
    && (forall j :: 0 <= j < |r.cameras| ==> r.cameras[j].id < r.nextId && r.cameras[j].refCount >= 1)
    && (forall j, k :: 0 <= j < k < |r.cameras| ==> r.cameras[j].id != r.cameras[k].id)
    && (forall j, k :: 0 <= j < k < |r.cameras| ==> r.cameras[j].name != r.cameras[k].name)
  }

  const EMPTY: Registry := Registry([], 0)

  function NameOf(c: Camera): Name {
    c.name
  }

  function IdOf(c: Camera): nat {
    c.id
  }

  /** The index of the first camera named `name`. */
  function FindByName(cams: seq<Camera>, name: Name): (r: Option<nat>)
    ensures r.Some? ==> (r.value < |cams| && cams[r.value].name == name
      && forall j :: 0 <= j < r.value ==> cams[j].name != name)
    ensures r.None? ==> forall j :: 0 <= j < |cams| ==> cams[j].name != name
  {
    FirstIndex(cams, NameOf, name)
  }

  /** The first camera with the name is found, wherever it sits. */
  lemma FindByNameAt(cams: seq<Camera>, name: Name, i: nat)
    requires i < |cams| && cams[i].name == name
    requires forall j :: 0 <= j < i ==> cams[j].name != name
    ensures FindByName(cams, name) == Some(i)
  {
  }

  /** The index of the camera with identity `id`. */
  function FindById(cams: seq<Camera>, id: nat): (r: Option<nat>)
    ensures r.Some? ==> (r.value < |cams| && cams[r.value].id == id
      && forall j :: 0 <= j < r.value ==> cams[j].id != id)
    ensures r.None? ==> forall j :: 0 <= j < |cams| ==> cams[j].id != id
  {
    FirstIndex(cams, IdOf, id)
  }

  /** `getRenderCamera(name)`: the first camera with that name, or NULL. */
  function GetRenderCamera(r: Registry, name: Name): (c: Option<Camera>)
    ensures c.Some? <==> exists j :: 0 <= j < |r.cameras| && r.cameras[j].name == name
    ensures c.Some? ==> c.value in r.cameras && c.value.name == name
  {
    match FindByName(r.cameras, name)
    case Some(i) => Some(r.cameras[i])
    case None => None
  }

  /**
    `createRenderCamera(name, renderingPath)`: the camera already named `name`
    gains a reference; otherwise a new one is registered at the end. The
    result also gives the camera's identity.
  */
  function CreateRenderCamera(r: Registry, name: Name, renderingPath: Name): (res: (Registry, nat))
  {
    match FindByName(r.cameras, name)
    case Some(i) =>
      var c := r.cameras[i];
      (r.(cameras := r.cameras[i := c.(refCount := c.refCount + 1)]), c.id)
    case None =>
      var c := Camera(r.nextId, name, renderingPath, INITIAL_REF_COUNT + 1, INITIAL_PRIORITY);
      (Registry(r.cameras + [c], r.nextId + 1), c.id)
  }

  /** Creating a camera keeps the registry valid. */
  lemma CreateKeepsValid(r: Registry, name: Name, renderingPath: Name)
    requires Valid(r)
    ensures Valid(CreateRenderCamera(r, name, renderingPath).0)
  {
  }

  /**
    With a camera of that name present, `createRenderCamera` returns it with
    one more reference and changes nothing else; otherwise it appends exactly
    one camera, carrying that name and path and one reference.
  */
  lemma CreateSpec(r: Registry, name: Name, renderingPath: Name)
    ensures var r' := CreateRenderCamera(r, name, renderingPath).0;
      var id := CreateRenderCamera(r, name, renderingPath).1;
      match FindByName(r.cameras, name)
      case Some(i) =>
        && |r'.cameras| == |r.cameras| && r'.nextId == r.nextId
        && id == r.cameras[i].id
        && r'.cameras[i] == r.cameras[i].(refCount := r.cameras[i].refCount + 1)
        && (forall j :: 0 <= j < |r.cameras| && j != i ==> r'.cameras[j] == r.cameras[j])
      case None =>
        && r'.cameras[..|r.cameras|] == r.cameras
        && |r'.cameras| == |r.cameras| + 1
        && r'.cameras[|r.cameras|] == Camera(id, name, renderingPath, 1, INITIAL_PRIORITY)
        && id == r.nextId
  {
    if FindByName(r.cameras, name).None? {
      var r' := CreateRenderCamera(r, name, renderingPath).0;
      assert r'.cameras[..|r.cameras|] == r.cameras;
    }
  }

  /** The list without the camera at `i`. */
  function RemoveAt(cams: seq<Camera>, i: nat): (r: seq<Camera>)
    requires i < |cams|
    ensures |r| == |cams| - 1
  {
    cams[..i] + cams[i + 1..]
  }

  /** Drop one reference to the camera at `i`, unregistering it when none is left. */
  function Release(r: Registry, i: nat): Registry
    requires i < |r.cameras|
  {
    var c := r.cameras[i];
    if c.refCount - 1 < 1 then r.(cameras := RemoveAt(r.cameras, i))
    else r.(cameras := r.cameras[i := c.(refCount := c.refCount - 1)])
  }

  /** `destroyRenderCamera(camera)`: the camera with that identity loses a reference; false when it is not registered. */
  function DestroyRenderCamera(r: Registry, id: nat): (res: (Registry, bool))
    ensures res.1 <==> exists j :: 0 <= j < |r.cameras| && r.cameras[j].id == id
    ensures !res.1 ==> res.0 == r
  {
    match FindById(r.cameras, id)
    case Some(i) => (Release(r, i), true)
    case None => (r, false)
  }

  /** `destroyRenderCamera(name)`: the first camera with that name loses a reference; false when there is none. */
  function DestroyRenderCameraByName(r: Registry, name: Name): (res: (Registry, bool))
    ensures res.1 <==> exists j :: 0 <= j < |r.cameras| && r.cameras[j].name == name
    ensures !res.1 ==> res.0 == r
  {
    match FindByName(r.cameras, name)
    case Some(i) => (Release(r, i), true)
    case None => (r, false)
  }

  /**
    Releasing the camera at `i` decrements its count in place while references
    remain, and otherwise removes exactly that camera; nothing else changes.
  */
  lemma ReleaseSpec(r: Registry, i: nat)
    requires i < |r.cameras|
    ensures var r' := Release(r, i);
      var c := r.cameras[i];
      && r'.nextId == r.nextId
      && (c.refCount - 1 >= 1 ==>
            r'.cameras == r.cameras[i := c.(refCount := c.refCount - 1)])
      && (c.refCount - 1 < 1 ==>
            && |r'.cameras| == |r.cameras| - 1
            && (forall j :: 0 <= j < i ==> r'.cameras[j] == r.cameras[j])
            && (forall j :: i < j < |r.cameras| ==> r'.cameras[j - 1] == r.cameras[j]))
  {
  }

  /** Releasing a camera keeps the registry valid. */
  lemma ReleaseKeepsValid(r: Registry, i: nat)
    requires Valid(r) && i < |r.cameras|
    ensures Valid(Release(r, i))
  {
    if r.cameras[i].refCount - 1 < 1 {
      RemoveKeepsValid(r, i);
    }
  }

  /** Unregistering the camera at `i` keeps the registry valid. */
  lemma RemoveKeepsValid(r: Registry, i: nat)
    requires Valid(r) && i < |r.cameras|
    ensures Valid(r.(cameras := RemoveAt(r.cameras, i)))
  {
    var cams := RemoveAt(r.cameras, i);
    forall j | 0 <= j < |cams|
      ensures cams[j] == r.cameras[if j < i then j else j + 1]
    {
      RemoveAtIndex(r.cameras, i, j);
    }
    forall j, k | 0 <= j < k < |cams|
      ensures cams[j].id != cams[k].id && cams[j].name != cams[k].name
    {
      var j0 := if j < i then j else j + 1;
      var k0 := if k < i then k else k + 1;
      assert cams[j] == r.cameras[j0] && cams[k] == r.cameras[k0];
    }
  }

  /** Where each camera of `RemoveAt(cams, i)` came from. */
  lemma RemoveAtIndex(cams: seq<Camera>, i: nat, j: nat)
    requires i < |cams| && j < |cams| - 1
    ensures RemoveAt(cams, i)[j] == cams[if j < i then j else j + 1]
  {
  }

  /** The reference count registered under `name`; 0 when no camera has it. */
  function RefCountOf(r: Registry, name: Name): int {
    match FindByName(r.cameras, name)
    case Some(i) => r.cameras[i].refCount
    case None => 0
  }

  /** Destroying a camera right after creating it by the same name restores the list. */
  lemma DestroyUndoesCreate(r: Registry, name: Name, renderingPath: Name)
    requires Valid(r)
    ensures var r' := DestroyRenderCameraByName(CreateRenderCamera(r, name, renderingPath).0, name);
      r'.1 && r'.0.cameras == r.cameras
  {
    CreateSpec(r, name, renderingPath);
    var c := CreateRenderCamera(r, name, renderingPath).0;
    match FindByName(r.cameras, name)
    case Some(i) =>
      assert FindByName(c.cameras, name) == Some(i);
      assert c.cameras[i := r.cameras[i]] == r.cameras;
    case None =>
      var n := |r.cameras|;
      assert FindByName(c.cameras, name) == Some(n) by {
        assert forall j :: 0 <= j < n ==> c.cameras[j] == r.cameras[j];
      }
      assert RemoveAt(c.cameras, n) == c.cameras[..n];
  }

  /** `k` calls of `createRenderCamera(name, renderingPath)`. */
  function Creates(r: Registry, name: Name, renderingPath: Name, k: nat): Registry
    decreases k
  {
    if k == 0 then r else Creates(CreateRenderCamera(r, name, renderingPath).0, name, renderingPath, k - 1)
  }

  /** `k` calls of `destroyRenderCamera(name)`. */
  function Destroys(r: Registry, name: Name, k: nat): Registry
    decreases k
  {
    if k == 0 then r else Destroys(DestroyRenderCameraByName(r, name).0, name, k - 1)
  }

  /** Each create adds one reference to the camera of that name, registering it first when needed. */
  lemma {:induction false} CreatesCount(r: Registry, name: Name, renderingPath: Name, k: nat)
    requires Valid(r)
    ensures Valid(Creates(r, name, renderingPath, k))
    ensures RefCountOf(Creates(r, name, renderingPath, k), name) == RefCountOf(r, name) + k
    decreases k
  {
    if k > 0 {
      var c := CreateRenderCamera(r, name, renderingPath).0;
      CreateKeepsValid(r, name, renderingPath);
      CreateOneCount(r, name, renderingPath);
      CreatesCount(c, name, renderingPath, k - 1);
    }
  }

  lemma CreateOneCount(r: Registry, name: Name, renderingPath: Name)
    requires Valid(r)
    ensures RefCountOf(CreateRenderCamera(r, name, renderingPath).0, name) == RefCountOf(r, name) + 1
  {
    CreateSpec(r, name, renderingPath);
    var c := CreateRenderCamera(r, name, renderingPath).0;
    match FindByName(r.cameras, name)
    case Some(i) =>
      assert FindByName(c.cameras, name) == Some(i);
    case None =>
      assert FindByName(c.cameras, name) == Some(|r.cameras|) by {
        assert forall j :: 0 <= j < |r.cameras| ==> c.cameras[j] == r.cameras[j];
      }
  }

  /** Each destroy drops one reference; the camera leaves the registry with its last one. */
  lemma DestroyOneCount(r: Registry, name: Name)
    requires Valid(r) && RefCountOf(r, name) >= 1
    ensures Valid(DestroyRenderCameraByName(r, name).0)
    ensures RefCountOf(DestroyRenderCameraByName(r, name).0, name) == RefCountOf(r, name) - 1
  {
    var i := FindByName(r.cameras, name).value;
    ReleaseKeepsValid(r, i);
    ReleaseSpec(r, i);
    var r' := Release(r, i);
    if r.cameras[i].refCount - 1 < 1 {
      assert FindByName(r'.cameras, name).None? by {
        forall j | 0 <= j < |r'.cameras|
          ensures r'.cameras[j].name != name
        {
          var j0 := if j < i then j else j + 1;
          assert r'.cameras[j] == r.cameras[j0];
        }
      }
    } else {
      FindByNameAt(r'.cameras, name, i);
    }
  }

  lemma {:induction false} DestroysCount(r: Registry, name: Name, k: nat)
    requires Valid(r) && RefCountOf(r, name) >= k
    ensures Valid(Destroys(r, name, k))
    ensures RefCountOf(Destroys(r, name, k), name) == RefCountOf(r, name) - k
    decreases k
  {
    if k > 0 {
      DestroyOneCount(r, name);
      DestroysCount(DestroyRenderCameraByName(r, name).0, name, k - 1);
    }
  }

  /**
    After `k` creates under one name, the camera stays registered through the
    first `k - 1` matching destroys (more when it was already referenced) and
    the `k`-th leaves the reference count where it started.
  */
  lemma CreateDestroyBalance(r: Registry, name: Name, renderingPath: Name, k: nat, j: nat)
    requires Valid(r) && j <= k
    ensures var after := Destroys(Creates(r, name, renderingPath, k), name, j);
      && RefCountOf(after, name) == RefCountOf(r, name) + k - j
      && (j < k ==> GetRenderCamera(after, name).Some?)
  {
    CreatesCount(r, name, renderingPath, k);
    var c := Creates(r, name, renderingPath, k);
    assert RefCountOf(r, name) >= 0 by {
      if FindByName(r.cameras, name).Some? {
        assert r.cameras[FindByName(r.cameras, name).value].refCount >= 1;
      }
    }
    DestroysCount(c, name, j);
  }

  // ---------------------------------------------------------------------------
  //   Priority order
  // ---------------------------------------------------------------------------

  /** `compareRenderCameraPriority(a, b)`: 1 when `a` has the higher priority, else 0 (never negative). */
  function ComparePriority(a: Camera, b: Camera): (r: int)
    ensures r == 0 || r == 1
    ensures r == 1 <==> a.priority > b.priority
  {
    if a.priority > b.priority then 1 else 0
  }

  /**
    The comparator cannot tell "less" from "equal", and it is not antisymmetric
    as a `qsort` comparator must be: for a lower-priority `a` it reports `a`
    equal to `b` while reporting `b` greater than `a`.
  */
  lemma ComparatorCannotTellLess(a: Camera, b: Camera)
    requires a.priority < b.priority
    ensures ComparePriority(a, b) == ComparePriority(a, a) == 0
    ensures ComparePriority(b, a) == 1 && ComparePriority(a, b) != -ComparePriority(b, a)
  {
  }

  /** The list with the entries at `i` and `j` exchanged. */
  function Swap(s: seq<Camera>, i: nat, j: nat): (r: seq<Camera>)
    requires i < |s| && j < |s|
    ensures |r| == |s| && multiset(r) == multiset(s)
  {
    s[i := s[j]][j := s[i]]
  }

  /**
    The effect of `dQsort` with the comparator above, as the exchanges it
    performed: a comparator that never reports "less" does not tell the sort
    how to order the list, so all that is known is that entries are exchanged.
    Pairs out of range are ignored.
  */
  function ApplySwaps(s: seq<Camera>, swaps: seq<(nat, nat)>): (r: seq<Camera>)
    ensures |r| == |s| && multiset(r) == multiset(s)
    decreases |swaps|
  {
    if swaps == [] then s
    else
      var i := swaps[0].0;
      var j := swaps[0].1;
      ApplySwaps(if i < |s| && j < |s| then Swap(s, i, j) else s, swaps[1..])
  }

  /** Exchanging entries keeps identities and names unique. */
  lemma {:induction false} ApplySwapsKeepsValid(r: Registry, swaps: seq<(nat, nat)>)
    requires Valid(r)
    ensures Valid(r.(cameras := ApplySwaps(r.cameras, swaps)))
    decreases |swaps|
  {
    if swaps != [] {
      var i := swaps[0].0;
      var j := swaps[0].1;
      if i < |r.cameras| && j < |r.cameras| {
        SwapKeepsValid(r, i, j);
        ApplySwapsKeepsValid(r.(cameras := Swap(r.cameras, i, j)), swaps[1..]);
      } else {
        ApplySwapsKeepsValid(r, swaps[1..]);
      }
    }
  }

  lemma SwapKeepsValid(r: Registry, i: nat, j: nat)
    requires Valid(r) && i < |r.cameras| && j < |r.cameras|
    ensures Valid(r.(cameras := Swap(r.cameras, i, j)))
  {
    var s := Swap(r.cameras, i, j);
    forall p, q | 0 <= p < q < |s|
      ensures s[p].id != s[q].id && s[p].name != s[q].name
    {
      var p0 := if p == i then j else if p == j then i else p;
      var q0 := if q == i then j else if q == j then i else q;
      assert s[p] == r.cameras[p0] && s[q] == r.cameras[q0];
      if p0 < q0 {
      } else {
        assert q0 < p0;
      }
    }
    forall p | 0 <= p < |s|
      ensures s[p].id < r.nextId && s[p].refCount >= 1
    {
      var p0 := if p == i then j else if p == j then i else p;
      assert s[p] == r.cameras[p0];
    }
  }

  /** The comparator never ranks an earlier camera above a later one: ascending order of priority. */
  predicate Ascending(s: seq<Camera>) {
    forall j, k :: 0 <= j < k < |s| ==> ComparePriority(s[j], s[k]) == 0
  }

  /**
    `getPriorityRenderCamera()`: NULL for an empty registry; otherwise the list
    is sorted in place and its last camera is returned.
  */
  function GetPriorityRenderCamera(r: Registry, swaps: seq<(nat, nat)>): (res: (Registry, Option<Camera>))
    ensures res.1.None? <==> r.cameras == []
    ensures res.0.nextId == r.nextId && multiset(res.0.cameras) == multiset(r.cameras)
    ensures res.1.Some? ==> res.1.value == res.0.cameras[|res.0.cameras| - 1] && res.1.value in r.cameras
    ensures res.1.None? ==> res.0 == r
  {
    if |r.cameras| < 1 then (r, None)
    else
      var sorted := ApplySwaps(r.cameras, swaps);
      assert sorted[|sorted| - 1] in multiset(r.cameras);
      (r.(cameras := sorted), Some(sorted[|sorted| - 1]))
  }

  /** When the sort does leave the list in ascending order, the camera returned has the highest priority of all. */
  lemma PriorityCameraIsHighest(r: Registry, swaps: seq<(nat, nat)>)
    requires r.cameras != [] && Ascending(ApplySwaps(r.cameras, swaps))
    ensures var c := GetPriorityRenderCamera(r, swaps).1.value;
      forall d :: d in r.cameras ==> d.priority <= c.priority
  {
    var sorted := ApplySwaps(r.cameras, swaps);
    forall d | d in r.cameras
      ensures d.priority <= sorted[|sorted| - 1].priority
    {
      assert d in multiset(sorted);
      var k :| 0 <= k < |sorted| && sorted[k] == d;
      if k < |sorted| - 1 {
        assert ComparePriority(sorted[k], sorted[|sorted| - 1]) == 0;
      }
    }
  }
}
