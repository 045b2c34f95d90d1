/**
  The render-texture registry (src/rendering/rendering.cc): render targets
  looked up by name, created at most once per name.
*/
module RenderTextures {
  import opened Types

  /** A `StringTableEntry`, compared by identity. */
  type Name = nat

  /** `bgfx::invalidHandle`. */
  const INVALID_HANDLE: u16 := 0xFFFF

  /** A `RenderTexture`: its name, the bgfx texture handle's index and its size. */
  datatype RenderTexture = RenderTexture(name: Name, handle: u16, width: u32, height: u32)

  /** No two textures share a name. */
  predicate UniqueNames(ts: seq<RenderTexture>) {
    forall j, k :: 0 <= j < k < |ts| ==> ts[j].name != ts[k].name
  }

  function NameOf(t: RenderTexture): Name {
    t.name
  }

  /** `getRenderTexture(name)`: the first texture with that name, or NULL. */
  function GetRenderTexture(ts: seq<RenderTexture>, name: Name): (r: Option<RenderTexture>)
    ensures r.Some? <==> exists j :: 0 <= j < |ts| && ts[j].name == name
    ensures r.Some? ==> r.value in ts && r.value.name == name
  {
    match FirstIndex(ts, NameOf, name)
    case Some(i) => Some(ts[i])
    case None => None
  }

  /**
    The part both `createRenderTexture` overloads share: an existing texture of
    that name is returned as it is; otherwise a texture with the new handle
    and the given size is appended. `handle` is what `bgfx::createTexture2D`
    returns, which this model takes as given.
  */
  function Create(ts: seq<RenderTexture>, name: Name, handle: u16, width: u32, height: u32): (res: (seq<RenderTexture>, RenderTexture))
  {
    match FirstIndex(ts, NameOf, name)
    case Some(i) => (ts, ts[i])
    case None =>
      var t := RenderTexture(name, handle, width, height);
      (ts + [t], t)
  }

  /**
    `createRenderTexture(name, ratio)`: a new texture follows the back buffer,
    so it records the current window size.
  */
  function CreateRenderTextureRatio(ts: seq<RenderTexture>, name: Name, handle: u16, windowWidth: u32, windowHeight: u32): (res: (seq<RenderTexture>, RenderTexture))
    ensures GetRenderTexture(ts, name).None? ==> res.1.width == windowWidth && res.1.height == windowHeight
  {
    Create(ts, name, handle, windowWidth, windowHeight)
  }

  /** `createRenderTexture(name, width, height)`: a new texture records the size asked for. */
  function CreateRenderTextureSized(ts: seq<RenderTexture>, name: Name, handle: u16, width: u32, height: u32): (res: (seq<RenderTexture>, RenderTexture))
    ensures GetRenderTexture(ts, name).None? ==> res.1.width == width && res.1.height == height
  {
    Create(ts, name, handle, width, height)
  }

  /**
    Creating returns the texture now registered under the name, and the list
    changes only by a new texture at the end when there was none.
  */
  lemma CreateSpec(ts: seq<RenderTexture>, name: Name, handle: u16, width: u32, height: u32)
    ensures var res := Create(ts, name, handle, width, height);
      && GetRenderTexture(res.0, name) == Some(res.1)
      && (GetRenderTexture(ts, name).Some? ==> res.0 == ts && res.1 == GetRenderTexture(ts, name).value)
      && (GetRenderTexture(ts, name).None? ==>
            res.0 == ts + [RenderTexture(name, handle, width, height)] && res.1.handle == handle)
  {
    var res := Create(ts, name, handle, width, height);
    if FirstIndex(ts, NameOf, name).None? {
      FindAt(res.0, name, |ts|);
    }
  }

  lemma FindAt(ts: seq<RenderTexture>, name: Name, i: nat)
    requires i < |ts| && ts[i].name == name
    requires forall j :: 0 <= j < i ==> ts[j].name != name
    ensures FirstIndex(ts, NameOf, name) == Some(i)
  {
  }

  /** A second create under the same name changes nothing and returns the first one's texture, whatever its handle or size. */
  lemma CreateIdempotent(ts: seq<RenderTexture>, name: Name, h1: u16, w1: u32, e1: u32, h2: u16, w2: u32, e2: u32)
    ensures var first := Create(ts, name, h1, w1, e1);
      Create(first.0, name, h2, w2, e2) == first
  {
    CreateSpec(ts, name, h1, w1, e1);
  }

  /** Creating keeps names unique. */
  lemma CreateKeepsUnique(ts: seq<RenderTexture>, name: Name, handle: u16, width: u32, height: u32)
    requires UniqueNames(ts)
    ensures UniqueNames(Create(ts, name, handle, width, height).0)
  {
  }

  /** `destroyRenderTexture(name)`: the first texture with that name leaves the list; false when there is none. */
  function DestroyRenderTexture(ts: seq<RenderTexture>, name: Name): (res: (seq<RenderTexture>, bool))
    ensures res.1 <==> exists j :: 0 <= j < |ts| && ts[j].name == name
    ensures !res.1 ==> res.0 == ts
    ensures res.1 ==> exists i ::
      && 0 <= i < |ts| && ts[i].name == name
      && (forall j :: 0 <= j < i ==> ts[j].name != name)
      && res.0 == ts[..i] + ts[i + 1..]
  {
    match FirstIndex(ts, NameOf, name)
    case Some(i) => (ts[..i] + ts[i + 1..], true)
    case None => (ts, false)
  }

  /** With unique names, destroying leaves no texture of that name and every other texture in place. */
  lemma DestroyRemovesName(ts: seq<RenderTexture>, name: Name)
    requires UniqueNames(ts)
    ensures var r := DestroyRenderTexture(ts, name).0;
      && UniqueNames(r)
      && GetRenderTexture(r, name).None?
      && (forall t :: t in ts && t.name != name ==> t in r)
  {
    var r := DestroyRenderTexture(ts, name).0;
    if FirstIndex(ts, NameOf, name).Some? {
      var i := FirstIndex(ts, NameOf, name).value;
      forall j, k | 0 <= j < k < |r|
        ensures r[j].name != r[k].name
      {
        var j0 := if j < i then j else j + 1;
        var k0 := if k < i then k else k + 1;
        assert r[j] == ts[j0] && r[k] == ts[k0];
      }
      forall j | 0 <= j < |r|
        ensures r[j].name != name
      {
        var j0 := if j < i then j else j + 1;
        assert r[j] == ts[j0];
      }
      forall t | t in ts && t.name != name
        ensures t in r
      {
        var k :| 0 <= k < |ts| && ts[k] == t;
        assert k != i;
        if k < i {
          assert r[k] == t;
        } else {
          assert r[k - 1] == t;
        }
      }
    }
  }

  /** Destroying a texture just created under a new name restores the list. */
  lemma DestroyUndoesCreate(ts: seq<RenderTexture>, name: Name, handle: u16, width: u32, height: u32)
    requires GetRenderTexture(ts, name).None?
    ensures DestroyRenderTexture(Create(ts, name, handle, width, height).0, name) == (ts, true)
  {
    CreateSpec(ts, name, handle, width, height);
    var c := Create(ts, name, handle, width, height).0;
    FindAt(c, name, |ts|);
    assert c[..|ts|] == ts && c[|ts| + 1..] == [];
    assert DestroyRenderTexture(c, name).0 == c[..|ts|] + c[|ts| + 1..];
    assert DestroyRenderTexture(c, name).0 == ts;
    assert DestroyRenderTexture(c, name).1;
  }
}
