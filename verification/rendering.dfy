/**
  The `Rendering` namespace's state and its frame-level operations
  (src/rendering/rendering.cc): `render`, `updateWindow` and `destroy`, with
  the calls they make into the graphics layer, the scene, hooks and cameras
  recorded as events of a trace.
*/
module Rendering {
  import opened Types
  import RenderPool
  import RenderCameras
  import RenderTextures
  import RenderHooks

  /** The namespace's globals. */
  datatype Context = Context(
    windowSizeChanged: bool,
    windowWidth: u32,
    windowHeight: u32,
    pool: RenderPool.Pool,
    cameras: RenderCameras.Registry,
    textures: seq<RenderTextures.RenderTexture>,
    hooks: seq<RenderHooks.Hook>)

  /** The calls the frame-level operations make, in the order made. */
  datatype Event =
    | ResetViews                  // Graphics::resetViews()
    | BeginFrame(hook: RenderHooks.Hook)
    | CameraRender(camera: nat)   // RenderCamera::render(), by the camera's identity
    | EndFrame(hook: RenderHooks.Hook)
    | GraphicsReset               // Graphics::reset()
    | SceneRefresh                // Scene::refresh()
    | TextureDestroyed(handle: u16)

  /** The globals before anything runs, `init()` having allocated a pool of `capacity` records. */
  function Init(capacity: nat): (c: Context)
    ensures RenderPool.Valid(c.pool) && RenderCameras.Valid(c.cameras)
    ensures c.textures == [] && c.hooks == [] && !c.windowSizeChanged
    ensures c.pool.slots == [] && c.pool.capacity == capacity && c.cameras.cameras == []
    ensures c.windowWidth == 0 && c.windowHeight == 0
  {
    Context(false, 0, 0, RenderPool.Init(capacity), RenderCameras.EMPTY, [], [])
  }

  function BeginEvents(hooks: seq<RenderHooks.Hook>): (r: seq<Event>)
    ensures |r| == |hooks| && forall n :: 0 <= n < |hooks| ==> r[n] == BeginFrame(hooks[n])
  {
    if hooks == [] then [] else [BeginFrame(hooks[0])] + BeginEvents(hooks[1..])
  }

  function EndEvents(hooks: seq<RenderHooks.Hook>): (r: seq<Event>)
    ensures |r| == |hooks| && forall n :: 0 <= n < |hooks| ==> r[n] == EndFrame(hooks[n])
  {
    if hooks == [] then [] else [EndFrame(hooks[0])] + EndEvents(hooks[1..])
  }

  function RenderEvents(cams: seq<RenderCameras.Camera>): (r: seq<Event>)
    ensures |r| == |cams| && forall i :: 0 <= i < |cams| ==> r[i] == CameraRender(cams[i].id)
  {
    if cams == [] then [] else [CameraRender(cams[0].id)] + RenderEvents(cams[1..])
  }

  /**
    `render()`: reset the views; stop there while the scene is preprocessing;
    otherwise tell every hook the frame begins, sort the cameras by priority
    (the exchanges `dQsort` makes are `swaps`), render each camera once in the
    sorted order, and tell every hook the frame ends.
  */
  function Render(c: Context, preprocessing: bool, swaps: seq<(nat, nat)>): (res: (Context, seq<Event>))
  {
    if preprocessing then (c, [ResetViews])
    else
      var sorted := RenderCameras.ApplySwaps(c.cameras.cameras, swaps);
      (c.(cameras := c.cameras.(cameras := sorted)),
       [ResetViews] + BeginEvents(c.hooks) + RenderEvents(sorted) + EndEvents(c.hooks))
  }

  /** Whether the event is a hook or camera callback. */
  predicate IsCallback(e: Event) {
    e.BeginFrame? || e.CameraRender? || e.EndFrame?
  }

  /** While preprocessing, a frame only resets the views: no callback runs and nothing changes. */
  lemma RenderWhilePreprocessing(c: Context, swaps: seq<(nat, nat)>)
    ensures var res := Render(c, true, swaps);
      res.0 == c && res.1 == [ResetViews]
      && forall e :: e in res.1 ==> !IsCallback(e)
  {
  }

  /**
    The shape of a full frame: the views are reset first; then every hook's
    begin in list order; then one render per camera in the order the sort
    left them, the cameras being the same ones as before; then every hook's
    end in list order. Only the camera list's order changes.
  */
  lemma RenderFrame(c: Context, swaps: seq<(nat, nat)>)
    ensures var res := Render(c, false, swaps);
      var h := |c.hooks|;
      var cams := res.0.cameras.cameras;
      && res.0 == c.(cameras := c.cameras.(cameras := cams))
      && multiset(cams) == multiset(c.cameras.cameras)
      && |res.1| == 1 + 2 * h + |cams|
      && res.1[0] == ResetViews
      && (forall n :: 0 <= n < h ==> res.1[1 + n] == BeginFrame(c.hooks[n]))
      && (forall i :: 0 <= i < |cams| ==> res.1[1 + h + i] == CameraRender(cams[i].id))
      && (forall n :: 0 <= n < h ==> res.1[1 + h + |cams| + n] == EndFrame(c.hooks[n]))
  {
    var res := Render(c, false, swaps);
    var cams := res.0.cameras.cameras;
    TraceAt(ResetViews, BeginEvents(c.hooks), RenderEvents(cams), EndEvents(c.hooks));
  }

  /** Where each part of a frame's trace sits in it. */
  lemma TraceAt(first: Event, b: seq<Event>, r: seq<Event>, e: seq<Event>)
    ensures var q := [first] + b + r + e;
      && |q| == 1 + |b| + |r| + |e| && q[0] == first
      && (forall n :: 0 <= n < |b| ==> q[1 + n] == b[n])
      && (forall i :: 0 <= i < |r| ==> q[1 + |b| + i] == r[i])
      && (forall n :: 0 <= n < |e| ==> q[1 + |b| + |r| + n] == e[n])
  {
  }

  /** The identities of the cameras, in order. */
  function Ids(cams: seq<RenderCameras.Camera>): (r: seq<nat>)
    ensures |r| == |cams| && forall i :: 0 <= i < |cams| ==> r[i] == cams[i].id
  {
    if cams == [] then [] else [cams[0].id] + Ids(cams[1..])
  }

  /** The cameras a trace renders, in order. */
  function Rendered(events: seq<Event>): (r: seq<nat>)
    ensures |r| <= |events|
  {
    if events == [] then []
    else (if events[0].CameraRender? then [events[0].camera] else []) + Rendered(events[1..])
  }

  lemma {:induction false} RenderedConcat(a: seq<Event>, b: seq<Event>)
    ensures Rendered(a + b) == Rendered(a) + Rendered(b)
    decreases |a|
  {
    if a != [] {
      assert (a + b)[1..] == a[1..] + b;
      RenderedConcat(a[1..], b);
    } else {
      assert a + b == b;
    }
  }

  lemma {:induction false} RenderedOfHooks(hooks: seq<RenderHooks.Hook>)
    ensures Rendered(BeginEvents(hooks)) == [] && Rendered(EndEvents(hooks)) == []
    decreases |hooks|
  {
    if hooks != [] {
      assert BeginEvents(hooks)[1..] == BeginEvents(hooks[1..]);
      assert EndEvents(hooks)[1..] == EndEvents(hooks[1..]);
      RenderedOfHooks(hooks[1..]);
    }
  }

  lemma {:induction false} RenderedOfCameras(cams: seq<RenderCameras.Camera>)
    ensures Rendered(RenderEvents(cams)) == Ids(cams)
    decreases |cams|
  {
    if cams != [] {
      assert RenderEvents(cams)[1..] == RenderEvents(cams[1..]);
      RenderedOfCameras(cams[1..]);
    }
  }

  /**
    Every registered camera is rendered exactly as many times as it is
    registered, and the last one rendered is the one
    `getPriorityRenderCamera` returns after the same sort.
  */
  lemma RenderEachCameraOnce(c: Context, swaps: seq<(nat, nat)>)
    ensures var trace := Render(c, false, swaps).1;
      && multiset(Rendered(trace)) == multiset(Ids(c.cameras.cameras))
      && (c.cameras.cameras != [] ==>
            Rendered(trace)[|Rendered(trace)| - 1]
              == RenderCameras.GetPriorityRenderCamera(c.cameras, swaps).1.value.id)
  {
    RenderedTrace(c, swaps);
    IdsPermutation(c.cameras.cameras, swaps);
  }

  /** A frame renders the sorted cameras, in order, and nothing else. */
  lemma RenderedTrace(c: Context, swaps: seq<(nat, nat)>)
    ensures Rendered(Render(c, false, swaps).1) == Ids(RenderCameras.ApplySwaps(c.cameras.cameras, swaps))
  {
    var sorted := RenderCameras.ApplySwaps(c.cameras.cameras, swaps);
    var trace := Render(c, false, swaps).1;
    assert trace == [ResetViews] + BeginEvents(c.hooks) + RenderEvents(sorted) + EndEvents(c.hooks);
    RenderedConcat([ResetViews] + BeginEvents(c.hooks) + RenderEvents(sorted), EndEvents(c.hooks));
    RenderedConcat([ResetViews] + BeginEvents(c.hooks), RenderEvents(sorted));
    RenderedConcat([ResetViews], BeginEvents(c.hooks));
    RenderedOfHooks(c.hooks);
    RenderedOfCameras(sorted);
    assert Rendered([ResetViews]) == [];
  }

  /** Exchanging cameras exchanges their identities. */
  lemma {:induction false} IdsPermutation(cams: seq<RenderCameras.Camera>, swaps: seq<(nat, nat)>)
    ensures multiset(Ids(RenderCameras.ApplySwaps(cams, swaps))) == multiset(Ids(cams))
    decreases |swaps|
  {
    if swaps != [] {
      var i := swaps[0].0;
      var j := swaps[0].1;
      if i < |cams| && j < |cams| {
        var s := RenderCameras.Swap(cams, i, j);
        IdsSwap(cams, i, j);
        IdsPermutation(s, swaps[1..]);
      } else {
        IdsPermutation(cams, swaps[1..]);
      }
    }
  }

  lemma IdsSwap(cams: seq<RenderCameras.Camera>, i: nat, j: nat)
    requires i < |cams| && j < |cams|
    ensures multiset(Ids(RenderCameras.Swap(cams, i, j))) == multiset(Ids(cams))
  {
    var a := Ids(cams);
    var first := cams[i := cams[j]];
    IdsUpdate(cams, i, cams[j]);
    IdsUpdate(first, j, cams[i]);
    assert Ids(RenderCameras.Swap(cams, i, j)) == a[i := a[j]][j := a[i]];
    SwapMultiset(a, i, j);
  }

  lemma IdsUpdate(cams: seq<RenderCameras.Camera>, i: nat, x: RenderCameras.Camera)
    requires i < |cams|
    ensures Ids(cams[i := x]) == Ids(cams)[i := x.id]
  {
    var b := Ids(cams[i := x]);
    var c := Ids(cams)[i := x.id];
    forall k | 0 <= k < |b|
      ensures b[k] == c[k]
    {
      if k != i {
        assert cams[i := x][k] == cams[k];
      }
    }
  }

  lemma SwapMultiset(a: seq<nat>, i: nat, j: nat)
    requires i < |a| && j < |a|
    ensures multiset(a[i := a[j]][j := a[i]]) == multiset(a)
  {
  }

  /**
    `updateWindow(width, height)`: record the new size and whether it differs
    from the old one; on a change reset the graphics layer and refresh the
    scene (`resize()` does nothing).
  */
  function UpdateWindow(c: Context, width: u32, height: u32): (res: (Context, seq<Event>))
  {
    var changed := c.windowWidth != width || c.windowHeight != height;
    (c.(windowSizeChanged := changed, windowWidth := width, windowHeight := height),
     if changed then [GraphicsReset, SceneRefresh] else [])
  }

  /**
    The window size is recorded, nothing but the window fields changes, and
    the graphics layer is reset exactly when the size changed.
  */
  lemma UpdateWindowSpec(c: Context, width: u32, height: u32)
    ensures var res := UpdateWindow(c, width, height);
      && res.0.windowWidth == width && res.0.windowHeight == height
      && res.0.(windowSizeChanged := c.windowSizeChanged, windowWidth := c.windowWidth, windowHeight := c.windowHeight) == c
      && (res.0.windowSizeChanged <==> (width, height) != (c.windowWidth, c.windowHeight))
      && (GraphicsReset in res.1 <==> res.0.windowSizeChanged)
  {
  }

  /**
    `createRenderTexture(name, ratio)` on the globals: a texture that follows
    the back buffer records the window size `updateWindow` last stored, and
    nothing but the texture list changes.
  */
  function CreateRenderTexture(c: Context, name: RenderTextures.Name, handle: u16): (res: (Context, RenderTextures.RenderTexture))
    ensures res.0 == c.(textures := res.0.textures)
    ensures var existing := RenderTextures.GetRenderTexture(c.textures, name);
      existing.Some? ==> res.0 == c && res.1 == existing.value
    ensures RenderTextures.GetRenderTexture(c.textures, name).None? ==>
      && res.0.textures == c.textures + [res.1]
      && res.1 == RenderTextures.RenderTexture(name, handle, c.windowWidth, c.windowHeight)
  {
    RenderTextures.CreateSpec(c.textures, name, handle, c.windowWidth, c.windowHeight);
    var r := RenderTextures.CreateRenderTextureRatio(c.textures, name, handle, c.windowWidth, c.windowHeight);
    (c.(textures := r.0), r.1)
  }

  /** A texture created after the window is resized has the new size, and it is registered under its name. */
  lemma CreateAfterResizeFollowsWindow(c: Context, width: u32, height: u32, name: RenderTextures.Name, handle: u16)
    requires RenderTextures.GetRenderTexture(c.textures, name).None?
    ensures var res := CreateRenderTexture(UpdateWindow(c, width, height).0, name, handle);
      && res.1.width == width && res.1.height == height
      && RenderTextures.GetRenderTexture(res.0.textures, name) == Some(res.1)
  {
    var resized := UpdateWindow(c, width, height).0;
    RenderTextures.CreateSpec(resized.textures, name, handle, width, height);
  }

  /** A second update to the same size reports no change and resets nothing. */
  lemma UpdateWindowIdempotent(c: Context, width: u32, height: u32)
    ensures var once := UpdateWindow(c, width, height).0;
      var twice := UpdateWindow(once, width, height);
      && twice.1 == []
      && !twice.0.windowSizeChanged
      && twice.0 == once.(windowSizeChanged := false)
  {
  }

  /** The handle the texture holds is a real one (`bgfx::isValid`). */
  predicate IsValidHandle(h: u16) {
    h != RenderTextures.INVALID_HANDLE
  }

  function DestroyEvents(ts: seq<RenderTextures.RenderTexture>): (r: seq<Event>)
    ensures |r| <= |ts|
  {
    if ts == [] then []
    else (if IsValidHandle(ts[0].handle) then [TextureDestroyed(ts[0].handle)] else []) + DestroyEvents(ts[1..])
  }

  /**
    The indices of the render textures holding a valid handle, in increasing
    order: the textures `destroy()` releases, and the order it releases them in.
  */
  function ValidIndices(ts: seq<RenderTextures.RenderTexture>): (r: seq<nat>)
    ensures forall n :: 0 <= n < |r| ==> r[n] < |ts| && IsValidHandle(ts[r[n]].handle)
    ensures forall n, m :: 0 <= n < m < |r| ==> r[n] < r[m]
    ensures forall k :: 0 <= k < |ts| && IsValidHandle(ts[k].handle) ==> k in r
  {
    if ts == [] then []
    else
      var last := |ts| - 1;
      var p := ValidIndices(ts[..last]);
      assert forall k :: 0 <= k < last ==> ts[..last][k] == ts[k];
      if IsValidHandle(ts[last].handle) then p + [last] else p
  }

  /** `destroy()`: release the graphics texture of every render texture holding a valid handle, in list order. */
  function Destroy(c: Context): (events: seq<Event>)
    ensures forall e :: e in events ==> e.TextureDestroyed? && IsValidHandle(e.handle)
    ensures forall t :: t in c.textures && IsValidHandle(t.handle) ==> TextureDestroyed(t.handle) in events
    ensures var idx := ValidIndices(c.textures);
      && |events| == |idx|
      && forall n :: 0 <= n < |events| ==> events[n] == TextureDestroyed(c.textures[idx[n]].handle)
  {
    DestroyEventsSpec(c.textures);
    DestroyEventsInOrder(c.textures);
    DestroyEvents(c.textures)
  }

  lemma {:induction false} DestroyEventsAppend(a: seq<RenderTextures.RenderTexture>, b: seq<RenderTextures.RenderTexture>)
    ensures DestroyEvents(a + b) == DestroyEvents(a) + DestroyEvents(b)
    decreases |a|
  {
    if a != [] {
      assert (a + b)[1..] == a[1..] + b;
      DestroyEventsAppend(a[1..], b);
    } else {
      assert a + b == b;
    }
  }

  /** The events `destroy()` records are the releases of the textures `ValidIndices` names, one for one and in that order. */
  lemma {:induction false} DestroyEventsInOrder(ts: seq<RenderTextures.RenderTexture>)
    ensures var idx := ValidIndices(ts);
      && |DestroyEvents(ts)| == |idx|
      && forall n :: 0 <= n < |idx| ==> DestroyEvents(ts)[n] == TextureDestroyed(ts[idx[n]].handle)
    decreases |ts|
  {
    if ts != [] {
      var last := |ts| - 1;
      assert ts == ts[..last] + [ts[last]];
      DestroyEventsAppend(ts[..last], [ts[last]]);
      DestroyEventsInOrder(ts[..last]);
      assert DestroyEvents([ts[last]]) == if IsValidHandle(ts[last].handle) then [TextureDestroyed(ts[last].handle)] else [];
    }
  }

  lemma {:induction false} DestroyEventsSpec(ts: seq<RenderTextures.RenderTexture>)
    ensures forall e :: e in DestroyEvents(ts) ==> e.TextureDestroyed? && IsValidHandle(e.handle)
    ensures forall t :: t in ts && IsValidHandle(t.handle) ==> TextureDestroyed(t.handle) in DestroyEvents(ts)
    ensures forall e :: e in DestroyEvents(ts) ==> exists t :: t in ts && e == TextureDestroyed(t.handle)
    decreases |ts|
  {
    if ts != [] {
      DestroyEventsSpec(ts[1..]);
      forall t | t in ts && IsValidHandle(t.handle)
        ensures TextureDestroyed(t.handle) in DestroyEvents(ts)
      {
        if t != ts[0] {
          assert t in ts[1..];
        }
      }
      forall e | e in DestroyEvents(ts)
        ensures exists t :: t in ts && e == TextureDestroyed(t.handle)
      {
        if e !in DestroyEvents(ts[1..]) {
          assert e == TextureDestroyed(ts[0].handle);
        } else {
          var t :| t in ts[1..] && e == TextureDestroyed(t.handle);
          assert t in ts;
        }
      }
    }
  }

  /** Every event `destroy()` records releases the handle of some render texture. */
  lemma DestroyReleasesOnlyTextures(c: Context)
    ensures forall e :: e in Destroy(c) ==> exists t :: t in c.textures && e == TextureDestroyed(t.handle)
  {
    DestroyEventsSpec(c.textures);
  }
}
