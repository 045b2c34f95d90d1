/**
  The render-hook list (src/rendering/rendering.cc): hooks told about the
  beginning and end of every frame, in the order they were added.
*/
module RenderHooks {
  import opened Types

  /** A `RenderHook*`, by identity. */
  type Hook = nat

  /** `addRenderHook(hook)`: appended, even when already present. */
  function AddRenderHook(hooks: seq<Hook>, hook: Hook): (r: seq<Hook>)
    ensures |r| == |hooks| + 1 && r[|hooks|] == hook && r[..|hooks|] == hooks
  {
    hooks + [hook]
  }

  function Self(h: Hook): Hook {
    h
  }

  /** The index of the first occurrence of `hook`. */
  function IndexOf(hooks: seq<Hook>, hook: Hook): (r: Option<nat>)
    ensures r.Some? ==> (r.value < |hooks| && hooks[r.value] == hook
      && forall j :: 0 <= j < r.value ==> hooks[j] != hook)
    ensures r.None? ==> hook !in hooks
  {
    FirstIndex(hooks, Self, hook)
  }

  /** `removeRenderHook(hook)`: its first occurrence leaves the list; false when it is not there. */
  function RemoveRenderHook(hooks: seq<Hook>, hook: Hook): (res: (seq<Hook>, bool))
    ensures res.1 <==> hook in hooks
    ensures !res.1 ==> res.0 == hooks
    ensures res.1 ==> multiset(res.0) == multiset(hooks) - multiset{hook}
    ensures res.1 ==> exists i ::
      0 <= i < |hooks| && hooks[i] == hook && hook !in hooks[..i] && res.0 == hooks[..i] + hooks[i + 1..]
  {
    match IndexOf(hooks, hook)
    case Some(i) =>
      assert hooks == hooks[..i] + [hooks[i]] + hooks[i + 1..];
      assert hook !in hooks[..i] by {
        forall j | 0 <= j < i ensures hooks[..i][j] != hook { }
      }
      (hooks[..i] + hooks[i + 1..], true)
    case None => (hooks, false)
  }

  /** Removing a hook just added, when it was not there before, restores the list. */
  lemma RemoveUndoesAdd(hooks: seq<Hook>, hook: Hook)
    requires hook !in hooks
    ensures RemoveRenderHook(AddRenderHook(hooks, hook), hook) == (hooks, true)
  {
    var a := AddRenderHook(hooks, hook);
    IndexOfAt(a, hook, |hooks|);
    assert a[..|hooks|] == hooks && a[|hooks| + 1..] == [];
    assert RemoveRenderHook(a, hook).0 == a[..|hooks|] + a[|hooks| + 1..];
    assert RemoveRenderHook(a, hook).0 == hooks;
    assert RemoveRenderHook(a, hook).1;
  }

  lemma IndexOfAt(hooks: seq<Hook>, hook: Hook, i: nat)
    requires i < |hooks| && hooks[i] == hook
    requires forall j :: 0 <= j < i ==> hooks[j] != hook
    ensures IndexOf(hooks, hook) == Some(i)
  {
  }
}
