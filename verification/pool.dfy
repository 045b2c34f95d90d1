/**
  The render-data pool (`createRenderData` and `getRenderDataCount`,
  src/rendering/rendering.cc): a fixed array of `RenderData` records of which
  the first `count` are in use, a record being free again once its `Deleted`
  flag is set.
*/
module RenderPool {
  import opened Types

  /** `bgfx::invalidHandle`. */
  const INVALID_HANDLE: u16 := 0xFFFF

  /** The `RenderData::Deleted` flag, as the number of its bit. */
  const DELETED_BIT: nat := 0

  /** The `BGFX_STATE_*` bits of the default render state. */
  const STATE_RGB_WRITE: nat := 0x1
  const STATE_ALPHA_WRITE: nat := 0x2
  const STATE_DEPTH_WRITE: nat := 0x4
  const STATE_DEPTH_TEST_LESS: nat := 0x10
  const STATE_CULL_CW: nat := 0x10_0000_0000

  /** The state word every new record starts with: the five bits above, which are pairwise distinct, so their OR is their sum. */
  const DEFAULT_STATE: nat := STATE_RGB_WRITE + STATE_ALPHA_WRITE + STATE_DEPTH_WRITE + STATE_DEPTH_TEST_LESS + STATE_CULL_CW

  /** An object a record points at (instances, material, transform table, textures), by identity. */
  type Ref = nat

  /**
    `RenderData`, with its flags as the set of their bit numbers, its buffer
    and shader handles as their indices, and its pointers as optional
    references.
  */
  datatype RenderData = RenderData(
    flags: set<nat>,
    instances: Option<Ref>,
    dynamicIndexBuffer: u16,
    dynamicVertexBuffer: u16,
    indexBuffer: u16,
    vertexBuffer: u16,
    shader: u16,
    material: Option<Ref>,
    transformCount: nat,
    transformTable: Option<Ref>,
    textures: Option<Ref>,
    stateRGBA: u32,
    state: nat)

  predicate IsDeleted(d: RenderData) {
    DELETED_BIT in d.flags
  }

  /** The record `createRenderData` hands out: no flags, no pointers, invalid handles, the default state. */
  const FRESH: RenderData := RenderData({}, None, INVALID_HANDLE, INVALID_HANDLE, INVALID_HANDLE, INVALID_HANDLE,
    INVALID_HANDLE, None, 0, None, None, 0, DEFAULT_STATE)

  /** The pool: the records in use (`renderDataCount` of them) and the array's size (`TORQUE_MAX_RENDER_DATA`). */
  datatype Pool = Pool(slots: seq<RenderData>, capacity: nat)

  predicate Valid(p: Pool) {
    |p.slots| <= p.capacity
  }

  /** `init()`: an empty pool over an array of `capacity` records. */
  function Init(capacity: nat): (p: Pool)
    ensures Valid(p) && p.slots == []
  {
    Pool([], capacity)
  }

  /** `getRenderDataCount()`. */
  function Count(p: Pool): nat {
    |p.slots|
  }

  /** Some record in use is marked deleted. */
  predicate HasDeleted(p: Pool) {
    exists n :: 0 <= n < |p.slots| && IsDeleted(p.slots[n])
  }

  /**
    `createRenderData()`: the lowest-numbered deleted record, or else the one
    after the last in use, reset. The source does not check that the array has
    room; the precondition demands it when no record can be reused.
  */
  method CreateRenderData(p: Pool) returns (p': Pool, item: nat)
    requires Valid(p)
    requires HasDeleted(p) || |p.slots| < p.capacity
    ensures Valid(p') && p'.capacity == p.capacity
    ensures item <= |p.slots| && item < |p'.slots| && p'.slots[item] == FRESH
    ensures forall n :: 0 <= n < item ==> !IsDeleted(p.slots[n])
    ensures item < |p.slots| ==> IsDeleted(p.slots[item]) && |p'.slots| == |p.slots|
    ensures item == |p.slots| ==> !HasDeleted(p) && |p'.slots| == |p.slots| + 1
    ensures forall n :: 0 <= n < |p.slots| && n != item ==> p'.slots[n] == p.slots[n]
  {
    var found := false;
    item := 0;
    var n := 0;
    while n < |p.slots|
      invariant 0 <= n <= |p.slots|
      invariant forall k :: 0 <= k < n ==> !IsDeleted(p.slots[k])
    {
      if IsDeleted(p.slots[n]) {
        found := true;
        item := n;
        break;
      }
      n := n + 1;
    }
    if !found {
      item := |p.slots|;
      p' := p.(slots := p.slots + [FRESH]);
    } else {
      p' := p.(slots := p.slots[item := FRESH]);
    }
  }
}
