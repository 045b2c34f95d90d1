/**
  Shader uniform values and the sets that gather them (`Rendering::UniformData`
  and `Rendering::UniformSet`, src/rendering/rendering.cc).
*/
module Uniforms {
  import opened Types

  /** `bgfx::invalidHandle`: the index of a handle that names nothing. */
  const INVALID_HANDLE: u16 := 0xFFFF

  /** Four floats, `Point4F`. */
  type Vec4 = v: seq<F32> | |v| == 4 witness [F32_ZERO, F32_ZERO, F32_ZERO, F32_ZERO]

  /** Sixteen floats, a 4x4 matrix. */
  type Mat16 = m: seq<F32> | |m| == 16 witness ZERO_MAT

  /** Which storage `_dataPtr` points at: none, the vector, or the matrix. */
  datatype DataPtr = NoData | VecData | MatData

  /**
    `UniformData`: the uniform's handle index, its array count, the vector and
    matrix storage, and the storage last written.
  */
  datatype UniformData = UniformData(uniform: u16, count: u32, vecValues: Vec4, matValues: Mat16, dataPtr: DataPtr)

  const ZERO_VEC: Vec4 := [F32_ZERO, F32_ZERO, F32_ZERO, F32_ZERO]
  const ZERO_MAT: seq<F32> := [
    F32_ZERO, F32_ZERO, F32_ZERO, F32_ZERO, F32_ZERO, F32_ZERO, F32_ZERO, F32_ZERO,
    F32_ZERO, F32_ZERO, F32_ZERO, F32_ZERO, F32_ZERO, F32_ZERO, F32_ZERO, F32_ZERO]

  /** `UniformData()`: an invalid handle, count 0, no data. */
  function DefaultUniform(): UniformData {
    UniformData(INVALID_HANDLE, 0, ZERO_VEC, ZERO_MAT, NoData)
  }

  /** `UniformData(uniform, count)`. */
  function NewUniform(uniform: u16, count: u32): UniformData {
    UniformData(uniform, count, ZERO_VEC, ZERO_MAT, NoData)
  }

  /** The floats `_dataPtr` points at: what the uniform hands to the graphics backend. */
  function Data(u: UniformData): seq<F32> {
    match u.dataPtr
    case NoData => []
    case VecData => u.vecValues
    case MatData => u.matValues
  }

  /** The handle and count are what makes a uniform; `setValue` never touches them. */
  predicate SameUniform(a: UniformData, b: UniformData) {
    a.uniform == b.uniform && a.count == b.count
  }

  /** `setValue(F32)`: the value padded with zeros to a vector. */
  function SetFloat(u: UniformData, x: F32): (r: UniformData)
    ensures SameUniform(r, u) && r.matValues == u.matValues
    ensures Data(r) == [x, F32_ZERO, F32_ZERO, F32_ZERO]
  {
    u.(vecValues := [x, F32_ZERO, F32_ZERO, F32_ZERO], dataPtr := VecData)
  }

  /** `setValue(Point2F)`. */
  function SetPoint2(u: UniformData, x: F32, y: F32): (r: UniformData)
    ensures SameUniform(r, u) && r.matValues == u.matValues
    ensures Data(r) == [x, y, F32_ZERO, F32_ZERO]
  {
    u.(vecValues := [x, y, F32_ZERO, F32_ZERO], dataPtr := VecData)
  }

  /** `setValue(Point3F)`. */
  function SetPoint3(u: UniformData, x: F32, y: F32, z: F32): (r: UniformData)
    ensures SameUniform(r, u) && r.matValues == u.matValues
    ensures Data(r) == [x, y, z, F32_ZERO]
  {
    u.(vecValues := [x, y, z, F32_ZERO], dataPtr := VecData)
  }

  /** `setValue(Point4F)`. */
  function SetPoint4(u: UniformData, v: Vec4): (r: UniformData)
    ensures SameUniform(r, u) && r.matValues == u.matValues
    ensures Data(r) == v
  {
    u.(vecValues := v, dataPtr := VecData)
  }

  /** `setValue(F32*)`: sixteen floats copied into the matrix. */
  function SetMatrix(u: UniformData, m: Mat16): (r: UniformData)
    ensures SameUniform(r, u) && r.vecValues == u.vecValues
    ensures Data(r) == m
  {
    u.(matValues := m, dataPtr := MatData)
  }

  // ---------------------------------------------------------------------------
  //   UniformSet
  // ---------------------------------------------------------------------------

  /** `UniformSet`: a possibly missing list of uniforms, and whether the set made that list itself. */
  datatype UniformSet = UniformSet(uniforms: Option<seq<UniformData>>, selfMade: bool)

  /** `UniformSet()`: no list, not self-made. */
  const EMPTY_SET: UniformSet := UniformSet(None, false)

  /** `create()`: a fresh empty list that the set owns. */
  function Create(s: UniformSet): (r: UniformSet)
    ensures r.uniforms == Some([]) && r.selfMade
  {
    UniformSet(Some([]), true)
  }

  /** The entries of the set; a missing list has none. */
  function Entries(s: UniformSet): seq<UniformData> {
    if s.uniforms.Some? then s.uniforms.value else []
  }

  /** `clear()`: empties the list, if there is one. */
  function Clear(s: UniformSet): (r: UniformSet)
    ensures Entries(r) == [] && r.selfMade == s.selfMade
    ensures r.uniforms.Some? <==> s.uniforms.Some?
  {
    if s.uniforms.None? then s else s.(uniforms := Some([]))
  }

  /** `isEmpty()`. */
  function IsEmpty(s: UniformSet): (r: bool)
    ensures r <==> Entries(s) == []
  {
    if s.uniforms.None? then true else |s.uniforms.value| < 1
  }

  /** `addUniform()`: a default uniform appended (after creating the list if needed); the result is its index. */
  function AddDefaultUniform(s: UniformSet): (r: (UniformSet, nat))
    ensures Entries(r.0) == Entries(s) + [DefaultUniform()]
    ensures r.1 == |Entries(s)| && r.1 < |Entries(r.0)|
    ensures s.uniforms.Some? ==> r.0.selfMade == s.selfMade
    ensures s.uniforms.None? ==> r.0.selfMade
  {
    var t := if s.uniforms.None? then Create(s) else s;
    (t.(uniforms := Some(t.uniforms.value + [DefaultUniform()])), |t.uniforms.value|)
  }

  /** The index of the first entry with handle index `h` at or after `i`, if any. */
  function FindFrom(list: seq<UniformData>, h: u16, i: nat): (r: Option<nat>)
    requires i <= |list|
    ensures r.Some? ==> (i <= r.value < |list| && list[r.value].uniform == h
      && forall j :: i <= j < r.value ==> list[j].uniform != h)
    ensures r.None? ==> forall j :: i <= j < |list| ==> list[j].uniform != h
    decreases |list| - i
  {
    if i == |list| then None
    else if list[i].uniform == h then Some(i)
    else FindFrom(list, h, i + 1)
  }

  /** An existing entry takes over the vector and matrix storage of `u`; its handle, count and data pointer stay. */
  function Merge(existing: UniformData, u: UniformData): UniformData {
    existing.(vecValues := u.vecValues, matValues := u.matValues)
  }

  /**
    `addUniform(u)`: the first entry with the same handle index takes `u`'s
    vector and matrix values; when there is none, `u` is appended. The result
    also gives the index of the entry written.
  */
  function AddUniform(s: UniformSet, u: UniformData): (r: (UniformSet, nat))
    ensures r.1 < |Entries(r.0)| && Entries(r.0)[r.1].uniform == u.uniform
    ensures s.uniforms.Some? ==> r.0.selfMade == s.selfMade
    ensures s.uniforms.None? ==> r.0.selfMade
  {
    var t := if s.uniforms.None? then Create(s) else s;
    var list := t.uniforms.value;
    match FindFrom(list, u.uniform, 0)
    case Some(i) => (t.(uniforms := Some(list[i := Merge(list[i], u)])), i)
    case None => (t.(uniforms := Some(list + [u])), |list|)
  }

  /**
    `addUniform(u)` overwrites in place or appends: with a matching entry the
    size stays, that entry gets `u`'s vector and matrix values but keeps its
    count, and nothing else changes; with none, `u` is appended.
  */
  lemma AddUniformSpec(s: UniformSet, u: UniformData)
    ensures var i := AddUniform(s, u).1;
      var before := Entries(s);
      var after := Entries(AddUniform(s, u).0);
      if exists j :: 0 <= j < |before| && before[j].uniform == u.uniform then
        && |after| == |before|
        && before[i].uniform == u.uniform
        && (forall j :: 0 <= j < i ==> before[j].uniform != u.uniform)
        && after[i] == before[i].(vecValues := u.vecValues, matValues := u.matValues)
        && (forall j :: 0 <= j < |before| && j != i ==> after[j] == before[j])
      else
        after == before + [u] && i == |before|
  {
    var before := Entries(s);
    var f := FindFrom(before, u.uniform, 0);
    if exists j :: 0 <= j < |before| && before[j].uniform == u.uniform {
      assert f.Some?;
    }
  }

  /** No two entries share a handle index. */
  predicate UniqueHandles(list: seq<UniformData>) {
    forall j, k :: 0 <= j < k < |list| ==> list[j].uniform != list[k].uniform
  }

  /** The handle indices present. */
  function Handles(list: seq<UniformData>): set<u16> {
    set j | 0 <= j < |list| :: list[j].uniform
  }

  /** `addUniform` keeps the handle indices unique and adds exactly `u`'s. */
  lemma AddUniformKeepsUnique(s: UniformSet, u: UniformData)
    requires UniqueHandles(Entries(s))
    ensures UniqueHandles(Entries(AddUniform(s, u).0))
    ensures Handles(Entries(AddUniform(s, u).0)) == Handles(Entries(s)) + {u.uniform}
  {
    AddUniformSpec(s, u);
    var before := Entries(s);
    var after := Entries(AddUniform(s, u).0);
    var i := AddUniform(s, u).1;
    assert after[i].uniform == u.uniform;
    forall h | h in Handles(after)
      ensures h in Handles(before) + {u.uniform}
    {
      var j :| 0 <= j < |after| && after[j].uniform == h;
      if j != i && j < |before| {
        assert before[j].uniform == h;
      }
    }
    forall h | h in Handles(before)
      ensures h in Handles(after)
    {
      var j :| 0 <= j < |before| && before[j].uniform == h;
      if j != i {
        assert after[j].uniform == h;
      }
    }
  }

  /** `addUniformSet(other)`: `addUniform` of each of `other`'s entries in order. The source reads `other`'s list without checking it exists. */
  function AddUniformSet(s: UniformSet, other: UniformSet): (r: UniformSet)
    requires other.uniforms.Some?
  {
    AddAll(s, other.uniforms.value)
  }

  function AddAll(s: UniformSet, us: seq<UniformData>): UniformSet
    decreases |us|
  {
    if us == [] then s else AddAll(AddUniform(s, us[0]).0, us[1..])
  }

  /** The entry with handle index `h`, in a list where handles are unique. */
  function Lookup(list: seq<UniformData>, h: u16): Option<UniformData> {
    match FindFrom(list, h, 0)
    case Some(i) => Some(list[i])
    case None => None
  }

  /** The last of `us` with handle index `h`. */
  function LastWith(us: seq<UniformData>, h: u16): Option<UniformData> {
    if us == [] then None
    else if us[|us| - 1].uniform == h then Some(us[|us| - 1])
    else LastWith(us[..|us| - 1], h)
  }

  /** After one `addUniform(u)`, the entry for `u`'s handle carries `u`'s values and every other handle's entry is as before. */
  lemma LookupAfterAdd(s: UniformSet, u: UniformData, h: u16)
    requires UniqueHandles(Entries(s))
    ensures var r := Lookup(Entries(AddUniform(s, u).0), h);
      var before := Lookup(Entries(s), h);
      if h == u.uniform then
        r.Some? && r.value.vecValues == u.vecValues && r.value.matValues == u.matValues
        && (before.Some? ==> SameUniform(r.value, before.value) && r.value.dataPtr == before.value.dataPtr)
        && (before.None? ==> r.value == u)
      else r == before
  {
    AddUniformSpec(s, u);
    AddUniformKeepsUnique(s, u);
    var before := Entries(s);
    var after := Entries(AddUniform(s, u).0);
    var i := AddUniform(s, u).1;
    LookupUnique(after, i);
    if h != u.uniform {
      var fo := FindFrom(before, h, 0);
      var fn := FindFrom(after, h, 0);
      if fo.Some? {
        assert after[fo.value] == before[fo.value];
        LookupUnique(after, fo.value);
      }
    } else if Lookup(before, h).Some? {
      LookupUnique(before, i);
    }
  }

  /** In a list with unique handles, the entry at `i` is the one found for its handle. */
  lemma LookupUnique(list: seq<UniformData>, i: nat)
    requires UniqueHandles(list) && i < |list|
    ensures Lookup(list, list[i].uniform) == Some(list[i])
    ensures FindFrom(list, list[i].uniform, 0) == Some(i)
  {
    var f := FindFrom(list, list[i].uniform, 0);
    assert f.Some?;
  }

  /**
    Folding a list of uniforms into a set with unique handles keeps them
    unique, and for every handle the values that end up in the set are those
    of the last entry carrying it: later layers override earlier ones.
  */
  lemma {:induction false} AddAllLastWins(s: UniformSet, us: seq<UniformData>, h: u16)
    requires UniqueHandles(Entries(s))
    ensures UniqueHandles(Entries(AddAll(s, us)))
    ensures var r := Lookup(Entries(AddAll(s, us)), h);
      match LastWith(us, h)
      case Some(u) => r.Some? && r.value.vecValues == u.vecValues && r.value.matValues == u.matValues
      case None => r == Lookup(Entries(s), h)
    decreases |us|
  {
    if us != [] {
      var init := us[..|us| - 1];
      var last := us[|us| - 1];
      assert us == init + [last];
      AddAllSnoc(s, init, last);
      AddAllLastWins(s, init, h);
      var mid := AddAll(s, init);
      AddUniformKeepsUnique(mid, last);
      LookupAfterAdd(mid, last, h);
    }
  }

  lemma {:induction false} AddAllSnoc(s: UniformSet, us: seq<UniformData>, u: UniformData)
    ensures AddAll(s, us + [u]) == AddUniform(AddAll(s, us), u).0
    decreases |us|
  {
    if us == [] {
      assert ([] + [u])[1..] == [];
    } else {
      assert (us + [u])[1..] == us[1..] + [u];
      AddAllSnoc(AddUniform(s, us[0]).0, us[1..], u);
    }
  }

  /**
    `addUniformSet(other)` keeps handles unique, and each handle of `other`
    ends up with the values of `other`'s last entry for it; handles `other`
    lacks keep their entries.
  */
  lemma AddUniformSetSpec(s: UniformSet, other: UniformSet, h: u16)
    requires UniqueHandles(Entries(s)) && other.uniforms.Some?
    ensures UniqueHandles(Entries(AddUniformSet(s, other)))
    ensures var r := Lookup(Entries(AddUniformSet(s, other)), h);
      match LastWith(Entries(other), h)
      case Some(u) => r.Some? && r.value.vecValues == u.vecValues && r.value.matValues == u.matValues
      case None => r == Lookup(Entries(s), h)
  {
    AddAllLastWins(s, other.uniforms.value, h);
  }

  /** Two uniforms with the same handle added in turn leave one entry, holding the second one's values. */
  lemma AddTwiceKeepsOne(s: UniformSet, a: UniformData, b: UniformData)
    requires UniqueHandles(Entries(s)) && a.uniform == b.uniform
    ensures var r := AddUniform(AddUniform(s, a).0, b).0;
      |Entries(r)| == |Entries(AddUniform(s, a).0)|
      && Lookup(Entries(r), b.uniform).Some?
      && Lookup(Entries(r), b.uniform).value.vecValues == b.vecValues
      && Lookup(Entries(r), b.uniform).value.matValues == b.matValues
  {
    var m := AddUniform(s, a).0;
    AddUniformKeepsUnique(s, a);
    AddUniformSpec(m, b);
    LookupAfterAdd(m, b, b.uniform);
    var i := AddUniform(s, a).1;
    assert Entries(m)[i].uniform == b.uniform;
  }
}
