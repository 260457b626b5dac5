/** The two `Prefabs` components: the fixed name arrays and the maps `Start`
    fills with `Dictionary.Add`. */
module Prefabs {
  import opened Wrappers

  type Name = seq<char>

  /** `prefabNameArray` of the desktop application. */
  const DesktopNames: seq<Name> := ["Arrow", "Goal", "Barrier", "Cone", "Spotlight", "Stop"]

  /** `prefabNameArray` of the phone application. */
  const PhoneNames: seq<Name> := ["Arrow", "Goal", "Barrier", "Cone", "Stop", "Spotlight"]

  predicate Distinct<T(==)>(s: seq<T>) {
    forall i, j :: 0 <= i < j < |s| ==> s[i] != s[j]
  }

  /** Both arrays hold six distinct names. */
  lemma NamesDistinct()
    ensures |DesktopNames| == 6 && Distinct(DesktopNames)
    ensures |PhoneNames| == 6 && Distinct(PhoneNames)
  {
  }

  /** The same names, but "Stop" and "Spotlight" at swapped indices: only the
      persisted name, not the index, means the same kind in both apps. */
  lemma SameNamesSwappedIndices()
    ensures (set n | n in DesktopNames) == (set n | n in PhoneNames)
    ensures DesktopNames[4] == PhoneNames[5] == "Spotlight"
    ensures DesktopNames[5] == PhoneNames[4] == "Stop"
    ensures forall i :: 0 <= i < 4 ==> DesktopNames[i] == PhoneNames[i]
  {
  }

  /** `Dictionary.Add`, which throws on a key already present. */
  function MapAdd<V>(m: map<Name, V>, k: Name, v: V): (r: Option<map<Name, V>>)
    ensures r.Some? <==> k !in m
    ensures r.Some? ==> r.value == m[k := v]
  {
    if k in m then None else Some(m[k := v])
  }

  /** A run of `Dictionary.Add` calls, one per name, in order. */
  function AddAll<V>(m: map<Name, V>, names: seq<Name>, values: seq<V>): (r: Option<map<Name, V>>)
    requires |names| == |values|
    decreases |names|
  {
    if |names| == 0 then Some(m)
    else
      match MapAdd(m, names[0], values[0])
      case None => None
      case Some(m') => AddAll(m', names[1..], values[1..])
  }

  /** Adding distinct fresh names never throws, and the keys become exactly
      the old keys plus the names, each bound to its own value. */
  lemma {:induction false} AddAllDistinct<V>(m: map<Name, V>, names: seq<Name>, values: seq<V>)
    requires |names| == |values|
    requires Distinct(names)
    requires forall i :: 0 <= i < |names| ==> names[i] !in m
    ensures AddAll(m, names, values).Some?
    ensures AddAll(m, names, values).value.Keys == m.Keys + (set n | n in names)
    ensures forall i :: 0 <= i < |names| ==> AddAll(m, names, values).value[names[i]] == values[i]
    ensures forall k :: k in m ==> AddAll(m, names, values).value[k] == m[k]
    decreases |names|
  {
    if |names| > 0 {
      var m' := m[names[0] := values[0]];
      assert forall i :: 0 <= i < |names[1..]| ==> names[1..][i] == names[i + 1];
      AddAllDistinct(m', names[1..], values[1..]);
      assert (set n | n in names) == {names[0]} + (set n | n in names[1..]);
    }
  }

  /** Desktop `Start`: resolveMap and spriteMap are each keyed by exactly the
      six names, the i-th name bound to the i-th prefab or sprite. */
  lemma DesktopStart<P, S>(prefabs: seq<P>, sprites: seq<S>)
    requires |prefabs| == 6 && |sprites| == 6
    ensures AddAll(map[], DesktopNames, prefabs).Some?
    ensures AddAll(map[], DesktopNames, prefabs).value.Keys == (set n | n in DesktopNames)
    ensures AddAll(map[], DesktopNames, sprites).Some?
    ensures AddAll(map[], DesktopNames, sprites).value.Keys == (set n | n in DesktopNames)
    ensures forall i :: 0 <= i < 6 ==> AddAll(map[], DesktopNames, prefabs).value[DesktopNames[i]] == prefabs[i]
  {
    NamesDistinct();
    AddAllDistinct(map[], DesktopNames, prefabs);
    AddAllDistinct(map[], DesktopNames, sprites);
  }

  /** Phone `Start`: resolveMap is keyed by exactly the six names. */
  lemma PhoneStart<P>(prefabs: seq<P>)
    requires |prefabs| == 6
    ensures AddAll(map[], PhoneNames, prefabs).Some?
    ensures AddAll(map[], PhoneNames, prefabs).value.Keys == (set n | n in PhoneNames)
    ensures forall i :: 0 <= i < 6 ==> AddAll(map[], PhoneNames, prefabs).value[PhoneNames[i]] == prefabs[i]
  {
    NamesDistinct();
    AddAllDistinct(map[], PhoneNames, prefabs);
  }

  /** The wrap `ChangePrefab` applies to `prefabsIdx` after adding the
      increment: past the end goes to 0, below 0 to the last index. */
  function WrapIndex(idx: int, increment: int, len: nat): (r: int)
    requires len > 0
    ensures 0 <= idx + increment < len ==> r == idx + increment
  {
    var n := idx + increment;
    if n >= len then 0
    else if n < 0 then len - 1
    else n
  }

  /** The result always indexes the name array, and for a step of +1 or -1
      from a valid index it is the step taken modulo the length. */
  lemma WrapIndexInRange(idx: int, increment: int, len: nat)
    requires len > 0
    ensures 0 <= WrapIndex(idx, increment, len) < len
    ensures 0 <= idx < len && (increment == 1 || increment == -1) ==>
              WrapIndex(idx, increment, len) == (idx + increment) % len
  {
  }
}
