/** `configChanged`: the per-frame test that decides whether the path has to
    be redrawn, as a step function over a shadow copy of the scene. */
module Change {
  import opened Geometry

  /** One `(transform.position, name)` pair of `verifyChangesList`. */
  datatype Entry = Entry(pos: Point, name: seq<char>)

  /** Scans from index `from` for a pair that differs between the two lists. */
  function DiffersFrom(shadow: seq<Entry>, current: seq<Entry>, from: nat): (d: bool)
    requires |shadow| == |current|
    ensures d <==> exists i :: from <= i < |current| && current[i] != shadow[i]
    decreases |current| - from
  {
    if from >= |current| then false
    else if current[from] != shadow[from] then true
    else DiffersFrom(shadow, current, from + 1)
  }

  /** `configChanged`: true when the count differs or some position or name
      differs; in every case the shadow becomes the current snapshot. */
  function ConfigChanged(shadow: seq<Entry>, current: seq<Entry>): (r: (bool, seq<Entry>))
    ensures r.1 == current
    ensures r.0 <==> |shadow| != |current| || exists i :: 0 <= i < |current| && current[i] != shadow[i]
  {
    if |current| != |shadow| then (true, current)
    else if DiffersFrom(shadow, current, 0) then (true, current)
    else (false, current)
  }

  /** Without a mutation in between, a second call reports no change. */
  lemma SecondCallUnchanged(shadow: seq<Entry>, current: seq<Entry>)
    ensures !ConfigChanged(ConfigChanged(shadow, current).1, current).0
  {
  }
}
