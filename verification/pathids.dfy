/** The phone's bookkeeping of path ids: `listGameObjectsToHost` (every
    placed object) and `listGameObjectsInConfiguration` (the Hints and Goals,
    kept sorted by `PathHandler.id`).

    The invariant the route drawing relies on is `Canonical(path)`: the
    object at position i of the path list has id i + 1. Each operation is
    related to one reference definition: its effect on the sequence of path
    objects (append, delete, move) followed by `Renumber`. */
module PathIds {
  import opened Wrappers
  import opened Geometry
  import opened Scene
  import Prefabs

  /** An element of `listGameObjectsToHost`: identity, tag and whether its
      `LeanSelectable` is selected. */
  datatype HostEntry = HostEntry(key: nat, tag: Tag, selected: bool)

  /** The two lists of the configuration being edited. */
  datatype Config = Config(host: seq<HostEntry>, path: seq<Placed>)

  /** The "nothing removed" value `remove` starts from. */
  const RemovedSentinel: int := 214748364

  function Delete<T>(s: seq<T>, i: nat): (r: seq<T>)
    requires i < |s|
    ensures |r| == |s| - 1
    ensures forall k :: 0 <= k < |r| ==> r[k] == if k < i then s[k] else s[k + 1]
  {
    s[..i] + s[i + 1..]
  }

  /** The element at `from` taken out and put back at position `to`. */
  function MoveTo<T>(s: seq<T>, from: nat, to: nat): (r: seq<T>)
    requires from < |s| && to < |s|
    ensures |r| == |s|
    ensures r[to] == s[from]
    ensures Delete(r, to) == Delete(s, from)
  {
    var rest := Delete(s, from);
    var r := rest[..to] + [s[from]] + rest[to..];
    assert Delete(r, to) == rest;
    r
  }

  /** Ids set to 1..N in list order, keeping everything else. */
  function Renumber(s: seq<Placed>): (r: seq<Placed>)
    ensures |r| == |s|
    ensures Canonical(r)
    ensures forall i :: 0 <= i < |s| ==> r[i] == s[i].(id := i + 1)
  {
    seq(|s|, i requires 0 <= i < |s| => s[i].(id := i + 1))
  }

  /** Renumbering a canonical list changes nothing. */
  lemma RenumberCanonical(s: seq<Placed>)
    requires Canonical(s)
    ensures Renumber(s) == s
  {
  }

  /** The first selected host object: the `foreach ... IsSelected ... break`
      every editing operation starts with. */
  function FirstSelected(host: seq<HostEntry>): (r: Option<nat>)
    ensures r.Some? ==> r.value < |host| && host[r.value].selected
    ensures r.Some? ==> forall k :: 0 <= k < r.value ==> !host[k].selected
    ensures r.None? <==> forall k :: 0 <= k < |host| ==> !host[k].selected
  {
    if |host| == 0 then None
    else if host[0].selected then Some(0)
    else match FirstSelected(host[1..])
      case None => None
      case Some(k) => Some(k + 1)
  }

  /** Position of the object with identity `key` in the path list: what
      `List.Remove(go)` looks for. */
  function IndexOfKey(path: seq<Placed>, key: nat): (r: Option<nat>)
    ensures r.Some? ==> r.value < |path| && path[r.value].key == key
    ensures r.Some? ==> forall k :: 0 <= k < r.value ==> path[k].key != key
    ensures r.None? <==> forall k :: 0 <= k < |path| ==> path[k].key != key
  {
    if |path| == 0 then None
    else if path[0].key == key then Some(0)
    else match IndexOfKey(path[1..], key)
      case None => None
      case Some(k) => Some(k + 1)
  }

  /** The last loop of `remove`: every id above `removed` goes down by one. */
  function DecrementAbove(path: seq<Placed>, removed: int): (r: seq<Placed>)
    ensures |r| == |path|
    ensures forall i :: 0 <= i < |path| ==>
              r[i] == if path[i].id > removed then path[i].(id := path[i].id - 1) else path[i]
  {
    seq(|path|, i requires 0 <= i < |path| =>
      if path[i].id > removed then path[i].(id := path[i].id - 1) else path[i])
  }

  /** Adds `d` to the ids at positions lo..hi-1: the `for` loops of the typed
      id change. An index outside the list makes C# throw on the first
      iteration, before any id is written, so that case is `None` with
      nothing changed. */
  function AddToRange(path: seq<Placed>, lo: int, hi: int, d: int): (r: Option<seq<Placed>>)
    ensures r.Some? ==> |r.value| == |path|
    ensures r.Some? ==> forall i :: 0 <= i < |path| ==>
              r.value[i] == if lo <= i < hi then path[i].(id := path[i].id + d) else path[i]
  {
    if lo >= hi then Some(path)
    else if lo < 0 || hi > |path| then None
    else Some(seq(|path|, i requires 0 <= i < |path| =>
                    if lo <= i < hi then path[i].(id := path[i].id + d) else path[i]))
  }

  // ---------------------------------------------------------------------
  // Placement

  /** Placing an object: appended to the host list; a Hint or Goal is also
      appended to the path list with id = the new path count. */
  function Place(c: Config, key: nat, tag: Tag, pos: Point): (r: Config)
    ensures |r.host| == |c.host| + 1 && r.host[..|c.host|] == c.host
    ensures r.host[|c.host|].key == key && r.host[|c.host|].tag == tag
    ensures OnPath(tag) ==> |r.path| == |c.path| + 1 && r.path[..|c.path|] == c.path
    ensures !OnPath(tag) ==> r.path == c.path
    ensures Canonical(c.path) ==> Canonical(r.path)
    ensures IdsArePermutation(c.path) ==> IdsArePermutation(r.path)
  {
    var host := c.host + [HostEntry(key, tag, false)];
    if OnPath(tag) then
      var x := Placed(key, tag, |c.path| + 1, pos);
      assert Ids(c.path + [x]) == Ids(c.path) + [x.id];
      Config(host, c.path + [x])
    else Config(host, c.path)
  }

  // ---------------------------------------------------------------------
  // Removal

  /** `remove`: the first selected host object is removed from the host
      list and, when it is a Hint or Goal, from the path list, recording its
      id; then every path id above the recorded id is decremented. The
      decrement runs even when nothing was removed, against the sentinel.
      A selected Hint or Goal missing from the path list is also decremented
      against the sentinel here, where the source would use that object's
      own id. This never arises while `Place`, `Remove` and `ChangePrefab`
      keep the host and path lists in step, as every operation here does. */
  function Remove(c: Config): (r: Config)
    ensures FirstSelected(c.host).None? ==> r.host == c.host
    ensures FirstSelected(c.host).Some? ==> r.host == Delete(c.host, FirstSelected(c.host).value)
  {
    match FirstSelected(c.host)
    case None => Config(c.host, DecrementAbove(c.path, RemovedSentinel))
    case Some(h) =>
      var e := c.host[h];
      var host := Delete(c.host, h);
      if !OnPath(e.tag) then Config(host, DecrementAbove(c.path, RemovedSentinel))
      else
        match IndexOfKey(c.path, e.key)
        case None => Config(host, DecrementAbove(c.path, RemovedSentinel))
        case Some(q) => Config(host, DecrementAbove(Delete(c.path, q), c.path[q].id))
  }

  /** On a canonical path list, removing the selected Hint or Goal at
      position q leaves the other objects in order, renumbered 1..N-1. */
  lemma RemoveIsRenumberedDelete(c: Config, h: nat, q: nat)
    requires Canonical(c.path)
    requires FirstSelected(c.host) == Some(h) && OnPath(c.host[h].tag)
    requires IndexOfKey(c.path, c.host[h].key) == Some(q)
    ensures Remove(c).path == Renumber(Delete(c.path, q))
    ensures Canonical(Remove(c).path)
  {
    DecrementIsRenumber(c.path, q);
  }

  /** Removing nothing from the path list leaves a canonical list untouched:
      its ids never reach the sentinel. */
  lemma RemoveKeepsOtherPath(c: Config)
    requires Canonical(c.path) && |c.path| <= RemovedSentinel
    requires FirstSelected(c.host).None? || !OnPath(c.host[FirstSelected(c.host).value].tag)
    ensures Remove(c).path == c.path
  {
  }

  // ---------------------------------------------------------------------
  // Moving an object along the path

  /** Where the element at `m` is after `MoveTo(_, from, to)`. */
  function NewPos(from: nat, to: nat, m: nat): nat {
    if m == from then to
    else if from < to && from < m <= to then m - 1
    else if to < from && to <= m < from then m + 1
    else m
  }

  /** Which element `MoveTo(_, from, to)` puts at position `k`. */
  function OldPos(from: nat, to: nat, k: nat): nat {
    if k == to then from
    else if from < to && from <= k < to then k + 1
    else if to < from && to < k <= from then k - 1
    else k
  }

  lemma MoveToAt<T>(s: seq<T>, from: nat, to: nat, k: nat)
    requires from < |s| && to < |s| && k < |s|
    ensures OldPos(from, to, k) < |s|
    ensures NewPos(from, to, OldPos(from, to, k)) == k
    ensures MoveTo(s, from, to)[k] == s[OldPos(from, to, k)]
  {
    var rest := Delete(s, from);
    var r := MoveTo(s, from, to);
    assert r == rest[..to] + [s[from]] + rest[to..];
    if k < to {
      assert r[k] == rest[k];
    } else if k > to {
      assert r[k] == rest[k - 1];
    }
  }

  lemma MoveToMultiset<T>(s: seq<T>, from: nat, to: nat)
    requires from < |s| && to < |s|
    ensures multiset(MoveTo(s, from, to)) == multiset(s)
  {
    var rest := Delete(s, from);
    assert MoveTo(s, from, to) == rest[..to] + [s[from]] + rest[to..];
    assert rest == rest[..to] + rest[to..];
    RemoveAt(s, from);
  }

  /** A list whose ids are already the positions the move will give its
      elements becomes, once moved, the renumbered move of the original. */
  lemma MoveRenumber(path: seq<Placed>, p: seq<Placed>, from: nat, to: nat)
    requires |p| == |path| && from < |path| && to < |path|
    requires forall m :: 0 <= m < |path| ==> p[m] == path[m].(id := NewPos(from, to, m) + 1)
    ensures MoveTo(p, from, to) == Renumber(MoveTo(path, from, to))
  {
    var a := MoveTo(p, from, to);
    var b := Renumber(MoveTo(path, from, to));
    forall k | 0 <= k < |a|
      ensures a[k] == b[k]
    {
      MoveToAt(p, from, to, k);
      MoveToAt(path, from, to, k);
    }
  }

  /** `List.Sort` of a list that has the same elements as a canonical one
      yields that canonical list. */
  lemma SortToCanonical(p: seq<Placed>, w: seq<Placed>)
    requires Canonical(w)
    requires multiset(p) == multiset(w)
    ensures SortById(p) == w
  {
    CanonicalProperties(w);
    SortedUnique(w, SortById(p));
  }

  /** Hence: if `p` carries the post-move positions as ids, sorting it is
      the renumbered move. */
  lemma SortIsMove(path: seq<Placed>, p: seq<Placed>, from: nat, to: nat)
    requires |p| == |path| && from < |path| && to < |path|
    requires forall m :: 0 <= m < |path| ==> p[m] == path[m].(id := NewPos(from, to, m) + 1)
    ensures SortById(p) == Renumber(MoveTo(path, from, to))
  {
    MoveRenumber(path, p, from, to);
    MoveToMultiset(p, from, to);
    SortToCanonical(p, MoveTo(p, from, to));
  }

  /** The +/- buttons on the id (`changeManualMoreOrLess`, case 5) for the
      selected path object at position `sel`. Up: if id < Count, the object
      at index id takes the selected object's id and the selected object's
      id (read after that write) goes up by one. Down: if id > 1, the
      object at index id - 2 takes it and the selected id goes down by one.
      The list is sorted afterwards in every case. `None` stands for the
      exception an index outside the list raises before any write. */
  function StepId(path: seq<Placed>, sel: nat, up: bool): (r: Option<seq<Placed>>)
    requires sel < |path|
    ensures r.None? <==> (up && path[sel].id < 0) || (!up && path[sel].id >= |path| + 2)
    ensures r.Some? ==> |r.value| == |path| && SortedById(r.value)
    ensures (up && |path| <= path[sel].id) || (!up && path[sel].id <= 1) ==> r == Some(SortById(path))
  {
    match StepWrites(path, sel, up)
    case None => None
    case Some(p) => Some(SortById(p))
  }

  /** The id writes of a step, before the sort. */
  function StepWrites(path: seq<Placed>, sel: nat, up: bool): (r: Option<seq<Placed>>)
    requires sel < |path|
    ensures r.Some? ==> |r.value| == |path|
  {
    var id := path[sel].id;
    if up && id < |path| then
      if id < 0 then None
      else
        var p := path[id := path[id].(id := id)];
        Some(p[sel := p[sel].(id := p[sel].id + 1)])
    else if !up && id > 1 then
      if id - 2 >= |path| then None
      else
        var p := path[id - 2 := path[id - 2].(id := id)];
        Some(p[sel := p[sel].(id := p[sel].id - 1)])
    else
      Some(path)
  }

  /** The position a one-step move sends the selected object to. */
  function StepTarget(sel: nat, n: nat, up: bool): nat {
    if up then (if sel + 1 < n then sel + 1 else sel)
    else (if sel >= 1 then sel - 1 else sel)
  }

  /** On a canonical list a step swaps the selected object with its
      neighbour (none past either end) and keeps the list canonical. */
  lemma StepIsMove(path: seq<Placed>, sel: nat, up: bool)
    requires Canonical(path) && sel < |path|
    ensures StepTarget(sel, |path|, up) < |path|
    ensures StepId(path, sel, up) == Some(Renumber(MoveTo(path, sel, StepTarget(sel, |path|, up))))
    ensures Canonical(StepId(path, sel, up).value)
  {
    if up && sel + 1 < |path| {
      StepUp(path, sel);
    } else if !up && sel >= 1 {
      StepDownFrom(path, sel);
    } else {
      StepStays(path, sel, up);
    }
  }

  lemma StepDownFrom(path: seq<Placed>, sel: nat)
    requires Canonical(path) && 1 <= sel < |path|
    ensures StepId(path, sel, false) == Some(Renumber(MoveTo(path, sel, StepTarget(sel, |path|, false))))
  {
    var to := sel - 1;
    assert to + 1 == sel && StepTarget(sel, |path|, false) == to;
    StepDown(path, to);
  }

  /** At either end the step only sorts, which leaves a canonical list as
      it is. */
  lemma StepStays(path: seq<Placed>, sel: nat, up: bool)
    requires Canonical(path) && sel < |path|
    requires !(up && sel + 1 < |path|) && !(!up && sel >= 1)
    ensures StepTarget(sel, |path|, up) == sel
    ensures StepId(path, sel, up) == Some(Renumber(MoveTo(path, sel, sel)))
  {
    assert path[sel].id == sel + 1;
    assert StepWrites(path, sel, up) == Some(path);
    SortToCanonical(path, path);
    MoveToSelf(path, sel);
    RenumberCanonical(path);
  }

  /** Moving an element to its own place changes nothing. */
  lemma MoveToSelf<T>(s: seq<T>, i: nat)
    requires i < |s|
    ensures MoveTo(s, i, i) == s
  {
    var rest := Delete(s, i);
    assert rest[..i] == s[..i];
    assert rest[i..] == s[i + 1..];
    assert s == s[..i] + [s[i]] + s[i + 1..];
  }

  /** The list a step sorts: the neighbour at `other` takes id `sel + 1`
      and the selected object id `newId`. */
  function Swapped(path: seq<Placed>, sel: nat, other: nat, newId: int): (p: seq<Placed>)
    requires sel < |path| && other < |path|
    ensures |p| == |path|
  {
    path[other := path[other].(id := sel + 1)][sel := path[sel].(id := newId)]
  }

  lemma StepUp(path: seq<Placed>, sel: nat)
    requires Canonical(path) && sel + 1 < |path|
    ensures StepId(path, sel, true) == Some(Renumber(MoveTo(path, sel, sel + 1)))
  {
    assert path[sel].id == sel + 1;
    StepUpUnfold(path, sel);
    SwappedSortIsMove(path, sel, sel + 1, sel + 2);
  }

  lemma StepUpUnfold(path: seq<Placed>, sel: nat)
    requires sel + 1 < |path| && path[sel].id == sel + 1
    ensures StepWrites(path, sel, true) == Some(Swapped(path, sel, sel + 1, sel + 2))
  {
    var id := path[sel].id;
    assert id == sel + 1;
    var p := path[sel + 1 := path[sel + 1].(id := id)];
    assert p[sel] == path[sel];
    assert p[sel := p[sel].(id := p[sel].id + 1)] == Swapped(path, sel, sel + 1, sel + 2);
  }

  lemma StepDown(path: seq<Placed>, to: nat)
    requires Canonical(path) && to + 1 < |path|
    ensures StepId(path, to + 1, false) == Some(Renumber(MoveTo(path, to + 1, to)))
  {
    assert path[to + 1].id == to + 2;
    StepDownUnfold(path, to);
    SwappedSortIsMove(path, to + 1, to, to + 1);
  }

  lemma StepDownUnfold(path: seq<Placed>, to: nat)
    requires to + 1 < |path| && path[to + 1].id == to + 2
    ensures StepWrites(path, to + 1, false) == Some(Swapped(path, to + 1, to, to + 1))
  {
    var sel := to + 1;
    var p := path[to := path[to].(id := to + 2)];
    assert p[sel] == path[sel];
    assert p[sel := p[sel].(id := p[sel].id - 1)] == Swapped(path, sel, to, to + 1);
  }

  /** Sorting after the swap is the renumbered move to the neighbour's
      place. */
  lemma SwappedSortIsMove(path: seq<Placed>, sel: nat, other: nat, newId: int)
    requires Canonical(path) && sel < |path| && other < |path|
    requires other == sel + 1 || other + 1 == sel
    requires newId == other + 1
    ensures SortById(Swapped(path, sel, other, newId)) == Renumber(MoveTo(path, sel, other))
  {
    SwappedIds(path, sel, other, newId);
    SortIsMove(path, Swapped(path, sel, other, newId), sel, other);
  }

  /** Swapping ids with a neighbour gives every object its position after
      the move, plus one. */
  lemma SwappedIds(path: seq<Placed>, sel: nat, other: nat, newId: int)
    requires Canonical(path) && sel < |path| && other < |path|
    requires other == sel + 1 || other + 1 == sel
    requires newId == other + 1
    ensures forall m :: 0 <= m < |path| ==>
              Swapped(path, sel, other, newId)[m] == path[m].(id := NewPos(sel, other, m) + 1)
  {
    var p := Swapped(path, sel, other, newId);
    forall m | 0 <= m < |path|
      ensures p[m] == path[m].(id := NewPos(sel, other, m) + 1)
    {
      assert path[m].id == m + 1;
    }
  }

  /** The typed id change (`changeManualByInput`, case 5), taking the value
      `v`. When 0 < v <= Count: moving up, ids at positions id..v-1 go down
      by one; moving down, ids at positions `downLo`..id-2 go up by one; then
      the selected id becomes v and the list is sorted. Any other v leaves
      everything as it is. The original passes `downLo = v`. */
  function TypedMoveFrom(path: seq<Placed>, sel: nat, v: int, downLo: int): (r: Option<seq<Placed>>)
    requires sel < |path|
    ensures r.Some? ==> |r.value| == |path|
    ensures !(0 < v <= |path|) ==> r == Some(path)
  {
    if 0 < v <= |path| then
      match TypedWrites(path, sel, v, downLo)
      case None => None
      case Some(p) => Some(SortById(p))
    else Some(path)
  }

  /** The id writes of the typed change, before the sort. */
  function TypedWrites(path: seq<Placed>, sel: nat, v: int, downLo: int): (r: Option<seq<Placed>>)
    requires sel < |path|
    ensures r.Some? ==> |r.value| == |path|
  {
    var id := path[sel].id;
    var shifted := if id < v then AddToRange(path, id, v, -1) else AddToRange(path, downLo, id - 1, 1);
    match shifted
    case None => None
    case Some(p) => Some(p[sel := p[sel].(id := v)])
  }

  /** The typed id change as written: the downward loop stops at index v. */
  function TypedMoveAsWritten(path: seq<Placed>, sel: nat, v: int): (r: Option<seq<Placed>>)
    requires sel < |path|
    ensures !(0 < v <= |path|) ==> r == Some(path)
  {
    TypedMoveFrom(path, sel, v, v)
  }

  /** The typed id change with the downward loop running to index v - 1,
      so that the object the selected one displaces is shifted too. */
  function TypedMove(path: seq<Placed>, sel: nat, v: int): (r: Option<seq<Placed>>)
    requires sel < |path|
    ensures !(0 < v <= |path|) ==> r == Some(path)
  {
    TypedMoveFrom(path, sel, v, v - 1)
  }

  /** On a canonical list the corrected typed change moves the selected
      object to position v - 1 and renumbers: it stays canonical. */
  lemma TypedMoveIsMove(path: seq<Placed>, sel: nat, v: int)
    requires Canonical(path) && sel < |path|
    requires 0 < v <= |path|
    ensures TypedMove(path, sel, v) == Some(Renumber(MoveTo(path, sel, v - 1)))
    ensures Canonical(TypedMove(path, sel, v).value)
    ensures TypedMove(path, sel, v).value[v - 1].key == path[sel].key
  {
    if sel + 1 < v {
      TypedMoveUp(path, sel, v);
    } else {
      TypedMoveDown(path, sel, v);
    }
  }

  /** The list the typed change sorts: the range shifted and the selected
      id set to v. */
  function Unsorted(path: seq<Placed>, sel: nat, v: int, lo: int, hi: int, d: int): (p: seq<Placed>)
    requires sel < |path| && 0 <= lo <= hi <= |path|
    ensures |p| == |path|
  {
    var q := AddToRange(path, lo, hi, d).value;
    q[sel := q[sel].(id := v)]
  }

  lemma TypedMoveUp(path: seq<Placed>, sel: nat, v: int)
    requires Canonical(path) && sel < |path|
    requires sel + 1 < v <= |path|
    ensures TypedMove(path, sel, v) == Some(Renumber(MoveTo(path, sel, v - 1)))
  {
    TypedMoveUnfoldUp(path, sel, v);
    UnsortedUpSorts(path, sel, v);
  }

  lemma TypedMoveUnfoldUp(path: seq<Placed>, sel: nat, v: int)
    requires sel < |path| && path[sel].id == sel + 1
    requires sel + 1 < v <= |path|
    ensures TypedWrites(path, sel, v, v - 1) == Some(Unsorted(path, sel, v, sel + 1, v, -1))
  {
  }

  lemma UnsortedUpSorts(path: seq<Placed>, sel: nat, v: int)
    requires Canonical(path) && sel < |path|
    requires sel + 1 < v <= |path|
    ensures SortById(Unsorted(path, sel, v, sel + 1, v, -1)) == Renumber(MoveTo(path, sel, v - 1))
  {
    UnsortedUp(path, sel, v);
    SortIsMove(path, Unsorted(path, sel, v, sel + 1, v, -1), sel, v - 1);
  }

  /** The shifted list carries every object's position after the move, plus
      one, as its id. */
  lemma UnsortedUp(path: seq<Placed>, sel: nat, v: int)
    requires Canonical(path) && sel < |path|
    requires sel + 1 < v <= |path|
    ensures forall m :: 0 <= m < |path| ==>
              Unsorted(path, sel, v, sel + 1, v, -1)[m] == path[m].(id := NewPos(sel, v - 1, m) + 1)
  {
    var p2 := Unsorted(path, sel, v, sel + 1, v, -1);
    forall m | 0 <= m < |path|
      ensures p2[m] == path[m].(id := NewPos(sel, v - 1, m) + 1)
    {
      assert path[m].id == m + 1;
    }
  }

  lemma TypedMoveDown(path: seq<Placed>, sel: nat, v: int)
    requires Canonical(path) && sel < |path|
    requires 0 < v <= sel + 1
    ensures TypedMove(path, sel, v) == Some(Renumber(MoveTo(path, sel, v - 1)))
  {
    TypedMoveUnfoldDown(path, sel, v);
    UnsortedDownSorts(path, sel, v);
  }

  lemma TypedMoveUnfoldDown(path: seq<Placed>, sel: nat, v: int)
    requires sel < |path| && path[sel].id == sel + 1
    requires 0 < v <= sel + 1
    ensures TypedWrites(path, sel, v, v - 1) == Some(Unsorted(path, sel, v, v - 1, sel, 1))
  {
  }

  lemma UnsortedDownSorts(path: seq<Placed>, sel: nat, v: int)
    requires Canonical(path) && sel < |path|
    requires 0 < v <= sel + 1
    ensures SortById(Unsorted(path, sel, v, v - 1, sel, 1)) == Renumber(MoveTo(path, sel, v - 1))
  {
    UnsortedDown(path, sel, v);
    SortIsMove(path, Unsorted(path, sel, v, v - 1, sel, 1), sel, v - 1);
  }

  /** The shifted list carries every object's position after the move, plus
      one, as its id. */
  lemma UnsortedDown(path: seq<Placed>, sel: nat, v: int)
    requires Canonical(path) && sel < |path|
    requires 0 < v <= sel + 1
    ensures forall m :: 0 <= m < |path| ==>
              Unsorted(path, sel, v, v - 1, sel, 1)[m] == path[m].(id := NewPos(sel, v - 1, m) + 1)
  {
    var p2 := Unsorted(path, sel, v, v - 1, sel, 1);
    forall m | 0 <= m < |path|
      ensures p2[m] == path[m].(id := NewPos(sel, v - 1, m) + 1)
    {
      assert path[m].id == m + 1;
    }
  }

  /** Upward the two versions agree. */
  lemma TypedMoveUpAgrees(path: seq<Placed>, sel: nat, v: int)
    requires Canonical(path) && sel < |path|
    requires sel + 1 < v
    ensures TypedMoveAsWritten(path, sel, v) == TypedMove(path, sel, v)
  {
  }

  /** Downward, as written, the object at position v - 1 keeps id v and the
      selected object gets id v too: the ids stop being a permutation of
      1..N. */
  lemma TypedMoveAsWrittenBreaksIds(path: seq<Placed>, sel: nat, v: int)
    requires Canonical(path) && sel < |path|
    requires 0 < v <= sel
    ensures TypedMoveAsWritten(path, sel, v).Some?
    ensures !IdsArePermutation(TypedMoveAsWritten(path, sel, v).value)
  {
    assert path[sel].id == sel + 1;
    var p2 := Unsorted(path, sel, v, v, sel, 1);
    assert TypedWrites(path, sel, v, v) == Some(p2);
    assert p2[v - 1].id == v == p2[sel].id;
    DuplicateIdNotPermutation(p2, v - 1, sel);
  }

  /** The smallest instance: ids 1, 2, 3, 4, the object with id 4 typed
      to 2. */
  lemma TypedMoveAsWrittenExample()
    ensures var path := [Placed(10, Goal, 1, Zero), Placed(11, Hint, 2, Zero),
                         Placed(12, Hint, 3, Zero), Placed(13, Goal, 4, Zero)];
            TypedMoveAsWritten(path, 3, 2).Some? &&
            !IdsArePermutation(TypedMoveAsWritten(path, 3, 2).value)
  {
    var path := [Placed(10, Goal, 1, Zero), Placed(11, Hint, 2, Zero),
                 Placed(12, Hint, 3, Zero), Placed(13, Goal, 4, Zero)];
    TypedMoveAsWrittenBreaksIds(path, 3, 2);
  }

  /** Two objects sharing an id: neither the list nor its sorted form has
      ids forming 1..N. */
  lemma DuplicateIdNotPermutation(s: seq<Placed>, i: nat, j: nat)
    requires i < j < |s| && s[i].id == s[j].id
    ensures !IdsArePermutation(s)
    ensures !IdsArePermutation(SortById(s))
  {
    var ids := Ids(s);
    TwiceInMultiset(ids, i, j);
    SortKeepsPermutation(s);
    OneToAtMostOnce(|s|, s[i].id);
  }

  lemma TwiceInMultiset(a: seq<int>, i: nat, j: nat)
    requires i < j < |a| && a[i] == a[j]
    ensures multiset(a)[a[i]] >= 2
  {
    assert a == a[..j] + [a[j]] + a[j + 1..];
    assert a[i] in a[..j];
  }

  lemma {:induction false} OneToAtMostOnce(n: nat, x: int)
    ensures multiset(OneTo(n))[x] <= 1
  {
    if n > 0 {
      var a := OneTo(n - 1);
      OneToAtMostOnce(n - 1, x);
      assert OneTo(n) == a + [n];
      assert multiset(OneTo(n)) == multiset(a) + multiset{n};
      if x == n {
        assert forall i :: 0 <= i < |a| ==> a[i] < n;
        assert multiset(a)[x] == 0;
      }
    }
  }

  // ---------------------------------------------------------------------
  // Changing the prefab of the selected object

  /** `ChangePrefab(increment)`: the first selected host object is removed
      (from the path list too when it is a Hint or Goal), the prefab index
      steps with wrap-around, and an object of the new prefab is appended at
      the old position, selected, and appended to the path list with id =
      new count when its tag is Hint or Goal. `tags[i]` is the tag the
      prefab named `PhoneNames[i]` carries. The original does not renumber
      on removal (`renumber = false`). */
  function ChangePrefabWith(c: Config, prefabsIdx: int, increment: int, tags: seq<Tag>,
                            newKey: nat, lastPos: Point, renumber: bool): (r: (Config, int))
    requires |tags| == |Prefabs.PhoneNames|
    ensures FirstSelected(c.host).None? ==> r == (c, prefabsIdx)
    ensures FirstSelected(c.host).Some? ==>
              0 <= r.1 < |tags| && |r.0.host| == |c.host| &&
              r.0.host[|c.host| - 1] == HostEntry(newKey, tags[r.1], true)
  {
    match FirstSelected(c.host)
    case None => (c, prefabsIdx)
    case Some(h) =>
      var e := c.host[h];
      var idx := Prefabs.WrapIndex(prefabsIdx, increment, |Prefabs.PhoneNames|);
      Prefabs.WrapIndexInRange(prefabsIdx, increment, |Prefabs.PhoneNames|);
      var tag := tags[idx];
      var host := Delete(c.host, h) + [HostEntry(newKey, tag, true)];
      var path := AppendToPath(TakeFromPath(c.path, e, renumber), newKey, tag, lastPos);
      (Config(host, path), idx)
  }

  /** The removal half of `ChangePrefab`: a Hint or Goal found in the path
      list is deleted, the ids above its id lowered when `renumber` holds. */
  function TakeFromPath(path: seq<Placed>, e: HostEntry, renumber: bool): (r: seq<Placed>)
    ensures !OnPath(e.tag) || IndexOfKey(path, e.key).None? ==> r == path
    ensures OnPath(e.tag) && IndexOfKey(path, e.key).Some? && !renumber ==>
              r == Delete(path, IndexOfKey(path, e.key).value)
    ensures Canonical(path) && renumber ==> Canonical(r)
  {
    if !OnPath(e.tag) then path
    else match IndexOfKey(path, e.key)
      case None => path
      case Some(q) =>
        if renumber then
          var r := DecrementAbove(Delete(path, q), path[q].id);
          assert Canonical(path) ==> r == Renumber(Delete(path, q)) by {
            if Canonical(path) {
              DecrementIsRenumber(path, q);
            }
          }
          r
        else Delete(path, q)
  }

  /** The insertion half of `ChangePrefab`: a new Hint or Goal goes to the
      end of the path list with id = the new count. */
  function AppendToPath(path: seq<Placed>, key: nat, tag: Tag, pos: Point): (r: seq<Placed>)
    ensures OnPath(tag) ==> r == path + [Placed(key, tag, |path| + 1, pos)]
    ensures !OnPath(tag) ==> r == path
    ensures Canonical(path) ==> Canonical(r)
  {
    if OnPath(tag) then path + [Placed(key, tag, |path| + 1, pos)] else path
  }

  /** On a canonical list, deleting position q and lowering the ids above
      the deleted id is deleting and renumbering. */
  lemma DecrementIsRenumber(path: seq<Placed>, q: nat)
    requires Canonical(path) && q < |path|
    ensures DecrementAbove(Delete(path, q), path[q].id) == Renumber(Delete(path, q))
  {
    var r := DecrementAbove(Delete(path, q), path[q].id);
    var w := Renumber(Delete(path, q));
    forall k | 0 <= k < |w|
      ensures r[k] == w[k]
    {
    }
  }

  function ChangePrefabAsWritten(c: Config, prefabsIdx: int, increment: int, tags: seq<Tag>,
                                 newKey: nat, lastPos: Point): (r: (Config, int))
    requires |tags| == |Prefabs.PhoneNames|
    ensures FirstSelected(c.host).None? ==> r == (c, prefabsIdx)
  {
    ChangePrefabWith(c, prefabsIdx, increment, tags, newKey, lastPos, false)
  }

  /** The prefab change with the removal renumbering as `remove` does. */
  function ChangePrefab(c: Config, prefabsIdx: int, increment: int, tags: seq<Tag>,
                        newKey: nat, lastPos: Point): (r: (Config, int))
    requires |tags| == |Prefabs.PhoneNames|
    ensures FirstSelected(c.host).None? ==> r == (c, prefabsIdx)
  {
    ChangePrefabWith(c, prefabsIdx, increment, tags, newKey, lastPos, true)
  }

  /** The corrected change keeps a canonical path list canonical: the
      replaced Hint or Goal is deleted with renumbering, and a new one goes
      to the end with id N. */
  lemma ChangePrefabKeepsCanonical(c: Config, prefabsIdx: int, increment: int, tags: seq<Tag>,
                                   newKey: nat, lastPos: Point)
    requires |tags| == |Prefabs.PhoneNames|
    requires Canonical(c.path)
    ensures Canonical(ChangePrefab(c, prefabsIdx, increment, tags, newKey, lastPos).0.path)
  {
  }

  /** As written, replacing a Hint or Goal that is not the last of the path
      leaves the ids short of a permutation of 1..N: id N stays on the old
      last object, and a new Hint or Goal gets id N as well. */
  lemma ChangePrefabAsWrittenBreaksIds(c: Config, prefabsIdx: int, increment: int, tags: seq<Tag>,
                                       newKey: nat, lastPos: Point, h: nat, q: nat)
    requires |tags| == |Prefabs.PhoneNames|
    requires Canonical(c.path)
    requires FirstSelected(c.host) == Some(h) && OnPath(c.host[h].tag)
    requires IndexOfKey(c.path, c.host[h].key) == Some(q)
    requires q + 1 < |c.path|
    ensures !IdsArePermutation(ChangePrefabAsWritten(c, prefabsIdx, increment, tags, newKey, lastPos).0.path)
  {
    var path := Delete(c.path, q);
    var idx := Prefabs.WrapIndex(prefabsIdx, increment, |Prefabs.PhoneNames|);
    Prefabs.WrapIndexInRange(prefabsIdx, increment, |Prefabs.PhoneNames|);
    assert ChangePrefabAsWritten(c, prefabsIdx, increment, tags, newKey, lastPos).0.path ==
           AppendToPath(path, newKey, tags[idx], lastPos);
    DeleteNotLastBreaksIds(c.path, q, newKey, tags[idx], lastPos);
  }

  /** Deleting any object but the last of a canonical list without
      renumbering, then appending as `ChangePrefab` does, leaves the old
      last id N in place: either twice, or above the new count. */
  lemma DeleteNotLastBreaksIds(s: seq<Placed>, q: nat, key: nat, tag: Tag, pos: Point)
    requires Canonical(s) && q + 1 < |s|
    ensures !IdsArePermutation(AppendToPath(Delete(s, q), key, tag, pos))
  {
    var n := |s|;
    var path := Delete(s, q);
    assert path[n - 2].id == n;
    var r := AppendToPath(path, key, tag, pos);
    if OnPath(tag) {
      assert r[n - 1].id == n && r[n - 2].id == n;
      DuplicateIdNotPermutation(r, n - 2, n - 1);
    } else {
      assert n in multiset(Ids(r)) by {
        assert Ids(r)[n - 2] == n;
      }
      assert n !in OneTo(n - 1);
    }
  }
}
