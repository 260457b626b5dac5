/** The desktop application's anchor file handling: reading anchor ids and
    poses out of a cloud configuration file (`setFile`), associating every
    placed object with its nearest anchor (`associateAnchor`), grouping the
    objects per anchor and naming the record each anchor is saved as
    (`writeInFile`). */
module AnchorFile {
  import opened Wrappers
  import opened Geometry
  import opened Text
  import opened Records

  /** The separators `setFile` splits the first file line by. */
  const AnchorInfoKey: String := "anchorInfo"
  const IdKey: String := "Id\":\""
  const XKey: String := "anchorX\":"
  const YKey: String := "anchorY\":"
  const ZKey: String := "anchorZ\":"
  const RotKey: String := "anchorRotY\":"

  /** An `AnchorInstantionHelper`: the id and the four pose numbers, kept as
      the text `float.Parse` receives. */
  datatype AnchorHelper = AnchorHelper(id: String, x: String, y: String, z: String, rot: String)

  /** `piece.Substring(0, piece.IndexOf(stop))`; `None` where C# throws
      because the character is missing. */
  function ValueBefore(piece: String, stop: char): (r: Option<String>)
    ensures r.Some? ==> stop !in r.value && |r.value| < |piece| && piece[..|r.value| + 1] == r.value + [stop]
    ensures r.None? <==> stop !in piece
  {
    match IndexOfChar(piece, stop)
    case None => None
    case Some(k) => Some(piece[..k])
  }

  /** The value of the i-th occurrence of `key`: piece i of the split,
      cut at `stop`. `None` where C# throws (too few pieces, or no stop). */
  function FieldAt(line: String, key: String, stop: char, i: nat): (r: Option<String>)
    requires |key| > 0
    ensures r.Some? ==> stop !in r.value
    ensures i >= |Split(line, key)| ==> r.None?
  {
    var pieces := Split(line, key);
    if i < |pieces| then ValueBefore(pieces[i], stop) else None
  }

  /** The helper for the i-th anchor: all five fields, or `None` when any
      one of them cannot be read. */
  function HelperAt(line: String, i: nat): (r: Option<AnchorHelper>)
    ensures r.Some? <==> FieldAt(line, IdKey, '"', i).Some? && FieldAt(line, XKey, ',', i).Some? &&
                         FieldAt(line, YKey, ',', i).Some? && FieldAt(line, ZKey, ',', i).Some? &&
                         FieldAt(line, RotKey, ',', i).Some?
    ensures r.Some? ==> '"' !in r.value.id && ',' !in r.value.x && ',' !in r.value.y &&
                        ',' !in r.value.z && ',' !in r.value.rot
  {
    var id :- FieldAt(line, IdKey, '"', i);
    var x :- FieldAt(line, XKey, ',', i);
    var y :- FieldAt(line, YKey, ',', i);
    var z :- FieldAt(line, ZKey, ',', i);
    var rot :- FieldAt(line, RotKey, ',', i);
    Some(AnchorHelper(id, x, y, z, rot))
  }

  /** What `setFile` leaves behind in cloud mode: the anchor count, the
      helpers added, and whether the loop ran to its end (an exception
      leaves the helpers added before it). */
  datatype Scan = Scan(numOfAnchors: nat, helpers: seq<AnchorHelper>, complete: bool)

  /** The loop over the entries `hs[from..]`, where entry k is the helper
      of anchor k + 1: helpers are added in order until the first one that
      cannot be read. */
  function ScanFrom(hs: seq<Option<AnchorHelper>>, from: nat): (r: (seq<AnchorHelper>, bool))
    requires from <= |hs|
    ensures from + |r.0| <= |hs|
    ensures r.1 <==> from + |r.0| == |hs|
    ensures forall j :: 0 <= j < |r.0| ==> hs[from + j] == Some(r.0[j])
    ensures !r.1 ==> hs[from + |r.0|].None?
    decreases |hs| - from
  {
    if from == |hs| then ([], true)
    else if hs[from].None? then ([], false)
    else
      var rest := ScanFrom(hs, from + 1);
      assert forall j :: 1 <= j < 1 + |rest.0| ==> ([hs[from].value] + rest.0)[j] == rest.0[j - 1];
      ([hs[from].value] + rest.0, rest.1)
  }

  /** `setFile` in cloud mode: the anchor count is the number of
      "anchorInfo" matches, and anchor i (1-based) takes the i-th value of
      each field. */
  function ScanAnchors(line: String): (r: Scan)
    ensures r.numOfAnchors == CountMatches(line, AnchorInfoKey)
    ensures r.complete <==> |r.helpers| == r.numOfAnchors
    ensures forall j :: 0 <= j < |r.helpers| ==> HelperAt(line, j + 1) == Some(r.helpers[j])
    ensures !r.complete ==> |r.helpers| < r.numOfAnchors && HelperAt(line, |r.helpers| + 1).None?
  {
    var n := CountMatches(line, AnchorInfoKey);
    var s := ScanFrom(Entries(line, n), 0);
    Scan(n, s.0, s.1)
  }

  /** The helpers of anchors 1..n, read or not. */
  function Entries(line: String, n: nat): (hs: seq<Option<AnchorHelper>>)
    ensures |hs| == n
    ensures forall k :: 0 <= k < n ==> hs[k] == HelperAt(line, k + 1)
  {
    if n == 0 then [] else Entries(line, n - 1) + [HelperAt(line, n)]
  }

  /** A field written as `key value stop ...` after a text that ends
      cleanly is read back as `value`. */
  lemma FieldAtJoin(ps: seq<String>, key: String, stop: char, i: nat, v: String, t: String)
    requires |key| > 0
    requires CleanPieces(ps, key)
    requires 1 <= i < |ps| && ps[i] == v + [stop] + t && stop !in v
    ensures FieldAt(Join(ps, key), key, stop, i) == Some(v)
  {
    JoinSplit(ps, key);
    var k := IndexOfChar(ps[i], stop);
    assert ps[i][|v|] == stop;
    assert ps[i][..|v|] == v;
  }

  /** The number of separators a clean join holds is one less than the
      number of pieces. */
  lemma CountInJoin(ps: seq<String>, key: String)
    requires |key| > 0
    requires CleanPieces(ps, key)
    ensures CountMatches(Join(ps, key), key) == |ps| - 1
  {
    JoinSplit(ps, key);
    CountMatchesIsCuts(Join(ps, key), key);
  }

  // ---------------------------------------------------------------------
  // Association with the nearest anchor

  /** `calculate3dDistance` is compared with 9999; on squares that is
      9999 squared. */
  const FarSq: real := 9999.0 * 9999.0

  /** `associateAnchor` for one object: the anchors are scanned in order and
      an anchor is taken whenever it is strictly closer than the best so far,
      starting from 9999. The result is the first closest anchor, or none
      when every anchor is at least 9999 away. */
  method AssociateAnchor(go: Point, anchors: seq<Point>) returns (assoc: Option<nat>)
    ensures assoc.Some? ==> assoc.value < |anchors|
    ensures assoc.Some? ==> SqDist(go, anchors[assoc.value]) < FarSq
    ensures assoc.Some? ==> forall j :: 0 <= j < |anchors| ==>
              SqDist(go, anchors[assoc.value]) <= SqDist(go, anchors[j])
    ensures assoc.Some? ==> forall j :: 0 <= j < assoc.value ==>
              SqDist(go, anchors[assoc.value]) < SqDist(go, anchors[j])
    ensures assoc.None? <==> forall j :: 0 <= j < |anchors| ==> SqDist(go, anchors[j]) >= FarSq
  {
    var distance := FarSq;
    assoc := None;
    var i := 0;
    while i < |anchors|
      invariant 0 <= i <= |anchors|
      invariant assoc.None? ==> distance == FarSq
      invariant assoc.Some? ==> assoc.value < i && distance == SqDist(go, anchors[assoc.value]) < FarSq
      invariant forall j :: 0 <= j < i ==> distance <= SqDist(go, anchors[j])
      invariant assoc.Some? ==> forall j :: 0 <= j < assoc.value ==> distance < SqDist(go, anchors[j])
      invariant assoc.None? ==> forall j :: 0 <= j < i ==> SqDist(go, anchors[j]) >= FarSq
    {
      var d := SqDist(go, anchors[i]);
      if distance > d {
        distance := d;
        assoc := Some(i);
      }
      i := i + 1;
    }
  }

  /** Every object, in `goS` order, each with the first of its nearest
      anchors as `AssociateAnchor` picks it. */
  method AssociateAll(gos: seq<Point>, anchors: seq<Point>) returns (assoc: seq<Option<nat>>)
    ensures |assoc| == |gos|
    ensures forall i :: 0 <= i < |gos| && assoc[i].Some? ==>
              assoc[i].value < |anchors| &&
              SqDist(gos[i], anchors[assoc[i].value]) < FarSq &&
              (forall j :: 0 <= j < |anchors| ==> SqDist(gos[i], anchors[assoc[i].value]) <= SqDist(gos[i], anchors[j])) &&
              forall j :: 0 <= j < assoc[i].value ==> SqDist(gos[i], anchors[assoc[i].value]) < SqDist(gos[i], anchors[j])
    ensures forall i :: 0 <= i < |gos| ==>
              (assoc[i].None? <==> forall j :: 0 <= j < |anchors| ==> SqDist(gos[i], anchors[j]) >= FarSq)
  {
    assoc := [];
    var i := 0;
    while i < |gos|
      invariant 0 <= i <= |gos| && |assoc| == i
      invariant forall k :: 0 <= k < i && assoc[k].Some? ==>
                  assoc[k].value < |anchors| &&
                  SqDist(gos[k], anchors[assoc[k].value]) < FarSq &&
                  (forall j :: 0 <= j < |anchors| ==> SqDist(gos[k], anchors[assoc[k].value]) <= SqDist(gos[k], anchors[j])) &&
                  forall j :: 0 <= j < assoc[k].value ==> SqDist(gos[k], anchors[assoc[k].value]) < SqDist(gos[k], anchors[j])
      invariant forall k :: 0 <= k < i ==>
                  (assoc[k].None? <==> forall j :: 0 <= j < |anchors| ==> SqDist(gos[k], anchors[j]) >= FarSq)
    {
      var a := AssociateAnchor(gos[i], anchors);
      assoc := assoc + [a];
      i := i + 1;
    }
  }

  /** The objects `writeInFile` saves under anchor k: those associated with
      it, in association order. */
  function ObjectsOf(objs: seq<Hosted>, assoc: seq<Option<nat>>, k: nat): (r: seq<Hosted>)
    requires |assoc| == |objs|
    ensures |r| <= |objs|
    ensures forall x :: x in r <==> exists i :: 0 <= i < |objs| && objs[i] == x && assoc[i] == Some(k)
  {
    if |objs| == 0 then []
    else
      var n := |objs| - 1;
      var init := ObjectsOf(objs[..n], assoc[..n], k);
      assert forall i :: 0 <= i < n ==> objs[..n][i] == objs[i] && assoc[..n][i] == assoc[i];
      if assoc[n] == Some(k) then init + [objs[n]] else init
  }

  /** Summed over the anchors, the groups hold every associated object once:
      an object with no anchor within 9999 is saved under none. */
  lemma {:induction false} GroupsPartition(objs: seq<Hosted>, assoc: seq<Option<nat>>, m: nat)
    requires |assoc| == |objs|
    requires forall i :: 0 <= i < |assoc| && assoc[i].Some? ==> assoc[i].value < m
    ensures SumGroups(objs, assoc, m) == Associated(assoc)
    decreases |objs|
  {
    if |objs| > 0 {
      var n := |objs| - 1;
      assert forall i :: 0 <= i < n ==> assoc[..n][i] == assoc[i];
      GroupsPartition(objs[..n], assoc[..n], m);
      SumGroupsLast(objs, assoc, m, m);
      assert Associated(assoc) == Associated(assoc[..n]) + (if assoc[n].Some? then 1 else 0);
    } else {
      SumGroupsEmpty(objs, assoc, m);
    }
  }

  /** With no objects every group is empty. */
  lemma {:induction false} SumGroupsEmpty(objs: seq<Hosted>, assoc: seq<Option<nat>>, m: nat)
    requires |assoc| == |objs| == 0
    ensures SumGroups(objs, assoc, m) == 0
    decreases m
  {
    if m > 0 {
      SumGroupsEmpty(objs, assoc, m - 1);
    }
  }

  /** Total size of the groups of anchors 0..m-1. */
  function SumGroups(objs: seq<Hosted>, assoc: seq<Option<nat>>, m: nat): nat
    requires |assoc| == |objs|
  {
    if m == 0 then 0 else SumGroups(objs, assoc, m - 1) + |ObjectsOf(objs, assoc, m - 1)|
  }

  /** Number of objects with an anchor. */
  function Associated(assoc: seq<Option<nat>>): nat {
    if |assoc| == 0 then 0
    else Associated(assoc[..|assoc| - 1]) + (if assoc[|assoc| - 1].Some? then 1 else 0)
  }

  /** Adding one object adds one to exactly the group of its anchor. */
  lemma {:induction false} SumGroupsLast(objs: seq<Hosted>, assoc: seq<Option<nat>>, m: nat, bound: nat)
    requires |assoc| == |objs| > 0
    requires m <= bound
    ensures var n := |objs| - 1;
            SumGroups(objs, assoc, m) ==
            SumGroups(objs[..n], assoc[..n], m) +
            (if assoc[n].Some? && assoc[n].value < m then 1 else 0)
    decreases m
  {
    if m > 0 {
      SumGroupsLast(objs, assoc, m - 1, bound);
    }
  }

  /** The start object's pose: the frame anchor poses are written in. */
  datatype StartPose = StartPose(pos: Point, yaw: Yaw, rotY: real)

  /** A placed anchor's pose: position, yaw (as the unit pair and as the
      Euler angle), the other two Euler angles and the scale. */
  datatype AnchorPose = AnchorPose(pos: Point, yaw: Yaw, rotX: real, rotY: real, rotZ: real, scale: Point)

  /** The `AnchorFileInfo` written for an anchor: its offset from the start
      object in the start's frame, and its yaw relative to the start's. */
  function AnchorInfoOf(start: StartPose, a: AnchorPose): (info: AnchorFileInfo)
    ensures Add(start.pos, RotateAroundPoint(start.yaw, Point(info.anchorX, info.anchorY, info.anchorZ))) == a.pos
    ensures info.anchorY == a.pos.y - start.pos.y
    ensures info.anchorRotX == a.rotX && info.anchorRotY == a.rotY - start.rotY && info.anchorRotZ == a.rotZ
    ensures info.anchorScaleX == a.scale.x && info.anchorScaleY == a.scale.y && info.anchorScaleZ == a.scale.z
  {
    var p := SaveOffset(start.yaw, Sub(a.pos, start.pos));
    AnchorRoundTrip(start.yaw, start.pos, a.pos);
    AnchorFileInfo(p.x, p.y, p.z, a.rotX, a.rotY - start.rotY, a.rotZ, a.scale.x, a.scale.y, a.scale.z)
  }

  /** The objects of a group with their yaw taken relative to the anchor. */
  function RelativeYaw(group: seq<Hosted>, rotY: real): (r: seq<Hosted>)
    ensures |r| == |group|
    ensures forall i :: 0 <= i < |group| ==> r[i] == group[i].(rot := group[i].rot - rotY)
  {
    seq(|group|, i requires 0 <= i < |group| => group[i].(rot := group[i].rot - rotY))
  }

  /** The record `writeInFile` saves for the anchor at position `counter`
      with its group of objects: named from the counter, carrying the id
      read from the file for that position, or "id" + counter when no ids
      were read. Each object is stored so that resolving it against the
      anchor puts it back where it stood. `None` where the list of ids is
      shorter than the list of anchors and C# throws. */
  function WriteAnchor(counter: nat, ids: seq<AnchorHelper>, fileName: String,
                       start: StartPose, a: AnchorPose, group: seq<Hosted>): (r: Option<ThesisHistory>)
    ensures r.None? <==> 0 < |ids| <= counter
    ensures r.Some? ==> r.value.name == AnchorName(counter) && r.value.scenario == fileName
    ensures r.Some? && |ids| > 0 ==> r.value.id == ids[counter].id
    ensures r.Some? && |ids| == 0 ==> r.value.id == "id" + NatToString(counter)
    ensures r.Some? ==> |r.value.objects| == |group|
    ensures r.Some? ==> forall i :: 0 <= i < |group| ==>
              Resolve(a.pos, a.yaw, r.value.objects[i]) == group[i].pos &&
              r.value.objects[i].prefabName == group[i].prefab &&
              r.value.objects[i].rotation == group[i].rot - a.rotY
    ensures r.Some? ==> Add(start.pos, RotateAroundPoint(start.yaw, Point(r.value.anchorInfo.anchorX,
              r.value.anchorInfo.anchorY, r.value.anchorInfo.anchorZ))) == a.pos
  {
    var objects := SaveAll(a.pos, a.yaw, RelativeYaw(group, a.rotY));
    var info := AnchorInfoOf(start, a);
    if |ids| > 0 then
      if counter < |ids| then Some(NewHistory(AnchorName(counter), ids[counter].id, fileName, objects, Some(info)))
      else None
    else Some(NewHistory(AnchorName(counter), "id" + NatToString(counter), fileName, objects, Some(info)))
  }

  /** `writeInFile`: one record per anchor, in anchor order, each holding
      the group associated with it. The records appended before C# throws
      stay in the file; the flag says whether every anchor was written. */
  function WriteInFile(start: StartPose, anchors: seq<AnchorPose>, ids: seq<AnchorHelper>, fileName: String,
                       objs: seq<Hosted>, assoc: seq<Option<nat>>): (r: (seq<ThesisHistory>, bool))
    requires |assoc| == |objs|
    ensures r.1 <==> |ids| == 0 || |anchors| <= |ids|
    ensures |r.0| == if r.1 then |anchors| else |ids|
    ensures forall k :: 0 <= k < |r.0| ==>
              WriteAnchor(k, ids, fileName, start, anchors[k], ObjectsOf(objs, assoc, k)) == Some(r.0[k])
  {
    var n := if |ids| == 0 || |anchors| <= |ids| then |anchors| else |ids|;
    (seq(n, k requires 0 <= k < n => WriteAnchor(k, ids, fileName, start, anchors[k], ObjectsOf(objs, assoc, k)).value),
     n == |anchors|)
  }
}
