/** The persisted record types (`AnchorObject`, `AnchorFileInfo`,
    `MyThesisHistory`, `MyThesisHistoryCollection`), the monitoring message
    parts (`GameState`, `AuxPose`) and how a placed object becomes an
    `AnchorObject` when a configuration is saved. Unity's single-precision
    floats are modelled as reals. */
module Records {
  import opened Wrappers
  import opened Geometry
  import opened Scene

  type String = seq<char>

  /** One object of a saved configuration: prefab name, position relative to
      its anchor, yaw relative to its first rotation, scale, the deprecated
      path number and the Bézier index (the path id of a Hint or Goal, 0
      otherwise). */
  datatype AnchorObject = AnchorObject(
    prefabName: String,
    x: real, y: real, z: real,
    rotation: real,
    scaleX: real, scaleY: real, scaleZ: real,
    pathNumber: int,
    bezierNumber: int)

  /** The pose of an anchor: position, Euler rotation and scale. */
  datatype AnchorFileInfo = AnchorFileInfo(
    anchorX: real, anchorY: real, anchorZ: real,
    anchorRotX: real, anchorRotY: real, anchorRotZ: real,
    anchorScaleX: real, anchorScaleY: real, anchorScaleZ: real)

  /** `new AnchorFileInfo()`: every field zero. */
  const ZeroInfo := AnchorFileInfo(0.0, 0.0, 0.0, 0.0, 0.0, 0.0, 0.0, 0.0, 0.0)

  /** One anchor with its objects, in the field order the JSON carries. */
  datatype ThesisHistory = ThesisHistory(
    anchorInfo: AnchorFileInfo,
    name: String,
    scenario: String,
    id: String,
    objects: seq<AnchorObject>)

  /** The wrapper the phone keeps its history in. */
  datatype HistoryCollection = HistoryCollection(collection: seq<ThesisHistory>, dropdownOptions: seq<String>)

  /** A fresh collection holds nothing. */
  const EmptyCollection := HistoryCollection([], [])

  /** The `MyThesisHistory` constructor. It takes (name, id, scenario, ...)
      while the fields are declared (..., Name, Scenario, Id, ...): each
      argument lands in its own field, and an omitted pose is all zero. */
  function NewHistory(name: String, id: String, scenario: String,
                      objects: seq<AnchorObject>, info: Option<AnchorFileInfo>): (r: ThesisHistory)
    ensures r.name == name && r.id == id && r.scenario == scenario && r.objects == objects
    ensures info.None? ==> r.anchorInfo == ZeroInfo
    ensures info.Some? ==> r.anchorInfo == info.value
  {
    ThesisHistory(if info.Some? then info.value else ZeroInfo, name, scenario, id, objects)
  }

  // ---------------------------------------------------------------------
  // Monitoring message parts

  /** C#'s `(int)` cast of a real: truncation toward zero. */
  function Trunc(x: real): (n: int)
    ensures x >= 0.0 ==> n as real <= x < n as real + 1.0
    ensures x < 0.0 ==> n as real - 1.0 < x <= n as real
  {
    if x >= 0.0 then x.Floor else -((-x).Floor)
  }

  /** C#'s floating `%`: the remainder takes the sign of the dividend. */
  function FMod(a: real, b: real): real
    requires b != 0.0
  {
    a - b * Trunc(a / b) as real
  }

  /** Elapsed game time split into whole minutes and whole seconds. */
  datatype GameState = GameState(minutes: int, seconds: int, numCheckpoints: int, score: int)

  /** The `GameState` constructor: minutes = (int)(time / 60) and
      seconds = (int)(time % 60). */
  function NewGameState(score: int, time: real, numCheckpoints: int): (g: GameState)
    ensures g.score == score && g.numCheckpoints == numCheckpoints
    ensures time >= 0.0 ==> 0 <= g.seconds < 60 && 0 <= g.minutes
    ensures time >= 0.0 ==> g.minutes * 60 + g.seconds == time.Floor
  {
    var m := Trunc(time / 60.0);
    var rem := FMod(time, 60.0);
    if time >= 0.0 then
      assert m == (time / 60.0).Floor;
      SecondsSplit(time, m);
      GameState(m, Trunc(rem), numCheckpoints, score)
    else
      GameState(m, Trunc(rem), numCheckpoints, score)
  }

  lemma SecondsSplit(time: real, m: int)
    requires time >= 0.0 && m == (time / 60.0).Floor
    ensures 0 <= m
    ensures 0.0 <= time - 60.0 * m as real < 60.0
    ensures m * 60 + (time - 60.0 * m as real).Floor == time.Floor
  {
    var r := time - 60.0 * m as real;
    assert m as real <= time / 60.0 < m as real + 1.0;
    assert 60.0 * m as real <= time < 60.0 * m as real + 60.0;
    var k := r.Floor;
    assert (m * 60 + k) as real <= time < (m * 60 + k) as real + 1.0;
  }

  /** A negative time gives non-positive parts, each above -60 seconds. */
  lemma NegativeTime(score: int, time: real, numCheckpoints: int)
    requires time < 0.0
    ensures NewGameState(score, time, numCheckpoints).minutes <= 0
    ensures -60 < NewGameState(score, time, numCheckpoints).seconds <= 0
  {
    var m := Trunc(time / 60.0);
    var t := -time;
    assert m == -((t / 60.0).Floor);
    var k := (t / 60.0).Floor;
    assert k as real <= t / 60.0 < k as real + 1.0;
    assert 60.0 * k as real <= t < 60.0 * k as real + 60.0;
    assert FMod(time, 60.0) == time + 60.0 * k as real;
  }

  /** The pose carried by a monitoring message. */
  datatype AuxPose = AuxPose(positionX: real, positionY: real, positionZ: real,
                             rotationX: real, rotationY: real, rotationZ: real)

  // ---------------------------------------------------------------------
  // Saving a configuration

  /** What the save reads off one placed object. */
  datatype Hosted = Hosted(prefab: String, pos: Point, rot: real, scale: Point, tag: Tag, pathId: int)

  /** The `AnchorObject` written for an object: its offset from the anchor,
      turned into the anchor's frame; Bézier number = path id for a Hint or
      Goal, 0 otherwise. */
  function SaveObject(anchor: Point, a: Yaw, o: Hosted): (r: AnchorObject)
    ensures Add(anchor, RotateAroundPoint(a, Point(r.x, r.y, r.z))) == o.pos
    ensures XZNorm(Point(r.x, r.y, r.z)) == XZNorm(Sub(o.pos, anchor)) && r.y == o.pos.y - anchor.y
    ensures r.prefabName == o.prefab && r.rotation == o.rot
    ensures r.scaleX == o.scale.x && r.scaleY == o.scale.y && r.scaleZ == o.scale.z
    ensures r.pathNumber == 0
    ensures r.bezierNumber == if OnPath(o.tag) then o.pathId else 0
  {
    var p := SaveOffset(a, Sub(o.pos, anchor));
    AnchorRoundTrip(a, anchor, o.pos);
    SavePreservesXZNorm(a, Sub(o.pos, anchor));
    AnchorObject(o.prefab, p.x, p.y, p.z, o.rot, o.scale.x, o.scale.y, o.scale.z, 0,
                 if OnPath(o.tag) then o.pathId else 0)
  }

  /** Where an object lands when a saved record is resolved again: the
      anchor position plus the stored offset rotated back. */
  function Resolve(anchor: Point, a: Yaw, r: AnchorObject): Point {
    Add(anchor, RotateAroundPoint(a, Point(r.x, r.y, r.z)))
  }

  /** Every object of the host list, saved in list order. */
  function SaveAll(anchor: Point, a: Yaw, objs: seq<Hosted>): (r: seq<AnchorObject>)
    ensures |r| == |objs|
    ensures forall i :: 0 <= i < |objs| ==> Resolve(anchor, a, r[i]) == objs[i].pos
    ensures forall i :: 0 <= i < |objs| ==> r[i].prefabName == objs[i].prefab && r[i].rotation == objs[i].rot
    ensures forall i :: 0 <= i < |objs| ==>
              r[i].bezierNumber == if OnPath(objs[i].tag) then objs[i].pathId else 0
  {
    if |objs| == 0 then []
    else SaveAll(anchor, a, objs[..|objs| - 1]) + [SaveObject(anchor, a, objs[|objs| - 1])]
  }

  /** Decimal digits of a natural, as `int.ToString()` prints it. */
  function NatToString(n: nat): (s: String)
    ensures |s| >= 1
    ensures forall i :: 0 <= i < |s| ==> '0' <= s[i] <= '9'
    ensures |s| > 1 ==> s[0] != '0'
    decreases n
  {
    if n < 10 then [Digit(n)]
    else NatToString(n / 10) + [Digit(n % 10)]
  }

  function Digit(d: nat): (c: char)
    requires d < 10
    ensures '0' <= c <= '9'
  {
    ['0', '1', '2', '3', '4', '5', '6', '7', '8', '9'][d]
  }

  /** Reading decimal digits back. */
  function ParseNat(s: String): nat
    requires forall i :: 0 <= i < |s| ==> '0' <= s[i] <= '9'
  {
    if |s| == 0 then 0
    else ParseNat(s[..|s| - 1]) * 10 + ((s[|s| - 1] as int) - ('0' as int))
  }

  /** The printed counter reads back as itself, so distinct counters give
      distinct "CloudAnchor" names. */
  lemma {:induction false} NatToStringRoundTrip(n: nat)
    ensures ParseNat(NatToString(n)) == n
    decreases n
  {
    var s := NatToString(n);
    if n >= 10 {
      NatToStringRoundTrip(n / 10);
      assert s[..|s| - 1] == NatToString(n / 10);
    }
    DigitValue(n % 10);
  }

  lemma DigitValue(d: nat)
    requires d < 10
    ensures (Digit(d) as int) - ('0' as int) == d
  {
  }

  /** The name every saved anchor gets from its counter. */
  function AnchorName(count: nat): (s: String)
    ensures |s| > 11 && s[..11] == "CloudAnchor"
  {
    "CloudAnchor" + NatToString(count)
  }

  lemma AnchorNameInjective(m: nat, n: nat)
    requires AnchorName(m) == AnchorName(n)
    ensures m == n
  {
    assert AnchorName(m)[11..] == NatToString(m);
    assert AnchorName(n)[11..] == NatToString(n);
    NatToStringRoundTrip(m);
    NatToStringRoundTrip(n);
  }

  /** The record the phone writes after hosting without a cloud service:
      name from the history count, id "0", the chosen scenario, the saved
      objects and the anchor pose. */
  function HostRecord(count: nat, scenario: String, anchor: Point, a: Yaw,
                      objs: seq<Hosted>, info: AnchorFileInfo): (r: ThesisHistory)
    ensures r.name == AnchorName(count) && r.id == "0" && r.scenario == scenario
    ensures r.anchorInfo == info
    ensures |r.objects| == |objs|
    ensures forall i :: 0 <= i < |objs| ==> Resolve(anchor, a, r.objects[i]) == objs[i].pos
  {
    NewHistory(AnchorName(count), "0", scenario, SaveAll(anchor, a, objs), Some(info))
  }
}
