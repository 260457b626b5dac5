/** The desktop's replay of a monitoring log (`PerformanceFileReader`): the
    split of a log line holding several JSON messages, the nearest resolved
    object to the replayed player, and the counters `replay` and
    `eraseSimulation` reset. */
module Monitor {
  import opened Geometry
  import opened Text
  import Scene

  /** What separates two messages written back to back on one line. */
  const Glue: String := "}{"

  /** The split as written: with more than one piece, a piece equal to the
      last one gets "{" in front and every other piece gets "}" behind. */
  function SplitMessagesAsWritten(line: String): (r: seq<String>)
    ensures var ps := Split(line, Glue);
            |r| == |ps| &&
            (|ps| == 1 ==> r == ps) &&
            (|ps| > 1 ==> forall i :: 0 <= i < |ps| ==>
               r[i] == if ps[i] == ps[|ps| - 1] then "{" + ps[i] else ps[i] + "}")
  {
    var ps := Split(line, Glue);
    if |ps| == 1 then ps
    else seq(|ps|, i requires 0 <= i < |ps| => if ps[i] == ps[|ps| - 1] then "{" + ps[i] else ps[i] + "}")
  }

  /** Each piece with the braces the split took from it put back, by
      position: the first lost its closing brace, the last its opening
      one, every middle piece both. */
  function Reframe(ps: seq<String>): (r: seq<String>)
    requires |ps| >= 2
    ensures |r| == |ps|
    ensures r[0] == ps[0] + "}" && r[|ps| - 1] == "{" + ps[|ps| - 1]
    ensures forall i :: 0 < i < |ps| - 1 ==> r[i] == "{" + ps[i] + "}"
  {
    seq(|ps|, i requires 0 <= i < |ps| =>
      if i == 0 then ps[i] + "}" else if i == |ps| - 1 then "{" + ps[i] else "{" + ps[i] + "}")
  }

  /** The corrected split: one message per piece, framed by position. */
  function SplitMessages(line: String): (r: seq<String>)
    ensures |r| == |Split(line, Glue)|
    ensures |r| == 1 ==> r == [line]
  {
    var ps := Split(line, Glue);
    if |ps| == 1 then
      SplitJoin(line, Glue);
      ps
    else Reframe(ps)
  }

  /** Gluing framed messages back to back gives the joined pieces. */
  lemma {:induction false} ConcatReframe(ps: seq<String>)
    requires |ps| >= 2
    ensures Concat(Reframe(ps)) == Join(ps, Glue)
    decreases |ps|
  {
    var r := Reframe(ps);
    if |ps| == 2 {
      assert r == [ps[0] + "}", "{" + ps[1]];
      assert Concat(r) == r[0] + Concat(r[1..]);
      assert Concat(r[1..]) == r[1] + Concat(r[2..]);
      assert Join(ps, Glue) == ps[0] + Glue + Join(ps[1..], Glue);
    } else {
      ReframeTail(ps);
      ConcatReframe(ps[1..]);
      JoinFirstConcat(ps, Reframe(ps), Reframe(ps[1..]));
    }
  }

  /** Shifting a piece's leading "{" into the previous frame. */
  lemma ReframeTail(ps: seq<String>)
    requires |ps| >= 3
    ensures Reframe(ps) == [ps[0] + "}"] + ["{" + Reframe(ps[1..])[0]] + Reframe(ps[1..])[1..]
  {
    var r := Reframe(ps);
    var t := Reframe(ps[1..]);
    assert t[0] == ps[1] + "}";
    assert r[1] == "{" + ps[1] + "}";
    var w := [ps[0] + "}"] + ["{" + t[0]] + t[1..];
    assert |w| == |r|;
    forall i | 0 <= i < |r|
      ensures r[i] == w[i]
    {
      if i >= 2 {
        assert w[i] == t[i - 1];
      }
    }
    assert r == w;
  }

  /** Concat and Join unfolded by one frame: `r` is the framing of `ps`
      and `t` that of its tail. */
  lemma JoinFirstConcat(ps: seq<String>, r: seq<String>, t: seq<String>)
    requires |ps| >= 2 && |t| >= 1
    requires Concat(t) == Join(ps[1..], Glue)
    requires r == [ps[0] + "}"] + ["{" + t[0]] + t[1..]
    ensures Concat(r) == Join(ps, Glue)
  {
    GlueStep(ps[0], t, Join(ps[1..], Glue));
    JoinCons(ps, Glue);
  }

  /** Moving the "{" of the next frame back behind "}". */
  lemma GlueStep(p0: String, t: seq<String>, j: String)
    requires |t| >= 1 && Concat(t) == j
    ensures Concat([p0 + "}"] + ["{" + t[0]] + t[1..]) == p0 + Glue + j
  {
    var u := ["{" + t[0]] + t[1..];
    GlueHead(t, j);
    ConcatCons(p0 + "}", u);
    assert [p0 + "}"] + ["{" + t[0]] + t[1..] == [p0 + "}"] + u;
    GlueAssoc(p0, j);
  }

  lemma GlueHead(t: seq<String>, j: String)
    requires |t| >= 1 && Concat(t) == j
    ensures Concat(["{" + t[0]] + t[1..]) == "{" + j
  {
    var u := t[1..];
    assert [t[0]] + u == t;
    ConcatCons(t[0], u);
    BraceFirst(t[0], u);
  }

  lemma BraceFirst(a: String, u: seq<String>)
    ensures Concat(["{" + a] + u) == "{" + (a + Concat(u))
  {
    ConcatCons("{" + a, u);
    assert ("{" + a) + Concat(u) == "{" + (a + Concat(u));
  }

  lemma GlueAssoc(p0: String, j: String)
    ensures (p0 + "}") + ("{" + j) == p0 + Glue + j
  {
  }

  /** Messages that glue cleanly are split back exactly: for clean pieces,
      the corrected split of the joined line is the framed pieces, and those
      glued back to back are the line itself. */
  lemma SplitMessagesRoundTrip(ps: seq<String>)
    requires |ps| >= 2 && CleanPieces(ps, Glue)
    ensures SplitMessages(Join(ps, Glue)) == Reframe(ps)
    ensures Concat(SplitMessages(Join(ps, Glue))) == Join(ps, Glue)
  {
    JoinSplit(ps, Glue);
    ConcatReframe(ps);
  }

  /** A line holding one message passes through both splits unchanged. */
  lemma OneMessage(line: String)
    requires Free(line, Glue)
    ensures SplitMessagesAsWritten(line) == [line]
    ensures SplitMessages(line) == [line]
  {
    SplitFree(line, Glue);
  }

  /** Two messages whose pieces differ are split right by the code as
      written too. */
  lemma TwoMessagesAsWritten(p0: String, p1: String)
    requires CleanPieces([p0, p1], Glue) && p0 != p1
    ensures SplitMessagesAsWritten(Join([p0, p1], Glue)) == [p0 + "}", "{" + p1]
    ensures SplitMessages(Join([p0, p1], Glue)) == [p0 + "}", "{" + p1]
  {
    JoinSplit([p0, p1], Glue);
  }

  /** With three or more messages the code as written hands a middle
      message to the parser without its opening brace. */
  lemma MiddleMessageLosesBrace(ps: seq<String>)
    requires |ps| >= 3 && CleanPieces(ps, Glue)
    requires ps[1] != ps[|ps| - 1]
    ensures var r := SplitMessagesAsWritten(Join(ps, Glue));
            var c := SplitMessages(Join(ps, Glue));
            |r| == |c| == |ps| && r[1] == ps[1] + "}" && c[1] == "{" + ps[1] + "}" && r[1] != c[1]
  {
    JoinSplit(ps, Glue);
    MiddlePiece(Join(ps, Glue), ps);
  }

  lemma MiddlePiece(line: String, ps: seq<String>)
    requires Split(line, Glue) == ps
    requires |ps| >= 3 && ps[1] != ps[|ps| - 1]
    ensures var r := SplitMessagesAsWritten(line);
            var c := SplitMessages(line);
            |r| == |c| == |ps| && r[1] == ps[1] + "}" && c[1] == "{" + ps[1] + "}" && r[1] != c[1]
  {
    var r := SplitMessagesAsWritten(line);
    var c := SplitMessages(line);
    assert r[1] == ps[1] + "}";
    assert c[1] == "{" + ps[1] + "}";
    assert |r[1]| != |c[1]|;
  }

  /** The line "{a}{b}{c}": the middle message comes out as "b}". */
  lemma MiddleMessageExample()
    ensures SplitMessagesAsWritten("{a}{b}{c}")[1] == "b}"
  {
    var ps := ["{a", "b", "c}"];
    ExampleJoin();
    ExampleClean();
    MiddleMessageLosesBrace(ps);
  }

  lemma ExampleJoin()
    ensures Join(["{a", "b", "c}"], Glue) == "{a}{b}{c}"
  {
    var ps := ["{a", "b", "c}"];
    assert Join(ps[2..], Glue) == "c}";
    assert Join(ps[1..], Glue) == "b" + Glue + "c}";
  }

  lemma ExampleClean()
    ensures CleanPieces(["{a", "b", "c}"], Glue)
  {
    var ps := ["{a", "b", "c}"];
    assert NoneBefore(ps[0] + Glue, Glue, |ps[0]|) by {
      assert !OccursAt(ps[0] + Glue, Glue, 0) by { assert (ps[0] + Glue)[0] != Glue[0]; }
      assert !OccursAt(ps[0] + Glue, Glue, 1) by { assert (ps[0] + Glue)[1] != Glue[0]; }
    }
    assert NoneBefore(ps[1] + Glue, Glue, |ps[1]|) by {
      assert !OccursAt(ps[1] + Glue, Glue, 0) by { assert (ps[1] + Glue)[0] != Glue[0]; }
    }
    assert Free(ps[2], Glue) by {
      assert !OccursAt(ps[2], Glue, 0) by { assert ps[2][0] != Glue[0]; }
      assert !OccursAt(ps[2], Glue, 1);
      assert !OccursAt(ps[2], Glue, 2);
    }
  }

  // ---------------------------------------------------------------------
  // Nearest resolved object

  /** A resolved object of the replayed scene. */
  datatype Resolved = Resolved(tag: Scene.Tag, pos: Point)

  /** 99999, compared on squares. */
  const ClosestFarSq: real := 99999.0 * 99999.0

  /** Where the player stood: the logged position turned by the start yaw
      and placed at the start position. */
  function PlayerPos(angle: Yaw, coords: Point, start: Point): Point {
    Add(RotateAroundPoint(angle, coords), start)
  }

  /** `closest_object`: the first object with the tag at the smallest
      distance below 99999, or the first resolved object when none is. */
  method ClosestObject(resolved: seq<Resolved>, tag: Scene.Tag, angle: Yaw, coords: Point, start: Point)
    returns (closest: nat)
    requires |resolved| > 0
    ensures closest < |resolved|
    ensures var p := PlayerPos(angle, coords, start);
            (forall j :: 0 <= j < |resolved| && resolved[j].tag == tag ==> SqDist(resolved[j].pos, p) >= ClosestFarSq)
            ==> closest == 0
    ensures var p := PlayerPos(angle, coords, start);
            (exists j :: 0 <= j < |resolved| && resolved[j].tag == tag && SqDist(resolved[j].pos, p) < ClosestFarSq)
            ==> resolved[closest].tag == tag &&
                SqDist(resolved[closest].pos, p) < ClosestFarSq &&
                (forall j :: 0 <= j < |resolved| && resolved[j].tag == tag ==>
                   SqDist(resolved[closest].pos, p) <= SqDist(resolved[j].pos, p)) &&
                (forall j :: 0 <= j < closest && resolved[j].tag == tag ==>
                   SqDist(resolved[closest].pos, p) < SqDist(resolved[j].pos, p))
  {
    var p := PlayerPos(angle, coords, start);
    closest := 0;
    var found := false;
    var distance := ClosestFarSq;
    var i := 0;
    while i < |resolved|
      invariant 0 <= i <= |resolved| && closest < |resolved|
      invariant !found ==> closest == 0 && distance == ClosestFarSq
      invariant !found ==> forall j :: 0 <= j < i && resolved[j].tag == tag ==> SqDist(resolved[j].pos, p) >= ClosestFarSq
      invariant found ==> closest < i && resolved[closest].tag == tag && distance == SqDist(resolved[closest].pos, p) < ClosestFarSq
      invariant forall j :: 0 <= j < i && resolved[j].tag == tag ==> distance <= SqDist(resolved[j].pos, p)
      invariant found ==> forall j :: 0 <= j < closest && resolved[j].tag == tag ==> distance < SqDist(resolved[j].pos, p)
    {
      if resolved[i].tag == tag {
        var d := SqDist(resolved[i].pos, p);
        if distance > d {
          distance := d;
          closest := i;
          found := true;
        }
      }
      i := i + 1;
    }
  }

  // ---------------------------------------------------------------------
  // Replay counters

  /** The replay's counters: the next line, the last line whose message
      was handled, the frames since the last score change, the last score
      shown, the log lines and the number of resolved objects. */
  datatype Replayer = Replayer(lineCounter: int, lastLineCounter: int, scoreTimeCounter: int,
                               lastScore: int, lines: seq<String>, resolvedCount: nat)

  /** The state before anything is read. */
  const Initial := Replayer(0, -1, 0, 0, [], 0)

  /** `replay`: start over at the first line; nothing else changes. */
  function Replay(s: Replayer): (r: Replayer)
    ensures r.lineCounter == 0 && r.scoreTimeCounter == 0
    ensures r.lastLineCounter == s.lastLineCounter && r.lastScore == s.lastScore
    ensures r.lines == s.lines && r.resolvedCount == s.resolvedCount
  {
    s.(lineCounter := 0, scoreTimeCounter := 0)
  }

  /** `eraseSimulation`: every counter back to its initial value, no lines,
      no resolved objects. */
  function Erase(s: Replayer): (r: Replayer)
    ensures r == Initial
  {
    Replayer(0, -1, 0, 0, [], 0)
  }

  /** A line's message is handled only when its index differs from the
      last one handled. */
  predicate Handles(s: Replayer) {
    0 <= s.lineCounter < |s.lines| && s.lastLineCounter != s.lineCounter
  }

  /** Erasing and loading lines again handles the first line; a replay
      does so exactly when the last line handled was not the first. */
  lemma FirstLineHandled(s: Replayer, lines: seq<String>)
    requires |lines| > 0 && |s.lines| > 0
    ensures Handles(Erase(s).(lines := lines))
    ensures Handles(Replay(s)) <==> s.lastLineCounter != 0
  {
  }
}
