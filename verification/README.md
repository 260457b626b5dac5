# Thesis: the route, anchor and monitoring core in Dafny

This project models the core logic of the Thesis applications:

- **Phone game.** Players place virtual objects around an AR anchor. Arrows ("Hint") and checkpoints ("Goal") carry path ids 1..N that order the route. The route is drawn as piecewise Bézier curves. Configurations are saved as `MyThesisHistory` records. Play is scored with an off-road penalty and a per-checkpoint bonus.
- **Desktop editor.** It reads the anchors of a saved file (`setFile`) and places them within a budget (`numOfAnchors`). It associates every object with its nearest anchor and writes one record per anchor (`writeInFile`).
- **Desktop replay.** It splits the recorded monitoring lines into messages, finds the closest object and resets its counters.
- **Monitoring server.** It frames the received stream into messages at the end-of-message marker.

Positions are exact reals. A yaw is a point (cos a, sin a) on the unit circle, so every rotation result is an exact identity. Collections are sequences. Unity's mutable scene state becomes immutable values passed in and returned.

The modules are:

- `Geometry`: points and the yaw matrices.
- `Text`: string splitting with `StringSplitOptions.None`, joining and counting.
- `Scene`: tags, placed objects, sorting by id.
- `Bezier`, `Curve`: the curve and its segments.
- `Change`: `configChanged`.
- `Prefabs`: the prefab name arrays and maps.
- `PathIds`: the phone's path-id bookkeeping.
- `Records`: the persisted record types.
- `History`: history storage and `chosenScenario`.
- `AnchorFile`: `setFile`, `associateAnchor`, `writeInFile`.
- `Budget`: the anchor budget.
- `Rules`: the off-road and bonus scoring rules.
- `Monitor`: the desktop replay.
- `Framer`: the server.
- `Wrappers`: `Option`.

## Model

| member | source | states |
|---|---|---|
| Geometry.SaveOffset | PhoneApplication/Assets/Scripts/Gameplay.cs:1515-1527 | the save matrix with rows (c, 0, -s), (0, 1, 0), (s, 0, c): height kept, x and z turned by the yaw; RotateUndoesSave and SaveUndoesRotate make it the inverse of the rotate-back |
| Geometry.RotateAroundPoint | DesktopApplication/Assets/Scripts/PerformanceFileReader.cs:453-465 | rotating back keeps the height and applies the transpose of the matrix the save uses |
| Geometry.RotateUndoesSave | PhoneApplication/Assets/Scripts/Gameplay.cs:1515-1527 | For every yaw and offset, rotating the saved offset back with the same yaw gives the original offset. |
| Geometry.SaveUndoesRotate | DesktopApplication/Assets/Scripts/PerformanceFileReader.cs:453-465 | the two matrices are inverse in the other order too |
| Geometry.RotatePreservesXZNorm | DesktopApplication/Assets/Scripts/PerformanceFileReader.cs:453-465 | rotating back keeps the horizontal distance to the anchor |
| Geometry.SavePreservesXZNorm | PhoneApplication/Assets/Scripts/Gameplay.cs:1515-1527 | the save rotation keeps the horizontal distance to the anchor |
| Geometry.AnchorRoundTrip | PhoneApplication/Assets/Scripts/Gameplay.cs:1515-1527 | anchor + rotate(save(p - anchor)) == p for every yaw, anchor and point |
| Text.Split | PhoneApplication/Assets/Scripts/Gameplay.cs:2109 | split with a literal separator never yields an empty array |
| Text.SplitJoin | PhoneApplication/Assets/Scripts/Gameplay.cs:2109 | joining the pieces with the separator gives the string back |
| Text.SplitPiecesFree | PhoneApplication/Assets/Scripts/Gameplay.cs:2109 | no piece of a split contains the separator |
| Text.JoinSplit | PhoneApplication/Assets/Scripts/Gameplay.cs:2109 | pieces that glue back unambiguously split back into themselves |
| Text.SplitFree | DesktopApplication/Assets/Scripts/PerformanceFileReader.cs:142 | a string without the separator splits into itself alone |
| Text.CountMatchesIsCuts | DesktopApplication/Assets/Scripts/bezier.cs:710-711 | the regex match count of a literal pattern is the number of pieces minus one |
| Text.IndexOfChar | DesktopApplication/Assets/Scripts/bezier.cs:718 | the index is the first occurrence of the character, None exactly when it is absent |
| Scene.SortById | PhoneApplication/Assets/Scripts/Gameplay.cs:2578 | sorting by id gives an ordered list with the same elements |
| Scene.SortKeepsPermutation | PhoneApplication/Assets/Scripts/Gameplay.cs:2578 | sorting keeps the multiset of ids, so a permutation of 1..N stays one |
| Scene.SortSorted | PhoneApplication/Assets/Scripts/Gameplay.cs:2578 | sorting an already ordered list changes nothing |
| Scene.SortMakesCanonical | PhoneApplication/Assets/Scripts/Gameplay.cs:2578 | sorting a list whose ids are a permutation of 1..N puts id i+1 at position i |
| Scene.CanonicalProperties | PhoneApplication/Assets/Scripts/Gameplay.cs:1340-1344 | a list numbered by position is sorted, has distinct ids and ids exactly 1..N |
| Bezier.Binomial | PhoneApplication/Assets/Scripts/Gameplay.cs:2768-2781 | the recursion is at least 1 on and below the diagonal |
| Bezier.BinomialFactorial | PhoneApplication/Assets/Scripts/Gameplay.cs:2768-2781 | the recursion computes n! / (k! (n-k)!) |
| Bezier.BinomialSymmetric | PhoneApplication/Assets/Scripts/Gameplay.cs:2768-2781 | C(n, k) == C(n, n-k) |
| Bezier.CalculateNBezierPoint | PhoneApplication/Assets/Scripts/Gameplay.cs:2751-2759 | the loop computes the Bernstein sum of list[0..n]; at t=0 it is list[0] and at t=1 list[n] |
| Bezier.StartsAtFirst | PhoneApplication/Assets/Scripts/Gameplay.cs:2751-2759 | every curve starts at its first control point |
| Bezier.EndsAtLast | PhoneApplication/Assets/Scripts/Gameplay.cs:2751-2759 | every curve ends at its last control point |
| Bezier.Linear | PhoneApplication/Assets/Scripts/Gameplay.cs:2751-2759 | two control points give the straight segment (1-t) P0 + t P1 |
| Curve.WithTag | PhoneApplication/Assets/Scripts/Gameplay.cs:2785-2800 | the filtered list holds exactly the objects with the tag |
| Curve.FillGoalsAndControls | PhoneApplication/Assets/Scripts/Gameplay.cs:2785-2800 | controls are the Hints and goals the Goals, each in scene order |
| Curve.CountOnPathSplit | PhoneApplication/Assets/Scripts/Gameplay.cs:2785-2800 | every path object lands in exactly one of the two lists |
| Curve.StartHelper | PhoneApplication/Assets/Scripts/Gameplay.cs:2690-2696 | the first segment opens with an id-0 helper at the first goal's height above the origin |
| Curve.Between | PhoneApplication/Assets/Scripts/Gameplay.cs:2697-2717 | a control is gathered exactly when its id lies strictly between the segment's bounds |
| Curve.GatherIsSorted | PhoneApplication/Assets/Scripts/Gameplay.cs:2697-2717 | re-sorting after every insertion gives the start followed by the sorted in-between controls |
| Curve.SegmentShape | PhoneApplication/Assets/Scripts/Gameplay.cs:2683-2718 | segment j is the previous goal (or the helper), the sorted controls between, then goal j |
| Curve.ExactlyOneSegment | PhoneApplication/Assets/Scripts/Gameplay.cs:2699-2715 | with increasing goal ids, an id below the last goal that is no goal's id is in exactly one segment |
| Curve.HintInExactlyOneSegment | PhoneApplication/Assets/Scripts/Gameplay.cs:2697-2718 | such a Hint is drawn in exactly the segment whose id range holds it |
| Curve.DrawNCurve | PhoneApplication/Assets/Scripts/Gameplay.cs:2678-2723 | the line has numPoints * m slots and slot k holds the sample it names |
| Curve.DrawSegment | PhoneApplication/Assets/Scripts/Gameplay.cs:2719-2723 | the inner loop appends samples 1..numPoints of one segment and keeps what came before |
| Curve.SlotOfSample | PhoneApplication/Assets/Scripts/Gameplay.cs:2722 | slot (i-1) + j*numPoints holds sample i of segment j |
| Curve.LastSampleIsGoal | PhoneApplication/Assets/Scripts/Gameplay.cs:2718-2723 | the last sample of every segment is that segment's goal |
| Change.DiffersFrom | PhoneApplication/Assets/Scripts/Gameplay.cs:2819-2830 | the scan reports a change exactly when some pair from the start index on differs |
| Change.ConfigChanged | PhoneApplication/Assets/Scripts/Gameplay.cs:2806-2837 | reports a change exactly when the count or some position or name differs; the shadow list becomes the current list |
| Change.SecondCallUnchanged | PhoneApplication/Assets/Scripts/Gameplay.cs:2806-2837 | a second call with no edit in between reports no change |
| Prefabs.NamesDistinct | DesktopApplication/Assets/Scripts/Prefabs.cs:36 | each application's array holds six distinct names |
| Prefabs.SameNamesSwappedIndices | PhoneApplication/Assets/Scripts/Prefabs.cs:27 | the two arrays hold the same names with Stop and Spotlight at swapped indices |
| Prefabs.MapAdd | DesktopApplication/Assets/Scripts/Prefabs.cs:53 | Dictionary.Add succeeds exactly when the key is new, and then maps it to the value |
| Prefabs.AddAllDistinct | DesktopApplication/Assets/Scripts/Prefabs.cs:53-64 | adding distinct fresh names never throws and maps each name to its value |
| Prefabs.DesktopStart | DesktopApplication/Assets/Scripts/Prefabs.cs:51-65 | both desktop maps get keyed by exactly the six names |
| Prefabs.PhoneStart | PhoneApplication/Assets/Scripts/Prefabs.cs:37-45 | the phone map gets keyed by exactly the six names |
| Prefabs.WrapIndex | PhoneApplication/Assets/Scripts/Gameplay.cs:1602-1610 | a step that stays in range is taken as is |
| Prefabs.WrapIndexInRange | PhoneApplication/Assets/Scripts/Gameplay.cs:1602-1610 | the wrapped index always indexes the array, and a unit step cycles |
| PathIds.FirstSelected | PhoneApplication/Assets/Scripts/Gameplay.cs:2859-2875 | the first selected host object; None exactly when none is selected |
| PathIds.Place | PhoneApplication/Assets/Scripts/Gameplay.cs:1336-1344 | a placed Hint or Goal is appended with id N+1, so a numbered-by-position list stays so |
| PathIds.Remove | PhoneApplication/Assets/Scripts/Gameplay.cs:2856-2890 | the first selected object leaves the host list |
| PathIds.RemoveIsRenumberedDelete | PhoneApplication/Assets/Scripts/Gameplay.cs:2856-2890 | removing a path object and decrementing the ids above it is deletion followed by renumbering |
| PathIds.RemoveKeepsOtherPath | PhoneApplication/Assets/Scripts/Gameplay.cs:2856-2890 | removing an object that is not on the path leaves the path untouched |
| PathIds.MoveToMultiset | PhoneApplication/Assets/Scripts/Gameplay.cs:2578 | moving one element keeps the list's elements |
| PathIds.SortIsMove | PhoneApplication/Assets/Scripts/Gameplay.cs:2578 | sorting a list whose ids are the post-move positions is the move itself, renumbered |
| PathIds.StepId | PhoneApplication/Assets/Scripts/Gameplay.cs:2490-2506 | the result is sorted by id and as long as the list; it fails exactly when the index written lies outside the list; a step with no neighbour to take only sorts |
| PathIds.StepIsMove | PhoneApplication/Assets/Scripts/Gameplay.cs:2490-2506 | the +/- id buttons swap the object with its neighbour and keep the ids 1..N by position |
| PathIds.TypedMoveAsWritten | PhoneApplication/Assets/Scripts/Gameplay.cs:2562-2579 | an out-of-range typed id leaves the list as it is |
| PathIds.TypedMove | PhoneApplication/Assets/Scripts/Gameplay.cs:2562-2579 | an out-of-range typed id leaves the list as it is |
| PathIds.TypedMoveIsMove | PhoneApplication/Assets/Scripts/Gameplay.cs:2562-2579 | typing id v moves the object to position v-1 and renumbers, keeping ids 1..N |
| PathIds.TypedMoveUpAgrees | PhoneApplication/Assets/Scripts/Gameplay.cs:2565-2569 | moving up, the code as written agrees with the corrected loop |
| PathIds.TypedMoveAsWrittenBreaksIds | PhoneApplication/Assets/Scripts/Gameplay.cs:2572-2575 | moving down by one or more, the code as written leaves a duplicate id |
| PathIds.TypedMoveAsWrittenExample | PhoneApplication/Assets/Scripts/Gameplay.cs:2572-2575 | ids 1..4, typing 2 for id 4 gives the ids 1, 2, 2, 4 |
| PathIds.DuplicateIdNotPermutation | PhoneApplication/Assets/Scripts/Gameplay.cs:2578 | a duplicate id survives sorting and rules out a permutation of 1..N |
| PathIds.ChangePrefabAsWritten | PhoneApplication/Assets/Scripts/Gameplay.cs:1583-1632 | with no selection, nothing changes |
| PathIds.ChangePrefab | PhoneApplication/Assets/Scripts/Gameplay.cs:1583-1632 | with no selection, nothing changes |
| PathIds.ChangePrefabKeepsCanonical | PhoneApplication/Assets/Scripts/Gameplay.cs:1583-1632 | the corrected prefab change keeps the path ids 1..N by position |
| PathIds.ChangePrefabAsWrittenBreaksIds | PhoneApplication/Assets/Scripts/Gameplay.cs:1592-1623 | replacing any path object but the last, as written, leaves ids that are not a permutation of 1..N |
| Records.NewHistory | DesktopApplication/Assets/Scripts/MyThesisHistory.cs:132-139 | every field is taken from its argument, with an all-zero pose by default |
| Records.Trunc | DesktopApplication/Assets/Scripts/Message.cs:105-106 | the (int) cast truncates toward zero |
| Records.NewGameState | DesktopApplication/Assets/Scripts/Message.cs:102-108 | for a non-negative time, minutes*60 + seconds is the whole seconds, with seconds in 0..59 |
| Records.NegativeTime | DesktopApplication/Assets/Scripts/Message.cs:105-106 | a negative time gives non-positive minutes and seconds above -60 |
| Records.SaveObject | PhoneApplication/Assets/Scripts/Gameplay.cs:1522-1544 | a saved object resolves back to its world position; prefab, scale and path id are kept |
| Records.SaveAll | PhoneApplication/Assets/Scripts/Gameplay.cs:1522-1544 | every host object is saved in order and resolves back to its position |
| Records.NatToString | PhoneApplication/Assets/Scripts/Gameplay.cs:1548 | the counter prints as decimal digits without a leading zero |
| Records.NatToStringRoundTrip | PhoneApplication/Assets/Scripts/Gameplay.cs:1548 | the printed counter reads back as itself |
| Records.AnchorNameInjective | PhoneApplication/Assets/Scripts/Gameplay.cs:1548 | distinct counters give distinct anchor names |
| Records.AnchorName | PhoneApplication/Assets/Scripts/Gameplay.cs:1548 | the name starts with "CloudAnchor" and has at least one character after it; AnchorNameInjective shows distinct counters give distinct names |
| Records.HostRecord | PhoneApplication/Assets/Scripts/Gameplay.cs:1513-1549 | the hosted record carries the counter's name, id "0", the scenario and objects that resolve back |
| History.SplitRecords | PhoneApplication/Assets/Scripts/Gameplay.cs:2109-2113 | every piece but the last is taken, with "]}" put back |
| History.SplitRecordsConcat | PhoneApplication/Assets/Scripts/Gameplay.cs:2109-2113 | a file of appended records splits back into exactly those records |
| History.GoalsIn | PhoneApplication/Assets/Scripts/Gameplay.cs:2120-2126 | counts at most one per object, and zero exactly when no object is a Goal |
| History.ForScenario | PhoneApplication/Assets/Scripts/Gameplay.cs:2115-2128 | the selected records are exactly those of the scenario |
| History.AddRecord | PhoneApplication/Assets/Scripts/Gameplay.cs:2117-2126 | a record of the scenario is appended to the selection; any other record leaves the selection as it is |
| History.ForScenarioCounts | PhoneApplication/Assets/Scripts/Gameplay.cs:2115-2128 | the checkpoint count is the number of Goals in the selected records |
| History.ForScenarioAppend | PhoneApplication/Assets/Scripts/Gameplay.cs:2115-2128 | selecting from two lists is selecting from each and adding up |
| History.ChosenScenario | PhoneApplication/Assets/Scripts/Gameplay.cs:2098-2128 | only records of the chosen scenario are kept, at most one per piece |
| History.ChosenScenarioRoundTrip | PhoneApplication/Assets/Scripts/Gameplay.cs:2098-2128 | a desktop file written record by record reads back as the records of that scenario |
| History.SaveHistoryAsWritten | PhoneApplication/Assets/Scripts/Gameplay.cs:471-487 | the new record is always the last one kept |
| History.SaveHistoryAsWrittenLosesRecords | PhoneApplication/Assets/Scripts/Gameplay.cs:480-484 | the 31st save keeps two records |
| History.SaveHistory | PhoneApplication/Assets/Scripts/Gameplay.cs:471-487 | append and keep the latest 30 |
| History.SaveAllKeepsLatest | PhoneApplication/Assets/Scripts/Gameplay.cs:471-487 | any run of saves from a full-or-less history keeps exactly the latest 30 records |
| AnchorFile.ValueBefore | DesktopApplication/Assets/Scripts/bezier.cs:718-719 | the field text is the prefix before the stop character; None exactly when the stop is absent |
| AnchorFile.HelperAt | DesktopApplication/Assets/Scripts/bezier.cs:718-719 | a helper is read exactly when all five fields can be read, and no field holds its stop character |
| AnchorFile.ScanFrom | DesktopApplication/Assets/Scripts/bezier.cs:716-724 | the loop reads entries in order and stops at the first unreadable one |
| AnchorFile.ScanAnchors | DesktopApplication/Assets/Scripts/bezier.cs:705-728 | the budget is the number of "anchorInfo" matches, entry j comes from piece j+1, and an incomplete scan stopped at the first entry that cannot be read |
| AnchorFile.FieldAtJoin | DesktopApplication/Assets/Scripts/bezier.cs:711-719 | in a file glued from clean pieces, field i reads the value piece i starts with |
| AnchorFile.CountInJoin | DesktopApplication/Assets/Scripts/bezier.cs:710 | the key is counted once per glue point |
| AnchorFile.AssociateAnchor | DesktopApplication/Assets/Scripts/bezier.cs:1418-1441 | the first anchor strictly nearest the object, if any is nearer than 9999 |
| AnchorFile.AssociateAll | DesktopApplication/Assets/Scripts/bezier.cs:1418-1441 | each object gets the first of its nearest anchors, closer than 9999, or none when all are far |
| AnchorFile.ObjectsOf | DesktopApplication/Assets/Scripts/bezier.cs:1507-1514 | the group of an anchor holds exactly the objects associated with it |
| AnchorFile.GroupsPartition | DesktopApplication/Assets/Scripts/bezier.cs:1473-1514 | the groups together hold every associated object exactly once |
| AnchorFile.AnchorInfoOf | DesktopApplication/Assets/Scripts/bezier.cs:1536-1538 | the saved pose, rotated back from the start pose, is the anchor's position; yaw is relative to the start |
| AnchorFile.RelativeYaw | DesktopApplication/Assets/Scripts/bezier.cs:1522 | each object's rotation is stored relative to its anchor's yaw |
| AnchorFile.WriteAnchor | DesktopApplication/Assets/Scripts/bezier.cs:1500-1550 | record `counter` carries its name, the file's id (or "id"+counter) and objects that resolve back; out of range fails |
| AnchorFile.WriteInFile | DesktopApplication/Assets/Scripts/bezier.cs:1473-1551 | one record per anchor in order, and the run fails exactly when there are more anchors than file ids |
| Budget.Start | DesktopApplication/Assets/Scripts/bezier.cs:705-728 | the budget is the file's count in cloud mode and 20 otherwise |
| Budget.PlaceAsWritten | DesktopApplication/Assets/Scripts/bezier.cs:237-289 | with budget left, one anchor is placed from entry |placed| and the budget invariant is kept |
| Budget.RemoveAnchor | DesktopApplication/Assets/Scripts/bezier.cs:1598-1620 | removing the selected anchor gives one unit of budget back and keeps the invariant |
| Budget.PlacingOnlyTakesInOrder | DesktopApplication/Assets/Scripts/bezier.cs:237-289 | without removals, k placements take entries 0..k-1 |
| Budget.AsWrittenReusesEntry | DesktopApplication/Assets/Scripts/bezier.cs:249-253 | remove-then-place reuses the last entry and shifts the later anchors by one |
| Budget.FirstFree | DesktopApplication/Assets/Scripts/bezier.cs:237-289 | the first position whose entry is not its own |
| Budget.PlaceAnchor | DesktopApplication/Assets/Scripts/bezier.cs:237-289 | the corrected placement adds the first unused entry and keeps the list proper |
| Budget.FreeIsFree | DesktopApplication/Assets/Scripts/bezier.cs:237-289 | the first free entry is used by no placed anchor |
| Budget.FullIsInOrder | DesktopApplication/Assets/Scripts/bezier.cs:1540-1543 | with the budget spent, anchor j stands at entry j, so it is saved under the right id |
| Budget.PlaceAgreesInOrder | DesktopApplication/Assets/Scripts/bezier.cs:237-289 | without removals the corrected placement equals the code as written |
| Rules.MinOver | PhoneApplication/Assets/Scripts/Gameplay.cs:968-984 | the scan's minimum is below the sentinel and every distance, and is one of them |
| Rules.OffRoadStep | PhoneApplication/Assets/Scripts/Gameplay.cs:966-1017 | a penalty is charged exactly on a counted frame that is off the road while the flag is clear |
| Rules.OncePerExcursion | PhoneApplication/Assets/Scripts/Gameplay.cs:966-1017 | penalties never outnumber the returns to the road, plus one when starting on it |
| Rules.ScoreAfterRun | PhoneApplication/Assets/Scripts/Gameplay.cs:995 | the score drops by 50 per penalty and by at most 50 per excursion |
| Rules.OneExcursionOnePenalty | PhoneApplication/Assets/Scripts/Gameplay.cs:966-1017 | a run that never returns to the road costs at most one penalty |
| Rules.Deduction | PhoneApplication/Assets/Scripts/Gameplay.cs:2155-2162 | a sample deducts 10 from a distance of 1 on, otherwise its truncated tenths |
| Rules.Deductions | PhoneApplication/Assets/Scripts/Gameplay.cs:2151-2163 | the total deduction is between 0 and 10 per sample |
| Rules.StaticBonus | PhoneApplication/Assets/Scripts/Gameplay.cs:2150-2172 | the checkpoint bonus is between 500 - 10 per sample and 500, so within 0..500 for 50 samples |
| Rules.BonusExtremes | PhoneApplication/Assets/Scripts/Gameplay.cs:2150-2163 | a path on the route keeps 500, and one a metre away everywhere earns 500 - 10 per sample |
| Rules.BonusMonotone | PhoneApplication/Assets/Scripts/Gameplay.cs:2150-2163 | walking closer at every sample never earns less |
| Monitor.SplitMessagesAsWritten | DesktopApplication/Assets/Scripts/PerformanceFileReader.cs:141-155 | a piece equal to the last gets "{" in front, any other "}" after |
| Monitor.Reframe | DesktopApplication/Assets/Scripts/PerformanceFileReader.cs:141-155 | first piece gets "}", middle pieces both braces, last piece "{" |
| Monitor.SplitMessages | DesktopApplication/Assets/Scripts/PerformanceFileReader.cs:141-155 | one message per piece; a line that splits into one piece is kept whole |
| Monitor.ConcatReframe | DesktopApplication/Assets/Scripts/PerformanceFileReader.cs:141-155 | the reframed messages glue back into the line |
| Monitor.SplitMessagesRoundTrip | DesktopApplication/Assets/Scripts/PerformanceFileReader.cs:141-155 | a line of concatenated messages splits back into exactly those messages |
| Monitor.OneMessage | DesktopApplication/Assets/Scripts/PerformanceFileReader.cs:141-155 | a single message is passed through unchanged by both versions |
| Monitor.TwoMessagesAsWritten | DesktopApplication/Assets/Scripts/PerformanceFileReader.cs:141-155 | two distinct messages are split correctly by the code as written too |
| Monitor.MiddleMessageLosesBrace | DesktopApplication/Assets/Scripts/PerformanceFileReader.cs:151-154 | with three or more messages, the code as written drops the opening brace of a middle message |
| Monitor.MiddleMessageExample | DesktopApplication/Assets/Scripts/PerformanceFileReader.cs:151-154 | "{a}{b}{c}" gives "b}" as its second message |
| Monitor.ClosestObject | DesktopApplication/Assets/Scripts/PerformanceFileReader.cs:398-416 | the first tagged object strictly nearest the player, or object 0 when none is nearer than 99999 |
| Monitor.Replay | DesktopApplication/Assets/Scripts/PerformanceFileReader.cs:442-446 | only the line and score-time counters are reset |
| Monitor.Erase | DesktopApplication/Assets/Scripts/PerformanceFileReader.cs:470-499 | every counter and list returns to the initial state |
| Monitor.FirstLineHandled | DesktopApplication/Assets/Scripts/PerformanceFileReader.cs:157-159 | after an erase the first line is handled again; after a replay only if another line was last |
| Framer.Feed | ServerApplication/server.py:45-60 | every written message ends with the marker; all-tail pieces are only added to the carry |
| Framer.LastByValue | ServerApplication/server.py:47 | a piece counts as the last exactly when its text equals the last piece's |
| Framer.LastByIndex | ServerApplication/server.py:47 | exactly the piece at the last position is the last |
| Framer.ReceiveAsWritten | ServerApplication/server.py:44-60 | at most one message per marker in the chunk is written, each ending with the marker |
| Framer.Receive | ServerApplication/server.py:44-60 | exactly one message per marker in the chunk is written, each ending with the marker |
| Framer.FeedKeepsText | ServerApplication/server.py:44-60 | carry and pieces glued with markers equal the messages written followed by the new carry |
| Framer.ReceiveKeepsText | ServerApplication/server.py:44-60 | old carry + chunk == messages written + new carry: nothing is lost or reordered |
| Framer.NoMarker | ServerApplication/server.py:44-60 | a chunk without the marker is only added to the carry |
| Framer.AsWrittenAgrees | ServerApplication/server.py:47 | with no earlier piece equal to the last, the code as written behaves as intended |
| Framer.CarryGoesFirst | ServerApplication/server.py:46-50 | the carry is written in front of the first completed message and then emptied |
| Framer.CompleteMessagesEmptyCarry | ServerApplication/server.py:58-60 | a chunk of complete messages leaves the carry empty |
| Framer.AsWrittenDropsRepeatedPiece | ServerApplication/server.py:47 | the chunk "a" + marker + "a" writes nothing as written, though it completes a message |

## Left out

- Rendering, UI menus, AR tracking, cloud anchor hosting and resolving, touch and raycasts, sockets, threads and file I/O. A chunk, a file line or a parsed record is a parameter instead.
- Change.ConfigChanged: positions are compared exactly. Unity's `Vector3 !=` (Gameplay.cs:2821) treats two positions as equal when the squared distance between them is below 1e-10, so a move shorter than about 1e-5 reports no change in the source.
- Floating-point precision, `Math.Sqrt`, `Math.Cos`/`Math.Sin` and degree conversion. A yaw is an exact point on the unit circle. Distances are compared squared, against a squared threshold (9999² and 99999²).
- JSON encoding and decoding. `chosenScenario` takes the parser as a function, and its round trip assumes it inverts the writer.
- `float.Parse` of the anchor fields. `setFile` keeps each field as its text.
- Bezier.Binomial: C# `int` arithmetic in `binomialCoeffienct` overflows once n >= 34, because C(34, 17) > 2^31 - 1. The model computes on unbounded integers.
- Rules.Deduction: takes the distance already rounded to one decimal (`Math.Round(d, 1)`); the rounding is not modelled.
- The moving-mode bonus (the running mean of speeds) and the timers driven by `Invoke`.
- The spotlight, stop and dodge collision handling, other than the exemption they give in the off-road rule.
- The desktop copies of `changeManualByInput`, `changeManualMoreOrLess`, `ChangePrefab` and `remove`. They differ from the phone's, which is what `PathIds` models. They run over every object in `goS`, not only path objects, and number a new Hint or Goal by `goS.Count`. The desktop `ChangePrefab` also steps the prefab index and changes the menu sprite when nothing is selected.
- PathIds.TypedMove: the typed value is an integer. Fractional input, which the UI field allows, is not modelled.
- `List.Sort` is unstable in .NET. It is modelled as a stable insertion sort. On distinct ids the two give the same list. `TypedMoveAsWrittenBreaksIds` and `DuplicateIdNotPermutation` sort lists with a repeated id. What they state depends only on the multiset of ids, which any sort keeps, not on the order of equal ids.
- Monitor.ClosestObject: position and angle come from the message as parameters; the message decoding is not modelled.
- The `Message` and `AuxPose` payload classes are plain records. Only the `GameState` constructor has logic, and it is modelled.
- Indexing past a list's end, which throws in C#, is a `None` result or excluded by a precondition the caller meets.

## Findings

| source | as written | input that shows it | evidently intended | confidence | as-written member | corrected member |
|---|---|---|---|---|---|---|
| PhoneApplication/Assets/Scripts/Gameplay.cs:2572-2575 | the downward loop of the typed id change stops at index v instead of v-1 | ids 1, 2, 3, 4; give the object with id 4 the id 2: ids become 1, 2, 2, 4 | every object from position v-1 to the old one moves up by one id | high, not executed | PathIds.TypedMoveAsWritten, PathIds.TypedMoveAsWrittenBreaksIds | PathIds.TypedMove, PathIds.TypedMoveIsMove |
| PhoneApplication/Assets/Scripts/Gameplay.cs:1592-1623 | `ChangePrefab` removes a path object without lowering the ids above it, then appends the new one with id Count | ids 1, 2, 3; change the first object into a Goal: ids become 2, 3, 3 | renumber as `remove` does, so ids stay 1..N | high, not executed | PathIds.ChangePrefabAsWritten, PathIds.ChangePrefabAsWrittenBreaksIds | PathIds.ChangePrefab, PathIds.ChangePrefabKeepsCanonical |
| PhoneApplication/Assets/Scripts/Gameplay.cs:480-484 | `RemoveRange(0, _storageLimit - 1)` drops 29 records once there are 31 | a history of 30 records plus one save keeps 2 records | drop only the oldest, keeping the latest 30 | high, not executed | History.SaveHistoryAsWritten, History.SaveHistoryAsWrittenLosesRecords | History.SaveHistory, History.SaveAllKeepsLatest |
| DesktopApplication/Assets/Scripts/PerformanceFileReader.cs:145-154 | pieces of a "}{" split are told apart by comparing text with the last piece, and all non-last pieces only get "}" | the line "{a}{b}{c}" gives the second message "b}", which is not valid JSON | the first piece gets "}", middle pieces get both braces, the last gets "{" | high, not executed | Monitor.SplitMessagesAsWritten, Monitor.MiddleMessageLosesBrace | Monitor.SplitMessages, Monitor.SplitMessagesRoundTrip |
| ServerApplication/server.py:47 | a piece is treated as the unfinished tail when its text equals the last piece's | the chunk "a" + marker + "a" writes nothing and carries "aa" | only the piece at the last position is the tail | high, not executed | Framer.ReceiveAsWritten, Framer.AsWrittenDropsRepeatedPiece | Framer.Receive, Framer.ReceiveKeepsText |
| DesktopApplication/Assets/Scripts/bezier.cs:249-253 | a placed anchor takes its pose from entry `anchor_ids.Count - numOfAnchors`, which after a removal is an entry already used | a full set of n ≥ 2 anchors; remove anchor p < n-1 and place one again: two anchors share entry n-1, and the one saved under entry p's id stands at entry p+1's pose | place the anchor at the first entry no placed anchor uses | medium, not executed | Budget.PlaceAsWritten, Budget.AsWrittenReusesEntry | Budget.PlaceAnchor, Budget.FullIsInOrder |
