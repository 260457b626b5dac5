/** The monitoring server's framing of the byte stream into messages
    (`server.py`): each received chunk is split at the end marker, every
    complete piece is written out as one line with the marker put back, and
    the unfinished tail is carried over to the next chunk. Sockets and
    files are left out; a chunk is the decoded text one `recv` returned. */
module Framer {
  import opened Text

  /** The marker the phone ends every message with. */
  const EndOfMessage: String := "\"messageEnd\":\"split_by_this_message_end\"}"

  /** `m` ends with the marker. */
  predicate EndsWithMarker(m: String) {
    |m| >= |EndOfMessage| && m[|m| - |EndOfMessage|..] == EndOfMessage
  }

  /** The loop over the pieces: a piece flagged as the last one is added to
      the carry; any other is written after the carry, with the marker, and
      the carry is emptied. The result is the messages written (each line
      of the output files is one of them followed by a newline) and the new
      carry. */
  function Feed(carry: String, ps: seq<String>, last: seq<bool>): (r: (seq<String>, String))
    requires |last| == |ps|
    ensures |r.0| == Unflagged(last)
    ensures forall i :: 0 <= i < |r.0| ==> EndsWithMarker(r.0[i])
    ensures (forall i :: 0 <= i < |ps| ==> last[i]) ==> r.0 == [] && r.1 == carry + Concat(ps)
    decreases |ps|
  {
    if |ps| == 0 then ([], carry)
    else if last[0] then
      var r := Feed(carry + ps[0], ps[1..], last[1..]);
      assert carry + ps[0] + Concat(ps[1..]) == carry + Concat(ps);
      r
    else
      var r := Feed("", ps[1..], last[1..]);
      var m := carry + ps[0] + EndOfMessage;
      assert m[|m| - |EndOfMessage|..] == EndOfMessage;
      ([m] + r.0, r.1)
  }

  /** The number of pieces not flagged as the last one. */
  function Unflagged(last: seq<bool>): (n: nat)
    ensures n <= |last|
  {
    if |last| == 0 then 0 else (if last[0] then 0 else 1) + Unflagged(last[1..])
  }

  /** With the final piece flagged, at most all the others are unflagged;
      exactly all of them when no other piece is flagged. */
  lemma {:induction false} UnflaggedFinal(last: seq<bool>)
    requires |last| >= 1 && last[|last| - 1]
    ensures Unflagged(last) <= |last| - 1
    ensures (forall i :: 0 <= i < |last| - 1 ==> !last[i]) ==> Unflagged(last) == |last| - 1
    decreases |last|
  {
    if |last| > 1 {
      assert forall i :: 0 <= i < |last| - 2 ==> last[1..][i] == last[i + 1];
      UnflaggedFinal(last[1..]);
    }
  }

  /** The pieces the code as written treats as the last one: every piece
      equal, as text, to the last. */
  function LastByValue(ps: seq<String>): (f: seq<bool>)
    requires |ps| >= 1
    ensures |f| == |ps| && f[|ps| - 1]
    ensures forall i :: 0 <= i < |ps| ==> (f[i] <==> ps[i] == ps[|ps| - 1])
  {
    seq(|ps|, i requires 0 <= i < |ps| => ps[i] == ps[|ps| - 1])
  }

  /** The last piece by position. */
  function LastByIndex(n: nat): (f: seq<bool>)
    ensures |f| == n
    ensures forall i :: 0 <= i < n ==> (f[i] <==> i == n - 1)
  {
    seq(n, i requires 0 <= i < n => i == n - 1)
  }

  /** One chunk, as written: the new carry and the messages written. At
      most one message per marker is written, each ending with it. */
  function ReceiveAsWritten(carry: String, chunk: String): (r: (String, seq<String>))
    ensures |r.1| <= CountMatches(chunk, EndOfMessage)
    ensures forall i :: 0 <= i < |r.1| ==> EndsWithMarker(r.1[i])
  {
    var ps := Split(chunk, EndOfMessage);
    var f := Feed(carry, ps, LastByValue(ps));
    UnflaggedFinal(LastByValue(ps));
    CountMatchesIsCuts(chunk, EndOfMessage);
    (f.1, f.0)
  }

  /** One chunk, with the last piece told by its position: exactly one
      message per marker in the chunk is written, each ending with it. */
  function Receive(carry: String, chunk: String): (r: (String, seq<String>))
    ensures |r.1| == CountMatches(chunk, EndOfMessage)
    ensures forall i :: 0 <= i < |r.1| ==> EndsWithMarker(r.1[i])
  {
    var ps := Split(chunk, EndOfMessage);
    var f := Feed(carry, ps, LastByIndex(|ps|));
    UnflaggedFinal(LastByIndex(|ps|));
    CountMatchesIsCuts(chunk, EndOfMessage);
    (f.1, f.0)
  }

  /** Carry and pieces are written out in order: whatever is flagged last
      only at the end, the carry and the pieces glued with markers equal
      the messages written followed by the new carry. */
  lemma {:induction false} FeedKeepsText(carry: String, ps: seq<String>)
    requires |ps| >= 1
    ensures var r := Feed(carry, ps, LastByIndex(|ps|));
            carry + Join(ps, EndOfMessage) == Concat(r.0) + r.1
    decreases |ps|
  {
    var f := LastByIndex(|ps|);
    if |ps| == 1 {
      assert f[0];
      assert Feed(carry, ps, f) == Feed(carry + ps[0], [], []);
    } else {
      FeedKeepsText("", ps[1..]);
      var r := Feed("", ps[1..], LastByIndex(|ps| - 1));
      FeedFirst(carry, ps);
      var m := carry + ps[0] + EndOfMessage;
      ConcatCons(m, r.0);
      JoinCons(ps, EndOfMessage);
      Regroup(carry, ps[0], Join(ps[1..], EndOfMessage), Concat(r.0), r.1);
    }
  }

  /** A piece that is not the last is written with the carry in front. */
  lemma FeedFirst(carry: String, ps: seq<String>)
    requires |ps| >= 2
    ensures Feed(carry, ps, LastByIndex(|ps|)) ==
            ([carry + ps[0] + EndOfMessage] + Feed("", ps[1..], LastByIndex(|ps| - 1)).0,
             Feed("", ps[1..], LastByIndex(|ps| - 1)).1)
  {
    assert LastByIndex(|ps|)[1..] == LastByIndex(|ps| - 1);
  }

  lemma Regroup(carry: String, p: String, j: String, x: String, y: String)
    requires j == x + y
    ensures carry + (p + EndOfMessage + j) == (carry + p + EndOfMessage + x) + y
  {
  }

  /** Nothing is lost or reordered: the old carry followed by the chunk is
      exactly the messages written followed by the new carry. */
  lemma ReceiveKeepsText(carry: String, chunk: String)
    ensures carry + chunk == Concat(Receive(carry, chunk).1) + Receive(carry, chunk).0
  {
    SplitJoin(chunk, EndOfMessage);
    FeedKeepsText(carry, Split(chunk, EndOfMessage));
  }

  /** A chunk without the marker writes nothing and is added to the carry,
      in both versions. */
  lemma NoMarker(carry: String, chunk: String)
    requires Free(chunk, EndOfMessage)
    ensures Receive(carry, chunk) == (carry + chunk, [])
    ensures ReceiveAsWritten(carry, chunk) == (carry + chunk, [])
  {
    SplitFree(chunk, EndOfMessage);
    assert Concat([chunk]) == chunk by {
      assert Concat([chunk]) == chunk + Concat([]);
    }
  }

  /** No piece before the last one has the same text as the last. */
  predicate NoEarlierCopy(ps: seq<String>) {
    forall i :: 0 <= i < |ps| - 1 ==> ps[i] != ps[|ps| - 1]
  }

  /** When no earlier piece equals the last, the comparison by value picks
      the same piece as the comparison by position. */
  lemma AsWrittenAgrees(carry: String, chunk: String)
    requires NoEarlierCopy(Split(chunk, EndOfMessage))
    ensures ReceiveAsWritten(carry, chunk) == Receive(carry, chunk)
  {
    var ps := Split(chunk, EndOfMessage);
    forall i | 0 <= i < |ps|
      ensures LastByValue(ps)[i] == LastByIndex(|ps|)[i]
    {
      if i < |ps| - 1 {
        assert ps[i] != ps[|ps| - 1];
      }
    }
    assert LastByValue(ps) == LastByIndex(|ps|);
  }

  /** A non-empty carry goes in front of the first message completed, and
      is emptied. */
  lemma CarryGoesFirst(carry: String, ps: seq<String>)
    requires |ps| >= 2
    ensures var r := Feed(carry, ps, LastByIndex(|ps|));
            |r.0| >= 1 && r.0[0] == carry + ps[0] + EndOfMessage &&
            r == ([r.0[0]] + Feed("", ps[1..], LastByIndex(|ps| - 1)).0, Feed("", ps[1..], LastByIndex(|ps| - 1)).1)
  {
    assert LastByIndex(|ps|)[1..] == LastByIndex(|ps| - 1);
  }

  /** A chunk made of complete messages leaves the carry empty. */
  lemma {:induction false} CompleteMessagesEmptyCarry(carry: String, ps: seq<String>)
    requires |ps| >= 2 && ps[|ps| - 1] == ""
    ensures Feed(carry, ps, LastByIndex(|ps|)).1 == ""
    decreases |ps|
  {
    assert LastByIndex(|ps|)[1..] == LastByIndex(|ps| - 1);
    if |ps| > 2 {
      CompleteMessagesEmptyCarry("", ps[1..]);
    } else {
      assert ps[1..] == [""];
      assert LastByIndex(1) == [true];
    }
  }

  /** The code as written loses a message whose text equals the tail after
      it: for the chunk "a" + marker + "a" it writes nothing, though the
      chunk completes the message "a". */
  lemma AsWrittenDropsRepeatedPiece(carry: String)
    ensures ReceiveAsWritten(carry, "a" + EndOfMessage + "a") == (carry + "aa", [])
    ensures Receive(carry, "a" + EndOfMessage + "a") == ("a", [carry + "a" + EndOfMessage])
  {
    var chunk := "a" + EndOfMessage + "a";
    var ps := ["a", "a"];
    assert Split(chunk, EndOfMessage) == ps by {
      assert CleanPieces(ps, EndOfMessage) by {
        assert NoneBefore(ps[0] + EndOfMessage, EndOfMessage, 1) by {
          assert !OccursAt(ps[0] + EndOfMessage, EndOfMessage, 0) by {
            assert (ps[0] + EndOfMessage)[0] != EndOfMessage[0];
          }
        }
        assert Free(ps[1], EndOfMessage);
      }
      JoinSplit(ps, EndOfMessage);
      assert Join(ps, EndOfMessage) == chunk;
    }
    assert LastByValue(ps) == [true, true];
    assert LastByIndex(2) == [false, true];
    FeedFirst(carry, ps);
    assert LastByIndex(1) == [true];
    assert ps[1..] == ["a"] && ["a"][1..] == [] && [true][1..] == [] && "" + "a" == "a";
    assert Feed("", ["a"], [true]) == Feed("a", [], []) == ([], "a");
    assert Feed(carry, ps, LastByIndex(2)) == ([carry + "a" + EndOfMessage] + [], "a");
    assert [carry + "a" + EndOfMessage] + [] == [carry + "a" + EndOfMessage];
    assert Receive(carry, chunk) == (Feed(carry, ps, LastByIndex(2)).1, Feed(carry, ps, LastByIndex(2)).0);
    assert Concat(ps) == "aa" by {
      assert Concat(ps[1..]) == "a" + Concat([]);
    }
  }
}
