/**
 A frame of the WebSocket writer: between one and eleven messages with a newline between
 neighbours.
 */
module Framing {
  import opened Fnv

  const NEWLINE: Byte := 10
  const FRAME_MESSAGES: nat := 11

  datatype Frame = Frame(messages: seq<Bytes>, payload: Bytes)

  ghost function Joined(messages: seq<Bytes>): Bytes {
    if messages == [] then []
    else if |messages| == 1 then messages[0]
    else Joined(messages[..|messages| - 1]) + [NEWLINE] + messages[|messages| - 1]
  }

  ghost function Flatten(frames: seq<Frame>): seq<Bytes> {
    if frames == [] then [] else Flatten(frames[..|frames| - 1]) + frames[|frames| - 1].messages
  }

  ghost predicate FrameOk(f: Frame) {
    1 <= |f.messages| <= FRAME_MESSAGES && f.payload == Joined(f.messages)
  }

  lemma JoinedExtends(messages: seq<Bytes>, m: Bytes)
    requires messages != []
    ensures Joined(messages + [m]) == Joined(messages) + [NEWLINE] + m
  {
    assert (messages + [m])[..|messages|] == messages;
  }

  lemma FlattenExtends(frames: seq<Frame>, f: Frame)
    ensures Flatten(frames + [f]) == Flatten(frames) + f.messages
  {
    assert (frames + [f])[..|frames|] == frames;
  }

  // ---------- What a client can recover ----------

  // The lines of a payload, as a client splits it
  ghost function Lines(p: Bytes): (r: seq<Bytes>)
    ensures r != []
  {
    if p == [] then [[]]
    else
      var before := Lines(p[..|p| - 1]);
      if p[|p| - 1] == NEWLINE then before + [[]]
      else before[..|before| - 1] + [before[|before| - 1] + [p[|p| - 1]]]
  }

  ghost function Newlines(p: Bytes): nat {
    if p == [] then 0 else Newlines(p[..|p| - 1]) + if p[|p| - 1] == NEWLINE then 1 else 0
  }

  lemma {:induction false} NoNewline(p: Bytes)
    ensures NEWLINE !in p <==> Newlines(p) == 0
    decreases p
  {
    if p != [] {
      NoNewline(p[..|p| - 1]);
      assert p == p[..|p| - 1] + [p[|p| - 1]];
    }
  }

  lemma {:induction false} LineCount(p: Bytes)
    ensures |Lines(p)| == Newlines(p) + 1
    decreases p
  {
    if p != [] {
      LineCount(p[..|p| - 1]);
    }
  }

  // Appending a newline and a message without one adds that message as the last line
  lemma {:induction false} LastLine(p: Bytes, m: Bytes)
    requires NEWLINE !in m
    ensures Lines(p + [NEWLINE] + m) == Lines(p) + [m]
    decreases m
  {
    var whole := p + [NEWLINE] + m;
    if m == [] {
      assert whole[..|whole| - 1] == p;
    } else {
      var front := m[..|m| - 1];
      assert whole[..|whole| - 1] == p + [NEWLINE] + front;
      LastLine(p, front);
      assert front + [m[|m| - 1]] == m;
    }
  }

  lemma {:induction false} OneLine(m: Bytes)
    requires NEWLINE !in m
    ensures Lines(m) == [m]
    decreases m
  {
    if m != [] {
      OneLine(m[..|m| - 1]);
      assert m == m[..|m| - 1] + [m[|m| - 1]];
    }
  }

  lemma {:induction false} NewlinesAdd(p: Bytes, q: Bytes)
    ensures Newlines(p + q) == Newlines(p) + Newlines(q)
    decreases q
  {
    if q == [] {
      assert p + q == p;
    } else {
      assert (p + q)[..|p + q| - 1] == p + q[..|q| - 1];
      NewlinesAdd(p, q[..|q| - 1]);
    }
  }

  ghost predicate SomeNewline(messages: seq<Bytes>) {
    exists i :: 0 <= i < |messages| && 0x0A in messages[i]
  }

  lemma {:induction false} JoinedNewlines(messages: seq<Bytes>)
    requires messages != []
    ensures Newlines(Joined(messages)) >= |messages| - 1
    ensures SomeNewline(messages) ==> Newlines(Joined(messages)) >= |messages|
    decreases messages
  {
    var n := |messages| - 1;
    var front, last := messages[..n], messages[n];
    NoNewline(last);
    if n > 0 {
      JoinedNewlines(front);
      NewlinesAdd(Joined(front), [NEWLINE]);
      NewlinesAdd(Joined(front) + [NEWLINE], last);
      assert SomeNewline(messages) ==> SomeNewline(front) || NEWLINE in last by {
        if i :| 0 <= i < |messages| && NEWLINE in messages[i] {
          assert i < n ==> messages[i] == front[i];
        }
      }
    }
  }

  lemma FrontHasNone(messages: seq<Bytes>)
    requires messages != [] && !SomeNewline(messages)
    ensures !SomeNewline(messages[..|messages| - 1]) && NEWLINE !in messages[|messages| - 1]
  {
    assert forall i :: 0 <= i < |messages| - 1 ==> messages[..|messages| - 1][i] == messages[i];
  }

  lemma {:induction false} LinesOfJoined(messages: seq<Bytes>)
    requires messages != [] && !SomeNewline(messages)
    ensures Lines(Joined(messages)) == messages
    decreases messages
  {
    var n := |messages| - 1;
    if n == 0 {
      OneLine(messages[0]);
      assert messages == [messages[0]];
    } else {
      FrontHasNone(messages);
      LinesOfJoined(messages[..n]);
      LastLine(Joined(messages[..n]), messages[n]);
      assert messages == messages[..n] + [messages[n]];
    }
  }

  /** Splitting a payload at its newlines gives the messages back exactly if none of them
      contains a newline. */
  lemma FramingIsReversibleExactly(messages: seq<Bytes>)
    requires messages != []
    ensures Lines(Joined(messages)) == messages <==> !SomeNewline(messages)
  {
    if SomeNewline(messages) {
      JoinedNewlines(messages);
      LineCount(Joined(messages));
    } else {
      LinesOfJoined(messages);
    }
  }
}
