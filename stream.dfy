/**
 * The server-sent-events wire format of the `/stream` endpoint: one frame per
 * published event, preceded by a greeting frame, and the reading side that
 * splits a stream back into `(event type, data)` pairs.
 */
module Stream {
  import opened Json

  /** `event: <type>\ndata: <data>\n\n` */
  function Frame(eventType: string, data: string): (f: string)
    ensures |f| == |eventType| + |data| + 16
    ensures f[..7] == "event: " && f[|f| - 2..] == "\n\n"
  {
    "event: " + eventType + "\ndata: " + data + "\n\n"
  }

  /** The greeting written to every new subscriber before any event. */
  const Greeting: (string, string) := ("connected", "{\"message\": \"Connected to SSE stream\"}")

  predicate OneLine(s: string) {
    '\n' !in s
  }

  /** The stream one subscriber receives: the greeting, then one frame per
      published event, in publication order. */
  function Session(events: seq<(string, string)>): (stream: string)
    ensures Frame(Greeting.0, Greeting.1) <= stream
    ensures stream[|Frame(Greeting.0, Greeting.1)|..] == Frames(events)
  {
    Frame(Greeting.0, Greeting.1) + Frames(events)
  }

  function Frames(events: seq<(string, string)>): string {
    if events == [] then "" else Frame(events[0].0, events[0].1) + Frames(events[1..])
  }

  /** The text up to the first line feed, and what follows it. */
  function TakeLine(s: string): (r: Option<(string, string)>)
    ensures r.Some? <==> '\n' in s
    ensures r.Some? ==> OneLine(r.value.0) && s == r.value.0 + "\n" + r.value.1
  {
    if s == [] then None
    else if s[0] == '\n' then Some(([], s[1..]))
    else match TakeLine(s[1..])
      case None => None
      case Some((line, rest)) => Some(([s[0]] + line, rest))
  }

  /** Reading a stream of frames back: `None` when it is not a sequence of
      complete frames. Whatever it reads is what the writer would have
      written for the frames read. */
  function ParseFrames(s: string): (r: Option<seq<(string, string)>>)
    ensures r.Some? ==> Frames(r.value) == s
    decreases |s|
  {
    if s == [] then Some([])
    else if |s| < 7 || s[..7] != "event: " then None
    else match TakeLine(s[7..])
      case None => None
      case Some((eventType, afterType)) =>
        if |afterType| < 6 || afterType[..6] != "data: " then None
        else match TakeLine(afterType[6..])
          case None => None
          case Some((data, afterData)) =>
            if afterData == [] || afterData[0] != '\n' then None
            else
              var rest := ParseFrames(afterData[1..]);
              ReadFrameIsWritten(s, eventType, afterType, data, afterData);
              if rest.Some? then
                FramesCons((eventType, data), rest.value);
                Cons((eventType, data), rest)
              else None
  }

  /** The text the reader consumed for one frame is that frame as written. */
  lemma ReadFrameIsWritten(s: string, eventType: string, afterType: string, data: string, afterData: string)
    requires |s| >= 7 && s[..7] == "event: " && s[7..] == eventType + "\n" + afterType
    requires |afterType| >= 6 && afterType[..6] == "data: " && afterType[6..] == data + "\n" + afterData
    requires afterData != [] && afterData[0] == '\n'
    ensures s == Frame(eventType, data) + afterData[1..]
  {
    assert s == s[..7] + s[7..];
    assert afterType == afterType[..6] + afterType[6..];
    assert afterData == [afterData[0]] + afterData[1..];
  }

  lemma FramesCons(frame: (string, string), rest: seq<(string, string)>)
    ensures Frames([frame] + rest) == Frame(frame.0, frame.1) + Frames(rest)
  {
    assert ([frame] + rest)[1..] == rest;
  }

  /** A frame read in front of the frames read after it (failure propagates). */
  function Cons(frame: (string, string), rest: Option<seq<(string, string)>>): Option<seq<(string, string)>> {
    if rest.Some? then Some([frame] + rest.value) else None
  }

  lemma {:induction false} TakeLineSplit(line: string, rest: string)
    requires OneLine(line)
    ensures TakeLine(line + "\n" + rest) == Some((line, rest))
  {
    if line == [] {
      assert (line + "\n" + rest)[1..] == rest;
    } else {
      assert (line + "\n" + rest)[0] == line[0] && line[0] != '\n';
      assert (line + "\n" + rest)[1..] == line[1..] + "\n" + rest;
      TakeLineSplit(line[1..], rest);
      assert [line[0]] + line[1..] == line;
    }
  }

  /** One step of the reader: a complete frame at the head of the stream. */
  lemma ParseFramesStep(s: string, eventType: string, afterType: string, data: string, afterData: string)
    requires |s| >= 7 && s[..7] == "event: " && TakeLine(s[7..]) == Some((eventType, afterType))
    requires |afterType| >= 6 && afterType[..6] == "data: " && TakeLine(afterType[6..]) == Some((data, afterData))
    requires afterData != [] && afterData[0] == '\n'
    ensures ParseFrames(s) ==
      Cons((eventType, data), ParseFrames(afterData[1..]))
  {
  }

  /** The type line of a frame. */
  lemma FrameTypeLine(eventType: string, data: string, rest: string)
    requires OneLine(eventType)
    ensures var s := Frame(eventType, data) + rest;
      |s| >= 7 && s[..7] == "event: " && TakeLine(s[7..]) == Some((eventType, "data: " + data + "\n" + ("\n" + rest)))
  {
    var afterType := "data: " + data + "\n" + ("\n" + rest);
    var s := Frame(eventType, data) + rest;
    assert s == "event: " + (eventType + "\n" + afterType);
    assert s[7..] == eventType + "\n" + afterType;
    TakeLineSplit(eventType, afterType);
  }

  /** The data line of a frame. */
  lemma FrameDataLine(data: string, afterData: string)
    requires OneLine(data)
    ensures var afterType := "data: " + data + "\n" + afterData;
      |afterType| >= 6 && afterType[..6] == "data: " && TakeLine(afterType[6..]) == Some((data, afterData))
  {
    var afterType := "data: " + data + "\n" + afterData;
    assert afterType[6..] == data + "\n" + afterData;
    TakeLineSplit(data, afterData);
  }

  /** A frame whose type and data are single lines is read back as that pair,
      and the reader then continues right after it. */
  lemma FrameThenRest(eventType: string, data: string, rest: string)
    requires OneLine(eventType) && OneLine(data)
    ensures ParseFrames(Frame(eventType, data) + rest) ==
      Cons((eventType, data), ParseFrames(rest))
  {
    var afterData := "\n" + rest;
    var afterType := "data: " + data + "\n" + afterData;
    FrameTypeLine(eventType, data, rest);
    FrameDataLine(data, afterData);
    assert afterData[1..] == rest;
    ParseFramesStep(Frame(eventType, data) + rest, eventType, afterType, data, afterData);
  }

  /** The greeting's type and payload are single lines. */
  lemma GreetingIsOneLine()
    ensures OneLine(Greeting.0) && OneLine(Greeting.1)
  {
  }

  /** Framing round trip: a subscriber reads back the greeting followed by
      exactly the published events, in order. */
  lemma {:induction false} SessionRoundTrip(events: seq<(string, string)>)
    requires forall i :: 0 <= i < |events| ==> OneLine(events[i].0) && OneLine(events[i].1)
    ensures ParseFrames(Session(events)) == Some([Greeting] + events)
  {
    FramesRoundTrip(events);
    GreetingIsOneLine();
    FrameThenRest(Greeting.0, Greeting.1, Frames(events));
  }

  lemma {:induction false} FramesRoundTrip(events: seq<(string, string)>)
    requires forall i :: 0 <= i < |events| ==> OneLine(events[i].0) && OneLine(events[i].1)
    ensures ParseFrames(Frames(events)) == Some(events)
  {
    if events != [] {
      FramesRoundTrip(events[1..]);
      FrameThenRest(events[0].0, events[0].1, Frames(events[1..]));
      assert [events[0]] + events[1..] == events;
    }
  }
}
