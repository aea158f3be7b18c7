/**
 * Messages over a byte stream, each preceded by its size
 * (source/io/net/GenericMessageOrientedClientBase.h).
 *
 * The reference is a machine that looks at one byte at a time (`Step`, `Run`); the class below
 * works on whole chunks with the original's loop, and is proved to do the same. What a sender
 * writes is given back message by message, however the stream is cut.
 */
module MessageFraming {
  import opened Words
  import opened VariableLengthSizes

  datatype Event = Message(data: seq<byte>) | TooLong(size: nat) | ProtocolError

  /** `offset` bytes of the current message have arrived; `body` holds them when they are kept. */
  datatype State = State(size: Decoder, offset: nat, body: seq<byte>)

  datatype Outcome = Outcome(state: State, events: seq<Event>) {
    function After(earlier: seq<Event>): Outcome { this.(events := earlier + events) }
  }

  const START := State(FRESH, 0, [])

  predicate WellFormed(max: nat, s: State) {
    && s.size.WellFormed()
    && (if s.size.Complete() then
          && (s.offset < s.size.Size() || s.offset == s.size.Size() == 0)
          && |s.body| == (if s.size.Size() <= max then s.offset else 0)
        else
          s.body == [] && (s.offset > 0 ==> s.size.failed))
  }

  // ---------- one byte at a time ----------

  /** A complete size of zero: its message is due as soon as anything more arrives. */
  predicate Pending(s: State) { s.size.Complete() && s.offset == s.size.Size() }

  function SizeByte(max: nat, s: State, b: byte): Outcome {
    var d := s.size.Add(b);
    if s.size.Takes(b) then
      Outcome(State(d, s.offset, s.body), if d.Complete() && d.Size() > max then [TooLong(d.Size())] else [])
    else
      Outcome(State(d, s.offset + 1, s.body), if s.size.Open() then [ProtocolError] else [])
  }

  function BodyByte(max: nat, s: State, b: byte): Outcome {
    var keep := s.size.Size() <= max;
    var body := if keep then s.body + [b] else [];
    if s.offset + 1 == s.size.Size() then Outcome(START, if keep then [Message(body)] else [])
    else Outcome(State(s.size, s.offset + 1, body), [])
  }

  function Step(max: nat, s: State, b: byte): Outcome {
    if Pending(s) then SizeByte(max, START, b).After([Message([])])
    else if s.size.Complete() then BodyByte(max, s, b)
    else SizeByte(max, s, b)
  }

  function Run(max: nat, s: State, data: seq<byte>): Outcome
    decreases |data|
  {
    if data == [] then Outcome(s, [])
    else
      var first := Step(max, s, data[0]);
      Run(max, first.state, data[1..]).After(first.events)
  }

  /** One call of the receiver: once the size has failed, every chunk reports it again. */
  function Feed(max: nat, s: State, chunk: seq<byte>): Outcome {
    Run(max, s, chunk).After(if s.size.failed && chunk != [] then [ProtocolError] else [])
  }

  function FeedAll(max: nat, s: State, chunks: seq<seq<byte>>): Outcome
    decreases |chunks|
  {
    if chunks == [] then Outcome(s, [])
    else
      var first := Feed(max, s, chunks[0]);
      FeedAll(max, first.state, chunks[1..]).After(first.events)
  }

  function Flatten<T>(parts: seq<seq<T>>): seq<T> {
    if parts == [] then [] else parts[0] + Flatten(parts[1..])
  }

  // ---------- cutting the stream ----------

  lemma {:induction false} RunConcat(max: nat, s: State, a: seq<byte>, b: seq<byte>)
    ensures Run(max, s, a + b) == Run(max, Run(max, s, a).state, b).After(Run(max, s, a).events)
    decreases |a|
  {
    if a == [] {
      assert a + b == b;
      assert [] + Run(max, s, b).events == Run(max, s, b).events;
    } else {
      assert (a + b)[0] == a[0] && (a + b)[1..] == a[1..] + b;
      var first := Step(max, s, a[0]);
      RunConcat(max, first.state, a[1..], b);
      var mid := Run(max, first.state, a[1..]);
      var last := Run(max, mid.state, b);
      assert first.events + (mid.events + last.events) == (first.events + mid.events) + last.events;
    }
  }

  lemma {:induction false} FailureStays(max: nat, s: State, data: seq<byte>)
    requires s.size.failed && !s.size.Complete()
    ensures Run(max, s, data) == Outcome(s.(offset := s.offset + |data|), [])
    decreases |data|
  {
    if data != [] { FailureStays(max, Step(max, s, data[0]).state, data[1..]); }
  }

  lemma StepWellFormed(max: nat, s: State, b: byte)
    requires WellFormed(max, s)
    ensures WellFormed(max, Step(max, s, b).state)
  {
    AddKeepsWellFormed(s.size, b);
    AddKeepsWellFormed(FRESH, b);
  }

  lemma {:induction false} RunWellFormed(max: nat, s: State, data: seq<byte>)
    requires WellFormed(max, s)
    ensures WellFormed(max, Run(max, s, data).state)
    decreases |data|
  {
    if data != [] {
      StepWellFormed(max, s, data[0]);
      RunWellFormed(max, Step(max, s, data[0]).state, data[1..]);
    }
  }

  /**
   * Feeding `a` and then `b` leaves the receiver as feeding `a + b` does. The callbacks are the
   * same too, exactly unless the size had failed by the end of a non-empty `a` and `b` is not
   * empty: then the second call reports the failure once more.
   */
  lemma CutAnywhere(max: nat, s: State, a: seq<byte>, b: seq<byte>)
    requires WellFormed(max, s)
    ensures var whole, one := Feed(max, s, a + b), Feed(max, s, a);
      var two := Feed(max, one.state, b);
      && two.state == whole.state
      && (one.events + two.events == whole.events <==> !(one.state.size.failed && a != [] && b != []))
  {
    hide Run, Step, WellFormed;
    RunConcat(max, s, a, b);
    var r := Run(max, s, a);
    var q := Run(max, r.state, b);
    if a == [] {
      assert a + b == b;
      NothingRun(max, s);
      assert [] + Feed(max, s, b).events == Feed(max, s, b).events;
    } else {
      var lead: seq<Event> := if s.size.failed then [ProtocolError] else [];
      assert Feed(max, s, a + b).events == lead + (r.events + q.events) == (lead + r.events) + q.events;
      assert a + b != [];
      if b == [] { assert [] + q.events == q.events; }
    }
  }

  lemma NothingRun(max: nat, s: State)
    ensures Run(max, s, []) == Outcome(s, [])
  {
  }

  lemma {:induction false} FailureIsFinal(max: nat, s: State, data: seq<byte>)
    requires WellFormed(max, s) && !Run(max, s, data).state.size.failed
    ensures !s.size.failed
    decreases |data|
  {
    if s.size.failed { FailureStays(max, s, data); }
  }

  /** While the size has not failed, the chunks do not matter: only their concatenation does. */
  lemma {:induction false} ChunksDoNotMatter(max: nat, s: State, chunks: seq<seq<byte>>)
    requires WellFormed(max, s) && !Run(max, s, Flatten(chunks)).state.size.failed
    ensures FeedAll(max, s, chunks) == Run(max, s, Flatten(chunks))
    decreases |chunks|
  {
    if chunks != [] {
      var c, rest := chunks[0], Flatten(chunks[1..]);
      var r := Run(max, s, c);
      RunConcat(max, s, c, rest);
      RunWellFormed(max, s, c);
      FailureIsFinal(max, s, Flatten(chunks));
      assert [] + r.events == r.events;
      ChunksDoNotMatter(max, r.state, chunks[1..]);
    }
  }

  // ---------- the stretches one pass of the loop handles ----------

  /** A stretch of size bytes, up to the end of the size, its failure, or the end of the data. */
  lemma {:induction false} SizeStretch(max: nat, s: State, data: seq<byte>)
    requires s.size.Open() && s.size.WellFormed() && s.offset == 0 && s.body == []
    ensures var d, n := s.size.AddAll(data), s.size.Consumed(data);
      Run(max, s, data) ==
        if d.failed then Outcome(State(d, |data| - n, []), [ProtocolError])
        else Run(max, State(d, 0, []), data[n..]).After(
               if d.Complete() && d.Size() > max then [TooLong(d.Size())] else [])
    decreases |data|
  {
    if data == [] {
    } else if s.size.Takes(data[0]) {
      AddKeepsWellFormed(s.size, data[0]);
      var s' := s.(size := s.size.Add(data[0]));
      assert forall n: nat :: n <= |data[1..]| ==> data[1..][n..] == data[n + 1..];
      if s'.size.Complete() {
        AddAllInPortions(s'.size, [], data[1..]);
      } else {
        SizeStretch(max, s', data[1..]);
        var r := Run(max, s', data[1..]);
        assert [] + r.events == r.events;
      }
    } else {
      FailureStays(max, Step(max, s, data[0]).state, data[1..]);
      assert [ProtocolError] + [] == [ProtocolError];
    }
  }

  /** The bytes kept of a message once `data` has been added: none if it is over the limit. */
  function Kept(max: nat, s: State, data: seq<byte>): seq<byte> {
    if s.size.Size() <= max then s.body + data else []
  }

  /** The message bytes of one chunk, taken in one copy. */
  lemma {:induction false} BodyStretch(max: nat, s: State, data: seq<byte>)
    requires s.size.Complete() && s.offset < s.size.Size() && (s.size.Size() > max ==> s.body == [])
    ensures var left := s.size.Size() - s.offset;
      Run(max, s, data) ==
        if |data| < left then Outcome(State(s.size, s.offset + |data|, Kept(max, s, data)), [])
        else Run(max, START, data[left..]).After(
               if s.size.Size() <= max then [Message(Kept(max, s, data[..left]))] else [])
    decreases |data|
  {
    hide Step, Decoder.Size, Decoder.Complete;
    var left := s.size.Size() - s.offset;
    if data == [] {
      assert s.body + [] == s.body;
    } else {
      var s', rest := Step(max, s, data[0]).state, data[1..];
      BodyStep(max, s, data[0]);
      if left == 1 {
        assert data[..1] == [data[0]];
      } else {
        BodyStretch(max, s', rest);
        EmptyLead(Run(max, s', rest));
        if |data| >= left {
          assert rest[left - 1..] == data[left..];
          assert data[..left] == [data[0]] + rest[..left - 1];
          KeptConcat(max, s, s', data[0], rest[..left - 1]);
        } else {
          assert data == [data[0]] + rest;
          KeptConcat(max, s, s', data[0], rest);
        }
      }
    }
  }

  lemma BodyStep(max: nat, s: State, b: byte)
    requires s.size.Complete() && s.offset < s.size.Size()
    ensures Step(max, s, b) ==
      if s.offset + 1 == s.size.Size() then
        Outcome(START, if s.size.Size() <= max then [Message(Kept(max, s, [b]))] else [])
      else Outcome(State(s.size, s.offset + 1, Kept(max, s, [b])), [])
  {
  }

  lemma EmptyLead(r: Outcome)
    ensures r.After([]) == r
  {
  }

  lemma KeptConcat(max: nat, s: State, s': State, b: byte, data: seq<byte>)
    requires s'.size == s.size && s'.body == Kept(max, s, [b])
    ensures Kept(max, s', data) == Kept(max, s, [b] + data)
  {
    assert s.body + [b] + data == s.body + ([b] + data);
  }

  lemma PendingStretch(max: nat, s: State, data: seq<byte>)
    requires Pending(s) && data != []
    ensures Run(max, s, data) == Run(max, START, data).After([Message([])])
  {
    var first := SizeByte(max, START, data[0]);
    var rest := Run(max, first.state, data[1..]);
    assert ([Message([])] + first.events) + rest.events == [Message([])] + (first.events + rest.events);
  }

  lemma AfterAfter(r: Outcome, a: seq<Event>, b: seq<Event>)
    ensures r.After(b).After(a) == r.After(a + b)
  {
    assert a + (b + r.events) == (a + b) + r.events;
  }

  /** What the first half of a pass reports. */
  function SizeReport(max: nat, d: Decoder): seq<Event> {
    if d.failed then [ProtocolError] else if d.Complete() && d.Size() > max then [TooLong(d.Size())] else []
  }

  /** The first half of a pass: as many size bytes as there are. */
  lemma SizePart(max: nat, s: State, data: seq<byte>)
    requires WellFormed(max, s) && !s.size.Complete() && data != []
    ensures var d, n := s.size.AddAll(data), s.size.Consumed(data);
      && WellFormed(max, State(d, s.offset, []))
      && Feed(max, s, data) == Run(max, State(d, s.offset, []), data[n..]).After(SizeReport(max, d))
      && (d.Open() ==> n == |data|) && (n == 0 ==> d.failed)
  {
    hide Run, Step, Decoder.AddAll, Decoder.Consumed, Value, AllMarked, IsPrefixCode;
    AddAllBytes(s.size, data);
    AllTaken(s.size, data);
    var d, n := s.size.AddAll(data), s.size.Consumed(data);
    if s.size.Open() {
      SizeStretch(max, s, data);
      EmptyLead(Run(max, s, data));
      if d.failed { FailureStays(max, State(d, 0, []), data[n..]); }
    } else {
      AddAllInPortions(s.size, [], data);
      assert data[0..] == data;
    }
  }

  lemma FeedIsRun(max: nat, s: State, data: seq<byte>)
    requires s.size.failed ==> data == []
    ensures Feed(max, s, data) == Run(max, s, data)
  {
    EmptyLead(Run(max, s, data));
  }

  lemma {:induction false} AllTaken(d: Decoder, data: seq<byte>)
    ensures d.AddAll(data).Open() ==> d.Consumed(data) == |data|
    ensures d.Open() && data != [] && d.Consumed(data) == 0 ==> d.AddAll(data).failed
    decreases |data|
  {
    if data != [] && d.Takes(data[0]) { AllTaken(d.Add(data[0]), data[1..]); }
  }

  /** The second half of a pass: as many message bytes as belong to the current message. */
  lemma BodyPart(max: nat, s: State, data: seq<byte>, k: nat)
    requires WellFormed(max, s) && s.size.Complete() && data != []
    requires k == if s.size.Size() - s.offset < |data| then s.size.Size() - s.offset else |data|
    ensures Run(max, s, data) ==
      if s.offset + k == s.size.Size() then
        Run(max, START, data[k..]).After(if s.size.Size() <= max then [Message(Kept(max, s, data[..k]))] else [])
      else
        Outcome(State(s.size, s.offset + k, Kept(max, s, data[..k])), [])
  {
    hide Run, Step;
    if Pending(s) {
      PendingStretch(max, s, data);
      assert data[0..] == data;
    } else {
      BodyStretch(max, s, data);
      if k == |data| { assert data[..k] == data; }
    }
  }

  /** Where the bytes copied in one pass leave the receiver, and what it delivers. */
  function AfterCopy(max: nat, s: State, bytes: seq<byte>): Outcome {
    if !s.size.Complete() then Outcome(s.(offset := s.offset + |bytes|), [])
    else if s.offset + |bytes| < s.size.Size() then Outcome(State(s.size, s.offset + |bytes|, Kept(max, s, bytes)), [])
    else Outcome(START, if s.size.Size() <= max then [Message(Kept(max, s, bytes))] else [])
  }

  lemma CopyPart(max: nat, s: State, data: seq<byte>, k: nat, before: seq<Event>)
    requires WellFormed(max, s) && !s.size.Open() && data != []
    requires k == if s.size.Complete() && s.size.Size() - s.offset < |data| then s.size.Size() - s.offset else |data|
    ensures var o := AfterCopy(max, s, data[..k]);
      Run(max, s, data).After(before) == Run(max, o.state, data[k..]).After(before + o.events)
  {
    hide Run, Step, BitAnd, Value, AllMarked, IsPrefixCode;
    var o := AfterCopy(max, s, data[..k]);
    if s.size.Complete() { BodyPart(max, s, data, k); } else { FailureStays(max, s, data); }
    if k == |data| {
      assert data[k..] == [];
      NothingRun(max, o.state);
    }
    assert Run(max, s, data) == Run(max, o.state, data[k..]).After(o.events);
    AfterAfter(Run(max, o.state, data[k..]), before, o.events);
  }

  // ---------- the sender ----------

  datatype SendResult = Sent(bytes: seq<byte>) | InvalidArgument | MessageTooLong

  /** What goes on the wire for one message: its size, then its bytes. */
  function Frame(message: seq<byte>): seq<byte> { Encode(|message|) + message }

  /** A limit above what a size can announce would let a message through without its size. */
  method SendData(max: nat, message: seq<byte>) returns (r: SendResult)
    requires |message| < WORD_LIMIT
    ensures r.InvalidArgument? <==> message == []
    ensures r.MessageTooLong? <==> |message| > max && message != []
    ensures r.Sent? ==> (r.bytes == Frame(message) <==> |message| <= MAX_VALUE)
    ensures r.Sent? && |message| > MAX_VALUE ==> r.bytes == message
  {
    if |message| == 0 { return InvalidArgument; }
    if |message| > max { return MessageTooLong; }
    DigitsSpec(|message|, false);
    var size := new VariableLengthSize.Of(|message|);
    var n := size.BytesCount();
    if |message| <= MAX_VALUE {
      EncodeFits(|message|);
      size.BytesAreThePrefix();
    } else {
      assert size.Bytes(0) + message == message;
    }
    r := Sent(size.Bytes(n) + message);
  }

  // ---------- every stream of frames, however cut ----------

  /** The one callback a frame causes at a receiver with limit `max`. */
  function Expected(max: nat, message: seq<byte>): seq<Event> {
    if |message| > max then [TooLong(|message|)] else [Message(message)]
  }

  function Stream(messages: seq<seq<byte>>): seq<byte> {
    if messages == [] then [] else Frame(messages[0]) + Stream(messages[1..])
  }

  function AllExpected(max: nat, messages: seq<seq<byte>>): seq<Event> {
    if messages == [] then [] else Expected(max, messages[0]) + AllExpected(max, messages[1..])
  }

  /** One frame, of any size: reported once, delivered or skipped whole, and the rest is untouched. */
  lemma FrameStretch(max: nat, message: seq<byte>, rest: seq<byte>)
    requires |message| <= MAX_VALUE && (message != [] || rest != [])
    ensures Run(max, START, Frame(message) + rest) == Run(max, START, rest).After(Expected(max, message))
  {
    hide Run, Step;
    var n, tail := |message|, message + rest;
    assert Frame(message) + rest == Encode(n) + tail;
    RoundTrip(n, tail);
    SizeStretch(max, START, Encode(n) + tail);
    assert (Encode(n) + tail)[|Encode(n)|..] == tail;
    var s := State(Decoder(Encode(n), false), 0, []);
    var after := Run(max, START, rest);
    if n == 0 {
      assert tail == rest;
      PendingStretch(max, s, rest);
      EmptyLead(Run(max, s, rest));
    } else {
      BodyStretch(max, s, tail);
      assert tail[..n] == message && tail[n..] == rest;
      assert [] + message == message;
      EmptyLead(Run(max, s, tail));
      if n > max { EmptyLead(after); }
    }
  }

  /** A fresh receiver reports every frame of a stream once and in order, and ends up fresh again. */
  lemma {:induction false} StreamOfFrames(max: nat, messages: seq<seq<byte>>)
    requires forall m :: m in messages ==> |m| <= MAX_VALUE
    requires messages != [] ==> messages[|messages| - 1] != []
    ensures Run(max, START, Stream(messages)) == Outcome(START, AllExpected(max, messages))
  {
    if messages != [] {
      var m, rest := messages[0], messages[1..];
      if rest != [] {
        assert rest[|rest| - 1] == messages[|messages| - 1];
        StreamNonEmpty(rest);
      }
      StreamOfFrames(max, rest);
      FrameStretch(max, m, Stream(rest));
    }
  }

  lemma StreamNonEmpty(messages: seq<seq<byte>>)
    requires messages != []
    ensures Stream(messages) != []
  {
    assert Digits(|messages[0]|, false) != [];
  }

  /**
   * Whatever is sent arrives: for every list of messages of every size, and every way of cutting
   * the stream, a fresh receiver delivers those within its limit and reports the others, in order.
   */
  lemma SentIsReceived(max: nat, messages: seq<seq<byte>>, chunks: seq<seq<byte>>)
    requires forall m :: m in messages ==> |m| <= MAX_VALUE
    requires messages != [] ==> messages[|messages| - 1] != []
    requires Flatten(chunks) == Stream(messages)
    ensures FeedAll(max, START, chunks) == Outcome(START, AllExpected(max, messages))
  {
    StreamOfFrames(max, messages);
    ChunksDoNotMatter(max, START, chunks);
  }

  /** The case the sender allows: every message non-empty and within the limit arrives as it was. */
  lemma {:induction false} WithinLimitAllDelivered(max: nat, messages: seq<seq<byte>>)
    requires forall m :: m in messages ==> |m| <= max
    ensures AllExpected(max, messages) == seq(|messages|, i requires 0 <= i < |messages| => Message(messages[i]))
  {
    if messages != [] { WithinLimitAllDelivered(max, messages[1..]); }
  }

  // ---------- the copies into the buffer ----------

  predicate TooLarge(max: nat, s: State) { s.size.Complete() && s.size.Size() > max }

  /** How many of `left` bytes a pass of the loop takes for the message; all of them once the size has failed. */
  function SizeToCopy(s: State, left: nat): nat {
    var missing := s.size.Size() - s.offset;
    if missing < 0 then 0 else if missing < left then missing else left
  }

  /** More bytes have been copied after a failed size than the buffer holds. */
  predicate LeftBuffer(max: nat, s: State) { s.size.failed && s.offset > max }

  /** A pass of the loop copies within the buffer if and only if the size has not failed or all that is left fits. */
  lemma CopyStays(max: nat, s: State, left: nat)
    requires WellFormed(max, s) && !s.size.Open() && s.offset + left < INVALID_VALUE
    ensures TooLarge(max, s) || s.offset + SizeToCopy(s, left) <= max <==> !s.size.failed || s.offset + left <= max
  {
  }

  /** Eight bytes that all carry the marker: the last of them and everything after it is taken for message bytes. */
  lemma AfterFailure(max: nat, marked: seq<byte>, rest: seq<byte>)
    requires |marked| == MAX_BYTES && AllMarked(marked)
    ensures Run(max, START, marked + rest)
      == Outcome(State(Decoder(marked[..7], true), 1 + |rest|, []), [ProtocolError])
  {
    hide Run, Step;
    var first, more := marked[..7], [marked[7]] + rest;
    assert marked + rest == first + more;
    RunConcat(max, START, first, more);
    MarkedBytes(max, first);
    var open := State(Decoder(first, false), 0, []);
    assert more == [marked[7]] + rest;
    RunConcat(max, open, [marked[7]], rest);
    EighthMarked(max, first, marked[7]);
    FailureStays(max, State(Decoder(first, true), 1, []), rest);
  }

  lemma {:induction false} MarkedBytes(max: nat, marked: seq<byte>)
    requires |marked| < MAX_BYTES && AllMarked(marked)
    ensures Run(max, START, marked) == Outcome(State(Decoder(marked, false), 0, []), [])
    decreases |marked|
  {
    if marked != [] {
      var n := |marked| - 1;
      MarkedBytes(max, marked[..n]);
      assert marked == marked[..n] + [marked[n]];
      RunConcat(max, START, marked[..n], [marked[n]]);
      OneMarked(max, marked[..n], marked[n]);
    }
  }

  lemma OneMarked(max: nat, before: seq<byte>, b: byte)
    requires |before| < MAX_BYTES - 1 && AllMarked(before) && Marked(b)
    ensures Run(max, State(Decoder(before, false), 0, []), [b])
      == Outcome(State(Decoder(before + [b], false), 0, []), [])
  {
    assert before != [] ==> Marked(before[|before| - 1]);
    assert !Decoder(before + [b], false).Complete();
  }

  lemma EighthMarked(max: nat, before: seq<byte>, b: byte)
    requires |before| == MAX_BYTES - 1 && AllMarked(before) && Marked(b)
    ensures Run(max, State(Decoder(before, false), 0, []), [b])
      == Outcome(State(Decoder(before, true), 1, []), [ProtocolError])
  {
    assert Marked(before[|before| - 1]);
  }

  /** Frames of any messages, and then something: each is reported once, and the rest comes to a fresh receiver. */
  lemma {:induction false} StreamThen(max: nat, messages: seq<seq<byte>>, rest: seq<byte>)
    requires forall m :: m in messages ==> |m| <= MAX_VALUE
    requires rest != []
    ensures Run(max, START, Stream(messages) + rest) == Run(max, START, rest).After(AllExpected(max, messages))
  {
    hide Run, Step, Frame, Expected;
    if messages == [] {
      assert Stream(messages) + rest == rest;
      EmptyLead(Run(max, START, rest));
    } else {
      var m, more := messages[0], messages[1..];
      StreamThen(max, more, rest);
      assert Stream(messages) + rest == Frame(m) + (Stream(more) + rest);
      FrameStretch(max, m, Stream(more) + rest);
      AfterAfter(Run(max, START, rest), Expected(max, m), AllExpected(max, more));
    }
  }

  /**
   * After any messages, eight marked bytes make the receiver leave its buffer if and only if at
   * least as many bytes follow them as the buffer holds.
   */
  lemma LeavesBufferExactly(max: nat, messages: seq<seq<byte>>, marked: seq<byte>, rest: seq<byte>)
    requires forall m :: m in messages ==> |m| <= MAX_VALUE
    requires |marked| == MAX_BYTES && AllMarked(marked)
    ensures LeftBuffer(max, Run(max, START, Stream(messages) + (marked + rest)).state) <==> |rest| >= max
  {
    StreamThen(max, messages, marked + rest);
    AfterFailure(max, marked, rest);
  }

  /** It happens: eight bytes 0xFF and as many bytes as the buffer holds. */
  lemma LeavesBufferExample(max: nat)
    ensures LeftBuffer(max, Feed(max, START, seq(8, _ => 0xFF) + seq(max, _ => 0)).state)
  {
    AfterFailure(max, seq(8, _ => 0xFF), seq(max, _ => 0));
  }

  /** A cut shows: the failure is reported for each of two chunks, and once for both in one. */
  lemma CutExample(max: nat, b: byte)
    ensures var marked := seq(8, _ => 0xFF);
      && FeedAll(max, START, [marked, [b]]).events == [ProtocolError, ProtocolError]
      && FeedAll(max, START, [marked + [b]]).events == [ProtocolError]
  {
    hide Run, Step;
    var marked: seq<byte> := seq(8, _ => 0xFF);
    AfterFailure(max, marked, []);
    assert marked + [] == marked;
    AfterFailure(max, marked, [b]);
    var failed := State(Decoder(marked[..7], true), 1, []);
    FailureStays(max, failed, [b]);
    assert [marked, [b]][1..] == [[b]] && [[b]][1..] == [] && [marked + [b]][1..] == [];
    assert Feed(max, START, marked).events == [ProtocolError] == Feed(max, failed, [b]).events;
    assert FeedAll(max, failed, [[b]]).events == [ProtocolError];
  }

  // ---------- the receiver ----------

  /** The message delivered last. */
  function LastDelivered(events: seq<Event>): seq<byte> {
    if events == [] then []
    else if events[|events| - 1].Message? then events[|events| - 1].data
    else LastDelivered(events[..|events| - 1])
  }

  lemma LastOf(events: seq<Event>, e: Event)
    ensures LastDelivered(events + [e]) == if e.Message? then e.data else LastDelivered(events)
  {
    assert (events + [e])[..|events|] == events;
  }

  /** Two messages that start alike, as far as both go. */
  predicate Agree(a: seq<byte>, b: seq<byte>) { forall i :: 0 <= i < |a| && i < |b| ==> a[i] == b[i] }

  class MessageReceiver {
    const max: nat
    const size: VariableLengthSize
    const buffer: array<byte>
    var offset: nat
    var events: seq<Event>   // the calls made to the receive callback
    var overran: bool        // a copy has been made that does not stay in the buffer

    ghost function View(): State
      reads this, size, buffer
    {
      var d := size.view;
      State(d, offset, if d.Complete() && d.Size() <= max && offset <= buffer.Length then buffer[..offset] else [])
    }

    ghost predicate Valid()
      reads this, size, buffer
    {
      && size.Valid() && size.counted && buffer.Length == max && WellFormed(max, View())
      && (overran <==> LeftBuffer(max, View()))
      && (!size.view.failed ==> ChunkBehind(LastDelivered(events)))
    }

    /** A message delivered before lies in the buffer, behind what has arrived of the next one. */
    ghost predicate ChunkBehind(chunk: seq<byte>)
      reads this, size, buffer
    {
      |chunk| <= buffer.Length && forall i :: |View().body| <= i < |chunk| ==> buffer[i] == chunk[i]
    }

    /**
     * Messages are delivered in the receiver's own buffer. A user who keeps the last one sees it
     * unchanged if and only if what has arrived of the next one starts like it.
     */
    lemma KeptChunk()
      requires Valid() && !size.view.failed
      ensures |LastDelivered(events)| <= buffer.Length
      ensures buffer[..|LastDelivered(events)|] == LastDelivered(events) <==> Agree(View().body, LastDelivered(events))
    {
      var chunk, body := LastDelivered(events), View().body;
      assert forall i :: 0 <= i < |body| ==> buffer[i] == body[i];
      if Agree(body, chunk) {
        assert buffer[..|chunk|] == chunk;
      } else {
        var i :| 0 <= i < |body| && i < |chunk| && body[i] != chunk[i];
        assert buffer[..|chunk|][i] != chunk[i];
      }
    }

    constructor (maxMessageSize: nat)
      ensures Valid() && max == maxMessageSize && View() == START && events == [] && !overran
      ensures fresh(size) && fresh(buffer)
    {
      max := maxMessageSize;
      size := new VariableLengthSize();
      buffer := new byte[maxMessageSize];
      offset, events, overran := 0, [], false;
    }

    predicate CurrentMessageTooLarge()
      reads this, size
    {
      size.IsComplete() && size.SizeValue() > max
    }

    /**
     * Takes one chunk from the connection; every copy stays in the buffer unless the size has
     * failed and more bytes follow than the buffer holds. The bytes that follow a failed size are
     * assumed to stay below 2^64 - 1 in all.
     */
    method OnDataReceive(data: seq<byte>)
      requires Valid() && offset + |data| < INVALID_VALUE
      modifies this, size, buffer
      ensures Valid()
      ensures View() == Feed(max, old(View()), data).state
      ensures events == old(events) + Feed(max, old(View()), data).events
      ensures overran <==> LeftBuffer(max, Feed(max, old(View()), data).state)
    {
      hide Run, Step, Feed, WellFormed, BitAnd, EncodedWord, DecodedWord, AllMarked, IsPrefixCode, Value;
      ghost var goal := Feed(max, View(), data).After(events);
      var bytesLeft := |data|;
      assert data[0..] == data;
      while bytesLeft > 0
        invariant 0 <= bytesLeft <= |data| && Valid()
        invariant offset + bytesLeft < INVALID_VALUE
        invariant goal == Feed(max, View(), data[|data| - bytesLeft..]).After(events)
        decreases bytesLeft, size.view.Complete()
      {
        size.Reads();
        if !size.IsComplete() {
          bytesLeft := TakeSizeBytes(data, bytesLeft);
          if bytesLeft == 0 {
            Finished(data, bytesLeft, goal);
            return;
          }
        } else {
          CompleteNotFailed();
          FeedIsRun(max, View(), data[|data| - bytesLeft..]);
        }
        bytesLeft := CopyMessageBytes(data, bytesLeft);
        FeedIsRun(max, View(), data[|data| - bytesLeft..]);
      }
      assert data[|data|..] == [];
      FeedIsRun(max, View(), []);
      Finished(data, bytesLeft, goal);
    }

    lemma CompleteNotFailed()
      requires Valid() && size.view.Complete()
      ensures !size.view.failed
    {
    }

    lemma Finished(data: seq<byte>, bytesLeft: nat, goal: Outcome)
      requires bytesLeft == 0 && goal == Run(max, View(), data[|data| - bytesLeft..]).After(events)
      ensures goal == Outcome(View(), events)
    {
      NothingRun(max, View());
    }

    /** The first half of a pass of the loop: decode size bytes, report a size that is too large or wrong. */
    method TakeSizeBytes(data: seq<byte>, left: nat) returns (bytesLeft: nat)
      requires Valid() && !size.view.Complete() && 0 < left <= |data| && offset + left < INVALID_VALUE
      modifies this, size
      ensures Valid() && bytesLeft <= left && offset == old(offset) && overran == old(overran)
      ensures bytesLeft > 0 ==> !size.view.Open()
      ensures bytesLeft == left ==> size.view.failed
      ensures Feed(max, old(View()), data[|data| - left..]).After(old(events))
        == Run(max, View(), data[|data| - bytesLeft..]).After(events)
    {
      hide Run, Step, BitAnd, Value, Decoder.AddAll, Decoder.Consumed, Feed;
      var rest := data[|data| - left..];
      SizePart(max, View(), rest);
      AddAllInPortions(size.view, [], rest);
      var sizeBytes := size.AddBytes(rest);
      size.Reads();
      if CurrentMessageTooLarge() {
        events := events + [TooLong(size.SizeValue())];
      }
      if size.Fail() {
        events := events + [ProtocolError];
      }
      bytesLeft := left - sizeBytes;
      assert rest[sizeBytes..] == data[|data| - bytesLeft..];
      assert events == old(events) + SizeReport(max, size.view);
      AfterAfter(Run(max, View(), rest[sizeBytes..]), old(events), SizeReport(max, size.view));
    }

    method CopyToBuffer(bytes: seq<byte>)
      requires offset + |bytes| <= buffer.Length
      modifies buffer
      ensures buffer[..offset + |bytes|] == old(buffer[..offset]) + bytes
      ensures forall i :: offset + |bytes| <= i < buffer.Length ==> buffer[i] == old(buffer[i])
    {
      forall i | 0 <= i < |bytes| { buffer[offset + i] := bytes[i]; }
    }

    /** Message bytes go into the buffer unless the message is over the limit, or leave it if they do not fit. */
    method Copy(bytes: seq<byte>)
      requires size.Valid() && buffer.Length == max
      modifies buffer, this`overran
      ensures overran <==> old(overran) || (!TooLarge(max, View()) && offset + |bytes| > max)
      ensures !TooLarge(max, View()) && offset + |bytes| <= max
        ==> buffer[..offset + |bytes|] == old(buffer[..offset]) + bytes
      ensures forall i :: offset + |bytes| <= i < buffer.Length ==> buffer[i] == old(buffer[i])
      ensures TooLarge(max, View()) ==> buffer[..] == old(buffer[..])
    {
      hide BitAnd, Value, EncodedWord, DecodedWord;
      size.Reads();
      if !CurrentMessageTooLarge() {
        if offset + |bytes| <= buffer.Length {
          CopyToBuffer(bytes);
        } else {
          overran := true;
        }
      }
    }

    /** A whole message has arrived: it is delivered, unless it is over the limit, and the next one can come. */
    method Deliver() returns (ghost delivered: seq<Event>)
      requires size.Valid() && size.counted && buffer.Length == max && !overran && size.view.Complete()
        && !size.view.failed
      requires offset == size.view.Size() && (offset > max ==> ChunkBehind(LastDelivered(events)))
      modifies this`offset, this`events, size
      ensures Valid() && View() == START && events == old(events) + delivered && size.view == FRESH
      ensures delivered == if old(offset) <= max then [Message(buffer[..old(offset)])] else []
    {
      hide BitAnd, Value, EncodedWord, DecodedWord, AllMarked, IsPrefixCode, LastDelivered;
      size.Reads();
      delivered := [];
      if !CurrentMessageTooLarge() {
        delivered := [Message(buffer[..size.SizeValue()])];
        LastOf(events, delivered[0]);
        events := events + [Message(buffer[..size.SizeValue()])];
      }
      size.Reset();
      offset := 0;
    }

    /** Message bytes are copied and counted; until the message is whole, it waits for more. */
    method Advance(bytes: seq<byte>)
      requires Valid() && !size.view.Open() && (size.view.Complete() ==> offset + |bytes| <= size.view.Size())
      modifies buffer, this`overran, this`offset
      ensures offset == old(offset) + |bytes| && buffer.Length == max && size.Valid() && size.counted
      ensures overran <==> old(overran) || (size.view.failed && offset > max)
      ensures size.view.failed || offset < size.view.Size() ==> Valid() && (size.view.failed ==> View().body == [])
      ensures size.view.Complete() && size.view.Size() <= max
        ==> offset <= max && buffer[..offset] == old(View().body) + bytes
      ensures size.view.Complete() && size.view.Size() > max ==> ChunkBehind(LastDelivered(events))
    {
      hide BitAnd, Value, EncodedWord, DecodedWord, AllMarked, IsPrefixCode, LastDelivered;
      Copy(bytes);
      offset := offset + |bytes|;
    }

    /** The second half of a pass of the loop: copy what belongs to the message, deliver it when whole. */
    method CopyMessageBytes(data: seq<byte>, left: nat) returns (bytesLeft: nat)
      requires Valid() && !size.view.Open() && 0 < left <= |data| && offset + left < INVALID_VALUE
      modifies this, size, buffer
      ensures Valid() && bytesLeft <= left && offset + bytesLeft <= old(offset) + left
      ensures bytesLeft == left ==> old(size.view.Complete()) && !size.view.Complete()
      ensures size.view.failed ==> bytesLeft == 0
      ensures overran <==> old(overran) || (old(size.view.failed) && old(offset) + left > max)
      ensures Run(max, old(View()), data[|data| - left..]).After(old(events))
        == Run(max, View(), data[|data| - bytesLeft..]).After(events)
    {
      hide Run, Step, BitAnd, Value, EncodedWord, DecodedWord, AllMarked, IsPrefixCode, LastDelivered, ChunkBehind;
      size.Reads();
      var processed := |data| - left;
      var sizeToCopy := if size.SizeValue() - offset < left then size.SizeValue() - offset else left;
      ghost var s, rest := View(), data[processed..];
      CopyPart(max, s, rest, sizeToCopy, events);
      ghost var goal := AfterCopy(max, s, rest[..sizeToCopy]);
      assert data[processed..processed + sizeToCopy] == rest[..sizeToCopy];
      Advance(data[processed..processed + sizeToCopy]);
      bytesLeft := left - sizeToCopy;
      assert rest[sizeToCopy..] == data[|data| - bytesLeft..];
      if offset == size.SizeValue() {
        ghost var delivered := Deliver();
        assert goal == Outcome(START, delivered);
      } else {
        assert goal == Outcome(View(), []);
      }
    }
  }

  /** A message of two bytes, as far as its first one, and whole. */
  lemma TwoReceived(a: byte, b: byte)
    ensures Run(2, START, [2, a]) == Outcome(State(Decoder([2], false), 1, [a]), [])
    ensures Run(2, START, [2, a, b]) == Outcome(START, [Message([a, b])])
  {
    hide Run, Step;
    var s0, s1 := State(Decoder([2], false), 0, []), State(Decoder([2], false), 1, [a]);
    RunOne(2, START, 2);
    RunOne(2, s0, a);
    RunOne(2, s1, b);
    TwoSteps(a, b);
    assert [2, a] == [2] + [a] && [2, a, b] == [2, a] + [b];
    RunConcat(2, START, [2], [a]);
    RunConcat(2, START, [2, a], [b]);
  }

  lemma RunOne(max: nat, s: State, b: byte)
    ensures Run(max, s, [b]) == Step(max, s, b)
  {
    hide Step;
    var first := Step(max, s, b);
    assert Run(max, first.state, []) == Outcome(first.state, []);
  }

  lemma TwoSteps(a: byte, b: byte)
    ensures Step(2, START, 2) == Outcome(State(Decoder([2], false), 0, []), [])
    ensures Step(2, State(Decoder([2], false), 0, []), a) == Outcome(State(Decoder([2], false), 1, [a]), [])
    ensures Step(2, State(Decoder([2], false), 1, [a]), b) == Outcome(START, [Message([a, b])])
  {
    hide BitAnd, AllMarked, IsPrefixCode;
    assert Value([2]) == 2 && [a] + [b] == [a, b];
  }

  /** A message that was kept, [1, 1], has changed when the first byte of the next one has arrived. */
  method KeptChunkExample() returns (receiver: MessageReceiver)
    ensures receiver.Valid() && receiver.events == [Message([1, 1])]
    ensures receiver.buffer.Length == 2 && receiver.buffer[..] == [2, 1]
  {
    hide Run, Step, WellFormed, BitAnd, EncodedWord, DecodedWord, AllMarked, IsPrefixCode, Value;
    receiver := new MessageReceiver(2);
    TwoReceived(1, 1);
    TwoReceived(2, 2);
    receiver.OnDataReceive([2, 1, 1]);
    receiver.OnDataReceive([2, 2]);
    assert receiver.events == [Message([1, 1])];
    assert receiver.View().body == [2];
    assert LastDelivered(receiver.events) == [1, 1];
    assert receiver.buffer[..1] == [2];
  }
}
