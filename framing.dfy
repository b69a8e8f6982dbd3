/** The serial link's framing, shared by both Bluetooth clients: a frame is
    the bytes read before the terminator 125, with no length prefix and no
    escaping. `Scan` states what a byte stream splits into; the clients'
    read loops are proved against it. */
module Framing {
  import opened JavaBytes
  import opened MessageTypes

  const STOP_BYTE: JByte := 125

  /** The frames completed so far and the bytes read since the last
      terminator. */
  datatype ScanState = ScanState(frames: seq<seq<JByte>>, partial: seq<JByte>)

  /** What the reader has made of `stream` after reading it byte by byte
      from an empty buffer. */
  function Scan(stream: seq<JByte>): (st: ScanState)
    ensures STOP_BYTE !in st.partial
  {
    if stream == [] then ScanState([], [])
    else
      var st := Scan(stream[..|stream| - 1]);
      var b := stream[|stream| - 1];
      if b == STOP_BYTE then ScanState(st.frames + [st.partial], [])
      else ScanState(st.frames, st.partial + [b])
  }

  /** Reading one more byte. */
  lemma ScanStep(stream: seq<JByte>, b: JByte)
    ensures Scan(stream + [b]) ==
      var st := Scan(stream);
      if b == STOP_BYTE then ScanState(st.frames + [st.partial], []) else ScanState(st.frames, st.partial + [b])
  {
    assert (stream + [b])[..|stream|] == stream;
  }

  /** The bytes a sender writes for one message. */
  function Frame(payload: seq<JByte>): (bytes: seq<JByte>)
    ensures |bytes| == |payload| + 1 && bytes[|payload|] == STOP_BYTE
  {
    payload + [STOP_BYTE]
  }

  function Frames(payloads: seq<seq<JByte>>): seq<JByte>
  {
    if payloads == [] then [] else Frames(payloads[..|payloads| - 1]) + Frame(payloads[|payloads| - 1])
  }

  /** Bytes without a terminator only grow the partial frame. */
  lemma {:induction false} ScanNoStop(prefix: seq<JByte>, bytes: seq<JByte>)
    requires STOP_BYTE !in bytes
    ensures Scan(prefix + bytes) == ScanState(Scan(prefix).frames, Scan(prefix).partial + bytes)
    decreases |bytes|
  {
    if bytes == [] {
      assert prefix + bytes == prefix;
    } else {
      var init, last := bytes[..|bytes| - 1], bytes[|bytes| - 1];
      assert bytes == init + [last];
      assert last != STOP_BYTE && STOP_BYTE !in init;
      ScanNoStop(prefix, init);
      assert prefix + bytes == (prefix + init) + [last];
      ScanStep(prefix + init, last);
      assert (Scan(prefix).partial + init) + [last] == Scan(prefix).partial + bytes;
    }
  }

  /** A frame whose payload has no terminator is read back as exactly that
      payload, after whatever was read before it. */
  lemma FrameRoundTrip(prefix: seq<JByte>, payload: seq<JByte>)
    requires STOP_BYTE !in payload
    ensures Scan(prefix + Frame(payload)) ==
            ScanState(Scan(prefix).frames + [Scan(prefix).partial + payload], [])
  {
    ScanNoStop(prefix, payload);
    assert prefix + Frame(payload) == (prefix + payload) + [STOP_BYTE];
    ScanStep(prefix + payload, STOP_BYTE);
  }

  /** A sequence of framed payloads without terminators inside is split back
      into exactly those payloads, with nothing left over. */
  lemma {:induction false} FramesRoundTrip(payloads: seq<seq<JByte>>)
    requires forall i :: 0 <= i < |payloads| ==> STOP_BYTE !in payloads[i]
    ensures Scan(Frames(payloads)) == ScanState(payloads, [])
    decreases |payloads|
  {
    if payloads != [] {
      var init := payloads[..|payloads| - 1];
      FramesRoundTrip(init);
      FrameRoundTrip(Frames(init), payloads[|payloads| - 1]);
      assert [] + payloads[|payloads| - 1] == payloads[|payloads| - 1];
      assert init + [payloads[|payloads| - 1]] == payloads;
    }
  }

  /** Reading more bytes never changes the frames already completed. */
  lemma {:induction false} ScanExtends(prefix: seq<JByte>, rest: seq<JByte>)
    ensures |Scan(prefix).frames| <= |Scan(prefix + rest).frames|
    ensures Scan(prefix + rest).frames[..|Scan(prefix).frames|] == Scan(prefix).frames
    decreases |rest|
  {
    if rest == [] {
      assert prefix + rest == prefix;
    } else {
      var init := rest[..|rest| - 1];
      ScanExtends(prefix, init);
      assert prefix + rest == (prefix + init) + [rest[|rest| - 1]];
      ScanStep(prefix + init, rest[|rest| - 1]);
    }
  }

  /** No escaping: a payload that contains the terminator is cut at its
      first 125, so the reader never sees it whole and takes its head for
      a frame of its own. */
  lemma TerminatorSplitsPayload(payload: seq<JByte>, k: nat)
    requires k < |payload| && payload[k] == STOP_BYTE && STOP_BYTE !in payload[..k]
    ensures |Scan(Frame(payload)).frames| >= 1
    ensures Scan(Frame(payload)).frames[0] == payload[..k]
    ensures Scan(Frame(payload)).frames != [payload]
  {
    var head, tail := payload[..k], payload[k + 1..];
    assert Scan(Frame(head)) == ScanState([head], []) by {
      var none: seq<JByte> := [];
      FrameRoundTrip(none, head);
      assert none + Frame(head) == Frame(head);
      assert Scan(none).frames == [] && Scan(none).partial == [];
      assert Scan(none).partial + head == head;
      assert Scan(none).frames + [head] == [head];
    }
    assert Frame(payload) == Frame(head) + Frame(tail);
    ScanExtends(Frame(head), Frame(tail));
    var frames := Scan(Frame(payload)).frames;
    assert frames[..1] == [head];
    assert frames[0] == head && |head| < |payload|;
  }

  /** What `write(payload)` then `write(STOP_BYTE)` leave on a stream that
      takes only `accepted` bytes before an IOException, which the sender
      swallows: the whole frame when it took them all, otherwise a prefix
      of the payload without its terminator. */
  function Sent(payload: seq<JByte>, accepted: nat): (bytes: seq<JByte>)
    ensures bytes == Frame(payload)[..if accepted <= |payload| then accepted else |payload| + 1]
    ensures STOP_BYTE !in payload ==> (STOP_BYTE in bytes <==> accepted > |payload|)
  {
    if accepted > |payload| then Frame(payload) else payload[..accepted]
  }

  /** A swallowed write failure leaves a payload prefix without its
      terminator, so the device reads it and the next message as one
      frame. */
  lemma PartialWriteMerges(read: seq<JByte>, payload: seq<JByte>, accepted: nat, next: seq<JByte>)
    requires Scan(read).partial == [] && accepted <= |payload|
    requires STOP_BYTE !in payload && STOP_BYTE !in next
    ensures Scan(read + Sent(payload, accepted) + Frame(next)) ==
            ScanState(Scan(read).frames + [payload[..accepted] + next], [])
  {
    var cut := payload[..accepted];
    assert STOP_BYTE !in cut by {
      forall i | 0 <= i < |cut| ensures cut[i] != STOP_BYTE {
        assert cut[i] == payload[i];
      }
    }
    ScanNoStop(read, cut);
    FrameRoundTrip(read + cut, next);
    assert [] + cut == cut;
  }

  /*********************************************************************
   * What the reader does with the frames
   *********************************************************************/

  /** What a reader hands on, or writes back, for each completed frame in
      turn, `f` saying what one frame produces. */
  function Collect<T>(frames: seq<seq<JByte>>, f: seq<JByte> -> seq<T>): seq<T>
  {
    if frames == [] then [] else Collect(frames[..|frames| - 1], f) + f(frames[|frames| - 1])
  }

  /** A reader's buffer and its two logs after reading `read` since it began
      listening, `e0` and `w0` being the logs at that point: the buffer holds
      the partial frame, the handler has been given what `forward` makes of
      every completed frame and the device has been sent what `reply` makes
      of it. */
  ghost predicate ReaderState<E>(read: seq<JByte>, forward: seq<JByte> -> seq<E>, reply: seq<JByte> -> seq<JByte>,
                                 e0: seq<E>, w0: seq<JByte>,
                                 buffer: seq<JByte>, events: seq<E>, written: seq<JByte>)
  {
    && buffer == Scan(read).partial
    && events == e0 + Collect(Scan(read).frames, forward)
    && written == w0 + Collect(Scan(read).frames, reply)
  }

  /** A buffer without a terminator is the partial frame of itself. */
  lemma ReadStart<E>(buffer: seq<JByte>, forward: seq<JByte> -> seq<E>, reply: seq<JByte> -> seq<JByte>,
                     e0: seq<E>, w0: seq<JByte>)
    requires STOP_BYTE !in buffer
    ensures ReaderState(buffer, forward, reply, e0, w0, buffer, e0, w0)
  {
    ScanNoStop([], buffer);
    assert [] + buffer == buffer;
  }

  /** Reading one byte the way the read loops do keeps the reader's state
      in step with `Scan`: a terminator dispatches the buffer and empties
      it, any other byte is appended. */
  lemma ReadStep<E>(read: seq<JByte>, data: JByte, forward: seq<JByte> -> seq<E>, reply: seq<JByte> -> seq<JByte>,
                    e0: seq<E>, w0: seq<JByte>,
                    buffer: seq<JByte>, events: seq<E>, written: seq<JByte>,
                    buffer': seq<JByte>, events': seq<E>, written': seq<JByte>)
    requires ReaderState(read, forward, reply, e0, w0, buffer, events, written)
    requires data == STOP_BYTE ==>
      buffer' == [] && events' == events + forward(buffer) && written' == written + reply(buffer)
    requires data != STOP_BYTE ==>
      buffer' == buffer + [data] && events' == events && written' == written
    ensures ReaderState(read + [data], forward, reply, e0, w0, buffer', events', written')
  {
    ScanStep(read, data);
    var frames := Scan(read).frames;
    if data == STOP_BYTE {
      assert (frames + [buffer])[..|frames|] == frames;
      assert events' == e0 + (Collect(frames, forward) + forward(buffer));
      assert written' == w0 + (Collect(frames, reply) + reply(buffer));
    }
  }

  /** A reader's buffer and its two logs. */
  datatype Reader<E> = Reader(buffer: seq<JByte>, events: seq<E>, written: seq<JByte>)

  /** One byte taken the way the read loops take it. */
  function ReadOne<E>(r: Reader<E>, data: JByte, forward: seq<JByte> -> seq<E>, reply: seq<JByte> -> seq<JByte>): Reader<E>
  {
    if data == STOP_BYTE then Reader([], r.events + forward(r.buffer), r.written + reply(r.buffer))
    else Reader(r.buffer + [data], r.events, r.written)
  }

  /** The bytes `bytes` taken one after another. */
  function ReadAll<E>(r: Reader<E>, bytes: seq<JByte>, forward: seq<JByte> -> seq<E>, reply: seq<JByte> -> seq<JByte>): Reader<E>
  {
    if bytes == [] then r
    else ReadOne(ReadAll(r, bytes[..|bytes| - 1], forward, reply), bytes[|bytes| - 1], forward, reply)
  }

  /** A reader in step with `Scan` of what it has read stays in step with
      it whatever it reads next. */
  lemma {:induction false} ReadAllScans<E>(read: seq<JByte>, bytes: seq<JByte>,
                                           forward: seq<JByte> -> seq<E>, reply: seq<JByte> -> seq<JByte>,
                                           e0: seq<E>, w0: seq<JByte>, r: Reader<E>)
    requires ReaderState(read, forward, reply, e0, w0, r.buffer, r.events, r.written)
    ensures var r' := ReadAll(r, bytes, forward, reply);
      ReaderState(read + bytes, forward, reply, e0, w0, r'.buffer, r'.events, r'.written)
    decreases |bytes|
  {
    if bytes == [] {
      assert read + bytes == read;
    } else {
      var n := |bytes| - 1;
      ReadAllScans(read, bytes[..n], forward, reply, e0, w0, r);
      var mid := ReadAll(r, bytes[..n], forward, reply);
      var next := ReadOne(mid, bytes[n], forward, reply);
      ReadStep(read + bytes[..n], bytes[n], forward, reply, e0, w0,
               mid.buffer, mid.events, mid.written, next.buffer, next.events, next.written);
      assert read + bytes[..n] + [bytes[n]] == read + bytes;
    }
  }

  /** Reading one more whole frame from a frame boundary dispatches exactly
      that frame. */
  lemma ReadOneFrame<T>(read: seq<JByte>, payload: seq<JByte>, f: seq<JByte> -> seq<T>)
    requires Scan(read).partial == [] && STOP_BYTE !in payload
    ensures Scan(read + Frame(payload)).partial == []
    ensures Collect(Scan(read + Frame(payload)).frames, f) == Collect(Scan(read).frames, f) + f(payload)
  {
    FrameRoundTrip(read, payload);
    var frames := Scan(read).frames;
    assert [] + payload == payload;
    assert (frames + [payload])[..|frames|] == frames;
  }

  /*********************************************************************
   * What the reader does with a frame
   *********************************************************************/

  datatype FrameAction =
    | Ignore                         // empty frame
    | Malformed                      // length other than 2: logged, dropped
    | AnswerPing                     // [PING, _]: answered, not forwarded
    | Forward(msgType: JByte, payload: JByte)

  function Classify(frame: seq<JByte>): (a: FrameAction)
    ensures a.Ignore? <==> frame == []
    ensures a.Malformed? <==> frame != [] && |frame| != 2
    ensures a.AnswerPing? <==> |frame| == 2 && frame[0] == PING
    ensures a.Forward? <==> |frame| == 2 && frame[0] != PING
    ensures a.Forward? ==> a.msgType == frame[0] && a.payload == frame[1]
  {
    if frame == [] then Ignore
    else if |frame| != 2 then Malformed
    else if frame[0] == PING then AnswerPing
    else Forward(frame[0], frame[1])
  }
}
