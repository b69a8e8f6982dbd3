/** The current generation's serial link to one device (gun or vest):
    connect to the bonded device with the configured name, announce the
    connection upward, then split the input stream into frames and
    dispatch each one. Threads, sleeps and the socket itself are not
    modelled: each step of the connect/listen/retry loop is a method, and
    the bytes read and written are sequences. */
module BluetoothClients {
  import opened JavaBytes
  import opened Options
  import opened MessageTypes
  import opened WirelessMessages
  import opened Messaging
  import opened Framing
  import opened BondedDevices

  const DEVICE_GUN: JByte := 1
  const DEVICE_VEST: JByte := 2

  /** What one frame makes the reader hand to the handler: the device event
      for a two-byte non-ping frame, nothing otherwise. */
  function ForwardedBy(frame: seq<JByte>): seq<WirelessMessage>
  {
    match Classify(frame)
    case Forward(_, _) => [ParseMessageFromDevice(frame)]
    case _ => []
  }

  /** What one frame makes the reader write back: a framed SignalMessage
      for a ping, nothing otherwise. */
  function ReplyTo(frame: seq<JByte>): seq<JByte>
  {
    if Classify(frame).AnswerPing? then Frame(GetBytes(DefaultSignal)) else []
  }

  /** A two-byte frame from the device whose type is not PING reaches the
      handler as the event it encodes and is not answered. */
  lemma DeviceEventForwarded(read: seq<JByte>, t: JByte, payload: JByte)
    requires Scan(read).partial == [] && t != PING && t != STOP_BYTE && payload != STOP_BYTE
    ensures var after := Scan(read + Frame([t, payload])).frames;
      && Collect(after, ForwardedBy) == Collect(Scan(read).frames, ForwardedBy) + [EventMessageIn(t, payload)]
      && Collect(after, ReplyTo) == Collect(Scan(read).frames, ReplyTo)
  {
    ReadOneFrame(read, [t, payload], ForwardedBy);
    ReadOneFrame(read, [t, payload], ReplyTo);
  }

  /** A ping from the device is answered with a framed PING signal and is
      not handed to the handler. */
  lemma PingAnswered(read: seq<JByte>, payload: JByte)
    requires Scan(read).partial == [] && payload != STOP_BYTE
    ensures var after := Scan(read + Frame([PING, payload])).frames;
      && Collect(after, ForwardedBy) == Collect(Scan(read).frames, ForwardedBy)
      && Collect(after, ReplyTo) == Collect(Scan(read).frames, ReplyTo) + [PING, STOP_BYTE]
  {
    ReadOneFrame(read, [PING, payload], ForwardedBy);
    ReadOneFrame(read, [PING, payload], ReplyTo);
  }

  /** A frame that is empty or not two bytes long is neither forwarded nor
      answered. */
  lemma OtherFramesDropped(read: seq<JByte>, payload: seq<JByte>)
    requires Scan(read).partial == [] && STOP_BYTE !in payload && |payload| != 2
    ensures var after := Scan(read + Frame(payload)).frames;
      && Collect(after, ForwardedBy) == Collect(Scan(read).frames, ForwardedBy)
      && Collect(after, ReplyTo) == Collect(Scan(read).frames, ReplyTo)
  {
    ReadOneFrame(read, payload, ForwardedBy);
    ReadOneFrame(read, payload, ReplyTo);
  }

  /** The link has no escaping: a device event whose payload byte is 125
      ends its frame early, so the reader sees a one-byte frame, which it
      drops, and then an empty frame, which it ignores. The event is lost. */
  lemma PayloadTerminatorLosesEvent(read: seq<JByte>, t: JByte)
    requires Scan(read).partial == [] && t != STOP_BYTE
    ensures var after := Scan(read + Frame([t, STOP_BYTE]));
      && after.partial == []
      && Collect(after.frames, ForwardedBy) == Collect(Scan(read).frames, ForwardedBy)
      && Collect(after.frames, ReplyTo) == Collect(Scan(read).frames, ReplyTo)
  {
    var mid := read + Frame([t]);
    assert read + Frame([t, STOP_BYTE]) == mid + Frame([]);
    ReadOneFrame(read, [t], ForwardedBy);
    ReadOneFrame(read, [t], ReplyTo);
    ReadOneFrame(mid, [], ForwardedBy);
    ReadOneFrame(mid, [], ReplyTo);
  }

  class BluetoothClient {
    const deviceName: string
    const deviceType: JByte
    var running: bool
    /** The cached bonded device, once found. */
    var espDevice: Option<BondedDevice>
    /** `bluetoothSocket != null`. */
    var hasSocket: bool
    /** `outputStream` and `inputStream` are non-null. */
    var streamsOpen: bool
    /** The listening loop is reading. */
    var listening: bool
    /** The bytes of the frame being read. */
    var buffer: seq<JByte>
    /** Every byte written to the output stream. */
    var written: seq<JByte>
    /** Every message handed to `handleWirelessEvent`. */
    var events: seq<WirelessMessage>

    ghost predicate Valid()
      reads this
    {
      && STOP_BYTE !in buffer
      && (listening ==> streamsOpen)
      && (streamsOpen ==> hasSocket)
    }

    /** The constructor sets `running` and hands the loop to the executor. */
    constructor(deviceName: string, deviceType: int)
      ensures Valid()
      ensures this.deviceName == deviceName && this.deviceType == ToByte(deviceType)
      ensures running && espDevice == None && !hasSocket && !streamsOpen && !listening
      ensures buffer == [] && written == [] && events == []
    {
      this.deviceName := deviceName;
      this.deviceType := ToByte(deviceType);
      running := true;
      espDevice := None;
      hasSocket := false;
      streamsOpen := false;
      listening := false;
      buffer := [];
      written := [];
      events := [];
    }

    /** `sendMessageToDevice`: the message bytes and the terminator, or
        nothing while no stream is connected. The stream takes `accepted`
        bytes before a write throws; the IOException is swallowed, so a
        failed send leaves a payload prefix without its terminator. */
    method SendMessageToDevice(message: WirelessMessage, accepted: nat)
      modifies this`written
      ensures written == old(written) + (if streamsOpen then Sent(GetBytes(message), accepted) else [])
    {
      if streamsOpen {
        var bytes := GetBytes(message);
        if accepted <= |bytes| {
          written := written + bytes[..accepted];
        } else {
          written := written + bytes;
          written := written + [STOP_BYTE];
        }
      }
    }

    /** One pass of `loop` while not listening: `connectToBluetoothDevice`
        and, when it succeeds, the connected event and the start of
        `listening`. The adapter state, the bonded devices and the socket's
        fate are inputs. */
    method ConnectAttempt(adapterEnabled: bool, bonded: seq<BondedDevice>, outcome: SocketOutcome)
      returns (connected: bool)
      requires Valid() && running && !listening
      modifies this
      ensures Valid()
      ensures espDevice == if !adapterEnabled || old(espDevice).Some? then old(espDevice)
                           else FindByName(bonded, deviceName)
      ensures connected <==> adapterEnabled && espDevice.Some? && outcome == Connected
      ensures hasSocket == (old(hasSocket) || (adapterEnabled && espDevice.Some? && outcome != CreateFailed))
      ensures streamsOpen == (old(streamsOpen) || connected)
      ensures listening == connected
      ensures connected ==> events == old(events) + [EventMessageIn(DEVICE_CONNECTED, deviceType)] && buffer == []
      ensures !connected ==> events == old(events) && buffer == old(buffer)
      ensures running && written == old(written)
    {
      connected := ConnectToBluetoothDevice(adapterEnabled, bonded, outcome);
      if connected {
        events := events + [EventMessageIn(DEVICE_CONNECTED, deviceType)];
        listening := true;
        buffer := [];
      }
    }

    method ConnectToBluetoothDevice(adapterEnabled: bool, bonded: seq<BondedDevice>, outcome: SocketOutcome)
      returns (connected: bool)
      requires Valid()
      modifies this`espDevice, this`hasSocket, this`streamsOpen
      ensures Valid()
      ensures espDevice == if !adapterEnabled || old(espDevice).Some? then old(espDevice)
                           else FindByName(bonded, deviceName)
      ensures connected <==> adapterEnabled && espDevice.Some? && outcome == Connected
      ensures hasSocket == (old(hasSocket) || (adapterEnabled && espDevice.Some? && outcome != CreateFailed))
      ensures streamsOpen == (old(streamsOpen) || connected)
    {
      if !adapterEnabled {
        return false;
      }
      if espDevice == None {
        espDevice := SearchBonded(bonded, deviceName);
      }
      if espDevice == None {
        return false;
      }
      match outcome
      case CreateFailed =>
        connected := false;
      case ConnectFailed =>
        hasSocket := true;
        connected := false;
      case Connected =>
        hasSocket := true;
        streamsOpen := true;
        connected := true;
    }

    /** The reader's buffer and its two logs. */
    function Reading(): Reader<WirelessMessage>
      reads this
    {
      Reader(buffer, events, written)
    }

    /** The listening loop reading `chunk`: every terminator completes a
        frame, which is dispatched, and the buffer starts over. */
    method Receive(chunk: seq<JByte>)
      requires Valid() && listening
      modifies this`buffer, this`events, this`written
      ensures Valid()
      ensures Reading() == ReadAll(old(Reading()), chunk, ForwardedBy, ReplyTo)
      ensures ReaderState(old(buffer) + chunk, ForwardedBy, ReplyTo, old(events), old(written), buffer, events, written)
    {
      ghost var r0 := Reading();
      for i := 0 to |chunk|
        invariant Valid() && listening
        invariant Reading() == ReadAll(r0, chunk[..i], ForwardedBy, ReplyTo)
      {
        ReadByte(chunk[i]);
        assert chunk[..i + 1][..i] == chunk[..i];
      }
      assert chunk[..|chunk|] == chunk;
      ReadStart(r0.buffer, ForwardedBy, ReplyTo, r0.events, r0.written);
      ReadAllScans(r0.buffer, chunk, ForwardedBy, ReplyTo, r0.events, r0.written, r0);
    }

    /** One pass of the inner read loop: a terminator ends the frame and
        dispatches it, any other byte is appended to the buffer. */
    method ReadByte(data: JByte)
      requires Valid() && listening
      modifies this`buffer, this`events, this`written
      ensures Valid()
      ensures data == STOP_BYTE ==>
        && buffer == []
        && events == old(events) + ForwardedBy(old(buffer))
        && written == old(written) + ReplyTo(old(buffer))
      ensures data != STOP_BYTE ==>
        buffer == old(buffer) + [data] && events == old(events) && written == old(written)
    {
      if data == STOP_BYTE {
        HandleFrame(buffer);
        buffer := [];
      } else {
        buffer := buffer + [data];
      }
    }

    /** The dispatch after a terminator: ignore an empty frame, drop one
        whose length is not 2, answer a ping, forward anything else. */
    method HandleFrame(frame: seq<JByte>)
      requires streamsOpen
      modifies this`events, this`written
      ensures events == old(events) + ForwardedBy(frame)
      ensures written == old(written) + ReplyTo(frame)
    {
      if |frame| != 0 {
        if |frame| != 2 {
          // logged and dropped
        } else if frame[0] == PING {
          SendMessageToDevice(DefaultSignal, |Frame(GetBytes(DefaultSignal))|);
        } else {
          events := events + [ParseMessageFromDevice(frame)];
        }
      }
    }

    /** A read that throws: the socket is closed and both streams are
        nulled, so later sends are dropped until the loop reconnects. */
    method ReadFailed()
      requires Valid() && listening
      modifies this`streamsOpen, this`listening
      ensures Valid() && !streamsOpen && !listening
    {
      streamsOpen := false;
      listening := false;
    }

    /** `stop`: clears `running`, then closes the socket and the streams.
        Closing a socket that was never created, or streams already nulled,
        throws a NullPointerException that `stop` does not catch. */
    method Stop() returns (threw: bool)
      requires Valid()
      modifies this`running, this`streamsOpen, this`listening
      ensures Valid() && !running && !listening && !streamsOpen
      ensures threw <==> !old(hasSocket) || !old(streamsOpen)
    {
      running := false;
      listening := false;
      if !hasSocket || !streamsOpen {
        return true;
      }
      streamsOpen := false;
      threw := false;
    }
  }
}
