/** The legacy generation's serial link (`BluetoothComm`). It frames and
    dispatches like the current client, but it is started explicitly, it
    greets the device with a ping instead of reporting the connection
    upward, and it hands each forwarded frame to `handleBluetoothMessage`
    as a type byte and a counterpart byte. */
module BluetoothComms {
  import opened JavaBytes
  import opened Options
  import opened MessageTypes
  import opened Framing
  import opened BondedDevices

  /** What `handleBluetoothMessage` receives: the frame's two bytes. */
  datatype MessageFromDevice = MessageFromDevice(msgType: JByte, counterpartPlayerId: JByte)

  /** The bytes of a legacy `PingMessage`: its type byte alone. */
  const PING_MESSAGE: seq<JByte> := [PING]

  /** What one frame makes the reader hand to the handler. */
  function HandedOn(frame: seq<JByte>): (r: seq<MessageFromDevice>)
    ensures |r| <= 1
    ensures r != [] <==> Classify(frame).Forward?
    ensures r != [] ==> r[0] == MessageFromDevice(frame[0], frame[1])
  {
    if Classify(frame).Forward? then [MessageFromDevice(frame[0], frame[1])] else []
  }

  /** What one frame makes the reader write back: a framed `PingMessage`
      for a ping, nothing otherwise. */
  function PingReply(frame: seq<JByte>): (r: seq<JByte>)
    ensures r != [] <==> Classify(frame).AnswerPing?
    ensures r != [] ==> r == [PING, STOP_BYTE]
  {
    if Classify(frame).AnswerPing? then Frame(PING_MESSAGE) else []
  }

  class BluetoothComm {
    const deviceName: string
    /** `running`: set by `start`, cleared by `stop`. */
    var running: bool
    /** How many times `loop` has been handed to the executor. */
    var loopsLaunched: nat
    var espDevice: Option<BondedDevice>
    /** `bluetoothSocket != null`. */
    var hasSocket: bool
    /** `outputStream` and `inputStream` are non-null. */
    var streamsOpen: bool
    /** `listening` is reading. */
    var listening: bool
    /** The bytes of the frame being read. */
    var buffer: seq<JByte>
    /** Every byte written to the output stream. */
    var written: seq<JByte>
    /** Every message handed to `handleBluetoothMessage`. */
    var handed: seq<MessageFromDevice>

    ghost predicate Valid()
      reads this
    {
      && STOP_BYTE !in buffer
      && (listening ==> streamsOpen && running)
      && (streamsOpen ==> hasSocket)
    }

    /** The constructor only stores its arguments; nothing runs until
        `start`. */
    constructor(deviceName: string)
      ensures Valid()
      ensures this.deviceName == deviceName && !running && loopsLaunched == 0
      ensures espDevice == None && !hasSocket && !streamsOpen && !listening
      ensures buffer == [] && written == [] && handed == []
    {
      this.deviceName := deviceName;
      running := false;
      loopsLaunched := 0;
      espDevice := None;
      hasSocket := false;
      streamsOpen := false;
      listening := false;
      buffer := [];
      written := [];
      handed := [];
    }

    /** `start` launches the loop only when it is not running yet, so a
        second call changes nothing. */
    method Start()
      requires Valid()
      modifies this`running, this`loopsLaunched
      ensures Valid() && running
      ensures loopsLaunched == old(loopsLaunched) + (if old(running) then 0 else 1)
    {
      if !running {
        running := true;
        loopsLaunched := loopsLaunched + 1;
      }
    }

    /** `sendMessageToDevice`: the message bytes and the terminator, or
        nothing while no stream is connected. The stream takes `accepted`
        bytes before a write throws; the IOException is swallowed, so a
        failed send leaves a payload prefix without its terminator. */
    method SendMessageToDevice(message: seq<JByte>, accepted: nat)
      modifies this`written
      ensures written == old(written) + (if streamsOpen then Sent(message, accepted) else [])
    {
      if streamsOpen {
        if accepted <= |message| {
          written := written + message[..accepted];
        } else {
          written := written + message;
          written := written + [STOP_BYTE];
        }
      }
    }

    /** One pass of `loop` while running and not listening: a successful
        connect greets the device with a ping and starts `listening` with
        an empty buffer. The greeting's stream takes `accepted` bytes. */
    method ConnectAttempt(adapterEnabled: bool, bonded: seq<BondedDevice>, outcome: SocketOutcome, accepted: nat)
      returns (connected: bool)
      requires Valid() && running && !listening
      modifies this`espDevice, this`hasSocket, this`streamsOpen, this`listening, this`buffer, this`written
      ensures Valid()
      ensures espDevice == if !adapterEnabled || old(espDevice).Some? then old(espDevice)
                           else FindByName(bonded, deviceName)
      ensures connected <==> adapterEnabled && espDevice.Some? && outcome == Connected
      ensures hasSocket == (old(hasSocket) || (adapterEnabled && espDevice.Some? && outcome != CreateFailed))
      ensures streamsOpen == (old(streamsOpen) || connected)
      ensures listening == connected
      ensures connected ==> written == old(written) + Sent(PING_MESSAGE, accepted) && buffer == []
      ensures !connected ==> written == old(written) && buffer == old(buffer)
    {
      connected := ConnectToBluetoothDevice(adapterEnabled, bonded, outcome);
      if connected {
        SendMessageToDevice(PING_MESSAGE, accepted);
        listening := true;
        buffer := [];
      }
    }

    method ConnectToBluetoothDevice(adapterEnabled: bool, bonded: seq<BondedDevice>, outcome: SocketOutcome)
      returns (connected: bool)
      requires Valid()
      modifies this`espDevice, this`hasSocket, this`streamsOpen
      ensures Valid()
      ensures espDevice == if !adapterEnabled || old(espDevice).Some? then old(espDevice)
                           else FindByName(bonded, deviceName)
      ensures connected <==> adapterEnabled && espDevice.Some? && outcome == Connected
      ensures hasSocket == (old(hasSocket) || (adapterEnabled && espDevice.Some? && outcome != CreateFailed))
      ensures streamsOpen == (old(streamsOpen) || connected)
    {
      if !adapterEnabled {
        return false;
      }
      if espDevice == None {
        espDevice := SearchBonded(bonded, deviceName);
      }
      if espDevice == None {
        return false;
      }
      match outcome
      case CreateFailed =>
        connected := false;
      case ConnectFailed =>
        hasSocket := true;
        connected := false;
      case Connected =>
        hasSocket := true;
        streamsOpen := true;
        connected := true;
    }

    /** The reader's buffer and its two logs. */
    function Reading(): Reader<MessageFromDevice>
      reads this
    {
      Reader(buffer, handed, written)
    }

    /** `listening` reading `chunk`: every terminator completes a frame,
        which is dispatched, and the buffer starts over. */
    method Receive(chunk: seq<JByte>)
      requires Valid() && listening
      modifies this`buffer, this`handed, this`written
      ensures Valid()
      ensures Reading() == ReadAll(old(Reading()), chunk, HandedOn, PingReply)
      ensures ReaderState(old(buffer) + chunk, HandedOn, PingReply, old(handed), old(written), buffer, handed, written)
    {
      ghost var r0 := Reading();
      for i := 0 to |chunk|
        invariant Valid() && listening
        invariant Reading() == ReadAll(r0, chunk[..i], HandedOn, PingReply)
      {
        ReadByte(chunk[i]);
        assert chunk[..i + 1][..i] == chunk[..i];
      }
      assert chunk[..|chunk|] == chunk;
      ReadStart(r0.buffer, HandedOn, PingReply, r0.events, r0.written);
      ReadAllScans(r0.buffer, chunk, HandedOn, PingReply, r0.events, r0.written, r0);
    }

    /** One pass of the inner read loop and, at a terminator, the dispatch:
        ignore an empty frame, drop one whose length is not 2, answer a
        ping, hand on anything else. */
    method ReadByte(data: JByte)
      requires Valid() && listening
      modifies this`buffer, this`handed, this`written
      ensures Valid()
      ensures data == STOP_BYTE ==>
        && buffer == []
        && handed == old(handed) + HandedOn(old(buffer))
        && written == old(written) + PingReply(old(buffer))
      ensures data != STOP_BYTE ==>
        buffer == old(buffer) + [data] && handed == old(handed) && written == old(written)
    {
      if data != STOP_BYTE {
        buffer := buffer + [data];
        return;
      }
      var frame := buffer;
      buffer := [];
      if |frame| != 0 {
        if |frame| != 2 {
          // logged and dropped
        } else if frame[0] == PING {
          SendMessageToDevice(PING_MESSAGE, |Frame(PING_MESSAGE)|);
        } else {
          handed := handed + [MessageFromDevice(frame[0], frame[1])];
        }
      }
    }

    /** A read that throws: the socket is closed and both streams are
        nulled; `loop` tries to connect again while `running`. */
    method ReadFailed()
      requires Valid() && listening
      modifies this`streamsOpen, this`listening
      ensures Valid() && !streamsOpen && !listening && running
    {
      streamsOpen := false;
      listening := false;
    }

    /** `stop`: clears `running`, then closes the socket and the streams.
        A socket never created or streams already nulled make it throw a
        NullPointerException, which it does not catch. */
    method Stop() returns (threw: bool)
      requires Valid()
      modifies this`running, this`streamsOpen, this`listening
      ensures Valid() && !running && !listening && !streamsOpen
      ensures threw <==> !old(hasSocket) || !old(streamsOpen)
    {
      running := false;
      listening := false;
      if !hasSocket || !streamsOpen {
        return true;
      }
      streamsOpen := false;
      threw := false;
    }
  }

  /** A two-byte frame whose type is not PING is handed on as its two bytes
      and not answered; a ping is answered with a framed `PingMessage` and
      not handed on. */
  lemma TwoByteFrames(read: seq<JByte>, t: JByte, c: JByte)
    requires Scan(read).partial == [] && t != STOP_BYTE && c != STOP_BYTE
    ensures var after := Scan(read + Frame([t, c])).frames;
      && Collect(after, HandedOn) == Collect(Scan(read).frames, HandedOn)
                                     + (if t == PING then [] else [MessageFromDevice(t, c)])
      && Collect(after, PingReply) == Collect(Scan(read).frames, PingReply)
                                      + (if t == PING then [PING, STOP_BYTE] else [])
  {
    ReadOneFrame(read, [t, c], HandedOn);
    ReadOneFrame(read, [t, c], PingReply);
  }

  /** A frame that is empty or not two bytes long is neither handed on nor
      answered. */
  lemma OtherFramesDropped(read: seq<JByte>, payload: seq<JByte>)
    requires Scan(read).partial == [] && STOP_BYTE !in payload && |payload| != 2
    ensures var after := Scan(read + Frame(payload)).frames;
      && Collect(after, HandedOn) == Collect(Scan(read).frames, HandedOn)
      && Collect(after, PingReply) == Collect(Scan(read).frames, PingReply)
  {
    ReadOneFrame(read, payload, HandedOn);
    ReadOneFrame(read, payload, PingReply);
  }
}
