/**
 * `SocketForwarder` (src/log_proxy/forwarders/socket.py): a forwarder that
 * ships each queued record to a log server as one length-prefixed JSON
 * frame.  The queue it inherits is the `queue` field; the connection is
 * the pair of `reader`/`writer` handles, where the writer is the list of
 * bytes written on the current connection.
 */
module SocketForwarders {
  import opened Optional
  import Json
  import Frame
  import Forwarders

  /** The `asyncio.StreamReader` handle `open_connection` returns; the forwarder never reads from it. */
  datatype ReaderHandle = ReaderHandle

  /** `json.dumps`. */
  type Dumps = Json.Value -> string

  /**
   * What the network does during one `connect`: whether `open_connection`
   * succeeds and whether the `drain()` after the token frame succeeds.
   */
  datatype Net = Net(openOk: bool, handshakeDrainOk: bool)

  class SocketForwarder {
    const host: string
    const port: int
    const token: Option<string>
    const dumps: Dumps
    /** The inherited priority queue and counter. */
    const queue: Forwarders.Forwarder
    var reader: Option<ReaderHandle>
    /** The bytes written on the current connection; `None` when there is no writer. */
    var writer: Option<seq<Frame.byte>>

    ghost predicate Valid()
      reads this, queue
    {
      queue.Valid() && (reader.Some? <==> writer.Some?)
    }

    /** `connected()`: a writer is set. */
    predicate Connected()
      reads this
    {
      writer.Some?
    }

    /** `if self.token:` */
    predicate HasToken() {
      token.Some? && token.value != ""
    }

    /** The handshake record `{"token": token}`. */
    function TokenMessage(): Json.Record
      requires HasToken()
    {
      map["token" := Json.Str(token.value)]
    }

    /** The frame `process_message` would write for `message`; `None` when `struct.pack` raises. */
    function FrameOf(message: Json.Record): Option<seq<Frame.byte>> {
      Frame.EncodeFrame(dumps(Json.Object(message)))
    }

    /** Whether `process_message(message)` raises, given whether its `drain()` succeeds. */
    predicate SendFails(message: Json.Record, drainOk: bool) {
      FrameOf(message).None? || !drainOk
    }

    /** Whether `connect()` raises. */
    predicate ConnectFails(net: Net) {
      !net.openOk || (HasToken() && SendFails(TokenMessage(), net.handshakeDrainOk))
    }

    /** The bytes on a fresh connection once `connect` has returned normally. */
    function Handshake(): seq<Frame.byte>
      requires HasToken() ==> FrameOf(TokenMessage()).Some?
    {
      if HasToken() then FrameOf(TokenMessage()).value else []
    }

    constructor (host: string, port: int, token: Option<string>, maxSize: int, dumps: Dumps)
      ensures Valid() && !Connected() && reader.None?
      ensures this.host == host && this.port == port && this.token == token && this.dumps == dumps
      ensures fresh(queue) && queue.maxSize == maxSize && queue.entries == [] && queue.counter == 0
    {
      this.host, this.port := host, port;
      this.token := token;
      this.dumps := dumps;
      queue := new Forwarders.Forwarder(maxSize);
      reader, writer := None, None;
    }

    /** `invalidate()`: drop both handles, which leaves the forwarder disconnected. */
    method Invalidate()
      modifies this
      ensures reader.None? && writer.None? && !Connected()
    {
      reader, writer := None, None;
    }

    /**
     * `process_message(message)`: write the 4-byte length of the JSON text,
     * then its UTF-8 bytes, then `drain()`.  Without a writer, or when the
     * length does not fit in 32 bits, it raises before writing anything; a
     * failed drain raises after the bytes are written.
     */
    method ProcessMessage(message: Json.Record, drainOk: bool) returns (raised: bool)
      modifies this
      ensures reader == old(reader)
      ensures raised <==> old(writer).None? || SendFails(message, drainOk)
      ensures old(writer).None? || FrameOf(message).None? ==> writer == old(writer)
      ensures old(writer).Some? && FrameOf(message).Some? ==>
                writer == Some(old(writer).value + FrameOf(message).value)
    {
      if writer.None? {
        return true;
      }
      var data := dumps(Json.Object(message));
      var header := Frame.PackU32(|data|);
      if header.None? {
        return true;
      }
      ghost var before := writer.value;
      writer := Some(writer.value + header.value);
      writer := Some(writer.value + Frame.Utf8(data));
      assert header.value + Frame.Utf8(data) == FrameOf(message).value;
      assert writer.value == before + (header.value + Frame.Utf8(data));
      raised := !drainOk;
    }

    /**
     * `connect()`: open the connection, then, when a token is configured,
     * send `{"token": token}` as the first frame on it.
     */
    method Connect(net: Net) returns (raised: bool)
      modifies this
      ensures raised <==> ConnectFails(net)
      ensures !net.openOk ==> reader == old(reader) && writer == old(writer)
      ensures net.openOk ==> reader.Some? && writer.Some?
      ensures net.openOk && !HasToken() ==> writer == Some([])
      ensures net.openOk && HasToken() && FrameOf(TokenMessage()).Some? ==>
                writer == Some(FrameOf(TokenMessage()).value)
      ensures !raised ==> writer == Some(Handshake())
    {
      if !net.openOk {
        return true;
      }
      reader, writer := Some(ReaderHandle), Some([]);
      raised := false;
      if HasToken() {
        raised := ProcessMessage(TokenMessage(), net.handshakeDrainOk);
        if FrameOf(TokenMessage()).Some? {
          assert [] + FrameOf(TokenMessage()).value == FrameOf(TokenMessage()).value;
        }
      }
    }

    /**
     * One iteration of the inherited `process` loop while a record is
     * queued: connect if needed, take the first-served record and send it;
     * on any exception, `invalidate()` and sleep.  The record is taken off
     * the queue before sending, so a failed send loses it.
     */
    method ProcessStep(net: Net, sendOk: bool) returns (trace: seq<Forwarders.Hook>, connectRaised: bool, sendRaised: bool)
      requires Valid() && !queue.Empty()
      modifies this, queue
      ensures Valid()
      ensures connectRaised <==> !old(Connected()) && ConnectFails(net)
      ensures sendRaised <==>
                !connectRaised && SendFails(old(queue.entries)[Forwarders.MinIndex(old(queue.entries))].message, sendOk)
      ensures trace == Forwarders.Iteration(old(Connected()), connectRaised, sendRaised)
      ensures queue.counter == old(queue.counter)
      ensures connectRaised ==> queue.entries == old(queue.entries)
      ensures !connectRaised ==> queue.entries == Forwarders.PopMin(old(queue.entries))
      ensures connectRaised || sendRaised ==> !Connected() && reader.None?
      ensures !connectRaised && !sendRaised ==>
                var sent := old(queue.entries)[Forwarders.MinIndex(old(queue.entries))].message;
                writer == Some((if old(Connected()) then old(writer).value else Handshake()) + FrameOf(sent).value)
    {
      ghost var wasConnected, entries0 := Connected(), queue.entries;
      ghost var sent := entries0[Forwarders.MinIndex(entries0)].message;
      trace := [];
      connectRaised, sendRaised := false, false;
      if !Connected() {
        trace := [Forwarders.ConnectCall];
        connectRaised := Connect(net);
        if connectRaised {
          Invalidate();
          trace := trace + [Forwarders.InvalidateCall, Forwarders.Sleep(Forwarders.RETRY_DELAY)];
          return;
        }
      }
      assert writer == Some(if wasConnected then old(writer).value else Handshake());
      var message := queue.Get();
      assert message == sent;
      sendRaised := ProcessMessage(message, sendOk);
      trace := trace + [Forwarders.GetCall, Forwarders.ProcessMessageCall];
      if sendRaised {
        Invalidate();
        trace := trace + [Forwarders.InvalidateCall, Forwarders.Sleep(Forwarders.RETRY_DELAY)];
      }
    }
  }

  /**
   * The frame for a short ASCII JSON text, such as the 16-character handshake
   * `{"token": "abc"}` that test_forwarders.py expects as `00 00 00 10`
   * followed by the text: three zero bytes, the length, then one byte per
   * character.
   */
  lemma ShortAsciiFrame(text: string)
    requires Frame.IsAscii(text) && |text| < 0x100
    ensures var f := Frame.EncodeFrame(text);
            f.Some? && f.value == [0, 0, 0, |text| as Frame.byte] + Frame.Utf8(text) && |f.value| == 4 + |text|
  {
    Frame.PackSmall(|text|);
  }

  /**
   * End to end: a record sent by a connected forwarder reaches the server's
   * `_read_json` intact, provided `json.dumps` produced non-empty ASCII text
   * that `json.loads` reads back.
   */
  lemma SentRecordIsReceived(dumps: Dumps, loads: Frame.Loads, message: Json.Record, rest: seq<Frame.byte>)
    requires var text := dumps(Json.Object(message));
             text != "" && Frame.IsAscii(text) && |text| < Frame.U32_LIMIT
             && loads(Frame.Utf8(text)) == Frame.Got(Json.Object(message))
    ensures var f := Frame.EncodeFrame(dumps(Json.Object(message)));
            f.Some? && Frame.ReadFrame(f.value + rest, loads) == (Frame.Got(Json.Object(message)), rest)
  {
    Frame.ReadEncodedFrame(dumps(Json.Object(message)), rest, loads);
  }
}
