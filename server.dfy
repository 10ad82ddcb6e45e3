/**
 * `LogServer` (src/log_proxy/server.py): the token store, the handshake
 * check, and the per-connection protocol of `_accept`: authenticate (when
 * `use_auth` is on), then log every JSON object the client sends until the
 * first frame that is not one, then close.  The Python logger is the `log`
 * field: the records handed to `_logger.handle` and the "connected" notes.
 */
module Server {
  import opened Optional
  import Json
  import Frame

  /** The token file as `os.stat` and `json.load` see it; `contents` is `None` when it is not valid JSON. */
  datatype TokenFile = Missing | Present(mtime: int, contents: Option<Json.Value>)

  /** What reaches the Python logger: an informational note or a record built by `makeLogRecord`. */
  datatype LogEntry = Info(text: string) | Record(fields: Json.Record)

  /** How a connection handler ends: through `_stop`, or by an exception escaping `_accept`. */
  datatype End = Closed | Crashed

  /** A token store that is a dict: token -> metadata given to `add_token` or read from the file. */
  type Tokens = map<string, Json.Value>

  // ---------------------------------------------------------------------------
  // Token store
  // ---------------------------------------------------------------------------

  /**
   * The store after `_update_tokens`, or `None` when it raises (missing
   * file, invalid JSON).  The file is re-read whenever the recorded mtime
   * differs from the file's, and whatever JSON value it holds becomes the
   * store, a dict or not.
   */
  function Reload(fileBacked: bool, tokens: Json.Value, mtime: Option<int>, file: TokenFile): (r: Option<Json.Value>)
    ensures !fileBacked ==> r == Some(tokens)
    ensures fileBacked && file.Missing? ==> r.None?
    ensures fileBacked && file.Present? && mtime != Some(file.mtime) ==>
              (r.Some? <==> file.contents.Some?) && (r.Some? ==> r.value == file.contents.value)
    ensures fileBacked && file.Present? && mtime == Some(file.mtime) ==> r == Some(tokens)
  {
    if !fileBacked then Some(tokens)
    else if file.Missing? then None
    else if mtime == Some(file.mtime) then Some(tokens)
    else file.contents
  }

  /**
   * With no mtime ever recorded, a file-backed reload replaces the whole
   * store: the result depends on the file alone, not on the store before.
   */
  lemma ReloadIgnoresPreviousStore(before1: Json.Value, before2: Json.Value, file: TokenFile)
    ensures Reload(true, before1, None, file) == Reload(true, before2, None, file)
    ensures file.Present? && file.contents == Some(before1) ==> Reload(true, before2, None, file) == Some(before1)
  {
  }

  // ---------------------------------------------------------------------------
  // Authentication
  // ---------------------------------------------------------------------------

  /** `auth_client(auth)`: the truthy `"token"` member of a handshake object. */
  function AuthClient(auth: Option<Json.Value>): (token: Option<Json.Value>)
    ensures token.Some? <==>
              auth.Some? && auth.value.Object? && "token" in auth.value.fields && Json.Truthy(auth.value.fields["token"])
    ensures token.Some? ==> token.value == auth.value.fields["token"] && Json.Truthy(token.value)
  {
    if auth.None? || !auth.value.Object? then None
    else
      var token := Json.Get(auth.value.fields, "token", Json.Null);
      if !Json.Truthy(token) then None else Some(token)
  }

  /** The test vectors of `auth_client`: `None`, `{}` and an empty token are refused. */
  lemma AuthClientRefusals()
    ensures AuthClient(None) == None
    ensures AuthClient(Some(Json.Object(map[]))) == None
    ensures AuthClient(Some(Json.Object(map["token" := Json.Str("")]))) == None
    ensures AuthClient(Some(Json.List([Json.Str("abc")]))) == None
    ensures AuthClient(Some(Json.Object(map["token" := Json.Str("b")]))) == Some(Json.Str("b"))
  {
  }

  /** The outcome of the authentication part of `_accept`. */
  datatype Admission = Admit(name: Json.Value) | Reject | Crash

  /**
   * `client = self.tokens.get(token)`, `if not client: stop`, then
   * `name = client.get("name", token)`.  A list or dict token cannot be a
   * dict key (`TypeError`); a truthy client that is not a dict has no
   * `get` (`AttributeError`); any other non-string token matches no key.
   */
  function Authorize(tokens: Tokens, token: Option<Json.Value>): (a: Admission)
    ensures token.None? ==> a == Reject
    ensures a.Admit? <==>
              token.Some? && token.value.Str? && token.value.s in tokens
              && tokens[token.value.s].Object? && tokens[token.value.s].fields != map[]
    ensures a.Admit? ==> a.name == Json.Get(tokens[token.value.s].fields, "name", token.value)
    ensures a.Crash? <==>
              token.Some? && (token.value.List? || token.value.Object?
                              || (token.value.Str? && token.value.s in tokens
                                  && Json.Truthy(tokens[token.value.s]) && !tokens[token.value.s].Object?))
  {
    if token.None? then Reject
    else
      match token.value
      case List(_) => Crash
      case Object(_) => Crash
      case Str(key) =>
        if key !in tokens || !Json.Truthy(tokens[key]) then Reject
        else if tokens[key].Object? then Admit(Json.Get(tokens[key].fields, "name", token.value))
        else Crash
      case _ => Reject
  }

  /** A registered token whose metadata is `{}` is refused, because `not {}` holds. */
  lemma EmptyMetadataRejected(key: string)
    ensures Authorize(map[key := Json.Object(map[])], Some(Json.Str(key))) == Reject
  {
  }

  /**
   * The admission `_accept` evidently intends: test test_server.py expects
   * `{"abc": {}}` to admit "abc" under its own name, i.e. a missing client
   * (`is None`) is refused, not an empty one.
   */
  function AuthorizeCorrected(tokens: Tokens, token: Option<Json.Value>): (a: Admission)
    ensures a.Admit? ==> token.Some? && token.value.Str? && token.value.s in tokens && tokens[token.value.s].Object?
    ensures a.Admit? ==> a.name == Json.Get(tokens[token.value.s].fields, "name", token.value)
  {
    if token.None? then Reject
    else
      match token.value
      case List(_) => Crash
      case Object(_) => Crash
      case Str(key) =>
        if key !in tokens || tokens[key].Null? then Reject
        else if tokens[key].Object? then Admit(Json.Get(tokens[key].fields, "name", token.value))
        else Crash
      case _ => Reject
  }

  /**
   * The corrected check admits every token registered with dict metadata,
   * empty or not, and agrees with the code as written whenever the
   * metadata is non-empty.
   */
  lemma AuthorizeCorrectedAdmitsRegistered(tokens: Tokens, key: string)
    requires key in tokens && tokens[key].Object?
    ensures AuthorizeCorrected(tokens, Some(Json.Str(key))).Admit?
    ensures tokens[key].fields == map[] ==>
              AuthorizeCorrected(tokens, Some(Json.Str(key))) == Admit(Json.Str(key))
              && Authorize(tokens, Some(Json.Str(key))) == Reject
    ensures tokens[key].fields != map[] ==>
              AuthorizeCorrected(tokens, Some(Json.Str(key))) == Authorize(tokens, Some(Json.Str(key)))
  {
  }

  /** The note `_accept` logs for an admitted client with a truthy name. */
  function ConnectedNote(name: Json.Value): string {
    "Client '" + Json.Show(name) + "' connected"
  }

  // ---------------------------------------------------------------------------
  // Records
  // ---------------------------------------------------------------------------

  /**
   * The record `_log_record(data, client_name)` hands to the logger: with a
   * truthy client name, `name` becomes `"<client> > <name>"`; `None` when
   * `data` has no `name` to prefix (`KeyError`).
   */
  function Prefix(data: Json.Record, clientName: Json.Value): (r: Option<Json.Record>)
    ensures r.None? <==> Json.Truthy(clientName) && "name" !in data
    ensures !Json.Truthy(clientName) ==> r == Some(data)
  {
    if !Json.Truthy(clientName) then Some(data)
    else if "name" !in data then None
    else Some(data["name" := Json.Str(Json.Show(clientName) + " > " + Json.Show(data["name"]))])
  }

  /**
   * Prefixing rewrites only `name`: the record keeps its keys and every
   * other field, and the new name is the client name, `" > "`, and the old
   * name, in that order.
   */
  lemma PrefixRewritesOnlyName(data: Json.Record, clientName: Json.Value)
    requires Json.Truthy(clientName) && "name" in data
    ensures var r := Prefix(data, clientName).value;
            r.Keys == data.Keys
            && (forall k :: k in data && k != "name" ==> r[k] == data[k])
            && r["name"] == Json.Str(Json.Show(clientName) + " > " + Json.Show(data["name"]))
  {
  }

  /**
   * The streaming phase of `_accept` on the unread bytes `rest`: each JSON
   * object is logged in arrival order; the first frame that is not an object
   * (short read, zero length, bad JSON, another kind of value) ends the
   * connection normally, an exception escaping `_read_json` or a `KeyError`
   * in `_log_record` abnormally.
   */
  function Stream(rest: seq<Frame.byte>, name: Json.Value, loads: Frame.Loads): (r: (seq<LogEntry>, End))
    decreases |rest|
  {
    var f := Frame.ReadFrame(rest, loads);
    if f.0.Got? && f.0.value.Object? then
      match Prefix(f.0.value.fields, name)
      case None => ([], Crashed)
      case Some(fields) =>
        var tail := Stream(f.1, name, loads);
        ([Record(fields)] + tail.0, tail.1)
    else if f.0.Raised? then ([], Crashed)
    else ([], Closed)
  }

  /** One step of `Stream`: the frame read decides whether a record is logged and the stream continues. */
  lemma StreamStep(rest: seq<Frame.byte>, name: Json.Value, loads: Frame.Loads)
    ensures var f := Frame.ReadFrame(rest, loads);
            var s := Stream(rest, name, loads);
            if f.0.Raised? then s == ([], Crashed)
            else if !(f.0.Got? && f.0.value.Object?) then s == ([], Closed)
            else if Prefix(f.0.value.fields, name).None? then s == ([], Crashed)
            else s == ([Record(Prefix(f.0.value.fields, name).value)] + Stream(f.1, name, loads).0, Stream(f.1, name, loads).1)
  {
  }

  /** A frame that is not a loggable object ends the stream with nothing logged. */
  lemma StreamStops(rest: seq<Frame.byte>, name: Json.Value, loads: Frame.Loads)
    requires var f := Frame.ReadFrame(rest, loads);
             !(f.0.Got? && f.0.value.Object?) || Prefix(f.0.value.fields, name).None?
    ensures var f := Frame.ReadFrame(rest, loads);
            Stream(rest, name, loads) == ([], if (f.0.Got? && f.0.value.Object?) || f.0.Raised? then Crashed else Closed)
  {
  }

  /** A loggable object frame: its record comes first, then whatever the rest of the stream logs. */
  lemma StreamLogs(rest: seq<Frame.byte>, name: Json.Value, loads: Frame.Loads, log: seq<LogEntry>)
    requires var f := Frame.ReadFrame(rest, loads);
             f.0.Got? && f.0.value.Object? && Prefix(f.0.value.fields, name).Some?
    ensures var f := Frame.ReadFrame(rest, loads);
            var tail := Stream(f.1, name, loads);
            log + Stream(rest, name, loads).0 == (log + [Record(Prefix(f.0.value.fields, name).value)]) + tail.0
            && Stream(rest, name, loads).1 == tail.1
  {
    var f := Frame.ReadFrame(rest, loads);
    var tail := Stream(f.1, name, loads);
    var e := Record(Prefix(f.0.value.fields, name).value);
    assert Stream(rest, name, loads) == ([e] + tail.0, tail.1);
    assert log + ([e] + tail.0) == (log + [e]) + tail.0;
  }

  /**
   * What one connection adds to the log and how it ends, given the token
   * store after `_update_tokens` (`None` when that raised).  A store that
   * is not a dict has no `get`: the lookup raises `AttributeError`.
   */
  function Session(useAuth: bool, reloaded: Option<Json.Value>, input: seq<Frame.byte>, loads: Frame.Loads): (seq<LogEntry>, End) {
    if !useAuth then Stream(input, Json.Null, loads)
    else
      var hello := Frame.ReadFrame(input, loads);
      if hello.0.Raised? || reloaded.None? || !reloaded.value.Object? then ([], Crashed)
      else
        match Authorize(reloaded.value.fields, AuthClient(hello.0.Returned()))
        case Reject => ([], Closed)
        case Crash => ([], Crashed)
        case Admit(name) =>
          var s := Stream(hello.1, name, loads);
          ((if Json.Truthy(name) then [Info(ConnectedNote(name))] else []) + s.0, s.1)
  }

  /** A refused handshake (no token, unknown token, empty metadata) logs nothing and closes. */
  lemma RefusedClientLogsNothing(tokens: Tokens, input: seq<Frame.byte>, loads: Frame.Loads)
    requires !Frame.ReadFrame(input, loads).0.Raised?
    requires var token := AuthClient(Frame.ReadFrame(input, loads).0.Returned());
             token.None?
             || (token.value.Str? && (token.value.s !in tokens || tokens[token.value.s] == Json.Object(map[])))
    ensures Session(true, Some(Json.Object(tokens)), input, loads) == ([], Closed)
  {
  }

  /**
   * A connection ends abnormally with nothing logged when the handshake
   * frame raises, when `_update_tokens` raises, or when the store is not a
   * dict, whatever the client sent.
   */
  lemma FailedLookupCrashes(reloaded: Option<Json.Value>, input: seq<Frame.byte>, loads: Frame.Loads)
    requires Frame.ReadFrame(input, loads).0.Raised? || reloaded.None? || !reloaded.value.Object?
    ensures Session(true, reloaded, input, loads) == ([], Crashed)
  {
  }

  /** Every entry is a record whose `name` is a string starting with `prefix`. */
  predicate NamesStartWith(entries: seq<LogEntry>, prefix: string) {
    forall i :: 0 <= i < |entries| ==>
      entries[i].Record? && "name" in entries[i].fields && entries[i].fields["name"].Str?
      && prefix <= entries[i].fields["name"].s
  }

  /** With a truthy client name, every record streamed carries the `"<client> > "` prefix on its name. */
  lemma {:induction false} StreamPrefixesNames(rest: seq<Frame.byte>, name: Json.Value, loads: Frame.Loads)
    requires Json.Truthy(name)
    ensures NamesStartWith(Stream(rest, name, loads).0, Json.Show(name) + " > ")
    decreases |rest|
  {
    var f := Frame.ReadFrame(rest, loads);
    if f.0.Got? && f.0.value.Object? {
      var p := Prefix(f.0.value.fields, name);
      if p.Some? {
        StreamPrefixesNames(f.1, name, loads);
        var r := Stream(rest, name, loads).0;
        var tail := Stream(f.1, name, loads).0;
        assert r == [Record(p.value)] + tail;
        var s := Json.Show(name) + " > " + Json.Show(f.0.value.fields["name"]);
        assert p.value["name"] == Json.Str(s);
        assert Json.Show(name) + " > " <= s;
      }
    }
  }

  // ---------------------------------------------------------------------------
  // End to end: frames written by SocketForwarder, read by _accept
  // ---------------------------------------------------------------------------

  /** `json.dumps` gives non-empty ASCII text short enough to frame, and `json.loads` reads it back. */
  predicate RoundTrips(dumps: Json.Value -> string, loads: Frame.Loads, v: Json.Value) {
    var text := dumps(v);
    text != "" && Frame.IsAscii(text) && |text| < Frame.U32_LIMIT && loads(Frame.Utf8(text)) == Frame.Got(v)
  }

  /** The bytes a forwarder writes for `messages`, one frame each. */
  function Wire(dumps: Json.Value -> string, messages: seq<Json.Record>): seq<Frame.byte>
    requires forall i :: 0 <= i < |messages| ==> |dumps(Json.Object(messages[i]))| < Frame.U32_LIMIT
  {
    if messages == [] then []
    else Frame.EncodeFrame(dumps(Json.Object(messages[0]))).value + Wire(dumps, messages[1..])
  }

  /**
   * The entries `_log_record` makes of `messages` for client `name`: one
   * record per message, in order, each with its name prefixed.
   */
  function Logged(messages: seq<Json.Record>, name: Json.Value): (r: seq<LogEntry>)
    requires Json.Truthy(name) ==> forall i :: 0 <= i < |messages| ==> "name" in messages[i]
    ensures |r| == |messages|
    ensures forall i :: 0 <= i < |messages| ==> r[i] == Record(Prefix(messages[i], name).value)
  {
    if messages == [] then []
    else
      var rest := messages[1..];
      assert forall i :: 0 <= i < |rest| ==> rest[i] == messages[i + 1];
      var tail := Logged(rest, name);
      [Record(Prefix(messages[0], name).value)] + tail
  }

  /**
   * The server logs exactly the records a forwarder sent, in order, each
   * with its name prefixed as `_log_record` does, and then closes the
   * connection when the stream ends.
   */
  lemma {:induction false} StreamOfSentRecords(dumps: Json.Value -> string, loads: Frame.Loads, messages: seq<Json.Record>, name: Json.Value)
    requires forall i :: 0 <= i < |messages| ==> RoundTrips(dumps, loads, Json.Object(messages[i]))
    requires forall i :: 0 <= i < |messages| ==> |dumps(Json.Object(messages[i]))| < Frame.U32_LIMIT
    requires Json.Truthy(name) ==> forall i :: 0 <= i < |messages| ==> "name" in messages[i]
    ensures Stream(Wire(dumps, messages), name, loads) == (Logged(messages, name), Closed)
  {
    var wire := Wire(dumps, messages);
    StreamStep(wire, name, loads);
    if messages != [] {
      var text := dumps(Json.Object(messages[0]));
      var rest := Wire(dumps, messages[1..]);
      assert wire == Frame.EncodeFrame(text).value + rest;
      assert RoundTrips(dumps, loads, Json.Object(messages[0]));
      Frame.ReadEncodedFrame(text, rest, loads);
      assert Frame.ReadFrame(wire, loads) == (Frame.Got(Json.Object(messages[0])), rest);
      StreamOfSentRecords(dumps, loads, messages[1..], name);
    }
  }

  /**
   * A forwarder whose token is registered with non-empty metadata connects,
   * sends its handshake and its records, and the server logs the
   * "connected" note (when the name is truthy) followed by every record with
   * the client's name as prefix.
   */
  lemma RegisteredClientIsServed(dumps: Json.Value -> string, loads: Frame.Loads, tokens: Tokens, key: string,
                                 messages: seq<Json.Record>)
    requires key != "" && key in tokens && tokens[key].Object? && tokens[key].fields != map[]
    requires RoundTrips(dumps, loads, Json.Object(map["token" := Json.Str(key)]))
    requires forall i :: 0 <= i < |messages| ==> RoundTrips(dumps, loads, Json.Object(messages[i]))
    requires forall i :: 0 <= i < |messages| ==> |dumps(Json.Object(messages[i]))| < Frame.U32_LIMIT
    requires forall i :: 0 <= i < |messages| ==> "name" in messages[i]
    ensures var name := Json.Get(tokens[key].fields, "name", Json.Str(key));
            var hello := Frame.EncodeFrame(dumps(Json.Object(map["token" := Json.Str(key)]))).value;
            var notes := if Json.Truthy(name) then [Info(ConnectedNote(name))] else [];
            Session(true, Some(Json.Object(tokens)), hello + Wire(dumps, messages), loads) == (notes + Logged(messages, name), Closed)
  {
    var handshake := Json.Object(map["token" := Json.Str(key)]);
    var name := Json.Get(tokens[key].fields, "name", Json.Str(key));
    var wire := Wire(dumps, messages);
    Frame.ReadEncodedFrame(dumps(handshake), wire, loads);
    var hello := Frame.EncodeFrame(dumps(handshake)).value;
    assert Frame.ReadFrame(hello + wire, loads) == (Frame.Got(handshake), wire);
    assert AuthClient(Some(handshake)) == Some(Json.Str(key));
    assert Authorize(tokens, Some(Json.Str(key))) == Admit(name);
    StreamOfSentRecords(dumps, loads, messages, name);
  }

  // ---------------------------------------------------------------------------
  // The LogServer class
  // ---------------------------------------------------------------------------

  class LogServer {
    const host: string
    const port: int
    const useAuth: bool
    /** `json.loads` as `_read_json` applies it to a payload. */
    const loads: Frame.Loads
    const tokenFile: Option<string>
    /** The token store: a dict unless a file-backed reload read some other JSON value. */
    var tokens: Json.Value
    /** Never assigned after the constructor. */
    var tokenMtime: Option<int>
    /** Everything handed to the Python logger, oldest first. */
    var log: seq<LogEntry>

    /** No mtime is ever recorded, and only the file can make the store something other than a dict. */
    ghost predicate Valid()
      reads this
    {
      tokenMtime.None? && (!FileBacked() ==> tokens.Object?)
    }

    constructor (host: string, port: int, tokenFile: Option<string>, useAuth: bool, loads: Frame.Loads)
      ensures Valid()
      ensures this.host == host && this.port == port && this.tokenFile == tokenFile
      ensures this.useAuth == useAuth && this.loads == loads
      ensures tokens == Json.Object(map[]) && log == []
    {
      this.host, this.port := host, port;
      this.useAuth := useAuth;
      this.loads := loads;
      this.tokenFile := tokenFile;
      tokens := Json.Object(map[]);
      tokenMtime := None;
      log := [];
    }

    /** `if self.token_file:` */
    predicate FileBacked() {
      tokenFile.Some? && tokenFile.value != ""
    }

    /** `add_token(token, **meta)`: refused with `LogTokenFileError` when the store is file-backed. */
    method AddToken(token: string, meta: Json.Record) returns (raised: bool)
      requires Valid()
      modifies this
      ensures Valid()
      ensures raised <==> FileBacked()
      ensures raised ==> tokens == old(tokens)
      ensures !raised ==> tokens == Json.Object(old(tokens).fields[token := Json.Object(meta)])
      ensures tokenMtime == old(tokenMtime) && log == old(log)
    {
      if FileBacked() {
        return true;
      }
      tokens := Json.Object(tokens.fields[token := Json.Object(meta)]);
      raised := false;
    }

    /** `delete_token(token)`: `tokens.pop(token, None)`, refused when the store is file-backed. */
    method DeleteToken(token: string) returns (raised: bool, removed: Option<Json.Value>)
      requires Valid()
      modifies this
      ensures Valid()
      ensures raised <==> FileBacked()
      ensures raised ==> tokens == old(tokens) && removed.None?
      ensures !raised && token in old(tokens).fields ==>
                removed == Some(old(tokens).fields[token]) && tokens == Json.Object(old(tokens).fields - {token})
      ensures !raised && token !in old(tokens).fields ==> removed.None? && tokens == old(tokens)
      ensures tokenMtime == old(tokenMtime) && log == old(log)
    {
      if FileBacked() {
        return true, None;
      }
      raised := false;
      if token in tokens.fields {
        removed := Some(tokens.fields[token]);
        tokens := Json.Object(tokens.fields - {token});
      } else {
        removed := None;
      }
    }

    /** `_update_tokens()`: reload the whole store from the file when its mtime differs from the recorded one. */
    method UpdateTokens(file: TokenFile) returns (raised: bool)
      requires Valid()
      modifies this
      ensures Valid()
      ensures var r := Reload(FileBacked(), old(tokens), None, file);
              (raised <==> r.None?) && tokens == r.GetOr(old(tokens))
      ensures log == old(log)
    {
      if !FileBacked() {
        return false;
      }
      if file.Missing? {
        return true;
      }
      raised := false;
      if tokenMtime != Some(file.mtime) {
        if file.contents.Some? {
          tokens := file.contents.value;
        } else {
          raised := true;
        }
      }
    }

    /**
     * `_read_json(reader)`: read the 4-byte length; a zero length is "no
     * message" without further reading; otherwise read exactly that many
     * bytes and decode them.  Short reads and bad JSON give `Nothing`.
     */
    method ReadJson(reader: Frame.Reader) returns (r: Frame.Read)
      requires reader.Valid()
      modifies reader
      ensures reader.Valid()
      ensures (r, reader.Remaining()) == Frame.ReadFrame(old(reader.Remaining()), loads)
    {
      var header := reader.ReadExactly(4);
      if header.None? {
        return Frame.Nothing;
      }
      var length := Frame.UnpackU32(header.value);
      if length <= 0 {
        return Frame.Nothing;
      }
      ghost var afterHeader := reader.Remaining();
      var payload := reader.ReadExactly(length);
      if payload.None? {
        return Frame.Nothing;
      }
      assert afterHeader[..length] == old(reader.Remaining())[4..4 + length];
      assert afterHeader[length..] == old(reader.Remaining())[4 + length..];
      r := loads(payload.value);
    }

    /** `_log_record(data, client_name)`: prefix the name when a client name is set, then log the record. */
    method LogRecord(data: Json.Record, clientName: Json.Value) returns (raised: bool)
      modifies this
      ensures raised <==> Prefix(data, clientName).None?
      ensures raised ==> log == old(log)
      ensures !raised ==> log == old(log) + [Record(Prefix(data, clientName).value)]
      ensures tokens == old(tokens) && tokenMtime == old(tokenMtime)
    {
      var fields := data;
      if Json.Truthy(clientName) {
        if "name" !in fields {
          return true;
        }
        fields := fields["name" := Json.Str(Json.Show(clientName) + " > " + Json.Show(fields["name"]))];
      }
      log := log + [Record(fields)];
      raised := false;
    }

    /**
     * One pass of the `while True:` loop of `_accept`: read a frame; log it
     * when it is an object and go on (`more`), otherwise stop with `end`.
     * `goal` is what the log will be once the stream is exhausted.
     */
    method ServeOne(reader: Frame.Reader, name: Json.Value, ghost goal: seq<LogEntry>, ghost goalEnd: End)
      returns (more: bool, end: End)
      requires reader.Valid()
      requires log + Stream(reader.Remaining(), name, loads).0 == goal
      requires Stream(reader.Remaining(), name, loads).1 == goalEnd
      modifies this, reader
      ensures reader.Valid() && tokens == old(tokens) && tokenMtime == old(tokenMtime)
      ensures if more then |reader.Remaining()| < |old(reader.Remaining())|
                           && log + Stream(reader.Remaining(), name, loads).0 == goal
                           && Stream(reader.Remaining(), name, loads).1 == goalEnd
              else log == goal && end == goalEnd
    {
      ghost var before, log0 := reader.Remaining(), log;
      var data := ReadJson(reader);
      if !(data.Got? && data.value.Object?) {
        StreamStops(before, name, loads);
        return false, if data.Raised? then Crashed else Closed;
      }
      var raised := LogRecord(data.value.fields, name);
      if raised {
        StreamStops(before, name, loads);
        return false, Crashed;
      }
      StreamLogs(before, name, loads, log0);
      more, end := true, Closed;
    }

    /**
     * The `while True:` loop of `_accept`: log each object frame (through
     * `_log_record`) until a read gives anything else.
     */
    method Serve(reader: Frame.Reader, name: Json.Value) returns (end: End)
      requires reader.Valid()
      modifies this, reader
      ensures reader.Valid()
      ensures log == old(log) + Stream(old(reader.Remaining()), name, loads).0
      ensures end == Stream(old(reader.Remaining()), name, loads).1
      ensures tokens == old(tokens) && tokenMtime == old(tokenMtime)
    {
      ghost var goal := log + Stream(reader.Remaining(), name, loads).0;
      ghost var goalEnd := Stream(reader.Remaining(), name, loads).1;
      while true
        invariant reader.Valid()
        invariant tokens == old(tokens) && tokenMtime == old(tokenMtime)
        invariant log + Stream(reader.Remaining(), name, loads).0 == goal
        invariant Stream(reader.Remaining(), name, loads).1 == goalEnd
        decreases |reader.Remaining()|
      {
        var more;
        more, end := ServeOne(reader, name, goal, goalEnd);
        if !more {
          return;
        }
      }
    }

    /**
     * `_accept(reader, writer)`: with `use_auth`, read the handshake, reload
     * the tokens and admit or refuse the client; then serve its records.
     */
    method Accept(reader: Frame.Reader, file: TokenFile) returns (end: End)
      requires Valid() && reader.Valid()
      modifies this, reader
      ensures Valid()
      ensures var reloads := useAuth && !Frame.ReadFrame(old(reader.Remaining()), loads).0.Raised?;
              tokens == if reloads then Reload(FileBacked(), old(tokens), None, file).GetOr(old(tokens)) else old(tokens)
      ensures |log| >= |old(log)| && log[..|old(log)|] == old(log)
      ensures (log[|old(log)|..], end)
           == Session(useAuth, Reload(FileBacked(), old(tokens), None, file), old(reader.Remaining()), loads)
    {
      ghost var log0 := log;
      var name := Json.Null;
      if useAuth {
        var hello := ReadJson(reader);
        if hello.Raised? {
          assert log[|log0|..] == [];
          return Crashed;
        }
        var token := AuthClient(hello.Returned());
        var raised := UpdateTokens(file);
        if raised || !tokens.Object? {
          assert log[|log0|..] == [];
          return Crashed;
        }
        var admission := Authorize(tokens.fields, token);
        if admission.Reject? {
          assert log[|log0|..] == [];
          return Closed;
        }
        if admission.Crash? {
          assert log[|log0|..] == [];
          return Crashed;
        }
        name := admission.name;
        if Json.Truthy(name) {
          log := log + [Info(ConnectedNote(name))];
        }
      }
      ghost var notes := log[|log0|..];
      assert log == log0 + notes;
      end := Serve(reader, name);
      assert log[|log0|..] == notes + (log[|log0| + |notes|..]);
    }
  }
}
