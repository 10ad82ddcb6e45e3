/**
 * The wire format shared by `SocketForwarder` and `LogServer`: a 4-byte
 * big-endian unsigned length (`struct.pack(">L", ...)`) followed by the
 * JSON text encoded as UTF-8.  The writer side is `EncodeFrame`; the
 * reader side is a `Reader` over the bytes a peer sends, and `ReadFrame`
 * specifies what `LogServer._read_json` makes of them.
 */
module Frame {
  import opened Optional
  import Json

  newtype byte = x: int | 0 <= x < 256

  const U32_LIMIT: nat := 0x1_0000_0000

  /**
   * What reading one frame gives `_accept`: a value; `Nothing`, the `None`
   * that `_read_json` returns for a short read, a zero length or a
   * `json.JSONDecodeError`; or `Raised`, an exception that `_read_json` does
   * not catch (the `UnicodeDecodeError` of a payload that is not valid text).
   */
  datatype Read = Got(value: Json.Value) | Nothing | Raised {
    /** The value `_read_json` returns, when it returns. */
    function Returned(): Option<Json.Value> {
      if Got? then Some(value) else None
    }
  }

  /** `json.loads` on a payload: a value, `Nothing` for `json.JSONDecodeError`, or `Raised` for any other exception. */
  type Loads = seq<byte> -> Read

  // ---------------------------------------------------------------------------
  // struct ">L"
  // ---------------------------------------------------------------------------

  function UnpackU32(b: seq<byte>): (n: nat)
    requires |b| == 4
    ensures n < U32_LIMIT
  {
    ((b[0] as nat * 0x100 + b[1] as nat) * 0x100 + b[2] as nat) * 0x100 + b[3] as nat
  }

  /** Splitting off the low byte of `hi * 256 + lo`. */
  lemma LowByte(hi: nat, lo: nat)
    requires lo < 0x100
    ensures (hi * 0x100 + lo) / 0x100 == hi && (hi * 0x100 + lo) % 0x100 == lo
  {
  }

  /** `struct.pack(">L", n)`; `None` stands for the `struct.error` raised when `n` does not fit. */
  function PackU32(n: nat): (r: Option<seq<byte>>)
    ensures r.Some? <==> n < U32_LIMIT
    ensures r.Some? ==> |r.value| == 4 && UnpackU32(r.value) == n
  {
    if n >= U32_LIMIT then None
    else
      var n1 := n / 0x100;
      var n2 := n1 / 0x100;
      var b0, b1, b2, b3 := n2 / 0x100, n2 % 0x100, n1 % 0x100, n % 0x100;
      assert n2 < 0x1_0000;
      Some([b0 as byte, b1 as byte, b2 as byte, b3 as byte])
  }

  /** The other direction: every 4-byte header is the packing of the length it declares. */
  lemma PackOfUnpack(b: seq<byte>)
    requires |b| == 4
    ensures PackU32(UnpackU32(b)) == Some(b)
  {
    var n2 := b[0] as nat * 0x100 + b[1] as nat;
    var n1 := n2 * 0x100 + b[2] as nat;
    var n := n1 * 0x100 + b[3] as nat;
    assert n == UnpackU32(b);
    LowByte(n1, b[3] as nat);
    LowByte(n2, b[2] as nat);
    LowByte(b[0] as nat, b[1] as nat);
    var r := PackU32(n).value;
    assert r[0] == b[0] && r[1] == b[1] && r[2] == b[2] && r[3] == b[3];
    assert r == b;
  }

  /** A length below 256 packs as three zero bytes and itself. */
  lemma PackSmall(n: nat)
    requires n < 0x100
    ensures PackU32(n) == Some([0, 0, 0, n as byte])
  {
  }

  // ---------------------------------------------------------------------------
  // str.encode(): UTF-8
  // ---------------------------------------------------------------------------

  predicate IsAscii(s: string) {
    forall i :: 0 <= i < |s| ==> s[i] as int < 0x80
  }

  function Utf8Char(c: char): (r: seq<byte>)
    ensures 1 <= |r| <= 4
    ensures |r| == 1 <==> c as int < 0x80
  {
    var cp := c as int;
    if cp < 0x80 then [cp as byte]
    else if cp < 0x800 then [(0xC0 + cp / 0x40) as byte, (0x80 + cp % 0x40) as byte]
    else if cp < 0x1_0000 then
      [(0xE0 + cp / 0x1000) as byte, (0x80 + cp / 0x40 % 0x40) as byte, (0x80 + cp % 0x40) as byte]
    else
      [(0xF0 + cp / 0x4_0000) as byte, (0x80 + cp / 0x1000 % 0x40) as byte,
       (0x80 + cp / 0x40 % 0x40) as byte, (0x80 + cp % 0x40) as byte]
  }

  /** `s.encode()`: at least one byte per character, exactly one for each ASCII character. */
  function Utf8(s: string): (r: seq<byte>)
    ensures |r| >= |s|
    ensures |r| == |s| <==> IsAscii(s)
  {
    if s == [] then []
    else
      var r := Utf8Char(s[0]) + Utf8(s[1..]);
      assert IsAscii(s) <==> s[0] as int < 0x80 && IsAscii(s[1..]) by {
        if s[0] as int < 0x80 && IsAscii(s[1..]) {
          forall i | 0 <= i < |s| ensures s[i] as int < 0x80 {
            if i > 0 { assert s[i] == s[1..][i - 1]; }
          }
        }
      }
      r
  }

  // ---------------------------------------------------------------------------
  // Writer side: SocketForwarder.process_message
  // ---------------------------------------------------------------------------

  /**
   * The bytes `process_message` writes for JSON text `data`: the packed
   * character count, then the UTF-8 bytes.  `None` when the count does not
   * fit in 32 bits (`struct.pack` raises before anything is written).
   */
  function EncodeFrame(data: string): (r: Option<seq<byte>>)
    ensures r.Some? <==> |data| < U32_LIMIT
    ensures r.Some? ==> |r.value| >= 4 && UnpackU32(r.value[..4]) == |data| && r.value[4..] == Utf8(data)
  {
    match PackU32(|data|)
    case None => None
    case Some(header) =>
      assert (header + Utf8(data))[..4] == header;
      Some(header + Utf8(data))
  }

  /** The length prefix counts the payload's bytes exactly when the JSON text is ASCII. */
  lemma PrefixCountsBytesIffAscii(data: string)
    requires |data| < U32_LIMIT
    ensures var f := EncodeFrame(data).value; UnpackU32(f[..4]) == |f| - 4 <==> IsAscii(data)
  {
  }

  // ---------------------------------------------------------------------------
  // Reader side: asyncio.StreamReader and LogServer._read_json
  // ---------------------------------------------------------------------------

  /** The receiving end of a connection: everything the peer sends before closing, and a cursor. */
  class Reader {
    const input: seq<byte>
    var pos: nat

    ghost predicate Valid()
      reads this
    {
      pos <= |input|
    }

    /** The bytes not consumed yet. */
    function Remaining(): seq<byte>
      reads this
      requires Valid()
    {
      input[pos..]
    }

    constructor (input: seq<byte>)
      ensures Valid() && this.input == input && Remaining() == input
    {
      this.input := input;
      pos := 0;
    }

    /**
     * `readexactly(n)`: the next `n` bytes, or `None` for `IncompleteReadError`
     * when the peer closed first; the bytes read so far are consumed either way.
     */
    method ReadExactly(n: nat) returns (data: Option<seq<byte>>)
      requires Valid()
      modifies this
      ensures Valid()
      ensures n <= |old(Remaining())| ==> data == Some(old(Remaining())[..n]) && Remaining() == old(Remaining())[n..]
      ensures n > |old(Remaining())| ==> data == None && Remaining() == []
    {
      if n <= |input| - pos {
        assert input[pos..pos + n] == input[pos..][..n];
        data := Some(input[pos..pos + n]);
        pos := pos + n;
      } else {
        data := None;
        pos := |input|;
      }
    }
  }

  /**
   * What `_read_json` makes of the unread bytes `rest`, and what remains
   * unread afterwards: `Nothing` for a short header, a zero length or a
   * short payload, otherwise whatever `json.loads` makes of the payload.
   */
  function ReadFrame(rest: seq<byte>, loads: Loads): (r: (Read, seq<byte>))
    ensures |r.1| <= |rest| && r.1 == rest[|rest| - |r.1|..]
    ensures !r.0.Nothing? ==> |r.1| + 5 <= |rest|
  {
    if |rest| < 4 then (Nothing, [])
    else
      var n := UnpackU32(rest[..4]);
      if n == 0 then (Nothing, rest[4..])
      else if |rest| - 4 < n then (Nothing, [])
      else (loads(rest[4..4 + n]), rest[4 + n..])
  }

  /** A frame whose header declares `n > 0` bytes of a longer payload: the reader takes those `n` and leaves the others. */
  lemma ReadPayload(header: seq<byte>, payload: seq<byte>, rest: seq<byte>, loads: Loads)
    requires |header| == 4 && 0 < UnpackU32(header) <= |payload|
    ensures var n := UnpackU32(header);
            ReadFrame(header + payload + rest, loads) == (loads(payload[..n]), payload[n..] + rest)
  {
    var n := UnpackU32(header);
    var input := header + payload + rest;
    assert input[..4] == header;
    assert input[4..4 + n] == payload[..n];
    assert input[4 + n..] == payload[n..] + rest;
  }

  /**
   * Round trip: the reader gives back exactly what `json.loads` makes of a
   * frame's payload and leaves the following bytes untouched, provided the
   * JSON text is ASCII; an empty text is the zero-length frame and reads as
   * "no message".
   */
  lemma ReadEncodedFrame(data: string, rest: seq<byte>, loads: Loads)
    requires IsAscii(data) && |data| < U32_LIMIT
    ensures ReadFrame(EncodeFrame(data).value + rest, loads)
         == (if data == "" then Nothing else loads(Utf8(data)), rest)
  {
    var header := PackU32(|data|).value;
    var payload := Utf8(data);
    assert |payload| == |data|;
    assert EncodeFrame(data).value == header + payload;
    ReadWholePayload(header, payload, rest, loads);
  }

  /** A frame whose header declares its whole payload; a zero length reads as "no message". */
  lemma ReadWholePayload(header: seq<byte>, payload: seq<byte>, rest: seq<byte>, loads: Loads)
    requires |header| == 4 && UnpackU32(header) == |payload|
    ensures ReadFrame(header + payload + rest, loads) == (if payload == [] then Nothing else loads(payload), rest)
  {
    if payload == [] {
      var input := header + payload + rest;
      assert input[..4] == header && input[4..] == rest;
    } else {
      ReadPayload(header, payload, rest, loads);
      assert payload[..|payload|] == payload;
      assert payload[|payload|..] + rest == rest;
    }
  }

  /**
   * Without ASCII the prefix undercounts: the reader hands `json.loads` only
   * the first `len(data)` bytes and leaves the rest of the payload in the
   * stream.  The default `json.dumps` (`ensure_ascii`) never produces such a
   * text; only a `dumps` that emits non-ASCII characters reaches this case.
   */
  lemma ReadNonAsciiFrame(data: string, rest: seq<byte>, loads: Loads)
    requires !IsAscii(data) && |data| < U32_LIMIT
    ensures var payload := Utf8(data);
            |payload| > |data| &&
            ReadFrame(EncodeFrame(data).value + rest, loads)
              == (loads(payload[..|data|]), payload[|data|..] + rest)
  {
    var header := PackU32(|data|).value;
    var payload := Utf8(data);
    assert EncodeFrame(data).value == header + payload;
    assert data != "";
    ReadPayload(header, payload, rest, loads);
  }

  /**
   * `json.loads` on bytes ending in a byte that can only start a multi-byte
   * character: with no `0xFE` or `0xFF` byte there is no UTF-16 or UTF-32
   * byte-order mark, so `detect_encoding` picks UTF-8 (or UTF-8 with its own
   * mark) whenever neither of the first two bytes is zero, and the UTF-8
   * decoder then stops at the unfinished character with `UnicodeDecodeError`.
   */
  ghost predicate RaisesOnCutCharacter(loads: Loads) {
    forall b: seq<byte> ::
      b != [] && (forall i :: 0 <= i < |b| ==> b[i] < 0xFE) && (|b| >= 2 ==> b[0] != 0 && b[1] != 0)
      && b[|b| - 1] >= 0xC0
      ==> loads(b) == Raised
  }

  /** UTF-8 never uses the bytes `0xFE` and `0xFF`, so its output never starts with a UTF-16 or UTF-32 byte-order mark. */
  lemma {:induction false} Utf8HasNoMarkBytes(s: string)
    ensures forall i :: 0 <= i < |Utf8(s)| ==> Utf8(s)[i] < 0xFE
  {
    if s != [] {
      Utf8HasNoMarkBytes(s[1..]);
      var head, tail := Utf8Char(s[0]), Utf8(s[1..]);
      assert forall i :: 0 <= i < |head| ==> head[i] < 0xFE;
      assert Utf8(s) == head + tail;
    }
  }

  /**
   * When the prefix ends inside a character, the read raises: `_read_json`
   * lets the `UnicodeDecodeError` escape, with the payload's tail still unread.
   */
  lemma CutFrameRaises(data: string, rest: seq<byte>, loads: Loads)
    requires !IsAscii(data) && |data| < U32_LIMIT && RaisesOnCutCharacter(loads)
    requires var cut := Utf8(data)[..|data|];
             (|cut| >= 2 ==> cut[0] != 0 && cut[1] != 0) && cut[|cut| - 1] >= 0xC0
    ensures ReadFrame(EncodeFrame(data).value + rest, loads) == (Raised, Utf8(data)[|data|..] + rest)
  {
    ReadNonAsciiFrame(data, rest, loads);
    Utf8HasNoMarkBytes(data);
  }

  /** A JSON text that is one non-ASCII character: its one-byte prefix is a lone lead byte, and reading it raises. */
  lemma LoneNonAsciiCharRaises(c: char, rest: seq<byte>, loads: Loads)
    requires c as int >= 0x80 && RaisesOnCutCharacter(loads)
    ensures ReadFrame(EncodeFrame([c]).value + rest, loads) == (Raised, Utf8([c])[1..] + rest)
  {
    var data := [c];
    assert !IsAscii(data) by {
      assert data[0] as int >= 0x80;
    }
    assert Utf8(data) == Utf8Char(c) + Utf8([]);
    assert Utf8(data)[..1] == [Utf8Char(c)[0]];
    CutFrameRaises(data, rest, loads);
  }
}
