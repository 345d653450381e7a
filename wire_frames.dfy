/**
 * The binary frames the backend sends to the frontend over its WebSocket
 * (src-tauri/src/transactions/websocket.rs), and the check the server applies
 * to binary frames coming back from the frontend.
 *
 * A frame is one tag byte, the transaction id as a big-endian u32, and a
 * payload that depends on the kind. Strings are their UTF-8 bytes followed by
 * a NUL; a JSON value is a single 0 byte for `null`, otherwise a 1 byte, its
 * JSON text and a NUL.
 */
module WireFrames {
  import opened Wrappers
  import opened Bytes

  /** A `serde_json::Value`: `null`, or any other value given by its JSON text. */
  datatype Json = Null | JsonText(text: seq<byte>)

  datatype TransactionMessage =
    | Finished(id: u32, json: Json)
    | Error(id: u32, msg: seq<byte>, json: Json)
    | Data(id: u32, json: Json)
    | Status(id: u32, status: seq<byte>)
    | Progress(id: u32, progress: u16)
    | IncrProgress(id: u32, incr: u16)

  /** The first byte of a frame for each kind. */
  function Tag(m: TransactionMessage): byte
  {
    match m
    case Finished(_, _) => 0
    case Error(_, _, _) => 1
    case Data(_, _) => 2
    case Status(_, _) => 3
    case Progress(_, _) => 4
    case IncrProgress(_, _) => 5
  }

  /** `write_nt_string`: the string's bytes, then NUL. */
  function NtString(s: seq<byte>): seq<byte>
  {
    s + [NUL]
  }

  /** What `write_json` appends. */
  function JsonBytes(j: Json): seq<byte>
  {
    match j
    case Null => [0]
    case JsonText(text) => [1] + NtString(text)
  }

  /** What follows the tag and the id. */
  function Payload(m: TransactionMessage): seq<byte>
  {
    match m
    case Finished(_, j) => JsonBytes(j)
    case Error(_, msg, j) => NtString(msg) + JsonBytes(j)
    case Data(_, j) => JsonBytes(j)
    case Status(_, status) => NtString(status)
    case Progress(_, p) => BE(p, 2)
    case IncrProgress(_, p) => BE(p, 2)
  }

  /** The frame `as_bytes` produces. */
  function Encode(m: TransactionMessage): seq<byte>
  {
    [Tag(m)] + BE(m.id, 4) + Payload(m)
  }

  /** Whether every string a message carries can be written without an interior NUL. */
  predicate Writable(m: TransactionMessage)
  {
    match m
    case Finished(_, j) => JsonWritable(j)
    case Error(_, msg, j) => NulFree(msg) && JsonWritable(j)
    case Data(_, j) => JsonWritable(j)
    case Status(_, status) => NulFree(status)
    case Progress(_, _) => true
    case IncrProgress(_, _) => true
  }

  /** JSON text from `serde_json::to_string` escapes control characters, so it holds no NUL. */
  predicate JsonWritable(j: Json)
  {
    j.JsonText? ==> NulFree(j.text)
  }

  // ---------------------------------------------------------------------------
  // The encoder, appending to a growing buffer as `as_bytes` does

  method WriteJson(bytes: seq<byte>, json: Json) returns (out: seq<byte>)
    ensures out == bytes + JsonBytes(json)
  {
    if json.Null? {
      out := bytes + [0];
    } else {
      out := bytes + [1];
      out := out + json.text + [NUL];
    }
  }

  method AsBytes(m: TransactionMessage) returns (bytes: seq<byte>)
    ensures bytes == Encode(m)
  {
    bytes := [];
    match m
    case Finished(id, json) =>
      bytes := bytes + [0];
      bytes := bytes + BE(id, 4);
      bytes := WriteJson(bytes, json);
    case Error(id, msg, json) =>
      bytes := bytes + [1];
      bytes := bytes + BE(id, 4);
      bytes := bytes + msg + [NUL];
      ghost var head := [1] + BE(id, 4);
      assert bytes == head + NtString(msg) by {
        Regroup(head, msg, [NUL]);
      }
      bytes := WriteJson(bytes, json);
      Regroup(head, NtString(msg), JsonBytes(json));
    case Data(id, json) =>
      bytes := bytes + [2];
      bytes := bytes + BE(id, 4);
      bytes := WriteJson(bytes, json);
    case Status(id, status) =>
      bytes := bytes + [3];
      bytes := bytes + BE(id, 4);
      bytes := bytes + status + [NUL];
      Regroup([3] + BE(id, 4), status, [NUL]);
    case Progress(id, progress) =>
      bytes := bytes + [4];
      bytes := bytes + BE(id, 4);
      bytes := bytes + BE(progress, 2);
    case IncrProgress(id, incr) =>
      bytes := bytes + [5];
      bytes := bytes + BE(id, 4);
      bytes := bytes + BE(incr, 2);
  }

  lemma Regroup(a: seq<byte>, b: seq<byte>, c: seq<byte>)
    ensures a + b + c == a + (b + c)
  {
  }

  // ---------------------------------------------------------------------------
  // A reader for the frames, the inverse the layout is designed for

  /** Read a JSON field, returning it and the bytes after it. */
  function DecodeJson(s: seq<byte>): Option<(Json, seq<byte>)>
  {
    if s == [] then None
    else if s[0] == 0 then Some((Null, s[1..]))
    else if s[0] == 1 then
      match UntilNul(s[1..])
      case None => None
      case Some((text, rest)) => Some((JsonText(text), rest))
    else None
  }

  /** The message a whole frame carries, or None when the frame is malformed or has trailing bytes. */
  function Decode(frame: seq<byte>): Option<TransactionMessage>
  {
    if |frame| < 5 then None
    else
      var id := U32FromBE(frame[1..5]);
      var rest := frame[5..];
      if frame[0] == 0 || frame[0] == 2 then
        match DecodeJson(rest)
        case Some((j, tail)) => if tail == [] then Some(if frame[0] == 0 then Finished(id, j) else Data(id, j)) else None
        case None => None
      else if frame[0] == 1 then
        match UntilNul(rest)
        case None => None
        case Some((msg, after)) =>
          match DecodeJson(after)
          case Some((j, tail)) => if tail == [] then Some(Error(id, msg, j)) else None
          case None => None
      else if frame[0] == 3 then
        match UntilNul(rest)
        case Some((status, tail)) => if tail == [] then Some(Status(id, status)) else None
        case None => None
      else if (frame[0] == 4 || frame[0] == 5) && |rest| == 2 then
        var v := U16FromBE(rest);
        Some(if frame[0] == 4 then Progress(id, v) else IncrProgress(id, v))
      else None
  }

  lemma JsonRoundTrip(j: Json, t: seq<byte>)
    requires JsonWritable(j)
    ensures DecodeJson(JsonBytes(j) + t) == Some((j, t))
  {
    if j.JsonText? {
      assert (JsonBytes(j) + t)[1..] == j.text + [NUL] + t;
      UntilNulTerminated(j.text, t);
    } else {
      assert (JsonBytes(j) + t)[1..] == t;
    }
  }

  /** Every frame starts with its kind's tag, followed by the id in big-endian order. */
  lemma FrameHeader(m: TransactionMessage)
    ensures |Encode(m)| >= 5
    ensures Encode(m)[0] == Tag(m)
    ensures Encode(m)[1..5] == BE(m.id, 4) && FromBE(Encode(m)[1..5]) == m.id
  {
    BERoundTrip(m.id, 4);
  }

  /** A null JSON value is the single byte 0; any other is 1, its text and a NUL. */
  lemma JsonLayout(j: Json)
    ensures j.Null? ==> JsonBytes(j) == [0]
    ensures j.JsonText? ==>
      |JsonBytes(j)| == |j.text| + 2 && JsonBytes(j)[0] == 1 &&
      JsonBytes(j)[1..|j.text| + 1] == j.text && JsonBytes(j)[|j.text| + 1] == NUL
  {
  }

  /** Progress and IncrProgress frames are exactly 7 bytes, the last two the value in big-endian order. */
  lemma ProgressFrameLength(m: TransactionMessage)
    requires m.Progress? || m.IncrProgress?
    ensures |Encode(m)| == 7
    ensures FromBE(Encode(m)[5..]) == if m.Progress? then m.progress else m.incr
  {
    var v := if m.Progress? then m.progress else m.incr;
    assert Encode(m)[5..] == BE(v, 2);
    BERoundTrip(v, 2);
  }

  /** A Status frame is tag, id, text, NUL; an Error frame is tag, id, message, NUL, then the JSON field. */
  lemma TextFrameLayout(m: TransactionMessage)
    requires m.Status? || m.Error?
    ensures m.Status? ==> Encode(m)[5..] == m.status + [NUL]
    ensures m.Error? ==> Encode(m)[5..] == m.msg + [NUL] + JsonBytes(m.json)
  {
    assert Encode(m)[5..] == Payload(m);
  }

  /** Reading a frame gives back the message written, so no two messages share a frame. */
  lemma DecodeEncode(m: TransactionMessage)
    requires Writable(m)
    ensures Decode(Encode(m)) == Some(m)
  {
    match m
    case Finished(_, _) => JsonFrameDecodes(m);
    case Data(_, _) => JsonFrameDecodes(m);
    case Error(_, _, _) => ErrorFrameDecodes(m);
    case Status(_, _) => StatusFrameDecodes(m);
    case Progress(_, _) => ProgressFrameDecodes(m);
    case IncrProgress(_, _) => ProgressFrameDecodes(m);
  }

  lemma JsonFrameDecodes(m: TransactionMessage)
    requires (m.Finished? || m.Data?) && Writable(m)
    ensures Decode(Encode(m)) == Some(m)
  {
    FrameHeader(m);
    assert Encode(m)[5..] == JsonBytes(m.json) + [];
    JsonRoundTrip(m.json, []);
  }

  lemma ErrorFrameDecodes(m: TransactionMessage)
    requires m.Error? && Writable(m)
    ensures Decode(Encode(m)) == Some(m)
  {
    FrameHeader(m);
    assert Encode(m)[5..] == m.msg + [NUL] + JsonBytes(m.json);
    UntilNulTerminated(m.msg, JsonBytes(m.json));
    assert JsonBytes(m.json) + [] == JsonBytes(m.json);
    JsonRoundTrip(m.json, []);
  }

  lemma StatusFrameDecodes(m: TransactionMessage)
    requires m.Status? && Writable(m)
    ensures Decode(Encode(m)) == Some(m)
  {
    FrameHeader(m);
    assert Encode(m)[5..] == m.status + [NUL] + [];
    UntilNulTerminated(m.status, []);
  }

  lemma ProgressFrameDecodes(m: TransactionMessage)
    requires m.Progress? || m.IncrProgress?
    ensures Decode(Encode(m)) == Some(m)
  {
    FrameHeader(m);
    ProgressFrameLength(m);
    var v := if m.Progress? then m.progress else m.incr;
    assert Encode(m)[5..] == BE(v, 2);
    BERoundTrip(v, 2);
  }

  lemma EncodeInjective(m1: TransactionMessage, m2: TransactionMessage)
    requires Writable(m1) && Writable(m2) && Encode(m1) == Encode(m2)
    ensures m1 == m2
  {
    DecodeEncode(m1);
    DecodeEncode(m2);
  }

  // ---------------------------------------------------------------------------
  // Binary frames from the frontend

  /** The one-byte prefix meant to mark a cancel request. */
  const CANCEL_TRANSACTION: seq<byte> := [123]

  /**
   * What the server does with an inbound binary frame: ignore it, cancel a
   * transaction, or panic (the thread serving the connection unwinds).
   */
  datatype Inbound = Ignored | CancelRequest(id: u32) | Panicked

  /**
   * The branch behind the prefix check, as written: slicing `bytes[1..9]`
   * panics on a frame shorter than 9 bytes; otherwise the 8-byte slice never
   * converts to the `[u8; 4]` a `u32` is read from, so the frame is skipped.
   */
  function CancelBranchAsWritten(bytes: seq<byte>): (r: Inbound)
    ensures r.Panicked? <==> |bytes| < 9
    ensures !r.CancelRequest?
  {
    if |bytes| < 9 then Panicked else Ignored
  }

  /** The check as written compares the empty slice `bytes[0..0]` with the prefix before taking that branch. */
  function ListenBinaryAsWritten(bytes: seq<byte>): Inbound
  {
    if bytes[..0] == CANCEL_TRANSACTION then CancelBranchAsWritten(bytes) else Ignored
  }

  /** The frame a cancel request was evidently meant to be: the prefix, then the id in big-endian order. */
  function CancelFrame(id: u32): seq<byte>
  {
    CANCEL_TRANSACTION + BE(id, 4)
  }

  /** The evident intent: a frame starting with the prefix and holding an id cancels that id. */
  function ListenBinary(bytes: seq<byte>): Inbound
  {
    if |bytes| >= 5 && bytes[..1] == CANCEL_TRANSACTION then CancelRequest(U32FromBE(bytes[1..5])) else Ignored
  }

  /**
   * As written, no inbound frame cancels anything and none panics, not even
   * a well-formed cancel frame: the empty slice never equals the prefix.
   * Were the branch behind it taken, that 5-byte frame would panic.
   */
  lemma {:induction false} CancelCheckNeverFires(bytes: seq<byte>)
    ensures ListenBinaryAsWritten(bytes) == Ignored
    ensures ListenBinaryAsWritten(CancelFrame(7)) == Ignored && CancelBranchAsWritten(CancelFrame(7)) == Panicked
  {
    assert |bytes[..0]| == 0 != |CANCEL_TRANSACTION|;
    var f := CancelFrame(7);
    assert |f| == 5;
    assert |f[..0]| == 0 != |CANCEL_TRANSACTION|;
  }

  /** The intended check cancels exactly the id a cancel frame carries, and ignores frames without the prefix. */
  lemma CancelFrameRoundTrip(id: u32, bytes: seq<byte>)
    ensures ListenBinary(CancelFrame(id)) == CancelRequest(id)
    ensures (|bytes| < 5 || bytes[0] != 123) ==> ListenBinary(bytes) == Ignored
    ensures ListenBinary(bytes).CancelRequest? ==> CancelFrame(ListenBinary(bytes).id) == bytes[..5]
  {
    BERoundTrip(id, 4);
    var f := CancelFrame(id);
    assert f[1..5] == BE(id, 4);
    if ListenBinary(bytes).CancelRequest? {
      var b := bytes[1..5];
      BEOfFromBE(b);
      assert bytes[..5] == [123] + b;
    }
  }
}
