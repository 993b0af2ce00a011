/**
 * The command codec of the replicated state machine: a log entry is one
 * type-tag byte followed by the serialized command.
 */
module Codec {
  import opened Errors
  import opened Serial

  /** The four kinds of log entry, in the order that fixes their tags. */
  datatype MessageType =
    | CreateBucketRequest
    | DeleteBucketRequest
    | SetItemRequest
    | DeleteItemRequest

  /** A command; `key` and `value` are empty when the operation does not use them. */
  datatype Command = Command(bucket: string, key: string, value: string)

  /** The tag byte of a message type: its ordinal. */
  function Tag(t: MessageType): (b: byte)
    ensures b <= 3
    ensures t == CreateBucketRequest <==> b == 0
    ensures t == DeleteBucketRequest <==> b == 1
    ensures t == SetItemRequest <==> b == 2
    ensures t == DeleteItemRequest <==> b == 3
  {
    match t
    case CreateBucketRequest => 0
    case DeleteBucketRequest => 1
    case SetItemRequest => 2
    case DeleteItemRequest => 3
  }

  /** The message type a tag byte names, or None for a tag no known type has. */
  function TypeOf(b: byte): (r: Option<MessageType>)
    ensures r.None? <==> b > 3
    ensures r.Some? ==> Tag(r.value) == b
  {
    if b == 0 then Some(CreateBucketRequest)
    else if b == 1 then Some(DeleteBucketRequest)
    else if b == 2 then Some(SetItemRequest)
    else if b == 3 then Some(DeleteItemRequest)
    else None
  }

  lemma TagRoundTrip(t: MessageType)
    ensures TypeOf(Tag(t)) == Some(t)
  {
  }

  /** The payload: bucket, key and value, each a serialized string. */
  function EncodeCommand(c: Command): (p: seq<byte>) {
    EncodeString(c.bucket) + EncodeString(c.key) + EncodeString(c.value)
  }

  /** A log entry: the tag of `t`, then the payload of `c`. */
  function EncodeMessage(t: MessageType, c: Command): (m: seq<byte>)
    ensures |m| >= 1 && m[0] == Tag(t) && m[1..] == EncodeCommand(c)
  {
    [Tag(t)] + EncodeCommand(c)
  }

  /**
   * Reads a command off a payload (the entry without its tag). Like a JSON
   * stream decoder it reads one value and ignores whatever follows it; the
   * only error it reports is a decode error.
   */
  function DecodeMessage(payload: seq<byte>): (r: Result<Command>)
    ensures r.Failure? ==> r.error == DecodeError
  {
    match DecodeString(payload)
    case Failure(e) => Failure(e)
    case Success((bucket, r1)) =>
      match DecodeString(r1)
      case Failure(e) => Failure(e)
      case Success((key, r2)) =>
        match DecodeString(r2)
        case Failure(e) => Failure(e)
        case Success((value, _)) => Success(Command(bucket, key, value))
  }

  /** Three decodable strings in a row decode to the command made of them. */
  lemma DecodeMessageStep(p: seq<byte>, bucket: string, r1: seq<byte>, key: string, r2: seq<byte>, value: string, r3: seq<byte>)
    requires DecodeString(p) == Success((bucket, r1))
    requires DecodeString(r1) == Success((key, r2))
    requires DecodeString(r2) == Success((value, r3))
    ensures DecodeMessage(p) == Success(Command(bucket, key, value))
  {
  }

  /** The bytes after the tag are the command's three strings. */
  lemma EncodeMessageTail(t: MessageType, c: Command)
    ensures EncodeMessage(t, c)[1..] == EncodeString(c.bucket) + (EncodeString(c.key) + (EncodeString(c.value) + []))
  {
    assert EncodeString(c.value) + [] == EncodeString(c.value);
  }

  /** Decoding the bytes after the tag returns the command that was encoded. */
  lemma MessageRoundTrip(t: MessageType, c: Command)
    ensures DecodeMessage(EncodeMessage(t, c)[1..]) == Success(c)
  {
    var eb, ek, ev := EncodeString(c.bucket), EncodeString(c.key), EncodeString(c.value) + [];
    EncodeMessageTail(t, c);
    StringRoundTrip(c.bucket, ek + ev);
    StringRoundTrip(c.key, ev);
    StringRoundTrip(c.value, []);
    DecodeMessageStep(eb + (ek + ev), c.bucket, ek + ev, c.key, ev, c.value, []);
  }
}
