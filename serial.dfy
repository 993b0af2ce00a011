/**
 * The byte-level serializer the codec and the snapshot format are built on.
 * It stands in for the JSON encoder: a string is written as three bytes per
 * character followed by a terminator byte, and decoding reads one string off
 * the front of a byte sequence and hands back the bytes after it.
 */
module Serial {
  import opened Errors

  newtype byte = x: int | 0 <= x < 256

  /** Ends every encoded string; no character's first byte can be this value. */
  const Terminator: byte := 0xFF

  /** A Unicode scalar value, the range of Dafny's `char`. */
  predicate IsScalar(v: int) {
    (0 <= v < 0xD800) || (0xE000 <= v < 0x11_0000)
  }

  /** The three bytes of character `c`, most significant first. */
  function EncodeChar(c: char): (r: seq<byte>)
    ensures |r| == 3 && r[0] <= 0x10 && r[0] != Terminator
  {
    var v := c as int;
    [(v / 0x1_0000) as byte, (v / 0x100 % 0x100) as byte, (v % 0x100) as byte]
  }

  /** The character whose three bytes are `b0 b1 b2`, if they spell a scalar value. */
  function DecodeChar(b0: byte, b1: byte, b2: byte): (r: Option<char>)
    ensures r.Some? <==> IsScalar(b0 as int * 0x1_0000 + b1 as int * 0x100 + b2 as int)
  {
    var v := b0 as int * 0x1_0000 + b1 as int * 0x100 + b2 as int;
    if IsScalar(v) then Some(v as char) else None
  }

  lemma CharRoundTrip(c: char)
    ensures var e := EncodeChar(c); DecodeChar(e[0], e[1], e[2]) == Some(c)
  {
    var v := c as int;
    var e := EncodeChar(c);
    assert v == (v / 0x1_0000) * 0x1_0000 + (v / 0x100 % 0x100) * 0x100 + v % 0x100;
    assert e[0] as int * 0x1_0000 + e[1] as int * 0x100 + e[2] as int == v;
  }

  /** The characters of `s`, three bytes each, then the terminator. */
  function EncodeString(s: string): (r: seq<byte>)
    ensures |r| == 3 * |s| + 1 && r[|r| - 1] == Terminator
  {
    if s == [] then [Terminator] else EncodeChar(s[0]) + EncodeString(s[1..])
  }

  /**
   * Reads one string off the front of `bs`; on success returns it with the
   * bytes that follow its terminator, which are strictly fewer than `bs`.
   */
  function DecodeString(bs: seq<byte>): (r: Result<(string, seq<byte>)>)
    ensures r.Success? ==> |r.value.1| < |bs| && r.value.1 == bs[|bs| - |r.value.1|..]
    ensures r.Failure? ==> r.error == DecodeError
    decreases |bs|
  {
    if |bs| == 0 then Failure(DecodeError)
    else if bs[0] == Terminator then Success(("", bs[1..]))
    else if |bs| < 3 then Failure(DecodeError)
    else match DecodeChar(bs[0], bs[1], bs[2])
      case None => Failure(DecodeError)
      case Some(c) =>
        match DecodeString(bs[3..])
        case Failure(e) => Failure(e)
        case Success((s, rest)) => Success(([c] + s, rest))
  }

  /** A byte put in front of a sequence is its first element, and the sequence is what follows it. */
  lemma Prefixed(b: byte, x: seq<byte>)
    ensures ([b] + x)[0] == b && ([b] + x)[1..] == x
  {
  }

  /** One step of DecodeString: a character followed by the rest of the string. */
  lemma DecodeStringStep(bs: seq<byte>, c: char, s: string, rest: seq<byte>)
    requires |bs| >= 3 && bs[0] != Terminator && DecodeChar(bs[0], bs[1], bs[2]) == Some(c)
    requires DecodeString(bs[3..]) == Success((s, rest))
    ensures DecodeString(bs) == Success(([c] + s, rest))
  {
  }

  /** Encoding a non-empty string writes its first character, then the rest. */
  lemma EncodeStringStep(s: string, rest: seq<byte>)
    requires s != []
    ensures EncodeString(s) + rest == EncodeChar(s[0]) + (EncodeString(s[1..]) + rest)
  {
  }

  /** Decoding the encoding of `s` followed by any bytes gives back `s` and those bytes. */
  lemma {:induction false} StringRoundTrip(s: string, rest: seq<byte>)
    ensures DecodeString(EncodeString(s) + rest) == Success((s, rest))
  {
    if s == [] {
      assert EncodeString(s) + rest == [Terminator] + rest;
    } else {
      var e := EncodeChar(s[0]);
      var tail := EncodeString(s[1..]) + rest;
      var bs := EncodeString(s) + rest;
      EncodeStringStep(s, rest);
      assert bs[3..] == tail;
      assert bs[0] == e[0] && bs[1] == e[1] && bs[2] == e[2];
      CharRoundTrip(s[0]);
      StringRoundTrip(s[1..], rest);
      DecodeStringStep(bs, s[0], s[1..], rest);
      assert [s[0]] + s[1..] == s;
    }
  }
}
