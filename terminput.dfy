/** The key-event decoder of the termloop shim: the bytes of the session's
    input stream become key events. Only the ANSI arrow keys and ESC [ 3 ~
    (Delete) are recognised; every other byte, except CR and LF, is a
    character event of its own, so a multi-byte UTF-8 character arrives as
    several events. */
module TermInput {

  import opened Termloop
  import Utf8

  const Esc: Utf8.Byte := 0x1b
  const LeftBracket: Utf8.Byte := 0x5b
  const Tilde: Utf8.Byte := 0x7e

  /** bufio.Reader.ReadByte after an ESC: the error is dropped, so reading
      past the end yields 0. */
  function ByteAt(p: seq<Utf8.Byte>, i: nat): Utf8.Byte {
    if i < |p| then p[i] else 0
  }

  /** What is left after n bytes have been read, or tried. */
  function Drop(p: seq<Utf8.Byte>, n: nat): seq<Utf8.Byte> {
    if n <= |p| then p[n..] else []
  }

  /** The event for the final byte of ESC [ x, if it names a key. */
  function CsiKey(b: Utf8.Byte): Key {
    if b == 'A' as int then ArrowUp
    else if b == 'B' as int then ArrowDown
    else if b == 'C' as int then ArrowRight
    else if b == 'D' as int then ArrowLeft
    else if b == '3' as int then Delete
    else NoKey
  }

  /** readEvents: the events sent on the channel for the input p, in order,
      until the stream ends. */
  function Decode(p: seq<Utf8.Byte>): seq<Event>
    decreases |p|
  {
    if p == [] then []
    else if p[0] == Esc then
      if ByteAt(p, 1) != LeftBracket then Decode(Drop(p, 2))
      else
        var k := CsiKey(ByteAt(p, 2));
        if k == NoKey then Decode(Drop(p, 3))
        else if k == Delete then [Event(Delete, '\0')] + Decode(Drop(p, 4))
        else [Event(k, '\0')] + Decode(Drop(p, 3))
    else if p[0] == 10 || p[0] == 13 then Decode(p[1..])
    else [Event(NoKey, p[0] as char)] + Decode(p[1..])
  }

  /** An event the decoder can produce: a recognised key, or a character
      event for a byte other than ESC, LF and CR. */
  predicate Decodable(e: Event) {
    if e.key == NoKey then 0 <= e.ch as int < 256 && e.ch as int !in {0x1b, 10, 13}
    else e.ch == '\0'
  }

  /** The shortest input that yields e. */
  function Encode(e: Event): seq<Utf8.Byte>
    requires Decodable(e)
  {
    match e.key
    case NoKey => [e.ch as int]
    case ArrowUp => [Esc, LeftBracket, 'A' as int]
    case ArrowDown => [Esc, LeftBracket, 'B' as int]
    case ArrowRight => [Esc, LeftBracket, 'C' as int]
    case ArrowLeft => [Esc, LeftBracket, 'D' as int]
    case Delete => [Esc, LeftBracket, '3' as int, Tilde]
  }

  function EncodeAll(es: seq<Event>): seq<Utf8.Byte>
    requires forall i :: 0 <= i < |es| ==> Decodable(es[i])
  {
    if es == [] then [] else Encode(es[0]) + EncodeAll(es[1..])
  }

  /** Decoding consumes an encoded event exactly and yields it. */
  lemma DecodeStep(e: Event, rest: seq<Utf8.Byte>)
    requires Decodable(e)
    ensures Decode(Encode(e) + rest) == [e] + Decode(rest)
  {
    var p := Encode(e) + rest;
    assert p[|Encode(e)|..] == rest;
  }

  /** Every sequence of decodable events survives encoding and decoding. */
  lemma {:induction false} DecodeEncode(es: seq<Event>)
    requires forall i :: 0 <= i < |es| ==> Decodable(es[i])
    ensures Decode(EncodeAll(es)) == es
    decreases |es|
  {
    if es != [] {
      DecodeStep(es[0], EncodeAll(es[1..]));
      DecodeEncode(es[1..]);
    }
  }

  /** Every event the decoder yields is decodable, and there are never more
      events than bytes. */
  lemma {:induction false} DecodeShape(p: seq<Utf8.Byte>)
    ensures |Decode(p)| <= |p|
    ensures forall i :: 0 <= i < |Decode(p)| ==> Decodable(Decode(p)[i])
    decreases |p|
  {
    if p == [] {
    } else if p[0] == Esc {
      DecodeShape(Drop(p, 2));
      DecodeShape(Drop(p, 3));
      DecodeShape(Drop(p, 4));
    } else {
      DecodeShape(p[1..]);
    }
  }

  /** An ESC [ 3 cut short by the end of input still yields Delete, since
      the missing '~' reads as 0 and is not checked. */
  lemma TruncatedDelete()
    ensures Decode([Esc, LeftBracket, '3' as int]) == [Event(Delete, '\0')]
  {
    assert Drop([Esc, LeftBracket, '3' as int], 4) == [];
  }

  /** A byte at or above 0x80 is an event of its own: the two bytes of
      U+00E9 give the characters U+00C3 and U+00A9, not the one rune. */
  lemma BytesNotRunes()
    ensures Decode(Utf8.EncodeRune(0xE9)) == [Event(NoKey, 0xC3 as char), Event(NoKey, 0xA9 as char)]
  {
    assert Utf8.EncodeRune(0xE9) == [0xC3, 0xA9];
    assert Utf8.EncodeRune(0xE9)[1..] == [0xA9];
  }
}
