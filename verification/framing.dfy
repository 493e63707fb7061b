/** Byte-level framing of the serial link: outbound frames are the payload followed by the
    terminator; inbound frames are what the transport's read-until-terminator call returns,
    with one trailing byte dropped by the driver. */
module Framing {

  /** One octet on the wire. */
  newtype byte = x: int | 0 <= x < 256

  /** The newline byte, the driver's default terminator. */
  const Newline: byte := 10

  /** The bytes handed to the transport for `message` (`message + special_ending_character`). */
  function Frame(message: seq<byte>, terminator: seq<byte>): (r: seq<byte>)
    ensures |r| == |message| + |terminator|
    ensures r[..|message|] == message && r[|message|..] == terminator
  {
    message + terminator
  }

  /** Python's `data[:-1]`: every byte but the last; the empty sequence stays empty. */
  function DropLast(data: seq<byte>): (r: seq<byte>)
    ensures |data| == 0 ==> r == []
    ensures |data| > 0 ==> r + [data[|data| - 1]] == data
  {
    if |data| == 0 then [] else data[..|data| - 1]
  }

  /** The first `i` bytes of `buffer` end with `terminator` (a non-empty one: the transport
      compares the last `len(terminator)` bytes read, which for an empty terminator is the
      whole non-empty read and never matches). */
  predicate EndsWithTerminator(buffer: seq<byte>, terminator: seq<byte>, i: int) {
    && 0 < |terminator| <= i <= |buffer|
    && buffer[i - |terminator|..i] == terminator
  }

  /** Index just past the first terminator at or after position `i`, or `|buffer|` if none. */
  function ScanFrom(buffer: seq<byte>, terminator: seq<byte>, i: nat): (n: nat)
    requires 1 <= i
    ensures n <= |buffer|
    ensures n == |buffer| || (i <= n && EndsWithTerminator(buffer, terminator, n))
    ensures forall j :: i <= j < n ==> !EndsWithTerminator(buffer, terminator, j)
    decreases |buffer| + 1 - i
  {
    if i > |buffer| then |buffer|
    else if EndsWithTerminator(buffer, terminator, i) then i
    else ScanFrom(buffer, terminator, i + 1)
  }

  /** The transport's blocking `read_until(terminator)` over the bytes that arrive before its
      timeout: it consumes bytes one at a time and stops just after the first terminator, or
      returns everything that arrived when the terminator never comes. Returns the bytes read
      and the bytes left in the input buffer. */
  function ReadUntil(buffer: seq<byte>, terminator: seq<byte>): (r: (seq<byte>, seq<byte>))
    ensures r.0 + r.1 == buffer
    ensures |r.1| > 0 ==> EndsWithTerminator(buffer, terminator, |r.0|)
    ensures forall j :: 1 <= j < |r.0| ==> !EndsWithTerminator(buffer, terminator, j)
  {
    var n := ScanFrom(buffer, terminator, 1);
    assert buffer[..n] + buffer[n..] == buffer;
    (buffer[..n], buffer[n..])
  }

  /** The terminator occurs in `message + terminator` only at its very end. */
  predicate TerminatorOnlyAtEnd(message: seq<byte>, terminator: seq<byte>) {
    forall j :: 1 <= j < |message| + |terminator| ==> !EndsWithTerminator(message + terminator, terminator, j)
  }

  /** A frame sent by one side is read back whole by the other: `read_until` stops exactly at
      the end of the frame, leaving whatever followed it. */
  lemma {:induction false} ReadUntilFrame(message: seq<byte>, terminator: seq<byte>, rest: seq<byte>)
    requires 0 < |terminator|
    requires TerminatorOnlyAtEnd(message, terminator)
    ensures ReadUntil(Frame(message, terminator) + rest, terminator) == (Frame(message, terminator), rest)
  {
    var f := Frame(message, terminator);
    var buffer := f + rest;
    var end := |message| + |terminator|;
    assert buffer[..end] == f;
    assert buffer[end - |terminator|..end] == terminator;
    assert EndsWithTerminator(buffer, terminator, end);
    forall j | 1 <= j < end
      ensures !EndsWithTerminator(buffer, terminator, j)
    {
      assert !EndsWithTerminator(f, terminator, j);
      if |terminator| <= j {
        assert buffer[j - |terminator|..j] == f[j - |terminator|..j];
      }
    }
    var r := ReadUntil(buffer, terminator);
    assert |r.0| == end;
    assert r.0 == buffer[..end];
    assert r.1 == buffer[end..];
  }

  /** With a one-byte terminator that the payload does not contain, the frame is read back whole. */
  lemma {:induction false} SingleByteTerminatorOnlyAtEnd(message: seq<byte>, t: byte)
    requires t !in message
    ensures TerminatorOnlyAtEnd(message, [t])
  {
    var f := message + [t];
    forall j | 1 <= j < |message| + 1
      ensures !EndsWithTerminator(f, [t], j)
    {
      assert f[j - 1] == message[j - 1];
      assert f[j - 1..j] == [f[j - 1]];
    }
  }

  /** Dropping one byte from a received frame recovers the payload exactly when the terminator
      is a single byte; a longer terminator leaves all but its last byte on the payload. */
  lemma DropLastOfFrame(message: seq<byte>, terminator: seq<byte>)
    requires 0 < |terminator|
    ensures DropLast(Frame(message, terminator)) == message + terminator[..|terminator| - 1]
    ensures DropLast(Frame(message, terminator)) == message <==> |terminator| == 1
  {
    var f := Frame(message, terminator);
    assert f[..|f| - 1] == message + terminator[..|terminator| - 1];
    if DropLast(f) == message {
      assert |DropLast(f)| == |message| + |terminator| - 1;
    }
  }
}
