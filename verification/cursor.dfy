/** A read cursor over an in-memory byte blob, shaped after the Python 2
    `StringIO` stream the replay parser reads from. Two primitives matter:
    `read(n)` returns at most `n` bytes and silently stops at the end, while
    `ord(read(1))` fails at the end because `ord` rejects the empty string.
    The blob is a sequence, the stream position a natural number threaded
    through every call. */
module Cursor {

  /** One byte of a blob. */
  type byte = b: int | 0 <= b < 256

  datatype Error =
    | EndOfInput   // `ord` applied to the empty string that `read(1)` returns at the end
    | NotAReplay   // the user-data header lacks the replay signature
    | BadText      // the map name is not well-formed UTF-8

  datatype Option<+T> = None | Some(value: T) {
    predicate IsFailure() { None? }

    function PropagateFailure<U>(): Option<U>
      requires None?
    {
      None
    }

    function Extract(): T
      requires Some?
    {
      value
    }
  }

  /** Failure-compatible result, so parsers can be chained with `:-`. */
  datatype Result<+T> = Ok(value: T) | Err(error: Error) {
    predicate IsFailure() { Err? }

    function PropagateFailure<U>(): Result<U>
      requires Err?
    {
      Err(error)
    }

    function Extract(): T
      requires Ok?
    {
      value
    }
  }

  /** `ord(stream.read(1))`: the byte under the cursor, and the cursor just past it. */
  function ReadByte(data: seq<byte>, pos: nat): (r: Result<(byte, nat)>)
    ensures r.Ok? <==> pos < |data|
    ensures r.Ok? ==> r.value.0 == data[pos] && r.value.1 == pos + 1
    ensures r.Err? ==> r.error == EndOfInput
  {
    if pos < |data| then Ok((data[pos], pos + 1)) else Err(EndOfInput)
  }

  /** `stream.read(n)`: the next `n` bytes when that many remain, otherwise
      whatever remains, with the cursor left at the end. From a position past
      the end (after `seek`) nothing is read; Python moves the cursor back to
      the end while the model leaves it, and either way every later read is
      empty and every later `ord(read(1))` fails. */
  function Read(data: seq<byte>, pos: nat, n: nat): (r: (seq<byte>, nat))
    ensures pos + n <= |data| ==> r.0 == data[pos..pos + n] && r.1 == pos + n
    ensures pos + n > |data| ==> |data| <= r.1 && ReadByte(data, r.1).Err?
    ensures pos <= |data| ==> r.1 <= |data| && r.0 == data[pos..r.1]
    ensures |r.0| <= n && pos <= r.1
  {
    if pos >= |data| then ([], pos)
    else if pos + n <= |data| then (data[pos..pos + n], pos + n)
    else (data[pos..], |data|)
  }

  /** Two reads in a row move the cursor as far as one read of both lengths. */
  lemma ReadTwice(data: seq<byte>, pos: nat, a: nat, b: nat)
    ensures Read(data, Read(data, pos, a).1, b).1 == Read(data, pos, a + b).1
  {
  }

  /** `data` holds the bytes `bs` from position `pos` on. */
  predicate Holds(data: seq<byte>, pos: nat, bs: seq<byte>) {
    pos + |bs| <= |data| && data[pos..pos + |bs|] == bs
  }

  /** A blob holding `a + b` holds `a`, and `b` right after it: the step every
      "decode what was encoded" proof repeats. */
  lemma Split(data: seq<byte>, pos: nat, a: seq<byte>, b: seq<byte>)
    requires Holds(data, pos, a + b)
    ensures Holds(data, pos, a) && Holds(data, pos + |a|, b)
  {
    assert data[pos..pos + |a|] == data[pos..pos + |a| + |b|][..|a|];
    assert data[pos + |a|..pos + |a| + |b|] == data[pos..pos + |a| + |b|][|a|..];
  }
}
