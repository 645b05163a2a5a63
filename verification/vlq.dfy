/** The variable-length quantity of the replay format: little-endian base 128,
    seven payload bits per byte, bit 0x80 meaning "another byte follows" (the
    unsigned LEB128 scheme of section 7.6 of DWARF version 4). No length cap:
    a run of continuation bytes is read until the blob ends. */
module Vlq {
  import opened Cursor

  /** `byte & 0x7F`. */
  function Payload(b: byte): nat { b % 128 }

  /** `byte & 0x80 != 0`. */
  predicate Continues(b: byte) { b >= 128 }

  /** 128 to the power `k`, i.e. the `<< k * 7` of the source. */
  function Pow128(k: nat): nat { if k == 0 then 1 else 128 * Pow128(k - 1) }

  /** The number a run of VLQ bytes stands for: the sum of Payload(bs[i]) * 128^i. */
  function Value(bs: seq<byte>): nat {
    if |bs| == 0 then 0 else Payload(bs[0]) + 128 * Value(bs[1..])
  }

  /** `bs` is exactly one VLQ: bytes with the continuation bit, then one byte
      without it. */
  predicate IsVlq(bs: seq<byte>) {
    && |bs| > 0
    && if Continues(bs[0]) then IsVlq(bs[1..]) else |bs| == 1
  }

  /** Every byte from `pos` to the end of the blob carries the continuation bit,
      so no VLQ starting at `pos` is complete. */
  predicate Unterminated(data: seq<byte>, pos: nat)
    decreases |data| - pos
  {
    pos >= |data| || (Continues(data[pos]) && Unterminated(data, pos + 1))
  }

  /** `vlq2int`: decodes the VLQ under the cursor. It consumes up to and including
      the first byte without the continuation bit, and fails exactly when the
      blob ends before such a byte. */
  function ReadVlq(data: seq<byte>, pos: nat): (r: Result<(nat, nat)>)
    ensures r.Ok? ==>
      && pos < r.value.1 <= |data|
      && IsVlq(data[pos..r.value.1])
      && r.value.0 == Value(data[pos..r.value.1])
    ensures r.Err? <==> Unterminated(data, pos)
    ensures r.Err? ==> r.error == EndOfInput
  {
    var first :- ReadByte(data, pos);
    assert data[pos..pos + 1] == [data[pos]];
    Loop(data, pos, first.1, first.0, Payload(first.0), 1)
  }

  /** The `while byte & 0x80 != 0` loop of `vlq2int`: `last` is the byte read most
      recently, `value` the payload accumulated since `start`, `shift` the number
      of bytes read so far. */
  function Loop(data: seq<byte>, ghost start: nat, pos: nat, last: byte, value: nat, shift: nat)
    : (r: Result<(nat, nat)>)
    requires start < pos <= |data| && shift == pos - start
    requires last == data[pos - 1]
    requires value == Value(data[start..pos])
    decreases |data| - pos
    ensures r.Ok? ==>
      && pos <= r.value.1 <= |data|
      && IsVlq(data[pos - 1..r.value.1])
      && r.value.0 == Value(data[start..r.value.1])
    ensures r.Err? <==> Continues(last) && Unterminated(data, pos)
    ensures r.Err? ==> r.error == EndOfInput
  {
    if !Continues(last) then
      assert data[pos - 1..pos] == [last];
      Ok((value, pos))
    else
      var next :- ReadByte(data, pos);
      assert data[start..pos + 1] == data[start..pos] + [data[pos]];
      ValueAppend(data[start..pos], data[pos]);
      var r := Loop(data, start, next.1, next.0, Payload(next.0) * Pow128(shift) + value, shift + 1);
      assert r.Ok? ==> data[pos - 1..r.value.1][1..] == data[pos..r.value.1];
      r
  }

  /** Appending a byte adds its payload at the next power of 128. Together with
      `ValueBound` this is why the source may OR the shifted payload into the
      accumulator: the accumulator has no bit at or above the shift. */
  lemma {:induction false} ValueAppend(bs: seq<byte>, b: byte)
    ensures Value(bs + [b]) == Value(bs) + Payload(b) * Pow128(|bs|)
  {
    if |bs| > 0 {
      var rest, p := Value(bs[1..]), Payload(b);
      assert (bs + [b])[1..] == bs[1..] + [b];
      ValueAppend(bs[1..], b);
      calc {
        Value(bs + [b]);
        Payload(bs[0]) + 128 * (rest + p * Pow128(|bs| - 1));
        { assert 128 * (p * Pow128(|bs| - 1)) == p * (128 * Pow128(|bs| - 1)); }
        Payload(bs[0]) + 128 * rest + p * Pow128(|bs|);
      }
    }
  }

  /** The value of `k` VLQ bytes is below 128^k. */
  lemma {:induction false} ValueBound(bs: seq<byte>)
    ensures Value(bs) < Pow128(|bs|)
  {
    if |bs| > 0 {
      ValueBound(bs[1..]);
      assert Value(bs[1..]) + 1 <= Pow128(|bs| - 1);
      assert 128 * (Value(bs[1..]) + 1) <= 128 * Pow128(|bs| - 1);
    }
  }

  /** Two complete VLQs starting at the same byte are the same run: a VLQ ends at
      the first byte without the continuation bit. */
  lemma {:induction false} RunsAgree(data: seq<byte>, pos: nat, e1: nat, e2: nat)
    requires pos < e1 <= |data| && pos < e2 <= |data|
    requires IsVlq(data[pos..e1]) && IsVlq(data[pos..e2])
    ensures e1 == e2
    decreases e1 - pos
  {
    assert data[pos..e1][0] == data[pos] == data[pos..e2][0];
    if Continues(data[pos]) {
      assert data[pos..e1][1..] == data[pos + 1..e1];
      assert data[pos..e2][1..] == data[pos + 1..e2];
      RunsAgree(data, pos + 1, e1, e2);
    }
  }

  /** Any complete VLQ in the blob is read as itself: decoded to its value, with
      the cursor just past its last byte. */
  lemma ReadsWholeRun(data: seq<byte>, pos: nat, end: nat)
    requires pos < end <= |data| && IsVlq(data[pos..end])
    ensures ReadVlq(data, pos) == Ok((Value(data[pos..end]), end))
  {
    TerminatedBefore(data, pos, end);
    var e := ReadVlq(data, pos).value.1;
    RunsAgree(data, pos, e, end);
  }

  /** A complete VLQ in the blob is a terminal byte before its end. */
  lemma {:induction false} TerminatedBefore(data: seq<byte>, pos: nat, end: nat)
    requires pos < end <= |data| && IsVlq(data[pos..end])
    ensures !Unterminated(data, pos)
    decreases end - pos
  {
    assert data[pos..end][0] == data[pos];
    if Continues(data[pos]) {
      assert data[pos..end][1..] == data[pos + 1..end];
      TerminatedBefore(data, pos + 1, end);
    }
  }

  /** LEB128 encoding: the shortest VLQ standing for `n`. */
  function Encode(n: nat): (bs: seq<byte>)
    ensures IsVlq(bs) && Value(bs) == n
    ensures n < 128 <==> |bs| == 1
  {
    if n < 128 then [n]
    else
      var bs := [n % 128 + 128] + Encode(n / 128);
      assert bs[1..] == Encode(n / 128);
      bs
  }

  /** Round trip: decoding the encoding of any `n` yields `n` and consumes
      exactly the encoding, whatever follows it. */
  lemma DecodeEncode(data: seq<byte>, pos: nat, n: nat)
    requires Holds(data, pos, Encode(n))
    ensures ReadVlq(data, pos) == Ok((n, pos + |Encode(n)|))
  {
    ReadsWholeRun(data, pos, pos + |Encode(n)|);
  }

  /** A lone byte below 0x80 decodes to itself. */
  lemma SingleByte(data: seq<byte>, pos: nat)
    requires pos < |data| && !Continues(data[pos])
    ensures ReadVlq(data, pos) == Ok((data[pos], pos + 1))
  {
    assert data[pos..pos + 1] == [data[pos]];
    ReadsWholeRun(data, pos, pos + 1);
  }
}
