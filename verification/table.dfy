/** The tagged table of the replay format: for each declared field name in
    order, a two-byte marker (skipped, never checked) and one VLQ holding twice
    the field's value. Fields named `unknown` are decoded, so that the cursor
    stays aligned, and then dropped. */
module Table {
  import opened Cursor
  import Vlq

  /** The field name whose values are decoded but not kept. */
  const Placeholder := "unknown"

  /** One entry: `data.read(2)` over the marker pair, then `vlq2int(data)`.
      On success the cursor has moved by exactly two plus the length of the VLQ
      that follows the marker. */
  function ReadField(data: seq<byte>, pos: nat): (r: Result<(nat, nat)>)
    ensures r.Ok? ==>
      && pos + 2 < r.value.1 <= |data|
      && Vlq.IsVlq(data[pos + 2..r.value.1])
      && r.value.0 == Vlq.Value(data[pos + 2..r.value.1])
    ensures r == Vlq.ReadVlq(data, pos + 2)
  {
    var marker := Read(data, pos, 2);
    Vlq.ReadVlq(data, marker.1)
  }

  /** The names a table read keeps: every declared name except the placeholder. */
  function KeptNames(fields: seq<string>): set<string> {
    set k | k in fields && k != Placeholder
  }

  /** Index of the last occurrence of `k` among the field names. */
  function LastIndex(fields: seq<string>, k: string): (i: nat)
    requires k in fields
    ensures i < |fields| && fields[i] == k
    ensures forall j | i < j < |fields| :: fields[j] != k
  {
    if fields[|fields| - 1] == k then |fields| - 1 else LastIndex(fields[..|fields| - 1], k)
  }

  /** Reference meaning of a table: each kept name bound to the value of its
      last occurrence, the placeholder absent. */
  function Assemble(fields: seq<string>, values: seq<nat>): map<string, nat>
    requires |values| == |fields|
  {
    map k | k in KeptNames(fields) :: values[LastIndex(fields, k)]
  }

  /** Stored values are doubled: Python 2's `/ 2` on a non-negative int floors. */
  function Halves(raws: seq<nat>): (h: seq<nat>)
    ensures |h| == |raws|
    ensures forall i | 0 <= i < |raws| :: 2 * h[i] <= raws[i] < 2 * h[i] + 2
  {
    seq(|raws|, i requires 0 <= i < |raws| => raws[i] / 2)
  }

  lemma HalvesCons(raw: nat, raws: seq<nat>)
    ensures Halves([raw] + raws) == [raw / 2] + Halves(raws)
  {
  }

  /** The cursor walk alone: the raw (doubled) values of `n` consecutive entries. */
  function ReadEntries(data: seq<byte>, pos: nat, n: nat): (r: Result<(seq<nat>, nat)>)
    ensures r.Ok? ==> |r.value.0| == n && pos + 3 * n <= r.value.1
    ensures r.Ok? && n > 0 ==> r.value.1 <= |data|
    ensures r.Err? ==> r.error == EndOfInput
    decreases n
  {
    if n == 0 then Ok(([], pos))
    else
      var first :- ReadField(data, pos);
      var rest :- ReadEntries(data, first.1, n - 1);
      Ok(([first.0] + rest.0, rest.1))
  }

  /** `read_table`: the table of `fields` read from `pos`, and the cursor after it.
      It succeeds exactly when the entry walk does, ends where the walk ends, and
      holds the halved values under the reference meaning; its keys are exactly
      the kept names. */
  function ReadTable(data: seq<byte>, pos: nat, fields: seq<string>): (r: Result<(map<string, nat>, nat)>)
    ensures r.Ok? <==> ReadEntries(data, pos, |fields|).Ok?
    ensures r.Ok? ==>
      var walk := ReadEntries(data, pos, |fields|).value;
      r.value == (Assemble(fields, Halves(walk.0)), walk.1)
    ensures r.Ok? ==> r.value.0.Keys == KeptNames(fields)
    ensures r.Err? ==> r.error == EndOfInput
  {
    assert fields[..0] == [];
    assert Assemble([], []) == map[];
    LoopAgrees(data, pos, fields, 0, []);
    assert forall hs: seq<nat> :: [] + hs == hs;
    FieldLoop(data, pos, fields, 0, map[])
  }

  /** One `read_field` update of the dictionary: `table[field_name] = value`,
      then `del table[field_name]` when it is the placeholder. */
  function Store(table: map<string, nat>, name: string, value: nat): map<string, nat> {
    var stored := table[name := value];
    if name == Placeholder then stored - {Placeholder} else stored
  }

  /** The `for field in fields: read_field(field)` loop of `read_table`, with
      the dictionary under construction as `table`. */
  function FieldLoop(data: seq<byte>, pos: nat, fields: seq<string>, i: nat, table: map<string, nat>)
    : Result<(map<string, nat>, nat)>
    requires i <= |fields|
    decreases |fields| - i
  {
    if i == |fields| then Ok((table, pos))
    else
      var field :- ReadField(data, pos);
      FieldLoop(data, field.1, fields, i + 1, Store(table, fields[i], field.0 / 2))
  }

  /** One dictionary step of the loop agrees with the reference meaning of the
      longer field list. */
  lemma AssembleAppend(fields: seq<string>, values: seq<nat>, f: string, v: nat)
    requires |values| == |fields|
    ensures Assemble(fields + [f], values + [v]) == Store(Assemble(fields, values), f, v)
  {
    var fs, vs := fields + [f], values + [v];
    var expected := Store(Assemble(fields, values), f, v);
    assert KeptNames(fs) == expected.Keys;
    forall k | k in KeptNames(fs)
      ensures Assemble(fs, vs)[k] == expected[k]
    {
      if k != f {
        assert k in fields;
        assert fs[..|fs| - 1] == fields;
        assert LastIndex(fs, k) == LastIndex(fields, k);
      }
    }
  }

  /** The same step, phrased on prefixes of one field list. */
  lemma AssemblePrefix(fields: seq<string>, i: nat, h: seq<nat>, v: nat)
    requires i < |fields| && |h| == i
    ensures Assemble(fields[..i + 1], h + [v]) == Store(Assemble(fields[..i], h), fields[i], v)
  {
    assert fields[..i + 1] == fields[..i] + [fields[i]];
    AssembleAppend(fields[..i], h, fields[i], v);
  }

  /** The loop's outcome as predicted from the entry walk, when the halved values
      `h` of the fields before the walk are already known. */
  function Expected(fields: seq<string>, h: seq<nat>, walk: Result<(seq<nat>, nat)>)
    : Result<(map<string, nat>, nat)>
    requires walk.Ok? ==> |h| + |walk.value.0| == |fields|
  {
    match walk
    case Err(e) => Err(e)
    case Ok(w) => Ok((Assemble(fields, h + Halves(w.0)), w.1))
  }

  /** Predicting from one more known value and a walk one entry shorter is the
      same prediction. */
  lemma ExpectedStep(data: seq<byte>, pos: nat, fields: seq<string>, h: seq<nat>, raw: nat, p: nat)
    requires |h| < |fields| && ReadField(data, pos) == Ok((raw, p))
    ensures Expected(fields, h + [raw / 2], ReadEntries(data, p, |fields| - |h| - 1))
         == Expected(fields, h, ReadEntries(data, pos, |fields| - |h|))
  {
    var rest := ReadEntries(data, p, |fields| - |h| - 1);
    if rest.Ok? {
      EntriesStep(data, pos, |fields| - |h| - 1, raw, p, rest.value.0, rest.value.1);
      HalvesCons(raw, rest.value.0);
      assert h + [raw / 2] + Halves(rest.value.0) == h + ([raw / 2] + Halves(rest.value.0));
    }
  }

  /** The loop, started on the reference table of the first `i` fields, ends on
      the reference table of all of them, exactly when the entry walk succeeds. */
  lemma {:induction false} LoopAgrees(data: seq<byte>, pos: nat, fields: seq<string>, i: nat, h: seq<nat>)
    requires i <= |fields| && |h| == i
    ensures FieldLoop(data, pos, fields, i, Assemble(fields[..i], h))
         == Expected(fields, h, ReadEntries(data, pos, |fields| - i))
    decreases |fields| - i
  {
    if i == |fields| {
      assert fields[..i] == fields;
      assert h + Halves([]) == h;
    } else {
      var f := ReadField(data, pos);
      if f.Ok? {
        var v := f.value.0 / 2;
        AssemblePrefix(fields, i, h, v);
        LoopAgrees(data, f.value.1, fields, i + 1, h + [v]);
        ExpectedStep(data, pos, fields, h, f.value.0, f.value.1);
      }
    }
  }

  /** Ignoring the names, two tables of the same width move the cursor alike:
      renaming a field, to the placeholder or from it, never shifts the cursor. */
  lemma CursorIgnoresNames(data: seq<byte>, pos: nat, fields: seq<string>, others: seq<string>)
    requires |fields| == |others|
    ensures ReadTable(data, pos, fields).Ok? <==> ReadTable(data, pos, others).Ok?
    ensures ReadTable(data, pos, fields).Ok? ==>
      ReadTable(data, pos, fields).value.1 == ReadTable(data, pos, others).value.1
  {
  }

  /** Later entries override earlier ones of the same name. */
  lemma LaterValueWins(fields: seq<string>, values: seq<nat>, i: nat)
    requires |values| == |fields| && i < |fields| && fields[i] != Placeholder
    requires forall j | i < j < |fields| :: fields[j] != fields[i]
    ensures fields[i] in Assemble(fields, values)
    ensures Assemble(fields, values)[fields[i]] == values[i]
  {
    var k := LastIndex(fields, fields[i]);
  }

  /** Writer side of a table: each raw value behind a two-byte marker. */
  function EncodeEntries(marker: seq<byte>, raws: seq<nat>): (bs: seq<byte>)
    requires |marker| == 2
  {
    if |raws| == 0 then [] else marker + Vlq.Encode(raws[0]) + EncodeEntries(marker, raws[1..])
  }

  /** Values as the format stores them. */
  function Doubled(values: seq<nat>): (raws: seq<nat>)
    ensures |raws| == |values| && Halves(raws) == values
  {
    seq(|values|, i requires 0 <= i < |values| => 2 * values[i])
  }

  /** `data` holds, from `pos` to `end`, one encoded entry per raw value. */
  predicate HoldsEntries(data: seq<byte>, pos: nat, marker: seq<byte>, raws: seq<nat>, end: nat)
    decreases |raws|
  {
    if |raws| == 0 then end == pos
    else
      var entry := marker + Vlq.Encode(raws[0]);
      Holds(data, pos, entry) && HoldsEntries(data, pos + |entry|, marker, raws[1..], end)
  }

  /** A blob holding an encoded table holds its entries one after another. */
  lemma {:induction false} EntriesOfEncoding(data: seq<byte>, pos: nat, marker: seq<byte>, raws: seq<nat>)
    requires |marker| == 2 && Holds(data, pos, EncodeEntries(marker, raws))
    ensures HoldsEntries(data, pos, marker, raws, pos + |EncodeEntries(marker, raws)|)
    decreases |raws|
  {
    if |raws| > 0 {
      var entry := marker + Vlq.Encode(raws[0]);
      Split(data, pos, entry, EncodeEntries(marker, raws[1..]));
      EntriesOfEncoding(data, pos + |entry|, marker, raws[1..]);
    }
  }

  /** Walking encoded entries returns the raw values and stops right after them. */
  lemma {:induction false} ReadHeldEntries(data: seq<byte>, pos: nat, marker: seq<byte>, raws: seq<nat>, end: nat)
    requires |marker| == 2 && HoldsEntries(data, pos, marker, raws, end)
    ensures ReadEntries(data, pos, |raws|) == Ok((raws, end))
    decreases |raws|
  {
    if |raws| > 0 {
      var p1 := pos + 2 + |Vlq.Encode(raws[0])|;
      ReadEncodedField(data, pos, marker, raws[0]);
      ReadHeldEntries(data, p1, marker, raws[1..], end);
      EntriesStep(data, pos, |raws| - 1, raws[0], p1, raws[1..], end);
      assert [raws[0]] + raws[1..] == raws;
    }
  }

  /** One encoded entry reads back as its raw value. */
  lemma ReadEncodedField(data: seq<byte>, pos: nat, marker: seq<byte>, raw: nat)
    requires |marker| == 2 && Holds(data, pos, marker + Vlq.Encode(raw))
    ensures ReadField(data, pos) == Ok((raw, pos + 2 + |Vlq.Encode(raw)|))
  {
    Split(data, pos, marker, Vlq.Encode(raw));
    Vlq.DecodeEncode(data, pos + 2, raw);
  }

  /** The entry walk is one field followed by the walk of the rest. */
  lemma EntriesStep(data: seq<byte>, pos: nat, n: nat, v: nat, p: nat, vs: seq<nat>, e: nat)
    requires ReadField(data, pos) == Ok((v, p))
    requires ReadEntries(data, p, n) == Ok((vs, e))
    ensures ReadEntries(data, pos, n + 1) == Ok(([v] + vs, e))
  {
  }

  /** Round trip of the walk: reading encoded entries returns the raw values and
      stops right after the encoding. */
  lemma ReadEncodedEntries(data: seq<byte>, pos: nat, marker: seq<byte>, raws: seq<nat>)
    requires |marker| == 2 && Holds(data, pos, EncodeEntries(marker, raws))
    ensures ReadEntries(data, pos, |raws|) == Ok((raws, pos + |EncodeEntries(marker, raws)|))
  {
    EntriesOfEncoding(data, pos, marker, raws);
    ReadHeldEntries(data, pos, marker, raws, pos + |EncodeEntries(marker, raws)|);
  }

  /** A table read is the entry walk, named: whatever the walk finds, the
      table holds the halves under the reference meaning. */
  lemma TableOfEntries(data: seq<byte>, pos: nat, fields: seq<string>, raws: seq<nat>, end: nat)
    requires |raws| == |fields| && ReadEntries(data, pos, |fields|) == Ok((raws, end))
    ensures ReadTable(data, pos, fields) == Ok((Assemble(fields, Halves(raws)), end))
  {
  }

  /** Round trip of a whole table: reading the encoding of raw `raws` gives
      the reference table of their halves and consumes exactly the encoding. */
  lemma ReadEncodedTable(data: seq<byte>, pos: nat, marker: seq<byte>, fields: seq<string>, raws: seq<nat>)
    requires |marker| == 2 && |raws| == |fields|
    requires Holds(data, pos, EncodeEntries(marker, raws))
    ensures ReadTable(data, pos, fields)
      == Ok((Assemble(fields, Halves(raws)), pos + |EncodeEntries(marker, raws)|))
  {
    ReadEncodedEntries(data, pos, marker, raws);
  }
}
