/** The user-data header of a replay: a signature check, then a table of build
    information at a fixed offset, turned into a version string and a game
    length in seconds. */
module Header {
  import opened Cursor
  import opened Numerals
  import opened Table
  import Text

  /** The text a replay's user-data header contains. */
  const Signature: seq<byte> :=
    [83, 116, 97, 114, 67, 114, 97, 102, 116, 32, 73, 73, 32, 114, 101, 112, 108, 97, 121]

  const SignatureText: string := "StarCraft II replay"

  /** The signature bytes are the character codes of its text, which is
      plain ASCII and so is its own UTF-8 encoding. */
  lemma SignatureIsText()
    ensures Text.IsAscii(SignatureText)
    ensures |Signature| == |SignatureText|
    ensures forall i | 0 <= i < |Signature| :: Signature[i] == SignatureText[i] as int
    ensures Text.Utf8(SignatureText) == Signature
  {
    assert Text.IsAscii(SignatureText);
    Text.AsciiBytes(SignatureText, Signature);
  }

  /** Where the header table starts; everything before it is skipped. */
  const TableOffset: nat := 30

  /** The header table's fields, in stored order. */
  const HeaderFields: seq<string> := [
    "release_flag", "major_version", "minor_version", "maintenance_version",
    "build_number", Placeholder, Placeholder, "duration"
  ]

  /** Game loops per second: the stored duration counts sixteenths of a second. */
  const LoopsPerSecond: nat := 16

  datatype Header = Header(
    releaseFlag: nat,
    major: nat,
    minor: nat,
    maintenance: nat,
    build: nat,
    duration: nat,   // whole seconds
    version: string)

  /** `"%s.%s.%s.%s"` of the four version numbers, with `" (dev)"` appended
      for a development build (release flag 0). */
  function VersionString(major: nat, minor: nat, maintenance: nat, build: nat, releaseFlag: nat): string {
    Decimal(major) + "." + Decimal(minor) + "." + Decimal(maintenance) + "." + Decimal(build)
      + (if releaseFlag == 0 then " (dev)" else "")
  }

  /** The header table holds each named field's value; the two placeholders
      are dropped. */
  lemma HeaderTable(hs: seq<nat>)
    requires |hs| == |HeaderFields|
    ensures var t := Assemble(HeaderFields, hs);
      && "release_flag" in t && t["release_flag"] == hs[0]
      && "major_version" in t && t["major_version"] == hs[1]
      && "minor_version" in t && t["minor_version"] == hs[2]
      && "maintenance_version" in t && t["maintenance_version"] == hs[3]
      && "build_number" in t && t["build_number"] == hs[4]
      && "duration" in t && t["duration"] == hs[7]
  {
    assert "major_version"[1] != "minor_version"[1];
    assert "release_flag"[0] != "build_number"[0];
    LaterValueWins(HeaderFields, hs, 0);
    LaterValueWins(HeaderFields, hs, 1);
    LaterValueWins(HeaderFields, hs, 2);
    LaterValueWins(HeaderFields, hs, 3);
    LaterValueWins(HeaderFields, hs, 4);
    LaterValueWins(HeaderFields, hs, 7);
  }

  /** `_parse_header`: fails with `NotAReplay` unless the blob contains the
      signature; otherwise reads the header table at offset 30. Each value is
      the stored number halved, the duration further divided into seconds. */
  function ParseHeader(udh: seq<byte>): (r: Result<Header>)
    ensures r == Err(NotAReplay) <==> !Text.Contains(udh, Signature)
    ensures Text.Contains(udh, Signature) ==>
      (r.Ok? <==> ReadEntries(udh, TableOffset, |HeaderFields|).Ok?)
    ensures r.Ok? ==>
      var values := Halves(ReadEntries(udh, TableOffset, |HeaderFields|).value.0);
      && r.value.releaseFlag == values[0]
      && r.value.major == values[1]
      && r.value.minor == values[2]
      && r.value.maintenance == values[3]
      && r.value.build == values[4]
      && r.value.duration == values[7] / LoopsPerSecond
    ensures r.Ok? ==> r.value.version == VersionString(
      r.value.major, r.value.minor, r.value.maintenance, r.value.build, r.value.releaseFlag)
  {
    if !Text.Contains(udh, Signature) then Err(NotAReplay)
    else
      var table :- ReadTable(udh, TableOffset, HeaderFields);
      var t := table.0;
      HeaderTable(Halves(ReadEntries(udh, TableOffset, |HeaderFields|).value.0));
      var flag, major, minor, maintenance, build :=
        t["release_flag"], t["major_version"], t["minor_version"], t["maintenance_version"], t["build_number"];
      Ok(Header(flag, major, minor, maintenance, build, t["duration"] / LoopsPerSecond,
                VersionString(major, minor, maintenance, build, flag)))
  }

  /** With the signature present, a header whose table cannot be read fails
      with end-of-input: the table read stops at `ord` of an empty read inside
      `vlq2int`, also when the blob ends before offset 30. */
  lemma ShortTableEndOfInput(udh: seq<byte>)
    requires Text.Contains(udh, Signature)
    requires ReadEntries(udh, TableOffset, |HeaderFields|).Err?
    ensures ParseHeader(udh) == Err(EndOfInput)
  {
  }

  /** The only errors of `_parse_header`: not-a-replay without the signature,
      end-of-input with it. */
  lemma HeaderErrors(udh: seq<byte>)
    requires ParseHeader(udh).Err?
    ensures ParseHeader(udh).error == (if Text.Contains(udh, Signature) then EndOfInput else NotAReplay)
  {
    if Text.Contains(udh, Signature) {
      ShortTableEndOfInput(udh);
    }
  }

  /** Reads a `.` followed by a decimal number. */
  function ReadDotted(s: string): Option<(nat, string)> {
    if |s| == 0 || s[0] != '.' then None else ReadNumber(s[1..])
  }

  /** Reads a version string back: the four numbers, and whether it carries
      the development suffix. */
  function ReadVersion(s: string): Option<(nat, nat, nat, nat, bool)> {
    var a :- ReadNumber(s);
    var b :- ReadDotted(a.1);
    var c :- ReadDotted(b.1);
    var d :- ReadDotted(c.1);
    if d.1 == "" then Some((a.0, b.0, c.0, d.0, false))
    else if d.1 == " (dev)" then Some((a.0, b.0, c.0, d.0, true))
    else None
  }

  /** A dot, the decimal rendering of `n`, then text not starting with a digit,
      reads back as `n` and that text. */
  lemma ReadDottedDecimal(n: nat, rest: string)
    requires rest == [] || !IsDigit(rest[0], Ten)
    ensures ReadDotted("." + Decimal(n) + rest) == Some((n, rest))
  {
    assert ("." + Decimal(n) + rest)[1..] == Decimal(n) + rest;
    ReadDecimal(n, rest);
  }

  /** Round trip: the version string gives back its four numbers, and the
      development suffix is present exactly when the release flag is 0. */
  lemma VersionRoundTrip(major: nat, minor: nat, maintenance: nat, build: nat, releaseFlag: nat)
    ensures ReadVersion(VersionString(major, minor, maintenance, build, releaseFlag))
         == Some((major, minor, maintenance, build, releaseFlag == 0))
  {
    var suffix := if releaseFlag == 0 then " (dev)" else "";
    var r3 := "." + Decimal(build) + suffix;
    var r2 := "." + Decimal(maintenance) + r3;
    var r1 := "." + Decimal(minor) + r2;
    assert VersionString(major, minor, maintenance, build, releaseFlag) == Decimal(major) + r1;
    ReadDecimal(major, r1);
    ReadDottedDecimal(minor, r2);
    ReadDottedDecimal(maintenance, r3);
    ReadDottedDecimal(build, suffix);
  }

  /** The version the reference replay carries, as a release and as a
      development build. */
  lemma VersionExample()
    ensures VersionString(1, 0, 2, 16223, 1) == "1.0.2.16223"
    ensures VersionString(1, 0, 2, 16223, 0) == "1.0.2.16223 (dev)"
  {
    assert Decimal(16223) == "16223" by {
      assert Decimal(1622) == "1622" by {
        assert Decimal(162) == "162" by {
          assert Decimal(16) == "16";
        }
      }
    }
  }

  /** A blob holding the signature somewhere in its first 30 bytes, then the
      header table, parses to the header the table's values describe. */
  lemma ParseEncodedHeader(prefix: seq<byte>, marker: seq<byte>, values: seq<nat>, rest: seq<byte>)
    requires |prefix| == TableOffset && Text.Contains(prefix, Signature)
    requires |marker| == 2 && |values| == |HeaderFields|
    ensures ParseHeader(prefix + EncodeEntries(marker, Doubled(values)) + rest)
         == Ok(Header(values[0], values[1], values[2], values[3], values[4], values[7] / LoopsPerSecond,
                      VersionString(values[1], values[2], values[3], values[4], values[0])))
  {
    var enc := EncodeEntries(marker, Doubled(values));
    var data := prefix + enc + rest;
    Text.ContainsAppend(prefix, enc, Signature);
    Text.ContainsAppend(prefix + enc, rest, Signature);
    assert data[TableOffset..TableOffset + |enc|] == enc;
    ReadEncodedEntries(data, TableOffset, marker, Doubled(values));
  }
}
