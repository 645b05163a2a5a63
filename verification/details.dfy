/** The `replay.details` blob: a fixed-layout walk over the player records and
    the map name. The skipped byte runs are read with the truncating `read(n)`;
    every length and count is a byte read with `ord(read(1))`, halved. */
module Details {
  import opened Cursor
  import opened Table
  import opened Players
  import Lookups
  import Text

  /** The color table of a player record, in stored order. */
  const ColorFields: seq<string> := [
    "alpha", "r", "g", "b", Placeholder, Placeholder, Placeholder, Placeholder, "team"
  ]

  /** The table that follows each player's name; all its values are dropped. */
  const ExtraFields: seq<string> := [Placeholder, Placeholder]

  /** Where the player count sits: after six preamble bytes. */
  const CountOffset: nat := 6

  datatype Details = Details(players: seq<Player>, mapName: string)

  /** `read(ord(read(1)) // 2)`: a byte giving twice the length, then up to
      that many bytes (fewer when the blob ends first). */
  function ReadPrefixed(data: seq<byte>, pos: nat): (r: Result<(seq<byte>, nat)>)
    ensures r.Ok? <==> pos < |data|
    ensures r.Err? ==> r.error == EndOfInput
    ensures r.Ok? ==>
      var (bs, end) := r.value;
      && pos + 1 <= end <= |data| && bs == data[pos + 1..end] && |bs| <= data[pos] / 2
      && (pos + 1 + data[pos] / 2 <= |data| <==> |bs| == data[pos] / 2)
      && (|bs| < data[pos] / 2 ==> end == |data|)
  {
    var len :- ReadByte(data, pos);
    Ok(Read(data, len.1, len.0 / 2))
  }

  /** The team and color table of a player record, its names checked. */
  lemma ColorTable(hs: seq<nat>)
    requires |hs| == |ColorFields|
    ensures var t := Assemble(ColorFields, hs);
      && "r" in t && t["r"] == hs[1]
      && "g" in t && t["g"] == hs[2]
      && "b" in t && t["b"] == hs[3]
      && "team" in t && t["team"] == hs[8]
  {
    LaterValueWins(ColorFields, hs, 1);
    LaterValueWins(ColorFields, hs, 2);
    LaterValueWins(ColorFields, hs, 3);
    LaterValueWins(ColorFields, hs, 8);
  }

  /** The part of a player record after the name: twelve skipped bytes (read
      as runs of five, four and three), a table of unknowns, two skipped bytes
      and the race. */
  function ReadRace(data: seq<byte>, pos: nat): (r: Result<(seq<byte>, nat)>)
    ensures r.Err? ==> r.error == EndOfInput
    ensures r.Ok? ==>
      var (race, end) := r.value;
      && pos < end <= |data| && |race| + 1 <= end
      && race == data[end - |race|..end] && |race| <= data[end - |race| - 1] / 2
      && (|race| < data[end - |race| - 1] / 2 ==> end == |data|)
  {
    var skipped := Read(data, Read(data, Read(data, pos, 5).1, 4).1, 3).1;
    TableNeedsBytes(data, skipped, ExtraFields);
    var extra :- ReadTable(data, skipped, ExtraFields);
    ReadPrefixed(data, Read(data, extra.1, 2).1)
  }

  /** Where the race sits: after twelve bytes, the two entries of the table
      of unknowns and two more bytes. The race read fails when the table
      does. */
  lemma RaceLayout(data: seq<byte>, pos: nat)
    ensures var walk := ReadEntries(data, Read(data, pos, 12).1, |ExtraFields|);
      && (walk.Err? ==> ReadRace(data, pos).Err?)
      && (walk.Ok? ==> ReadRace(data, pos) == ReadPrefixed(data, Read(data, walk.value.1, 2).1))
  {
    ReadTwice(data, pos, 5, 4);
    ReadTwice(data, pos, 9, 3);
  }

  /** First half of `read_player_struct`: four skipped bytes, the name, then
      the rest up to the race. */
  function ReadNameAndRace(data: seq<byte>, pos: nat): (r: Result<(seq<byte>, seq<byte>, nat)>)
    ensures r.Err? ==> r.error == EndOfInput
    ensures r.Ok? ==> pos < r.value.2 <= |data|
    ensures r.Ok? ==>
      var (name, race, end) := r.value;
      && pos + 5 + |name| <= |data| && |name| == data[pos + 4] / 2 && name == data[pos + 5..pos + 5 + |name|]
      && |race| + 1 <= end && race == data[end - |race|..end] && |race| <= data[end - |race| - 1] / 2
      && (|race| < data[end - |race| - 1] / 2 ==> end == |data|)
  {
    var name :- ReadPrefixed(data, Read(data, pos, 4).1);
    var race :- ReadRace(data, name.1);
    Ok((name.0, race.0, race.1))
  }

  /** Where the name and race sit: the name's length byte follows four
      skipped bytes, and the race part starts right after the whole name. */
  lemma NameRaceLayout(data: seq<byte>, pos: nat, name: seq<byte>, race: seq<byte>, end: nat)
    requires ReadNameAndRace(data, pos) == Ok((name, race, end))
    ensures pos + 4 < |data| && ReadPrefixed(data, pos + 4) == Ok((name, pos + 5 + |name|))
    ensures ReadRace(data, pos + 5 + |name|) == Ok((race, end))
  {
    Skips(data, pos, 4);
  }

  /** A blob that ends within the first five bytes of a record has no name
      length to read. */
  lemma NoRoomForName(data: seq<byte>, pos: nat)
    requires pos + 4 >= |data|
    ensures ReadNameAndRace(data, pos) == Err(EndOfInput)
  {
  }

  /** Second half of `read_player_struct`: three skipped bytes and the color
      table, giving the team and the color name of the RGB components. */
  function ReadTeamAndColor(data: seq<byte>, pos: nat): (r: Result<(nat, string, nat)>)
    ensures r.Err? ==> r.error == EndOfInput
    ensures r.Ok? ==> pos < r.value.2 <= |data|
    ensures r.Ok? ==>
      var walk := ReadEntries(data, Read(data, pos, 3).1, |ColorFields|);
      && walk.Ok?
      && var values := Halves(walk.value.0);
      && r.value.0 == values[8]
      && r.value.1 == Lookups.ColorName(values[1], values[2], values[3])
  {
    var table :- ReadTable(data, Read(data, pos, 3).1, ColorFields);
    ColorTable(Halves(ReadEntries(data, Read(data, pos, 3).1, |ColorFields|).value.0));
    var v := table.0;
    Ok((v["team"], Lookups.ColorName(v["r"], v["g"], v["b"]), table.1))
  }

  /** A table read needs bytes: one starting at or past the end fails. */
  lemma TableNeedsBytes(data: seq<byte>, pos: nat, fields: seq<string>)
    ensures pos >= |data| && |fields| > 0 ==> ReadTable(data, pos, fields).Err?
  {
  }

  /** `read_player_struct`: one player record. */
  function ReadPlayer(data: seq<byte>, pos: nat): (r: Result<(Player, nat)>)
    ensures r.Err? ==> r.error == EndOfInput
    ensures r.Ok? ==> pos < r.value.1 <= |data|
    ensures r.Ok? ==>
      var ident := ReadNameAndRace(data, pos);
      && ident.Ok?
      && var (name, race, raceEnd) := ident.value;
      && r.value.0.name == name && r.value.0.race == race
      && |name| == data[pos + 4] / 2 && name == data[pos + 5..pos + 5 + |name|]
      && |race| == data[raceEnd - |race| - 1] / 2 && race == data[raceEnd - |race|..raceEnd]
  {
    var ident :- ReadNameAndRace(data, pos);
    TableNeedsBytes(data, Read(data, ident.2, 3).1, ColorFields);
    var look :- ReadTeamAndColor(data, ident.2);
    Ok((Player(ident.0, ident.1, look.0, look.1), look.2))
  }

  /** The team and color of a parsed player are those of the color table
      that follows its race, and the record ends where that table ends. */
  lemma PlayerTeamAndColor(data: seq<byte>, pos: nat)
    ensures var r := ReadPlayer(data, pos);
      r.Ok? ==>
        var raceEnd := ReadNameAndRace(data, pos).value.2;
        ReadTeamAndColor(data, raceEnd) == Ok((r.value.0.team, r.value.0.color, r.value.1))
  {
  }

  /** `n` player records one after another. */
  function ReadPlayers(data: seq<byte>, pos: nat, n: nat): (r: Result<(seq<Player>, nat)>)
    ensures r.Err? ==> r.error == EndOfInput
    ensures r.Ok? ==> |r.value.0| == n && pos <= r.value.1 && (n > 0 ==> r.value.1 <= |data|)
    decreases n
  {
    if n == 0 then Ok(([], pos))
    else
      var first :- ReadPlayer(data, pos);
      var rest :- ReadPlayers(data, first.1, n - 1);
      Ok(([first.0] + rest.0, rest.1))
  }

  /** The map name: UTF-8 decoded, failing with `BadText` when the bytes are
      not UTF-8, then given its English name when it is a Korean one. */
  function MapName(raw: seq<byte>): (r: Result<string>)
    ensures r.Ok? <==> Text.Decode(raw).Some?
    ensures r.Err? ==> r.error == BadText
    ensures r.Ok? ==> r.value == Lookups.LocalisedMapName(Text.Decode(raw).value)
  {
    match Text.Decode(raw)
    case None => Err(BadText)
    case Some(name) => Ok(Lookups.LocalisedMapName(name))
  }

  /** The tail of the blob after the players: two skipped bytes, then the
      length-prefixed map name, decoded and translated. */
  function ReadMapName(data: seq<byte>, pos: nat): (r: Result<string>)
    ensures pos + 2 >= |data| ==> r == Err(EndOfInput)
    ensures pos + 2 < |data| ==> r == MapName(ReadPrefixed(data, pos + 2).value.0)
  {
    var raw :- ReadPrefixed(data, Read(data, pos, 2).1);
    MapName(raw.0)
  }

  /** `_parse_details`: six skipped bytes, the player count, the players, two
      skipped bytes, then the map name. The players come back ordered by team,
      stably. */
  function ParseDetails(data: seq<byte>): (r: Result<Details>)
    ensures |data| <= CountOffset ==> r == Err(EndOfInput)
    ensures r.Err? ==> r.error == EndOfInput || r.error == BadText
    ensures r.Ok? ==>
      var decoded := ReadPlayers(data, CountOffset + 1, data[CountOffset] / 2);
      && decoded.Ok?
      && |r.value.players| == data[CountOffset] / 2
      && r.value.players == SortByTeam(decoded.value.0)
      && ReadMapName(data, decoded.value.1) == Ok(r.value.mapName)
  {
    var count :- ReadByte(data, Read(data, 0, 6).1);
    var players :- ReadPlayers(data, count.1, count.0 / 2);
    var name :- ReadMapName(data, players.1);
    Ok(Details(SortByTeam(players.0), name))
  }

  /** A short player record fails the whole blob with end-of-input: every read
      in a record that can fail is a length byte or a VLQ. */
  lemma ShortPlayersEndOfInput(data: seq<byte>)
    requires |data| > CountOffset
    requires ReadPlayers(data, CountOffset + 1, data[CountOffset] / 2).Err?
    ensures ParseDetails(data) == Err(EndOfInput)
  {
  }

  /** Where a failure of `ParseDetails` comes from: the players or the map name;
      when both read, the blob parses. */
  lemma DetailsFailure(data: seq<byte>)
    requires |data| > CountOffset
    ensures var decoded := ReadPlayers(data, CountOffset + 1, data[CountOffset] / 2);
      && (decoded.Err? ==> ParseDetails(data) == Err(EndOfInput))
      && (decoded.Ok? && ReadMapName(data, decoded.value.1).Err? ==>
            ParseDetails(data) == Err(ReadMapName(data, decoded.value.1).error))
      && (decoded.Ok? && ReadMapName(data, decoded.value.1).Ok? ==> ParseDetails(data).Ok?)
  {
    var decoded := ReadPlayers(data, CountOffset + 1, data[CountOffset] / 2);
    if decoded.Err? {
      ShortPlayersEndOfInput(data);
    } else {
      Skips(data, 0, 6);
    }
  }

  /** The text error comes from decoding the map name after the players, and
      only from there. */
  lemma BadTextIsMapName(data: seq<byte>)
    requires |data| > CountOffset
    ensures var decoded := ReadPlayers(data, CountOffset + 1, data[CountOffset] / 2);
      ParseDetails(data) == Err(BadText) <==>
      decoded.Ok? && ReadMapName(data, decoded.value.1) == Err(BadText)
  {
    DetailsFailure(data);
  }

  // ----- writer side, for the round trip -----

  /** A player record as the writer sees it: the name and race bytes, the two
      stored numbers of the table after the name, and the nine stored numbers
      of the color table (alpha, r, g, b, four unknowns, team). Stored numbers
      are twice the values the reader returns. */
  datatype PlayerRecord = PlayerRecord(name: seq<byte>, race: seq<byte>, extra: seq<nat>, color: seq<nat>)

  /** A record the layout can hold: lengths fit a doubled byte, tables are full. */
  predicate Encodable(rec: PlayerRecord) {
    |rec.name| < 128 && |rec.race| < 128 && |rec.extra| == 2 && |rec.color| == 9
  }

  function Zeros(n: nat): (bs: seq<byte>)
    ensures |bs| == n
  {
    seq(n, _ => 0)
  }

  /** A byte string behind its doubled length. */
  function Prefixed(bs: seq<byte>): seq<byte>
    requires |bs| < 128
  {
    [2 * |bs|] + bs
  }

  /** One player record: four bytes, the name, twelve bytes, the table of
      unknowns, two bytes, the race, three bytes, the color table. Every table
      value is preceded by the two `marker` bytes, which the reader skips, so
      the writer may choose them freely. */
  function EncodePlayer(rec: PlayerRecord, marker: seq<byte>): seq<byte>
    requires Encodable(rec) && |marker| == 2
  {
    RecordBytes(rec.name, EncodeEntries(marker, rec.extra), rec.race, EncodeEntries(marker, rec.color))
  }

  /** The layout of a record around its encoded tables `extra` and `color`. */
  function RecordBytes(name: seq<byte>, extra: seq<byte>, race: seq<byte>, color: seq<byte>): seq<byte>
    requires |name| < 128 && |race| < 128
  {
    Zeros(4) + (Prefixed(name) + (Zeros(12) + (extra + (Zeros(2) + (Prefixed(race) + (Zeros(3) + color))))))
  }

  function EncodePlayers(recs: seq<PlayerRecord>, marker: seq<byte>): seq<byte>
    requires (forall i | 0 <= i < |recs| :: Encodable(recs[i])) && |marker| == 2
  {
    if |recs| == 0 then [] else EncodePlayer(recs[0], marker) + EncodePlayers(recs[1..], marker)
  }

  /** A whole `replay.details` blob: preamble, count, records, two bytes, map name. */
  function EncodeDetails(recs: seq<PlayerRecord>, mapName: string, marker: seq<byte>): seq<byte>
    requires (forall i | 0 <= i < |recs| :: Encodable(recs[i])) && |marker| == 2
    requires |recs| < 128 && |Text.Utf8(mapName)| < 128
  {
    Zeros(6) + ([2 * |recs|] + (EncodePlayers(recs, marker) + (Zeros(2) + Prefixed(Text.Utf8(mapName)))))
  }

  /** The player a record describes. */
  function Decoded(rec: PlayerRecord): Player
    requires Encodable(rec)
  {
    Player(rec.name, rec.race, rec.color[8] / 2, Lookups.ColorName(rec.color[1] / 2, rec.color[2] / 2, rec.color[3] / 2))
  }

  /** The players a run of records describes, record by record. */
  function DecodedAll(recs: seq<PlayerRecord>): (ps: seq<Player>)
    requires forall i | 0 <= i < |recs| :: Encodable(recs[i])
    ensures |ps| == |recs|
    ensures forall i | 0 <= i < |recs| :: ps[i] == Decoded(recs[i])
  {
    if |recs| == 0 then [] else [Decoded(recs[0])] + DecodedAll(recs[1..])
  }

  /** A length-prefixed byte string reads back whole. */
  lemma ReadEncodedPrefixed(data: seq<byte>, pos: nat, bs: seq<byte>, end: nat)
    requires |bs| < 128 && Holds(data, pos, Prefixed(bs)) && end == pos + 1 + |bs|
    ensures ReadPrefixed(data, pos) == Ok((bs, end))
  {
    Split(data, pos, [2 * |bs|], bs);
  }

  /** Encoded table entries read back as their stored numbers, up to `end`. */
  lemma StoredEntries(data: seq<byte>, pos: nat, marker: seq<byte>, raws: seq<nat>, end: nat)
    requires |marker| == 2 && Holds(data, pos, EncodeEntries(marker, raws))
    requires end == pos + |EncodeEntries(marker, raws)|
    ensures ReadEntries(data, pos, |raws|) == Ok((raws, end))
  {
    ReadEncodedEntries(data, pos, marker, raws);
  }

  /** Where the pieces of one player record start and end. */
  datatype Spans = Spans(nameAt: nat, nameEnd: nat, extraAt: nat, extraEnd: nat,
                         raceAt: nat, raceEnd: nat, colorAt: nat, end: nat)

  /** The skipped runs of a record starting at `pos`: four bytes before the
      name, twelve before the table of unknowns, two before the race and three
      before the color table. */
  predicate Gaps(pos: nat, s: Spans) {
    && s.nameAt == pos + 4 && s.extraAt == s.nameEnd + 12
    && s.raceAt == s.extraEnd + 2 && s.colorAt == s.raceEnd + 3
  }

  /** The skipped bytes, the table of unknowns and the race read in turn. */
  lemma RaceAfterTable(data: seq<byte>, pos: nat, table: map<string, nat>, extraEnd: nat, race: seq<byte>, end: nat,
                       extraAt: nat, raceAt: nat)
    requires extraAt == pos + 12 && raceAt == extraEnd + 2 && extraAt <= extraEnd && raceAt <= |data|
    requires ReadTable(data, extraAt, ExtraFields) == Ok((table, extraEnd))
    requires ReadPrefixed(data, raceAt) == Ok((race, end))
    ensures ReadRace(data, pos) == Ok((race, end))
  {
    Skips(data, pos, 5);
    Skips(data, pos + 5, 4);
    Skips(data, pos + 9, 3);
    Skips(data, extraEnd, 2);
  }

  /** What follows a name reads back as the race when the table of unknowns
      and the race read back as `extra` and `race`, whatever the skipped bytes
      hold. */
  lemma ReadStoredRace(data: seq<byte>, pos: nat, extra: seq<nat>, race: seq<byte>, extraEnd: nat, end: nat,
                       extraAt: nat, raceAt: nat)
    requires |extra| == |ExtraFields|
    requires extraAt == pos + 12 && raceAt == extraEnd + 2 && extraAt <= extraEnd && raceAt <= |data|
    requires ReadEntries(data, extraAt, |extra|) == Ok((extra, extraEnd))
    requires ReadPrefixed(data, raceAt) == Ok((race, end))
    ensures ReadRace(data, pos) == Ok((race, end))
  {
    TableOfEntries(data, extraAt, ExtraFields, extra, extraEnd);
    RaceAfterTable(data, pos, Assemble(ExtraFields, Halves(extra)), extraEnd, race, end, extraAt, raceAt);
  }

  /** The name and the rest of the record read in turn. */
  lemma NameThenRace(data: seq<byte>, pos: nat, name: seq<byte>, race: seq<byte>, nameEnd: nat, end: nat, nameAt: nat)
    requires nameAt == pos + 4 && nameAt <= |data|
    requires ReadPrefixed(data, nameAt) == Ok((name, nameEnd))
    requires ReadRace(data, nameEnd) == Ok((race, end))
    ensures ReadNameAndRace(data, pos) == Ok((name, race, end))
  {
    Skips(data, pos, 4);
  }

  /** The first half of a record reads back as its name and race when the
      name, the table of unknowns and the race read back as `name`, `extra`
      and `race` at the places `s` gives. */
  lemma ReadStoredNameAndRace(data: seq<byte>, pos: nat, name: seq<byte>, extra: seq<nat>, race: seq<byte>, s: Spans)
    requires |extra| == |ExtraFields| && Gaps(pos, s)
    requires s.nameAt <= |data| && s.extraAt <= s.extraEnd && s.raceAt <= |data|
    requires ReadPrefixed(data, s.nameAt) == Ok((name, s.nameEnd))
    requires ReadEntries(data, s.extraAt, |extra|) == Ok((extra, s.extraEnd))
    requires ReadPrefixed(data, s.raceAt) == Ok((race, s.raceEnd))
    ensures ReadNameAndRace(data, pos) == Ok((name, race, s.raceEnd))
  {
    ReadStoredRace(data, s.nameEnd, extra, race, s.extraEnd, s.raceEnd, s.extraAt, s.raceAt);
    NameThenRace(data, pos, name, race, s.nameEnd, s.raceEnd, s.nameAt);
  }

  /** The color table read after three skipped bytes. */
  lemma TeamAndColorOf(data: seq<byte>, pos: nat, raws: seq<nat>, end: nat, colorAt: nat)
    requires colorAt == pos + 3 && colorAt <= |data| && |raws| == |ColorFields|
    requires ReadTable(data, colorAt, ColorFields) == Ok((Assemble(ColorFields, Halves(raws)), end))
    ensures ReadTeamAndColor(data, pos)
         == Ok((raws[8] / 2, Lookups.ColorName(raws[1] / 2, raws[2] / 2, raws[3] / 2), end))
  {
    Skips(data, pos, 3);
    ColorTable(Halves(raws));
  }

  /** The second half of a record reads back as the team and color its color
      table stores, when that table reads back as `color`. */
  lemma ReadStoredColor(data: seq<byte>, pos: nat, color: seq<nat>, end: nat, colorAt: nat)
    requires colorAt == pos + 3 && colorAt <= |data| && |color| == |ColorFields|
    requires ReadEntries(data, colorAt, |color|) == Ok((color, end))
    ensures ReadTeamAndColor(data, pos)
         == Ok((color[8] / 2, Lookups.ColorName(color[1] / 2, color[2] / 2, color[3] / 2), end))
  {
    TableOfEntries(data, colorAt, ColorFields, color, end);
    TeamAndColorOf(data, pos, color, end, colorAt);
  }

  /** A record read as its two halves in turn. */
  lemma PlayerOf(data: seq<byte>, pos: nat, name: seq<byte>, race: seq<byte>, mid: nat, team: nat, color: string, end: nat)
    requires ReadNameAndRace(data, pos) == Ok((name, race, mid))
    requires ReadTeamAndColor(data, mid) == Ok((team, color, end))
    ensures ReadPlayer(data, pos) == Ok((Player(name, race, team, color), end))
  {
  }

  /** A player record reads back as the player it describes when its name,
      its two tables and its race read back as the record's at the places `s`
      gives, whatever the skipped bytes hold. */
  lemma ReadStoredPlayer(data: seq<byte>, pos: nat, rec: PlayerRecord, s: Spans)
    requires Encodable(rec) && Gaps(pos, s)
    requires s.nameAt <= |data| && s.extraAt <= s.extraEnd && s.raceAt <= |data| && s.colorAt <= |data|
    requires ReadPrefixed(data, s.nameAt) == Ok((rec.name, s.nameEnd))
    requires ReadEntries(data, s.extraAt, |rec.extra|) == Ok((rec.extra, s.extraEnd))
    requires ReadPrefixed(data, s.raceAt) == Ok((rec.race, s.raceEnd))
    requires ReadEntries(data, s.colorAt, |rec.color|) == Ok((rec.color, s.end))
    ensures ReadPlayer(data, pos) == Ok((Decoded(rec), s.end))
  {
    ReadStoredNameAndRace(data, pos, rec.name, rec.extra, rec.race, s);
    ReadStoredColor(data, s.raceEnd, rec.color, s.end, s.colorAt);
    PlayerOf(data, pos, rec.name, rec.race, s.raceEnd, rec.color[8] / 2,
      Lookups.ColorName(rec.color[1] / 2, rec.color[2] / 2, rec.color[3] / 2), s.end);
  }

  /** The places of a record's pieces when its tables encode to `extra` and
      `color` bytes: each piece ends where its bytes end. */
  predicate Fits(s: Spans, name: seq<byte>, extra: seq<byte>, race: seq<byte>, color: seq<byte>) {
    && s.nameEnd == s.nameAt + 1 + |name| && s.extraEnd == s.extraAt + |extra|
    && s.raceEnd == s.raceAt + 1 + |race| && s.end == s.colorAt + |color|
  }

  /** A record whose name, tables and race are stored at the places `s` gives
      reads back as the player it describes. */
  lemma ReadStoredRecord(data: seq<byte>, pos: nat, rec: PlayerRecord, marker: seq<byte>, s: Spans)
    requires Encodable(rec) && |marker| == 2 && Gaps(pos, s)
    requires Fits(s, rec.name, EncodeEntries(marker, rec.extra), rec.race, EncodeEntries(marker, rec.color))
    requires Holds(data, s.nameAt, Prefixed(rec.name))
    requires Holds(data, s.extraAt, EncodeEntries(marker, rec.extra))
    requires Holds(data, s.raceAt, Prefixed(rec.race))
    requires Holds(data, s.colorAt, EncodeEntries(marker, rec.color))
    ensures ReadPlayer(data, pos) == Ok((Decoded(rec), s.end))
  {
    ReadEncodedPrefixed(data, s.nameAt, rec.name, s.nameEnd);
    StoredEntries(data, s.extraAt, marker, rec.extra, s.extraEnd);
    ReadEncodedPrefixed(data, s.raceAt, rec.race, s.raceEnd);
    StoredEntries(data, s.colorAt, marker, rec.color, s.end);
    ReadStoredPlayer(data, pos, rec, s);
  }

  /** Where the pieces of a player record sit, for any name, tables and race. */
  lemma PlayerLayout(data: seq<byte>, pos: nat, name: seq<byte>, extra: seq<byte>, race: seq<byte>, color: seq<byte>, s: Spans)
    requires |name| < 128 && |race| < 128 && Gaps(pos, s) && Fits(s, name, extra, race, color)
    requires Holds(data, pos, RecordBytes(name, extra, race, color))
    ensures Holds(data, s.nameAt, Prefixed(name))
    ensures Holds(data, s.extraAt, extra)
    ensures Holds(data, s.raceAt, Prefixed(race))
    ensures Holds(data, s.colorAt, color)
    ensures s.end == pos + |RecordBytes(name, extra, race, color)|
  {
    var p2 := s.nameEnd;
    var p4 := s.extraEnd;
    var p6 := s.raceEnd;
    Split(data, pos, Zeros(4), Prefixed(name) + (Zeros(12) + (extra + (Zeros(2) + (Prefixed(race) + (Zeros(3) + color))))));
    Split(data, s.nameAt, Prefixed(name), Zeros(12) + (extra + (Zeros(2) + (Prefixed(race) + (Zeros(3) + color)))));
    Split(data, p2, Zeros(12), extra + (Zeros(2) + (Prefixed(race) + (Zeros(3) + color))));
    Split(data, s.extraAt, extra, Zeros(2) + (Prefixed(race) + (Zeros(3) + color)));
    Split(data, p4, Zeros(2), Prefixed(race) + (Zeros(3) + color));
    Split(data, s.raceAt, Prefixed(race), Zeros(3) + color);
    Split(data, p6, Zeros(3), color);
  }

  /** Round trip of one record: it reads back as the player it describes and
      the cursor ends right after it, at `end`. */
  lemma ReadEncodedPlayer(data: seq<byte>, pos: nat, rec: PlayerRecord, marker: seq<byte>, end: nat)
    requires Encodable(rec) && |marker| == 2 && Holds(data, pos, EncodePlayer(rec, marker))
    requires end == pos + |EncodePlayer(rec, marker)|
    ensures ReadPlayer(data, pos) == Ok((Decoded(rec), end))
  {
    var extra, color := EncodeEntries(marker, rec.extra), EncodeEntries(marker, rec.color);
    var nameAt := pos + 4;
    var nameEnd := nameAt + 1 + |rec.name|;
    var extraAt := nameEnd + 12;
    var extraEnd := extraAt + |extra|;
    var raceAt := extraEnd + 2;
    var raceEnd := raceAt + 1 + |rec.race|;
    var colorAt := raceEnd + 3;
    var s := Spans(nameAt, nameEnd, extraAt, extraEnd, raceAt, raceEnd, colorAt, colorAt + |color|);
    var bytes := RecordBytes(rec.name, extra, rec.race, color);
    assert EncodePlayer(rec, marker) == bytes;
    PlayerLayout(data, pos, rec.name, extra, rec.race, color, s);
    assert s.end == end;
    ReadStoredRecord(data, pos, rec, marker, s);
  }

  /** One record, then `n` more. */
  lemma PlayersCons(data: seq<byte>, pos: nat, n: nat, p: Player, ps: seq<Player>, mid: nat, end: nat)
    requires n > 0
    requires ReadPlayer(data, pos) == Ok((p, mid))
    requires ReadPlayers(data, mid, n - 1) == Ok((ps, end))
    ensures ReadPlayers(data, pos, n) == Ok(([p] + ps, end))
  {
  }

  /** A blob holding a run of records holds the first, then the rest. */
  lemma FirstAndRest(data: seq<byte>, pos: nat, recs: seq<PlayerRecord>, marker: seq<byte>, mid: nat, end: nat)
    requires |recs| > 0 && (forall i | 0 <= i < |recs| :: Encodable(recs[i])) && |marker| == 2
    requires Holds(data, pos, EncodePlayers(recs, marker)) && end == pos + |EncodePlayers(recs, marker)|
    requires mid == pos + |EncodePlayer(recs[0], marker)|
    ensures Holds(data, pos, EncodePlayer(recs[0], marker)) && Holds(data, mid, EncodePlayers(recs[1..], marker))
    ensures end == mid + |EncodePlayers(recs[1..], marker)|
  {
    Split(data, pos, EncodePlayer(recs[0], marker), EncodePlayers(recs[1..], marker));
  }

  /** Round trip of a run of records, ending at `end`. */
  lemma {:induction false} ReadEncodedPlayers(data: seq<byte>, pos: nat, recs: seq<PlayerRecord>, marker: seq<byte>, end: nat)
    requires (forall i | 0 <= i < |recs| :: Encodable(recs[i])) && |marker| == 2
    requires Holds(data, pos, EncodePlayers(recs, marker)) && end == pos + |EncodePlayers(recs, marker)|
    ensures ReadPlayers(data, pos, |recs|) == Ok((DecodedAll(recs), end))
    decreases |recs|
  {
    if |recs| > 0 {
      var mid := pos + |EncodePlayer(recs[0], marker)|;
      FirstAndRest(data, pos, recs, marker, mid, end);
      ReadEncodedPlayer(data, pos, recs[0], marker, mid);
      ReadEncodedPlayers(data, mid, recs[1..], marker, end);
      assert |recs[1..]| == |recs| - 1;
      PlayersCons(data, pos, |recs|, Decoded(recs[0]), DecodedAll(recs[1..]), mid, end);
    }
  }

  /** The whole blob read piece by piece. */
  lemma DetailsOf(data: seq<byte>, n: nat, ps: seq<Player>, end: nat, shown: string)
    requires CountOffset < |data| && data[CountOffset] / 2 == n
    requires ReadPlayers(data, CountOffset + 1, n) == Ok((ps, end))
    requires ReadMapName(data, end) == Ok(shown)
    ensures ParseDetails(data) == Ok(Details(SortByTeam(ps), shown))
  {
    Skips(data, 0, 6);
  }

  /** A skip that fits in the blob moves the cursor by its length. */
  lemma Skips(data: seq<byte>, pos: nat, n: nat)
    requires pos + n <= |data|
    ensures Read(data, pos, n).1 == pos + n
  {
  }

  /** A map name stored after two skipped bytes reads back as the name as
      shown: its UTF-8 bytes decode to it and it is then translated. */
  lemma ReadEncodedName(data: seq<byte>, pos: nat, mapName: string)
    requires |Text.Utf8(mapName)| < 128 && Holds(data, pos + 2, Prefixed(Text.Utf8(mapName)))
    ensures ReadMapName(data, pos) == Ok(Lookups.LocalisedMapName(mapName))
  {
    ReadEncodedPrefixed(data, pos + 2, Text.Utf8(mapName), pos + 3 + |Text.Utf8(mapName)|);
    Text.DecodeUtf8(mapName);
  }

  /** Where the pieces of a details blob sit, for any player bytes. */
  lemma DetailsLayout(data: seq<byte>, n: nat, players: seq<byte>, name: seq<byte>)
    requires n < 128 && |name| < 128
    requires Holds(data, 0, Zeros(6) + ([2 * n] + (players + (Zeros(2) + Prefixed(name)))))
    ensures CountOffset < |data| && data[CountOffset] / 2 == n
    ensures Holds(data, CountOffset + 1, players)
    ensures Holds(data, CountOffset + 3 + |players|, Prefixed(name))
  {
    Split(data, 0, Zeros(6), [2 * n] + (players + (Zeros(2) + Prefixed(name))));
    Split(data, 6, [2 * n], players + (Zeros(2) + Prefixed(name)));
    Split(data, 7, players, Zeros(2) + Prefixed(name));
    Split(data, 7 + |players|, Zeros(2), Prefixed(name));
  }

  /** Round trip of the whole blob: it parses to the described players,
      ordered by team, and the map name with its translation when it has one. */
  lemma ParseEncodedDetails(data: seq<byte>, recs: seq<PlayerRecord>, mapName: string, marker: seq<byte>)
    requires (forall i | 0 <= i < |recs| :: Encodable(recs[i])) && |marker| == 2
    requires |recs| < 128 && |Text.Utf8(mapName)| < 128
    requires Holds(data, 0, EncodeDetails(recs, mapName, marker))
    ensures ParseDetails(data)
         == Ok(Details(SortByTeam(DecodedAll(recs)), Lookups.LocalisedMapName(mapName)))
  {
    var players := EncodePlayers(recs, marker);
    var name := Text.Utf8(mapName);
    var p := 7 + |players|;
    DetailsLayout(data, |recs|, players, name);
    ReadEncodedPlayers(data, CountOffset + 1, recs, marker, p);
    ReadEncodedName(data, p, mapName);
    DetailsOf(data, |recs|, DecodedAll(recs), p, Lookups.LocalisedMapName(mapName));
  }
}
