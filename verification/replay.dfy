/** A whole replay as the `SC2Replay` constructor assembles it: the version
    and game length from the user-data header, then the ordered players and
    the map name from the details blob, then the players grouped into teams.
    Opening the MPQ archive is left to the caller, which hands over the two
    blobs. */
module Replay {
  import opened Cursor
  import opened Players
  import opened Header
  import opened Details
  import opened Duration
  import Text
  import Lookups
  import Table

  datatype Replay = Replay(
    version: string,
    duration: string,                  // as `get_duration` renders it
    players: seq<Player>,              // ordered by team
    mapName: string,
    teams: map<nat, seq<Player>>)

  /** The constructor: the header is parsed first, so a blob without the
      replay signature is rejected whatever the details hold; the details
      follow, and the teams are the runs of the ordered player list. */
  function ParseReplay(udh: seq<byte>, details: seq<byte>): (r: Result<Replay>)
    ensures !Text.Contains(udh, Signature) ==> r == Err(NotAReplay)
    ensures ParseHeader(udh).Err? ==> r == Err(ParseHeader(udh).error)
    ensures r.Ok? <==> ParseHeader(udh).Ok? && ParseDetails(details).Ok?
    ensures r.Ok? ==>
      var h, d := ParseHeader(udh).value, ParseDetails(details).value;
      && r.value.version == h.version
      && r.value.duration == FormatDuration(h.duration)
      && ParseDuration(r.value.duration) == Some(h.duration)
      && r.value.players == d.players
      && r.value.mapName == d.mapName
    ensures r.Ok? ==>
      var ps, teams := r.value.players, r.value.teams;
      && SortedByTeam(ps)
      && teams.Keys == TeamsOf(ps)
      && forall t | t in teams :: teams[t] == OnTeam(ps, t)
  {
    var header :- ParseHeader(udh);
    var d :- ParseDetails(details);
    TeamsOfSorted(d.players);
    DurationRoundTrip(header.duration);
    Ok(Replay(header.version, FormatDuration(header.duration), d.players, d.mapName, Teams(d.players)))
  }

  /** When the header parses, a failing details blob fails the replay with its
      own error, as the constructor lets the exception through. */
  lemma DetailsErrorPropagates(udh: seq<byte>, details: seq<byte>)
    requires ParseHeader(udh).Ok? && ParseDetails(details).Err?
    ensures ParseReplay(udh, details) == Err(ParseDetails(details).error)
  {
  }

  /** A header that holds the signature but ends before its table does fails
      the replay with end-of-input, whatever the details hold. */
  lemma ShortHeaderEndOfInput(udh: seq<byte>, details: seq<byte>)
    requires Text.Contains(udh, Signature)
    requires Table.ReadEntries(udh, TableOffset, |HeaderFields|).Err?
    ensures ParseReplay(udh, details) == Err(EndOfInput)
  {
    ShortTableEndOfInput(udh);
  }

  /** The teams of a reordering of the same players are the same teams. */
  lemma SameTeams(a: seq<Player>, b: seq<Player>)
    requires multiset(a) == multiset(b)
    ensures TeamsOf(a) == TeamsOf(b)
  {
    forall p ensures p in a <==> p in b {
      assert p in a <==> p in multiset(a);
      assert p in b <==> p in multiset(b);
    }
  }

  /** Round trip of a whole replay: a header table and a details blob written
      from known values parse to a replay with that version and game length,
      the described players, the map name with its translation, and, for every
      team, exactly the players of that team in the order they were written. */
  lemma ParseEncodedReplay(prefix: seq<byte>, marker: seq<byte>, values: seq<nat>, rest: seq<byte>,
                           details: seq<byte>, recs: seq<PlayerRecord>, mapName: string)
    requires |prefix| == TableOffset && Text.Contains(prefix, Signature)
    requires |marker| == 2 && |values| == |HeaderFields|
    requires (forall i | 0 <= i < |recs| :: Encodable(recs[i]))
    requires |recs| < 128 && |Text.Utf8(mapName)| < 128
    requires Holds(details, 0, EncodeDetails(recs, mapName, marker))
    ensures var r := ParseReplay(prefix + Table.EncodeEntries(marker, Table.Doubled(values)) + rest, details);
      && r.Ok?
      && r.value.version == VersionString(values[1], values[2], values[3], values[4], values[0])
      && r.value.duration == FormatDuration(values[7] / LoopsPerSecond)
      && ParseDuration(r.value.duration) == Some(values[7] / LoopsPerSecond)
      && r.value.mapName == Lookups.LocalisedMapName(mapName)
      && multiset(r.value.players) == multiset(DecodedAll(recs))
      && r.value.teams.Keys == TeamsOf(DecodedAll(recs))
      && forall t | t in r.value.teams :: r.value.teams[t] == OnTeam(DecodedAll(recs), t)
  {
    ParseEncodedHeader(prefix, marker, values, rest);
    ParseEncodedDetails(details, recs, mapName, marker);
    SameTeams(SortByTeam(DecodedAll(recs)), DecodedAll(recs));
  }
}
