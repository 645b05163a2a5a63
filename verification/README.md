# adjutant replay metadata, modelled in Dafny

adjutant is a small Python 2 library that reads StarCraft II replays. It takes
two blobs from the replay's MPQ archive:

- the **user-data header**, which holds the game version and the game length;
- the **`replay.details`** file, which holds the players and the map name.

Both are read with the same three primitives:

- a byte read as `ord(stream.read(1))`;
- a little-endian variable-length quantity (VLQ) read by `vlq2int`;
- a *table* read by `read_table`. A table is a run of entries. Each entry is
  two marker bytes, then a VLQ holding twice the value. Entries named
  `unknown` are dropped.

This project models that core:

- the VLQ reader;
- the table reader;
- header parsing, including the signature check and the version string;
- details parsing: the player records, the count, the map name and its
  Korean-to-English translation;
- the stable sort of the players by team, and their grouping into teams with
  `itertools.groupby` and `dict`;
- the `COLORS` palette and the `%02X%02X%02X` color key;
- the `"Hh Mm Ss"` rendering of the game length.

Every parser has a writer beside it. The round trips are proved for:

- a VLQ;
- a table;
- the header;
- a player record and a run of records;
- the whole details blob;
- a whole replay.

They are also proved for the rendered version and duration strings, the color
key and UTF-8.

Modules:

| module | file | what it holds |
|---|---|---|
| `Cursor` | cursor.dfy | the byte blob, `read(n)` and `ord(read(1))`, `Result`/`Option` |
| `Vlq` | vlq.dfy | `vlq2int`, its value function, an encoder |
| `Table` | table.dfy | `read_table` and its entry walk, an encoder |
| `Numerals` | numerals.dfy | decimal and hexadecimal rendering and reading back |
| `Text` | text.dfy | the signature search, UTF-8 encoding and decoding |
| `Lookups` | lookups.dfy | `COLORS`, `KOREAN_MAP_NAMES` and the lookups that use them |
| `Duration` | duration.dfy | `get_duration` and a reader for its output |
| `Header` | header.dfy | `_parse_header` |
| `Players` | players.dfy | the sort by team and the `teams` grouping |
| `Details` | details.dfy | `_parse_details` and `read_player_struct` |
| `Replay` | replay.dfy | the `SC2Replay` constructor |

**Truncating reads.** The code reads skipped runs and strings with
`StringIO.read(n)`. That call returns fewer bytes at the end of
the blob and does not fail. Only `ord(read(1))` fails there, because `ord`
rejects the empty string. `Cursor.Read` and `Cursor.ReadByte` model
this. As a consequence:

- a short name or race is always followed by a failing length or VLQ read,
  so the player parse fails (`Details.ReadPlayer` states that a parsed name has
  its full length);
- the final map name may come back truncated (`Details.ReadPrefixed` states
  when).

**Numbers.** Python integers are unbounded, so `nat` models them directly:

- `& 0x7F` is `% 128`, and `& 0x80 != 0` is `>= 128`;
- `<< shift * 7` is multiplication by a power of 128;
- `|` of the shifted payload and the accumulated value is `+`, because the
  accumulated value of `shift` bytes is below 128 to the power `shift`
  (`Vlq.ValueBound`), so the two share no bit;
- `/ 2` and `// 2` on non-negative values are Dafny's `/`.

Table values are not limited to a byte. `%02X` pads to two digits but prints
wider values whole, and `Numerals.Hex2` models exactly that.

**Strings.** The name and race of a player are kept as the raw bytes the
Python 2 code stores. The map name is decoded from UTF-8 into a Dafny string.
The Korean keys of `KOREAN_MAP_NAMES` are written as Dafny strings.

**Free bytes.** Every skipped byte run and every table marker is ignored by
the reader. `Details.ParseEncodedDetails` therefore holds for any marker
bytes. The writer fills skipped runs with zeros, but the reader lemmas that
carry the proof (`Details.ReadStoredPlayer`, for example) do not depend on
what those bytes hold.

## Model

| member | source | states |
|---|---|---|
| Cursor.ReadByte | adjutant.py:112 | Reading a byte succeeds exactly when the cursor is inside the blob, and then gives the byte under the cursor with the cursor one further. Otherwise it fails with end-of-input, as `ord` of an empty read does. The same read is used at lines 116, 198, 205, 228 and 235. |
| Cursor.Read | adjutant.py:199 | `read(n)` with `n` bytes left gives exactly those bytes and moves the cursor by `n`. With fewer left it gives at most `n` bytes, exactly the rest of the blob, and leaves the cursor where every later byte read fails. It never fails itself. |
| Vlq.ReadVlq | adjutant.py:109-119 | A read succeeds exactly when a byte without the continuation bit occurs before the end of the blob, and then returns the little-endian base-128 value of the run up to that byte with the cursor just past it, otherwise it fails with end-of-input. |
| Vlq.Loop | adjutant.py:115-118 | The `while` loop of `vlq2int`: the accumulated value is always the value of the bytes read so far, and `shift` is their count. |
| Vlq.ValueAppend | adjutant.py:117 | One more byte adds its payload shifted by seven bits per byte already read. |
| Vlq.ValueBound | adjutant.py:117 | The value of `k` bytes is below 128 to the power `k`, so the shifted payload of the next byte never overlaps the accumulated value. |
| Vlq.RunsAgree | adjutant.py:115 | A VLQ run starting at a given position has only one possible end. |
| Vlq.ReadsWholeRun | adjutant.py:109-119 | Any complete VLQ run reads back as its value and ends where the run ends. |
| Vlq.Encode | adjutant.py:109-119 | The writer's bytes form one VLQ run whose value is the encoded number, and they are a single byte exactly below 128. |
| Vlq.DecodeEncode | adjutant.py:109-119 | Round trip: an encoded number reads back whole, and the cursor ends right after it. |
| Vlq.SingleByte | adjutant.py:112-113 | A byte without the continuation bit is a complete value by itself. |
| Table.ReadField | adjutant.py:136-138 | An entry skips its two marker bytes, then reads one VLQ. |
| Table.Store | adjutant.py:138-141 | No contract of its own. What one store does to the dictionary is stated by `Table.AssembleAppend`, and `Table.LoopAgrees` states that a run of stores gives the assembled table. |
| Table.FieldLoop | adjutant.py:143-146 | No contract of its own. `Table.LoopAgrees` states that the loop gives the same table and cursor as `Table.ReadTable`. |
| Table.LastIndex | adjutant.py:138-141 | A name's last occurrence among the fields is found, and no later field has that name. |
| Table.ReadTable | adjutant.py:122-146 | The table reads one entry per field name. Its keys are exactly the names other than `unknown`. Each key maps to half the value of that name's last entry. It fails exactly when the entry walk fails, and then with end-of-input. |
| Table.LoopAgrees | adjutant.py:143-146 | The `for` loop that inserts and deletes in a dictionary gives the same table as assembling the halved values at the end. |
| Table.AssembleAppend | adjutant.py:138-141 | One more field extends the table the way one `read_field` call extends the dictionary. |
| Table.CursorIgnoresNames | adjutant.py:122-146 | How far a table read gets depends only on the number of fields, not on their names. |
| Table.LaterValueWins | adjutant.py:138 | A name that does not occur again later keeps its own entry's value. |
| Table.Doubled | adjutant.py:138 | The stored numbers of the writer halve back to the values. |
| Table.ReadEncodedEntries | adjutant.py:136-145 | Round trip: written entries read back as their stored numbers, whatever the marker bytes are, and the cursor ends right after them. |
| Table.ReadEncodedTable | adjutant.py:122-146 | Round trip: a written table reads back as the assembled halved values. |
| Table.TableOfEntries | adjutant.py:122-146 | A table is its entry walk assembled under the field names. |
| Numerals.NumeralRoundTrip | adjutant.py:180-183 | The digits printed for a number read back as that number, in base 10 and base 16. |
| Numerals.NumeralDigits | adjutant.py:180-183 | A printed number consists of digits only. |
| Numerals.Hex2 | adjutant.py:220 | `%02X` is at least two digits long, and exactly two for values below 256. |
| Numerals.Hex2RoundTrip | adjutant.py:220 | The hexadecimal digits of `%02X` read back as the number. |
| Numerals.Hex2Digits | adjutant.py:220 | `%02X` of a byte is its high hexadecimal digit followed by its low one. |
| Numerals.ReadDecimal | adjutant.py:180-183 | A decimal number followed by a non-digit reads back as that number and the rest. |
| Text.Decode | adjutant.py:236 | No contract of its own. `Text.DecodeExactlyUtf8` states that bytes decode to a string exactly when they are its UTF-8 encoding, so everything else is rejected, and `Details.MapName` states how a rejection becomes a text error. |
| Text.Contains | adjutant.py:167 | The search for the signature succeeds exactly when the signature occurs somewhere in the blob. |
| Text.ContainsAppend | adjutant.py:167 | Appending bytes never hides an occurrence of the signature. |
| Text.DecodeUtf8 | adjutant.py:236 | Round trip: the UTF-8 bytes of any string decode back to that string. |
| Text.DecodeCharSound | adjutant.py:236 | Whatever the front of the bytes decodes to, the bytes it used are exactly that character's encoding. Overlong forms, stray or missing continuation bytes, surrogates and code points past U+10FFFF therefore never decode. |
| Text.DecodeSound | adjutant.py:236 | Bytes that decode to a string are that string's UTF-8 encoding, so the decoder accepts nothing but UTF-8. |
| Text.DecodeExactlyUtf8 | adjutant.py:236 | Bytes decode to a string exactly when they are its UTF-8 encoding. |
| Text.Utf8Injective | adjutant.py:236-237 | Distinct map names have distinct bytes, so a lookup on bytes is a lookup on names. |
| Text.AsciiUtf8 | adjutant.py:167 | ASCII text is its own UTF-8 encoding: one byte per character, the character code. |
| Text.AsciiBytes | adjutant.py:167 | Bytes that are the character codes of ASCII text are exactly its UTF-8 encoding. |
| Lookups.ColorKey | adjutant.py:220 | No contract of its own. `Lookups.ColorKeyRoundTrip`, `Lookups.ColorKeyInjective` and `Lookups.PaletteKeyText` state what the key text holds. |
| Lookups.ColorName | adjutant.py:219-222 | A key in the palette gives that key's color name. Any other key is shown as the key itself. |
| Lookups.ColorKeyRoundTrip | adjutant.py:220 | The key is six characters exactly when all three components are below 256. Each pair of digits then reads back as its component. |
| Lookups.ColorKeyInjective | adjutant.py:220 | Distinct byte-sized colors have distinct keys. |
| Lookups.RedNamed | adjutant.py:24-25 | The components B4, 14, 1E are named Red, because no other palette entry shares their key. |
| Lookups.PaletteKeyText | adjutant.py:24-40 | The components written for each of the fifteen palette entries render to exactly that entry's six-digit key text. |
| Lookups.UnnamedShowsKey | adjutant.py:219-222 | A color outside the palette, 01 02 03, is shown as its key `010203`, each component zero-padded to two digits. |
| Lookups.WideComponentFallsBack | adjutant.py:219-222 | A component of 256 or more never matches the palette, so its wider key is shown. |
| Lookups.LocalisedMapName | adjutant.py:237-238 | A Korean map name gets its English name appended in parentheses. Every other name is kept as it is. |
| Lookups.TranslatedExactlyWhenKorean | adjutant.py:237-238 | The shown name differs from the stored one exactly when the stored one is in the Korean table. The stored name is always a prefix of the shown one. |
| Lookups.ToxicSlums | adjutant.py:104 | The Korean name of Toxic Slums is shown with its English name. |
| Duration.FormatDuration | adjutant.py:241-249 | No contract of its own. `Duration.DurationFields` states the fields of the text and `Duration.DurationRoundTrip` states that it reads back as the seconds. |
| Duration.DurationFields | adjutant.py:241-249 | Below an hour the text is minutes and seconds. From an hour on it is hours, minutes within the hour and seconds within the minute. Nothing is padded. |
| Duration.DurationRoundTrip | adjutant.py:241-249 | Round trip: the rendered game length reads back as the number of seconds, so no two lengths render alike. |
| Duration.DurationExamples | test/test_sc2replay.py:17 | 1577 seconds render as `26m 17s`, and 3661 seconds as `1h 1m 1s`. |
| Header.SignatureIsText | adjutant.py:167 | The signature searched for is the UTF-8 encoding of the ASCII text `StarCraft II replay`, one byte per character code. |
| Header.HeaderTable | adjutant.py:170-177 | The header table keeps each named field's value, and the two `unknown` fields are gone. |
| Header.ParseHeader | adjutant.py:163-191 | Without the signature the parse fails with not-a-replay. Otherwise it succeeds exactly when the table at offset 30 can be read. The version numbers and release flag are the halved table values. The duration is the halved loop count divided by 16. |
| Header.ShortTableEndOfInput | adjutant.py:167-177 | With the signature present, a table at offset 30 that cannot be read fails the parse with end-of-input, also when the blob ends before offset 30. |
| Header.HeaderErrors | adjutant.py:163-191 | A failed header parse is not-a-replay exactly when the signature is missing, and end-of-input otherwise. |
| Header.VersionString | adjutant.py:180-185 | No contract of its own. `Header.VersionRoundTrip` states that the text gives back the four numbers and the development flag, and `Header.VersionExample` gives a concrete case. |
| Header.VersionRoundTrip | adjutant.py:179-185 | Round trip: the version string gives back the four numbers, and it carries ` (dev)` exactly when the release flag is 0. |
| Header.VersionExample | test/test_sc2replay.py:18 | Version 1, 0, 2, 16223 of a release build prints as `1.0.2.16223`. |
| Header.ParseEncodedHeader | adjutant.py:163-191 | Round trip: a blob with the signature in its first 30 bytes, followed by a written header table, parses to the header its values describe. |
| Players.InsertByTeam | adjutant.py:234 | Inserting a player keeps every player and adds it once. |
| Players.SortByTeam | adjutant.py:234 | The sorted list is a permutation of the players, ordered by team. On every team it keeps the original order, so the sort is stable. |
| Players.InsertSorted | adjutant.py:234 | Insertion into a team-ordered list keeps it ordered. |
| Players.InsertOnTeam | adjutant.py:234 | An inserted player lands at the end of its own team and leaves other teams unchanged. |
| Players.StableSortUnique | adjutant.py:234 | Two team-ordered lists with the same players per team, in the same order, are equal, so the stable sort has exactly one result. |
| Players.GroupRuns | adjutant.py:160-161 | No contract of its own. `Players.RunsOfSorted`, `Players.RunsRise`, `Players.RunKeys` and `Players.TeamsOfSorted` state what the runs of `groupby` hold. |
| Players.DictOf | adjutant.py:160 | No contract of its own. `Players.DictKeys` states its keys and `Players.TeamsOfSorted` the value kept under each key. |
| Players.Teams | adjutant.py:160-161 | No contract of its own. `Players.TeamsOfSorted` states that on a team-ordered list each present team maps to exactly its players, in order. |
| Players.RunsOfSorted | adjutant.py:160-161 | On a team-ordered list the first run holds the first team, every later run has a greater team, and the dictionary keys are exactly the teams present. |
| Players.RunsRise | adjutant.py:160-161 | On a team-ordered list the teams of the runs rise strictly, so no team forms two runs. |
| Players.RunKeys | adjutant.py:160-161 | For any list, ordered or not, the keys of the `teams` dictionary are exactly the teams present. |
| Players.DictKeys | adjutant.py:160-161 | The keys of `dict(pairs)` are the keys of the pairs. |
| Players.TeamsOfSorted | adjutant.py:160-161 | Grouping a team-ordered list gives every present team exactly its players, in list order, and no other key. |
| Details.ReadPrefixed | adjutant.py:198-199 | A length byte is read and halved, then at most that many bytes follow. The string is shorter only when the blob ends first. |
| Details.ColorTable | adjutant.py:208-218 | The color table keeps r, g, b and team at their stored positions. |
| Details.ReadRace | adjutant.py:200-206 | The race is the length-prefixed bytes that end at the returned position, shorter than stated only at the end of the blob. Failure is always end-of-input. |
| Details.RaceLayout | adjutant.py:200-206 | The race is read after twelve skipped bytes, the two entries of the table of unknowns and two more skipped bytes, and the race read fails when the table read does. |
| Details.ReadNameAndRace | adjutant.py:197-206 | The name is read in full at offset 5 of the record, and the race is length-prefixed bytes ending at the returned position. |
| Details.NameRaceLayout | adjutant.py:197-206 | A read name and race come from the length-prefixed name after four skipped bytes and the race part that starts right after the whole name. |
| Details.NoRoomForName | adjutant.py:197-198 | A blob that ends within the first five bytes of a record fails with end-of-input. |
| Details.ReadTeamAndColor | adjutant.py:207-222 | The team is the halved ninth value of the color table. The color is the palette name or the key of the halved r, g, b values. |
| Details.ReadPlayer | adjutant.py:195-223 | A parsed player's name and race come from the record's bytes with their full stated lengths, the record ends inside the blob, and failure is always end-of-input. |
| Details.PlayerTeamAndColor | adjutant.py:207-223 | A parsed player's team and color are those of the color table after its race, and the record ends where that table ends. |
| Details.ReadPlayers | adjutant.py:229-231 | Reading `n` records yields exactly `n` players. |
| Details.MapName | adjutant.py:235-238 | The map name is the decoding of the stored bytes as well-formed UTF-8 of Unicode scalar values, translated when it is Korean, and bytes that do not decode fail with a text error. |
| Details.ReadMapName | adjutant.py:232-238 | Two bytes are skipped, then the length-prefixed name is decoded and translated. A blob that ends within the skipped bytes fails with end-of-input. |
| Details.ParseDetails | adjutant.py:225-239 | The player count is the halved seventh byte. The result has exactly that many players, stably sorted by team, and the map name that follows the last record. A blob of six bytes or fewer fails with end-of-input. Any other failure is end-of-input or bad text. |
| Details.ShortPlayersEndOfInput | adjutant.py:228-231 | When the count byte is there but the player records cannot all be read, the whole parse fails with end-of-input. |
| Details.DetailsFailure | adjutant.py:228-236 | Where a failure comes from: unreadable players fail with end-of-input, a failing map name passes its own error on, and when both read the parse succeeds. |
| Details.BadTextIsMapName | adjutant.py:235-236 | The parse fails with a text error exactly when the players read and the map name after them does not decode. |
| Details.ReadEncodedName | adjutant.py:232-238 | Round trip: a stored map name reads back as that name, translated when it is Korean. |
| Details.ReadEncodedPrefixed | adjutant.py:198-199 | Round trip: a length-prefixed string reads back whole. |
| Details.ReadStoredPlayer | adjutant.py:195-223 | A record whose name, tables and race read back as a given record's decodes to that record's player, whatever the skipped bytes hold. |
| Details.ReadEncodedPlayer | adjutant.py:195-223 | Round trip: a written player record reads back as the player it describes, and the cursor ends right after it. |
| Details.ReadEncodedPlayers | adjutant.py:229-231 | Round trip: a written run of records reads back as the described players, in order. |
| Details.ParseEncodedDetails | adjutant.py:225-239 | Round trip: a written details blob parses to its players sorted by team and to its map name, translated when it is Korean. |
| Replay.ParseReplay | adjutant.py:152-161 | A blob without the signature is rejected whatever the details hold, and a replay is returned exactly when both blobs parse, with the header's version, the duration as `get_duration` renders the header's seconds, the players ordered by team, and each present team mapped to exactly its players. |
| Replay.DetailsErrorPropagates | adjutant.py:156-159 | When the header parses but the details blob does not, the replay fails with the details' own error. |
| Replay.ShortHeaderEndOfInput | adjutant.py:156 | A header with the signature but too short for its table fails the replay with end-of-input, whatever the details blob holds. |
| Replay.ParseEncodedReplay | adjutant.py:152-161 | Round trip of a whole replay: the version and the rendered duration come from the written header, and each team holds exactly its written players, in the order they were written. |

## Left out

- Opening the MPQ archive (`mpyq`) is not modelled. The two blobs it yields are parameters of `Replay.ParseReplay`.
- The `ValueError` of `_parse_header` is modelled as the `NotAReplay` error value.
- `print_details`, `main` and the renaming command line are output and file-system work, and are not modelled.
- setup.py is packaging only.
- The regular-expression search for the signature is modelled as a search for its bytes. The pattern has no special characters, so the two agree.
- Python 2 narrow builds store characters outside the Basic Multilingual Plane as surrogate pairs. The model decodes UTF-8 to whole code points.
- Details.MapName: the map name is decoded as UTF-8 of Unicode scalar values, so the three-byte forms of the surrogates U+D800 to U+DFFF (ED A0 80 to ED BF BF) fail with a text error. Python 2's `decode('utf-8')` accepts them and returns a lone surrogate, which a Dafny `char` cannot hold.
- The map fixture of the test suite expects the plain English name `Toxic Slums`, which means the test replay stores the English name. That replay is binary and not available, so `Lookups.ToxicSlums` states the translation of the Korean name instead. The plain name is kept unchanged, as `Lookups.LocalisedMapName` states.
- The eight players of the test replay come from the same binary file. `Details.ParseDetails` states the general fact that the player count is the halved count byte.
- Details.ParseEncodedDetails: the writer fills skipped byte runs with zeros and uses one marker pair for every table entry, so the round trip is stated for those writers only. The reader lemmas below it do not depend on the skipped bytes.
- Details.ReadPlayer: the color table's alpha and its four unknown values are read but not kept, as in the source.
