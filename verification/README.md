# Luadata and SkyEye, modelled in Dafny

This project models the state-changing cores of two programs and proves what
they keep:

- **luadata**, which prints Python values as Lua tables (`serialize`) and reads
  them back with a hand-written automaton (`unserialize`);
- **SkyEye**'s radar, radio and controller: grouping of aircraft, the contact
  database, faded contacts, voice packets and their reassembly, altitude stacks,
  merges, callsign collation and bearings.

Check it with `dafny verify dfyconfig.toml`.

## How it is laid out

Every component has a specification as functions on values, a method or class
with the loops and fields of the original that is proved to compute it, and
theorems about the specification.

| component | modules |
|---|---|
| shared | Wrappers, Bytes, Orders |
| Lua values, text and tables | LuaValues, LuaText, LuaNodes |
| Lua printer | LuaSerialize (specification), LuaPrinter (the loops) |
| Lua parser | LuaMachine (automaton), LuaUnserialize (the loop, on linked nodes) |
| Lua texts | LuaRuns (over tokens and gaps), LuaTexts (what texts mean), LuaInputs, LuaRefusals, LuaExamples |
| Lua round trip | LuaReadBack, LuaRoundTrip, LuaMeaning, LuaTheorems |
| contacts and groups | Trackfiles, Grouping, GroupMembers, GroupPartition, ContactDatabase |
| fades | Fades (state machine), RadarScope (the handlers) |
| voice | VoicePacket, VoiceRoundTrip, VoiceBytes, VoiceReceiver |
| altitudes | AltitudeStacks |
| merges | Merges, MergeRuns |
| callsigns | Callsigns, OrderedMaps, Collation, CollationMeaning, CollationOrder, CollationText |
| pilots' names | PilotCallsigns, PilotNames, SpokenNames, CollationCallers |
| bearings | Bearings |

Two conventions: a panic or exception of the original is `None` or `Err`, and
what comes from outside (time, distances, the aircraft encyclopedia, tuning of a
radio, the pilot-callsign parser) is a parameter. A loop over a Go map or a
concurrent map, whose order is arbitrary, is modelled by an arbitrary listing,
and theorems hold for every one.

## What turned out not to hold

Each of these is proved with a concrete or general counterexample, and next to it
the exact condition under which the code does what is expected.

- A string key that is an identifier plus a newline is printed bare, because `$`
  matches before a trailing newline, and comes back without it
  (`LuaTheorems.NewlineKeyLost`; exactly when: `LuaTheorems.RoundTripMeaning`).
- Groups of one coalition may overlap, since the link between aircraft goes by
  the tag of the one that links (`GroupPartition.OneWayOverlap`; exactly when:
  `GroupPartition.DisjointIffLinksReturn`).
- After one of two namesakes is deleted, the other is not in the callsign index
  (`ContactDatabase.NamesakeLost`; exactly when: `ContactDatabase.MissingIff`), and
  its exact lookup fails (exactly when: `ContactDatabase.LookupsAfterRun`).
- With other handlers between the look-up and the append of a fade, it can lose
  its trackfile and gets no call (`Fades.FadeLost`; exactly when:
  `Fades.FineRunTracked`).
- Removing an ID from the merge tracker leaves its pairs as a friendly if it is
  also a hostile (`MergeRuns.RemovedButKept`; exactly when:
  `MergeRuns.RemoveComplete`). The tracker itself takes such sightings, as the run in
  `RemovedButKept` shows; its callers do not make them, as an aircraft is of one
  coalition.
- The words of a collated call can address someone who does not receive. A pilot
  named "12" is called "1 2", which is taken for a member of the codeword named
  before (`CollationCallers.TwelveTakenForViper`). A pilot called "eagle 1 flight"
  calls the flight (`CollationCallers.OthisTakenForFlight`); the name proved to have
  this callsign is an odd one, where taking "this is" out of "othis isne" leaves "one".
  Exactly when: `CollationText.TextHeard`, for all receivers, and nobody is ever
  missed (`CollationText.NobodyMissed`). The words read as another call, whether
  somebody answers to it or not, exactly when `CollationText.CollatedReads` says, and
  for the callsigns that callers pass, `CollationCallers.CallersAmbiguous`.
- Among several receivers, a strict one whose name is not its own print, such as
  "eagle 01 1", is not addressed, while a single receiver is returned as it is
  (`CollationCallers.LeadingZeroMissed`; exactly when:
  `CollationMeaning.AddressesReceivers`). The callers pass no such name, and with
  theirs all receivers are addressed (`CollationCallers.CallersAddressed`).
- The aspect depends on more than the angular distance at exactly 35, 75 and 115
  degrees (`Bearings.LimitSides`; exactly when: `Bearings.AspectsAgree`).

Where comments and code of the original differ, the model follows the code:

- `packet.go` documents the unit ID as the 4 bytes from 58 to 53 before the end;
  the code puts it 57 to 53 before the end and leaves the byte behind the
  frequencies unwritten.
- `handleUpdate` creates a trackfile for an unknown ID without recording the
  frame it came with.
- `altitude.go` announces a reverse sort; the sort is ascending and the loop runs
  downwards.
- `collectFadedTrackfiles` speaks of 10 seconds without fades; the extensions are
  15 and 5 seconds (`Fades.QuietBeforeHandling`).

## Model

| member | source | states |
|---|---|---|
| `LuaText.EscapeIsMarked` | Misc/Apps/dcs-freq-updater/luadata/serializer/serialize.py:16-25 | The three replacements that escape a string, done one after the other, put a backslash before every backslash, quote and newline and change nothing else |
| `LuaText.UnmarkOne` | Misc/Apps/dcs-freq-updater/luadata/serializer/unserialize.py:170-174 | Each left-to-right replacement of the reader takes back the mark of its own character only, in the order newline, quote, backslash |
| `LuaText.UnescapeEscape` | Misc/Apps/dcs-freq-updater/luadata/serializer/unserialize.py:169-175 | For every byte string, the three un-escaping replacements undo the three escaping ones |
| `LuaText.UnescapeOther` | Misc/Apps/dcs-freq-updater/luadata/serializer/unserialize.py:169-175 | A backslash before any other byte than a backslash, a quote or a newline stays |
| `LuaText.ParseIntText` | Misc/Apps/dcs-freq-updater/luadata/serializer/unserialize.py:188 | Reading the digits that `str` writes gives the integer back, for every integer |
| `LuaNodes.SortIsStable` | Misc/Apps/dcs-freq-updater/luadata/serializer/unserialize.py:40 | Sorting entries by integer keys, all others last, is a stable permutation: for every rank, the entries of that rank keep their order |
| `LuaNodes.SortOrder` | Misc/Apps/dcs-freq-updater/luadata/serializer/unserialize.py:31-40 | Sorted, int keys come first, ascending, and all other entries behind them in the order they had |
| `LuaNodes.AppendValid` | Misc/Apps/dcs-freq-updater/luadata/serializer/unserialize.py:38-45 | After every append the entries are sorted, `lualen` is right, and exactly the new entry was added |
| `LuaNodes.LuaLenIsRun` | Misc/Apps/dcs-freq-updater/luadata/serializer/unserialize.py:41-45 | Without float keys, `lualen` counts the longest run: keys 1..lualen are all present and lualen+1 is not, repeated keys or not |
| `LuaNodes.RunUnique` | Misc/Apps/dcs-freq-updater/luadata/serializer/unserialize.py:41-45 | Only one number is the length of the run from 1 |
| `LuaNodes.LuaLenFull` | Misc/Apps/dcs-freq-updater/luadata/serializer/unserialize.py:47-48 | `lualen` equals the number of entries exactly when the keys are 1..n in order, each once |
| `LuaNodes.NodeTableIsList` | Misc/Apps/dcs-freq-updater/luadata/serializer/unserialize.py:47-57 | A node becomes a list exactly when its keys are 1..n each once, then of its values in key order; otherwise a dict with the later of two equal keys winning |
| `LuaValues.DictOfLast` | Misc/Apps/dcs-freq-updater/luadata/serializer/unserialize.py:53-57 | Of entries with the same key, ints and floats compared by number, a dict has the key and the place of the first and the value of the last, once |
| `LuaNodes.TableNode.EntriesAppend` | Misc/Apps/dcs-freq-updater/luadata/serializer/unserialize.py:38-45 | The in-place append leaves the node as the specification of appending says, root flag included |
| `LuaNodes.TableNode.ToTable` | Misc/Apps/dcs-freq-updater/luadata/serializer/unserialize.py:47-57 | The loops over the entries build the list or dict that the specification gives |
| `LuaMachine.Step` | Misc/Apps/dcs-freq-updater/luadata/serializer/unserialize.py:59-339 | Every turn that goes on makes progress: bytes left go down, or stay (pushed back) while the rank of the state goes down; the position stays within one past the end |
| `LuaMachine.StepTables` | Misc/Apps/dcs-freq-updater/luadata/serializer/unserialize.py:98-120 | A turn changes at most one table, and only by one append; opening and closing a brace touch the top of the stack only |
| `LuaMachine.StepValid` | Misc/Apps/dcs-freq-updater/luadata/serializer/unserialize.py:59-339 | Every turn keeps all tables, current and stacked, sorted with a right `lualen` |
| `LuaPrinter.Serialize` | Misc/Apps/dcs-freq-updater/luadata/serializer/serialize.py:4-35 | The printer that appends to its parts list gives exactly the text of the recursive specification, for every printable value, indent and level |
| `LuaPrinter.TableEntries` | Misc/Apps/dcs-freq-updater/luadata/serializer/serialize.py:28-34 | The entries of a list are its values under 1..n, those of a dict are its own |
| `LuaPrinter.SerializeEntry` | Misc/Apps/dcs-freq-updater/luadata/serializer/serialize.py:67-86 | One turn of the loop adds margin, key, value, comma and line end, and without an indent the comma is the last part |
| `LuaPrinter.SerializeKey` | Misc/Apps/dcs-freq-updater/luadata/serializer/serialize.py:69-81 | A key is left out, bare, or in brackets, as the positional flag and the pattern say |
| `LuaPrinter.SerializeTable` | Misc/Apps/dcs-freq-updater/luadata/serializer/serialize.py:36-98 | The loop with its running flags and the popped last comma prints the table of the specification, where a prefix of keys 1,2,3.. is positional |
| `LuaPrinter.WrittenIsBody` | Misc/Apps/dcs-freq-updater/luadata/serializer/serialize.py:51-93 | What the loop has written and the body still to come are the whole body; popping the last comma mends the end |
| `LuaSerialize.PrintTable` | Misc/Apps/dcs-freq-updater/luadata/serializer/serialize.py:26-98 | A list and a dict print by the same rule from their keys and the texts of their values |
| `LuaUnserialize.Parser.SeekChild` | Misc/Apps/dcs-freq-updater/luadata/serializer/unserialize.py:80-120 | In place, on linked nodes, the step of the specification for the state between entries |
| `LuaUnserialize.Parser.OpenTable` | Misc/Apps/dcs-freq-updater/luadata/serializer/unserialize.py:156-159 | Opening a brace pushes the current node with its key and goes on with a fresh node |
| `LuaUnserialize.Parser.CloseTable` | Misc/Apps/dcs-freq-updater/luadata/serializer/unserialize.py:98-116 | Closing a brace appends the finished table under the stacked key to the stacked node and drops the frame |
| `LuaUnserialize.Parser.SeekValue` | Misc/Apps/dcs-freq-updater/luadata/serializer/unserialize.py:121-159 | In place, the step of the specification for the state before a value |
| `LuaUnserialize.Parser.ReadText` | Misc/Apps/dcs-freq-updater/luadata/serializer/unserialize.py:160-183 | In place, the step of the specification inside a string: escapes, closing quote, un-escaping |
| `LuaUnserialize.Parser.ReadInt` | Misc/Apps/dcs-freq-updater/luadata/serializer/unserialize.py:184-198 | In place, the step of the specification inside an integer, with its push-back |
| `LuaUnserialize.Parser.ReadFloat` | Misc/Apps/dcs-freq-updater/luadata/serializer/unserialize.py:199-215 | In place, the step of the specification inside a float |
| `LuaUnserialize.Parser.ValueEnd` | Misc/Apps/dcs-freq-updater/luadata/serializer/unserialize.py:216-232 | In place, the step of the specification after a value |
| `LuaUnserialize.Parser.KeySimple` | Misc/Apps/dcs-freq-updater/luadata/serializer/unserialize.py:303-312 | In place, the step of the specification inside a bare key |
| `LuaUnserialize.Parser.Turn` | Misc/Apps/dcs-freq-updater/luadata/serializer/unserialize.py:59-339 | One turn of the loop is one step of the specification. It keeps: the node is the root exactly when the stack is empty, all frames are VALUE frames with keys, nodes on the stack are distinct |
| `LuaUnserialize.Unserialize` | Misc/Apps/dcs-freq-updater/luadata/serializer/unserialize.py:4-364 | The whole loop terminates on every input and returns what the specification automaton returns |
| `LuaReadBack.NodeOfEntries` | Misc/Apps/dcs-freq-updater/luadata/serializer/unserialize.py:38-45 | Appending entries one by one, sorting after each, ends in the sorted list of all |
| `LuaReadBack.NodeOfTable` | Misc/Apps/dcs-freq-updater/luadata/serializer/unserialize.py:38-57 | Read in any order, entries become the table made from them sorted once |
| `LuaRuns.RunGap` | Misc/Apps/dcs-freq-updater/luadata/serializer/unserialize.py:73-79 | For every input, position, state between two tokens, tables built so far and stack: the run behind any blanks, comments up to a newline and long comments up to the first two brackets is the run in front of them |
| `LuaRuns.RunJunk` | Misc/Apps/dcs-freq-updater/luadata/serializer/unserialize.py:121-159 | Where a value, a key in brackets or an assignment is sought, a byte that can start none of what is sought is stepped over |
| `LuaRuns.RunMarked` | Misc/Apps/dcs-freq-updater/luadata/serializer/unserialize.py:160-183 | The string scanner runs over every marked string without stopping: no quote in it closes it |
| `LuaRuns.RunString` | Misc/Apps/dcs-freq-updater/luadata/serializer/unserialize.py:160-183 | From its opening quote or apostrophe, the scanner stops at exactly the closing one and yields the string |
| `LuaRuns.RunInt` | Misc/Apps/dcs-freq-updater/luadata/serializer/unserialize.py:184-198 | From the first byte of an integer the automaton yields it and stops right behind it |
| `LuaRuns.RunFloat` | Misc/Apps/dcs-freq-updater/luadata/serializer/unserialize.py:199-215 | A number with a point, first, last or in between, is read as its digits before and behind the point say |
| `LuaTexts.RunNamed` | Misc/Apps/dcs-freq-updater/luadata/serializer/unserialize.py:303-338 | A bare key, with gaps around its assignment, is read up to where its value is sought |
| `LuaTexts.RunKeyed` | Misc/Apps/dcs-freq-updater/luadata/serializer/unserialize.py:233-302 | So is a key in brackets: a string, an integer or a number with a point |
| `LuaTexts.RunTable` | Misc/Apps/dcs-freq-updater/luadata/serializer/unserialize.py:59-339 | Wherever it stands in the input, a table, its keys in any form, with gaps between any two tokens and with or without a last comma, is read at any depth as one append of what it means |
| `LuaTexts.RunText` | Misc/Apps/dcs-freq-updater/luadata/serializer/unserialize.py:59-339 | Wherever it stands, if what is behind does not belong to it, a text is read as one append of what it means |
| `LuaTexts.TableMeans` | Misc/Apps/dcs-freq-updater/luadata/serializer/unserialize.py:38-57 | Without floats for keys, an entry without a key gets the first number from 1 that is no key yet, and the table is a list exactly when its keys are 1..n |
| `LuaInputs.Accepted` | Misc/Apps/dcs-freq-updater/luadata/serializer/unserialize.py:343-364 | Every input of values separated by commas, with gaps between any two tokens and perhaps an unfinished comment at the end, denotes the first value |
| `LuaInputs.GapsChangeNothing` | Misc/Apps/dcs-freq-updater/luadata/serializer/unserialize.py:73-79 | Two texts of the same tokens denote the same value, whatever gaps are between the tokens, before and behind |
| `LuaInputs.GapInserted` | Misc/Apps/dcs-freq-updater/luadata/serializer/unserialize.py:73-79 | Parsing u, a gap and v gives what parsing u and v gives, when the two split one text at a token boundary |
| `LuaRefusals.Refused` | Misc/Apps/dcs-freq-updater/luadata/serializer/unserialize.py:84-334 | Every such input with a fault is refused: a table or string not closed, at any depth; a byte that cannot follow a value, a key or a bracket; a key without a value; a word that is no bool; a bool or table as a key; a number without digits; bytes that start no value; no value at all |
| `LuaExamples.InlineTest` | Misc/Apps/dcs-freq-updater/luadata/serializer/__test__.py:167 | The braces, a comment up to a newline and 1, byte by byte, denote the list of 1 |
| `LuaExamples.LongTest` | Misc/Apps/dcs-freq-updater/luadata/serializer/__test__.py:171 | So do the braces, a long comment and 1 |
| `LuaExamples.PrintTest` | Misc/Apps/dcs-freq-updater/luadata/serializer/__test__.py:52-56 | The nested dict of the original's test prints to the text listed there |
| `LuaExamples.IndentTest` | Misc/Apps/dcs-freq-updater/luadata/serializer/__test__.py:58-62 | With an indent of two spaces it prints to the lines listed there |
| `LuaRoundTrip.RepeatSum` | Misc/Apps/dcs-freq-updater/luadata/serializer/serialize.py:66-68 | The margin is the indent once a level |
| `LuaRoundTrip.PrintSpelled` | Misc/Apps/dcs-freq-updater/luadata/serializer/serialize.py:36-98 | A printed value is, byte for byte, the text with every entry on a line of its own behind the margin of its level and with a comma, keys 1, 2, 3.. in front left out and names bare; without an indent, without blanks and last comma |
| `LuaRoundTrip.RoundTrip` | Misc/Apps/dcs-freq-updater/luadata/serializer/unserialize.py:343-364 | Parsing what was printed gives the value with tables normalised, for every value of booleans, integers, strings, lists and dicts with integer and string keys, any white-space indent and any level |
| `LuaRoundTrip.RoundTripWithGaps` | Misc/Apps/dcs-freq-updater/luadata/serializer/unserialize.py:73-79 | So does parsing any text with the tokens of what was printed, whatever blanks and comments are put between them |
| `LuaMeaning.CleanPreserved` | Misc/Apps/dcs-freq-updater/luadata/serializer/unserialize.py:47-57 | Without keys that are an identifier and a newline, reading back keeps the Lua value a printed value denotes |
| `LuaMeaning.DirtyChanged` | Misc/Apps/dcs-freq-updater/luadata/serializer/serialize.py:72-74 | With such a key anywhere inside, it does not |
| `LuaMeaning.MeaningKept` | Misc/Apps/dcs-freq-updater/luadata/serializer/serialize.py:72-74 | Reading back keeps the denoted Lua value exactly when no string key, at any depth, is an identifier followed by a newline |
| `LuaMeaning.ReadBackNormal` | Misc/Apps/dcs-freq-updater/luadata/serializer/unserialize.py:47-57 | Everything read back is in normal form: no dict with keys 1..n, dicts sorted, no bad key |
| `LuaMeaning.UnchangedIffNormal` | Misc/Apps/dcs-freq-updater/luadata/serializer/unserialize.py:47-57 | Reading back changes nothing exactly for values in normal form, and reading back twice is reading back once |
| `LuaTheorems.WriteAndRead` | Misc/Apps/dcs-freq-updater/luadata/serializer/serialize.py:103-123 | The printer's loops followed by the parser's loop give the value read back |
| `LuaTheorems.RoundTripMeaning` | Misc/Apps/dcs-freq-updater/luadata/serializer/serialize.py:72-74 | The round trip through text keeps the denoted Lua value exactly for values without identifier-and-newline keys |
| `LuaTheorems.RoundTripUnchanged` | Misc/Apps/dcs-freq-updater/luadata/serializer/unserialize.py:47-57 | The round trip returns the same value exactly for normal values; what it returns always survives the next one |
| `LuaTheorems.RoundTripList` | Misc/Apps/dcs-freq-updater/luadata/serializer/unserialize.py:47-57 | A table comes back as a list exactly when its keys are 1..n, the empty dict included |
| `LuaTheorems.NewlineKeyLost` | Misc/Apps/dcs-freq-updater/luadata/serializer/serialize.py:72-74 | A concrete dict whose key, the letter a and a newline, comes back as the letter a |
| `LuaTheorems.TurnsBounded` | Misc/Apps/dcs-freq-updater/luadata/serializer/unserialize.py:59-339 | On an input of n bytes the loop takes at most 5(n+1)+1 turns, well-formed or not |
| `LuaTheorems.TablesKept` | Misc/Apps/dcs-freq-updater/luadata/serializer/unserialize.py:38-57 | In every state reachable on any input, every node is sorted, has the run as its `lualen`, and would become a list exactly when its keys are 1..n |
| `Trackfiles.Values` | Common/TTS Test/srs-tts-send/skyeye/pkg/radar/contacts.go:121-130 | A listing of the contacts, each once, in no particular order |
| `Trackfiles.LatestKept` | Common/TTS Test/srs-tts-send/skyeye/pkg/trackfiles/trackfile.go:84-91 | In whatever order frames arrive, a new trackfile ends with the latest, and with the last to arrive of those at one time |
| `Grouping.AddNearbyAircraftToGroup` | Common/TTS Test/srs-tts-send/skyeye/pkg/radar/grouping.go:63-116 | The recursion terminates on the contacts not yet in the group, appends only contacts its aircraft reaches, each once, and follows every link of its aircraft and of each that it appends |
| `Grouping.FindGroupForAircraft` | Common/TTS Test/srs-tts-send/skyeye/pkg/radar/grouping.go:46-61 | The group is exactly the set of contacts reachable from the seed under the directed links, without duplicates; the seed alone if it has no position |
| `Grouping.GroupIsReach` | Common/TTS Test/srs-tts-send/skyeye/pkg/radar/grouping.go:63-116 | A list that is closed under links and only holds reachable contacts is the reachable set |
| `GroupMembers.PicksIff` | Common/TTS Test/srs-tts-send/skyeye/pkg/radar/grouping.go:70-116 | An aircraft links to another exactly if that one is of its coalition, has a position, flies above 10 m or, of unknown height, faster than 50 knots, fits the seed's wing, fits the aircraft's role, and is less than 5 NM away |
| `GroupMembers.GroupedIff` | Common/TTS Test/srs-tts-send/skyeye/pkg/radar/grouping.go:15-43 | In every listing order, a contact is in some group if and only if it is of the coalition, has a position, and flies above 10 m or, of unknown height, faster than 50 knots |
| `GroupMembers.GroupIsLeast` | Common/TTS Test/srs-tts-send/skyeye/pkg/radar/grouping.go:46-116 | A group has its seed and everyone its members pick, and is part of every set that does |
| `GroupMembers.PickedBy` | Common/TTS Test/srs-tts-send/skyeye/pkg/radar/grouping.go:83-115 | Everyone but the seed is of the coalition of a member less than 5 NM away that picks it, flies, and fits the seed's wing |
| `GroupMembers.RoleKept` | Common/TTS Test/srs-tts-send/skyeye/pkg/radar/grouping.go:71-104 | The group of a fighter is all fighters; that of an attack or unarmed aircraft is all of that tag if no type in the database also has a tag that comes before |
| `GroupMembers.FightersApart` | Common/TTS Test/srs-tts-send/skyeye/pkg/radar/grouping.go:74-104 | Everyone in the group of a fighter is in the encyclopedia and a fighter, whatever the database |
| `GroupMembers.TankerLeftOut` | Common/TTS Test/srs-tts-send/skyeye/pkg/radar/grouping.go:94-104 | A fighter and a tanker a mile apart: the fighter is a group of its own |
| `Grouping.EnumerateGroups` | Common/TTS Test/srs-tts-send/skyeye/pkg/radar/grouping.go:15-43 | In whatever order contacts are listed, the visited set and groups slice yield a group for each eligible contact that no earlier group holds |
| `GroupPartition.GroupEligible` | Common/TTS Test/srs-tts-send/skyeye/pkg/radar/radar.go:319-330 | Everyone in a group of an eligible contact is itself valid and of the coalition |
| `GroupPartition.EnumerationCovers` | Common/TTS Test/srs-tts-send/skyeye/pkg/radar/grouping.go:15-43 | The groups cover every valid track of the coalition and nothing else, and no group is seeded from an earlier one |
| `GroupPartition.CoherentDisjoint` | Common/TTS Test/srs-tts-send/skyeye/pkg/radar/grouping.go:15-43 | If every member would have formed the same group, the groups are disjoint in every listing order |
| `GroupPartition.DisjointIffCoherent` | Common/TTS Test/srs-tts-send/skyeye/pkg/radar/grouping.go:15-43 | The groups are disjoint in every listing order if and only if every member of a group would have formed the same group |
| `GroupPartition.CoherentIffReturn` | Common/TTS Test/srs-tts-send/skyeye/pkg/radar/grouping.go:70-116 | Every member of a group would have formed the same group if and only if whenever an aircraft picks another under its category, that one reaches it again under its own |
| `GroupPartition.DisjointIffLinksReturn` | Common/TTS Test/srs-tts-send/skyeye/pkg/radar/grouping.go:15-43 | The groups are disjoint in every listing order if and only if every link between valid tracks of the coalition can be followed back |
| `GroupPartition.ReturnPartition` | Common/TTS Test/srs-tts-send/skyeye/pkg/radar/grouping.go:15-43 | Then the groups partition the valid tracks of the coalition |
| `GroupPartition.SymmetricPartition` | Common/TTS Test/srs-tts-send/skyeye/pkg/radar/grouping.go:15-43 | In particular they do when links are symmetric |
| `GroupPartition.OneWayOverlap` | Common/TTS Test/srs-tts-send/skyeye/pkg/radar/grouping.go:76-99 | A CH-53E and a Mi-24P with the encyclopedia's tags: the link goes one way, and listed in one order the Mi-24P is in two groups |
| `ContactDatabase.SetSound` | Common/TTS Test/srs-tts-send/skyeye/pkg/radar/contacts.go:87-93 | Setting an absent ID keeps every index entry pointing at a live trackfile with those labels |
| `ContactDatabase.DeleteSound` | Common/TTS Test/srs-tts-send/skyeye/pkg/radar/contacts.go:96-107 | So does deleting |
| `ContactDatabase.UpdateSound` | Common/TTS Test/srs-tts-send/skyeye/pkg/trackfiles/trackfile.go:84-91 | So does a new frame |
| `ContactDatabase.SetExact` | Common/TTS Test/srs-tts-send/skyeye/pkg/radar/contacts.go:87-93 | Setting an absent ID keeps the index the exact inverse of the labels if and only if no live trackfile of the coalition has its name |
| `ContactDatabase.DeleteExact` | Common/TTS Test/srs-tts-send/skyeye/pkg/radar/contacts.go:96-107 | Deleting keeps the index exact |
| `ContactDatabase.NamesakeLost` | Common/TTS Test/srs-tts-send/skyeye/pkg/radar/contacts.go:96-107 | Two namesakes, the first deleted: the second is live with a unique name and not in the index |
| `ContactDatabase.ContactStore.Set` | Common/TTS Test/srs-tts-send/skyeye/pkg/radar/contacts.go:87-93 | Both maps change together as specified |
| `ContactDatabase.ContactStore.Delete` | Common/TTS Test/srs-tts-send/skyeye/pkg/radar/contacts.go:96-107 | Both maps change together as specified, and the result says whether the ID was there |
| `ContactDatabase.ContactStore.Reset` | Common/TTS Test/srs-tts-send/skyeye/pkg/radar/contacts.go:110-118 | Both maps are emptied, the index keeping one map per coalition |
| `ContactDatabase.ContactStore.GetByCallsign` | Common/TTS Test/srs-tts-send/skyeye/pkg/radar/contacts.go:35-74 | An exact hit gives the callsign back with a contact whose indexed name is heard as it; a miss means no indexed name is, whichever of two names heard alike wins |
| `ContactDatabase.IndexedIff` | Common/TTS Test/srs-tts-send/skyeye/pkg/radar/contacts.go:87-118 | After any run of set, delete, frame and reset, a name is indexed under an ID if and only if some set gave that name to the ID and no later operation set a namesake, deleted a live namesake or reset |
| `ContactDatabase.RunSound` | Common/TTS Test/srs-tts-send/skyeye/pkg/radar/radar.go:250-257 | After any run that sets only absent IDs, every index entry points at a live trackfile with those labels |
| `ContactDatabase.MissingIff` | Common/TTS Test/srs-tts-send/skyeye/pkg/radar/contacts.go:87-107 | In such a run a live contact is missing from the index if and only if since it was set a namesake was set or a live namesake deleted |
| `ContactDatabase.ExactIff` | Common/TTS Test/srs-tts-send/skyeye/pkg/radar/contacts.go:87-118 | After such a run the index is the inverse of the labels if and only if no name of a contact still there was set again and no namesake of one deleted while it was there |
| `ContactDatabase.LookupIsScan` | Common/TTS Test/srs-tts-send/skyeye/pkg/radar/contacts.go:35-56 | With an exact index and names heard apart, any answer of an exact lookup agrees with a linear scan of all contacts |
| `ContactDatabase.LookupsAreScansIff` | Common/TTS Test/srs-tts-send/skyeye/pkg/radar/contacts.go:35-56 | For a sound index, exact lookups agree with a scan for all callsigns, coalitions and map orders if and only if the index is exact and no two indexed names are heard alike |
| `ContactDatabase.LookupsAfterRun` | Common/TTS Test/srs-tts-send/skyeye/pkg/radar/contacts.go:35-118 | After a run that sets only absent IDs, they agree if and only if the names in use were kept and no two indexed ones are heard alike |
| `Fades.PendingTracked` | Common/TTS Test/srs-tts-send/skyeye/pkg/radar/faded.go:38-57 | In every state reachable by updates, fades, ticks, garbage collections and starts, every pending fade has its trackfile |
| `Fades.FadedGroupsCover` | Common/TTS Test/srs-tts-send/skyeye/pkg/radar/faded.go:86-132 | Every fade that was not handled recently and is tracked is in some group; every group is seeded by such a fade and no group by a member of an earlier one |
| `Fades.HandlingCovers` | Common/TTS Test/srs-tts-send/skyeye/pkg/radar/faded.go:58-68 | In every run, a tick past the deadline puts every pending fade that was not handled recently into a group passed to the callback, and leaves no handled ID in the contacts or pending |
| `Fades.EntryStays` | Common/TTS Test/srs-tts-send/skyeye/pkg/radar/faded.go:69-80 | In every run, the entry of a handled ID stays, with its time, until a start or a tick more than 300 seconds later |
| `Fades.EntryIff` | Common/TTS Test/srs-tts-send/skyeye/pkg/radar/faded.go:69-80 | In every run, an ID is in the history if and only if its fade was handled, no mission has started since and no tick has come more than 300 seconds later |
| `Fades.DueIff` | Common/TTS Test/srs-tts-send/skyeye/pkg/radar/faded.go:44-63 | In every run, a tick handles the pending fades if and only if some are awaited and more than 15 seconds, or 5 after two or more fades since a tick, have passed since the last of them |
| `Fades.FadePending` | Common/TTS Test/srs-tts-send/skyeye/pkg/radar/faded.go:52-66 | In every run, an ID is pending if and only if a fade of it came while it was tracked, and neither a start nor a tick that handles has come since |
| `Fades.HandledIff` | Common/TTS Test/srs-tts-send/skyeye/pkg/radar/faded.go:58-132 | In every run, a tick handles the fade of an ID if and only if the tick is due, the fade is pending, and no handling of it is followed by neither a start nor a tick more than 300 seconds later; and then its contact is in a group passed to the callback |
| `Fades.TrackedIff` | Common/TTS Test/srs-tts-send/skyeye/pkg/radar/radar.go:242-296 | In every run, a contact is tracked if and only if some update of it came and no start, no tick that handles its fade and no garbage collection with nothing pending and the contact more than 60 seconds old has come since |
| `Fades.ContactIs` | Common/TTS Test/srs-tts-send/skyeye/pkg/radar/radar.go:242-258 | A tracked contact has the labels of the update that brought it in and the latest of the frames behind that one |
| `Fades.NoRepeatedCall` | Common/TTS Test/srs-tts-send/skyeye/pkg/radar/faded.go:86-103 | In every run, an ID whose fade was handled seeds no group again unless more than five minutes have passed or a mission has started in between |
| `Fades.QuietBeforeHandling` | Common/TTS Test/srs-tts-send/skyeye/pkg/radar/faded.go:44-63 | In every run, fades are handled only when more than 15 seconds, or 5 after two or more fades since a tick, have passed since the last one |
| `Fades.FineStepTracked` | Common/TTS Test/srs-tts-send/skyeye/pkg/radar/faded.go:40-57 | At the grain of single locks, a step keeps every pending fade tracked if and only if it is not the append of a fade whose trackfile has gone since it was looked up, nor a contacts reset with fades pending |
| `Fades.GoneIff` | Common/TTS Test/srs-tts-send/skyeye/pkg/radar/faded.go:40-57 | A contact there at one event is missing at a later one if and only if an event between took it out and none since was an update of it |
| `Fades.PendingIff` | Common/TTS Test/srs-tts-send/skyeye/pkg/radar/faded.go:52-68 | Fades are pending if and only if one was added and no due tick, start or clearing has come since |
| `Fades.FineRunTracked` | Common/TTS Test/srs-tts-send/skyeye/pkg/radar/faded.go:40-57 | Over every run at that grain, every pending fade is tracked all the time if and only if no fade is added whose contact was there when it was looked up and was taken out and not updated since, and no contacts reset comes when a fade was added and the pending ones not emptied since |
| `Fades.FadeLost` | Common/TTS Test/srs-tts-send/skyeye/pkg/radar/radar.go:261-296 | A run at that grain: garbage collection between look-up and append; the fade is handled without a call |
| `RadarScope.Radar.HandleUpdate` | Common/TTS Test/srs-tts-send/skyeye/pkg/radar/radar.go:242-258 | The handler is the machine's update step and sets only an absent ID: an unknown ID gets a new trackfile without the frame |
| `RadarScope.Radar.HandleFade` | Common/TTS Test/srs-tts-send/skyeye/pkg/radar/faded.go:38-57 | The handler is the machine's fade step: untracked IDs are ignored, the first two extensions are long |
| `RadarScope.Radar.CollectFadedGroups` | Common/TTS Test/srs-tts-send/skyeye/pkg/radar/faded.go:86-132 | The loops over fades and groups build the groups of the specification, in order, and stamp exactly the fades not stamped before |
| `RadarScope.Radar.HandleFaded` | Common/TTS Test/srs-tts-send/skyeye/pkg/radar/faded.go:135-150 | The groups are formed before any faded contact is deleted; then exactly the faded IDs go; the groups reach the callback if there is one |
| `RadarScope.Radar.HandleTick` | Common/TTS Test/srs-tts-send/skyeye/pkg/radar/faded.go:58-81 | The handler is the machine's tick step, and calls the machine's groups if there is a callback |
| `RadarScope.Radar.CleanCompleted` | Common/TTS Test/srs-tts-send/skyeye/pkg/radar/faded.go:69-80 | Deleting while iterating removes exactly the entries older than five minutes |
| `RadarScope.Radar.HandleGarbageCollection` | Common/TTS Test/srs-tts-send/skyeye/pkg/radar/radar.go:261-296 | With no fades pending, exactly the contacts last seen more than a minute ago go, each passed once to the removal callback if there is one; a contact without frames stays |
| `RadarScope.Radar.HandleStarted` | Common/TTS Test/srs-tts-send/skyeye/pkg/radar/started.go:10-29 | Contacts, pending and completed fades are emptied, the collector's deadline and extensions are not; the callback is called if there is one |
| `RadarScope.Radar.FindCallsign` | Common/TTS Test/srs-tts-send/skyeye/pkg/radar/id.go:12-18 | In any state the handlers reach, if the names in use were kept and are heard apart, an exact lookup agrees with a scan of the contacts |
| `VoicePacket.EncodePacket` | Common/TTS Test/srs-tts-send/skyeye/pkg/simpleradio/voice/packet.go:149-184 | Writing into the zeroed buffer, with uint16 pointers that wrap and slices that panic, gives the specified bytes or panics exactly when the specification does |
| `VoicePacket.DecodeSegment` | Common/TTS Test/srs-tts-send/skyeye/pkg/simpleradio/voice/packet.go:246-260 | The loop over the frequencies segment panics exactly when it is not a whole number of frequencies |
| `VoicePacket.DecodePacket` | Common/TTS Test/srs-tts-send/skyeye/pkg/simpleradio/voice/packet.go:204-264 | Reading backwards with uint16 pointers gives the specified packet, and an error for every panic |
| `VoiceRoundTrip.ForwardPointers` | Common/TTS Test/srs-tts-send/skyeye/pkg/simpleradio/voice/packet.go:164-181 | The encoder's pointers from the front name offsets n-57, n-53, n-45, n-44 and n-22 of an n-byte packet |
| `VoiceRoundTrip.BackwardPointers` | Common/TTS Test/srs-tts-send/skyeye/pkg/simpleradio/voice/packet.go:215-221 | The decoder's pointers from the back name the same offsets, without wrapping |
| `VoiceRoundTrip.EncodeLayout` | Common/TTS Test/srs-tts-send/skyeye/pkg/simpleradio/voice/packet.go:149-184 | A consistent packet encodes as header, audio, frequencies, one zero byte, unit, packet ID, hops and two GUIDs, in this order and nothing over another |
| `VoiceRoundTrip.DecodeLayout` | Common/TTS Test/srs-tts-send/skyeye/pkg/simpleradio/voice/packet.go:204-264 | Those bytes decode to the packet |
| `VoiceRoundTrip.NewPacketCarries` | Common/TTS Test/srs-tts-send/skyeye/pkg/simpleradio/voice/packet.go:121-146 | For all arguments, a new packet carries the first 65535 bytes of audio, the first 6553 frequencies and the rest as given; its lengths agree with its contents if and only if everything fits and both GUIDs have 22 bytes |
| `VoiceRoundTrip.EncodesIffFits` | Common/TTS Test/srs-tts-send/skyeye/pkg/simpleradio/voice/packet.go:121-146 | For all arguments, a new packet encodes without a panic if and only if 64 + audio + 10 n is at most 65535 |
| `VoiceRoundTrip.PacketRoundTrip` | Common/TTS Test/srs-tts-send/skyeye/pkg/simpleradio/voice/packet.go:121-184 | For all arguments, a new packet encodes and decodes to itself if and only if it fits and both GUIDs have 22 bytes |
| `VoiceRoundTrip.DecodesIff` | Common/TTS Test/srs-tts-send/skyeye/pkg/simpleradio/voice/packet.go:204-264 | For all inputs, bytes decode if and only if their three lengths lie within them and the frequencies segment is a multiple of 10, pointers beyond 65535 bytes wrapped |
| `VoiceRoundTrip.ReencodesBut` | Common/TTS Test/srs-tts-send/skyeye/pkg/simpleradio/voice/packet.go:149-184 | For all bytes that decode: they encode again if and only if their packet length is at least 57 and audio and frequencies end within it, and then to the same bytes up to that length with zeros between the frequencies and the fixed segment, nothing if they meet or overlap |
| `VoiceBytes.LEAt` | Common/TTS Test/srs-tts-send/skyeye/pkg/simpleradio/voice/packet.go:153-175 | Byte i of a number is its quotient by 256^i, modulo 256 |
| `VoiceBytes.EncodedBytes` | Common/TTS Test/srs-tts-send/skyeye/pkg/simpleradio/voice/packet.go:149-184 | For a packet whose lengths are those of its contents, every byte of the encoding: little-endian lengths at 0, 2 and 4, the audio from 6, ten bytes a frequency behind it, a zero at n-58, and unit, packet ID, hops and GUIDs at n-57, n-53, n-45, n-44 and n-22 |
| `VoiceBytes.DecodedBytes` | Common/TTS Test/srs-tts-send/skyeye/pkg/simpleradio/voice/packet.go:204-264 | For all bytes that decode, every field of the packet from the bytes it is read from, numbers little-endian, offsets from the end and that of the frequencies modulo 65536 |
| `VoiceReceiver.Receiver.Receive` | Common/TTS Test/srs-tts-send/skyeye/pkg/simpleradio/receive.go:35-57 | The method changes the four fields as the machine says |
| `VoiceReceiver.HandleDatagram` | Common/TTS Test/srs-tts-send/skyeye/pkg/simpleradio/receive.go:98-130 | Decoding, the coalition filter and the loop over frequencies make one step of the machine |
| `VoiceReceiver.HandleTick` | Common/TTS Test/srs-tts-send/skyeye/pkg/simpleradio/receive.go:131-149 | The check makes one step of the machine and publishes what the machine publishes |
| `VoiceReceiver.ReceiveValid` | Common/TTS Test/srs-tts-send/skyeye/pkg/simpleradio/receive.go:35-57 | A packet is taken exactly when the buffer is empty, or it is of the buffer's origin and newer than everything buffered; the buffer stays one transmission |
| `VoiceReceiver.OfferedOnce` | Common/TTS Test/srs-tts-send/skyeye/pkg/simpleradio/receive.go:119-130 | Offered once per matching frequency, a packet is taken at most once |
| `VoiceReceiver.StepConserves` | Common/TTS Test/srs-tts-send/skyeye/pkg/simpleradio/receive.go:93-149 | One event moves at most one packet in, and packets out only as a closed transmission |
| `VoiceReceiver.RunConserves` | Common/TTS Test/srs-tts-send/skyeye/pkg/simpleradio/receive.go:93-149 | Over every run, the accepted packets are in order those of the closed transmissions followed by the buffered ones, and the buffer is of one origin with increasing IDs, the last of which the receiver remembers |
| `VoiceReceiver.ClosedTransmissions` | Common/TTS Test/srs-tts-send/skyeye/pkg/simpleradio/receive.go:131-149 | Over every run, a closed transmission is of one origin with increasing IDs, and is published exactly when it has at least 26 packets |
| `VoiceReceiver.SilenceBeforeClose` | Common/TTS Test/srs-tts-send/skyeye/pkg/simpleradio/receive.go:35-66 | Over every run, a transmission is closed only by a tick more than 300 ms after the last accepted packet |
| `VoiceReceiver.TakesIff` | Common/TTS Test/srs-tts-send/skyeye/pkg/simpleradio/receive.go:35-57 | Over every run, a datagram adds a packet, its own and behind the others, if and only if it decodes, is admitted and on a tuned frequency, and the buffer is empty or of its origin and older |
| `VoiceReceiver.OpenBuffer` | Common/TTS Test/srs-tts-send/skyeye/pkg/simpleradio/receive.go:131-149 | Until the first idle tick more than 300 ms after the last packet, the buffer stays as that packet left it |
| `VoiceReceiver.ClosesIff` | Common/TTS Test/srs-tts-send/skyeye/pkg/simpleradio/receive.go:59-83 | Over every run, a transmission is closed by exactly the first idle tick more than 300 ms after its last packet; it is all that is buffered, published if and only if it has 26 packets or more, and the receiver is empty afterwards |
| `AltitudeStacks.NormalizeNearest` | Common/TTS Test/srs-tts-send/skyeye/pkg/spatial/spatial.go:119-130 | The nearest multiple of 100 ft below 1000 ft, of 1000 ft from there on, halves up, whatever the sign |
| `AltitudeStacks.NormalizeTwice` | Common/TTS Test/srs-tts-send/skyeye/pkg/spatial/spatial.go:119-130 | Normalising is not negative and changes nothing the second time |
| `AltitudeStacks.Stacks` | Common/TTS Test/srs-tts-send/skyeye/pkg/brevity/altitude.go:22-56 | In place the argument becomes its normalised altitudes sorted, and the downward loop yields the specified stacks |
| `AltitudeStacks.StacksPartition` | Common/TTS Test/srs-tts-send/skyeye/pkg/brevity/altitude.go:37-53 | Every altitude that does not normalise to zero lies in (top - 9900, top] of exactly one stack, tops are altitudes that occur and descend by at least 9900 ft, each count is the number in its window and they add up to all |
| `AltitudeStacks.StacksOptimal` | Common/TTS Test/srs-tts-send/skyeye/pkg/brevity/altitude.go:37-53 | No cover of the altitudes by windows of 9900 ft uses fewer windows |
| `AltitudeStacks.StacksAgain` | Common/TTS Test/srs-tts-send/skyeye/pkg/radar/group.go:52-75 | Stacking the tops again gives the same tops, each counting one, as happens when a group's altitudes go into a BRAA |
| `Merges.MergeTracker.Merge` | Common/TTS Test/srs-tts-send/skyeye/pkg/controller/merged.go:28-37 | Adds the pair and no other |
| `Merges.MergeTracker.IsMerged` | Common/TTS Test/srs-tts-send/skyeye/pkg/controller/merged.go:40-48 | Says whether the pair is stored |
| `Merges.MergeTracker.FriendliesMergedWith` | Common/TTS Test/srs-tts-send/skyeye/pkg/controller/merged.go:51-64 | Exactly the friendlies paired with one of the hostiles |
| `Merges.MergeTracker.Separate` | Common/TTS Test/srs-tts-send/skyeye/pkg/controller/merged.go:67-78 | Takes the pair out and no other, and stores no empty set |
| `Merges.MergeTracker.Remove` | Common/TTS Test/srs-tts-send/skyeye/pkg/controller/merged.go:81-95 | Takes out all pairs of the hostile, or if the ID is no hostile all pairs of the friendly |
| `Merges.MergeTracker.Keep` | Common/TTS Test/srs-tts-send/skyeye/pkg/controller/merged.go:98-106 | Keeps exactly the pairs of the given hostiles |
| `Merges.MergeTracker.Reset` | Common/TTS Test/srs-tts-send/skyeye/pkg/controller/merged.go:108-112 | Takes out every pair |
| `Merges.MergeTracker.UpdateMergesForContact` | Common/TTS Test/srs-tts-send/skyeye/pkg/controller/merged.go:181-210 | The pair is merged afterwards if it was and was not seen to exit, or was not and was seen to enter; true exactly at the step from unmerged to merged; no other pair changes |
| `Merges.MergeTracker.UpdateMergesForHostile` | Common/TTS Test/srs-tts-send/skyeye/pkg/controller/merged.go:155-175 | For any IDs: pairs not reported are separated, an unknown hostile is removed, a known one is seen with each friendly in turn; the list returned is exactly the friendlies that became merged, in order |
| `Merges.MergeTracker.UpdateMergesForGroup` | Common/TTS Test/srs-tts-send/skyeye/pkg/controller/merged.go:149-177 | For any IDs: the hostiles of the group one after the other, their lists one behind the other |
| `Merges.GroupStepPairs` | Common/TTS Test/srs-tts-send/skyeye/pkg/controller/merged.go:149-177 | With hostiles and friendlies apart, every pair of the group's hostiles is merged afterwards exactly by what was seen of it, and no other pair changes |
| `Merges.GroupStepNew` | Common/TTS Test/srs-tts-send/skyeye/pkg/controller/merged.go:149-177 | Then a friendly is returned exactly once for every hostile with which it became merged |
| `Merges.UpdatedTwice` | Common/TTS Test/srs-tts-send/skyeye/pkg/controller/merged.go:149-177 | Seeing the same thing twice changes nothing the second time |
| `MergeRuns.StepOfPair` | Common/TTS Test/srs-tts-send/skyeye/pkg/controller/merged.go:181-210 | Any event makes a pair merged, ends its merge, or leaves it alone |
| `MergeRuns.GroupStepEvents` | Common/TTS Test/srs-tts-send/skyeye/pkg/controller/merged.go:149-177 | A group update is a sequence of sightings, separations and removals of the group's hostiles |
| `MergeRuns.GroupStepRun` | Common/TTS Test/srs-tts-send/skyeye/pkg/controller/merged.go:149-177 | A group update after any run makes a longer run of the same roles, so that hysteresis covers runs of group updates |
| `MergeRuns.Hysteresis` | Common/TTS Test/srs-tts-send/skyeye/pkg/controller/merged.go:181-210 | Over every run with hostile and friendly IDs apart, a pair is merged if and only if some sighting below 3 NM has been followed by none above 5 NM or without a position and by no removal |
| `MergeRuns.RemoveComplete` | Common/TTS Test/srs-tts-send/skyeye/pkg/controller/merged.go:81-95 | Removing an ID leaves no pair with it if and only if it is not both a hostile of one pair and a friendly of another |
| `MergeRuns.RemovedButKept` | Common/TTS Test/srs-tts-send/skyeye/pkg/controller/merged.go:81-95 | A run that sights hostile 1 close to friendly 2 and hostile 2 close to friendly 3: after removing 2, the first pair is still there |
| `Callsigns.FieldsOfJoin` | Common/TTS Test/srs-tts-send/skyeye/pkg/controller/callsigns.go:50-71 | Splitting words joined by single spaces gives the words back |
| `Callsigns.BlankSplits` | Common/TTS Test/srs-tts-send/skyeye/pkg/controller/callsigns.go:49-86 | Words are split at each of the six blanks of ASCII, wherever it stands |
| `Callsigns.AtoiSigned` | Common/TTS Test/srs-tts-send/skyeye/pkg/controller/callsigns.go:55-69 | Digits, with a sign or without, are their number if it fits in 64 bits, and no number otherwise |
| `Callsigns.ParseNormal` | Common/TTS Test/srs-tts-send/skyeye/pkg/controller/callsigns.go:49-86 | A parsed callsign has a codeword without digits, in words separated by one space, and numbers that are not negative |
| `Callsigns.ParseFormat` | Common/TTS Test/srs-tts-send/skyeye/pkg/controller/callsigns.go:44-46 | Printing such a callsign and parsing it gives it back |
| `Callsigns.CanonicalIff` | Common/TTS Test/srs-tts-send/skyeye/pkg/controller/callsigns.go:44-86 | A name is its own print if and only if it is the print of some such callsign |
| `Orders.SortInPlace` | Common/TTS Test/srs-tts-send/skyeye/pkg/controller/callsigns.go:113-135 | The slice is left as its sorted contents |
| `Orders.TextLessIff` | Common/TTS Test/srs-tts-send/skyeye/pkg/controller/callsigns.go:113-135 | A text comes before another if and only if it is a proper beginning of it or lower in the first byte in which they differ |
| `Orders.SortAscending` | Common/TTS Test/srs-tts-send/skyeye/pkg/controller/callsigns.go:113-135 | Sorting gives an ascending list (and, by its own contract, of the same members) |
| `Orders.AscendingUnique` | Common/TTS Test/srs-tts-send/skyeye/pkg/controller/callsigns.go:113-135 | There is only one ascending list of the same members |
| `OrderedMaps.GetPut` | Common/TTS Test/srs-tts-send/skyeye/pkg/controller/callsigns.go:141-158 | Setting a key of an ordered map changes that key and no other |
| `Collation.BuildTrie` | Common/TTS Test/srs-tts-send/skyeye/pkg/controller/callsigns.go:141-158 | The get-or-create loop builds the trie of the specification |
| `Collation.CollateFlight` | Common/TTS Test/srs-tts-send/skyeye/pkg/controller/callsigns.go:168-192 | The two passes over the positions give one whole-flight call, or the receivers with the first in full |
| `Collation.WalkTrie` | Common/TTS Test/srs-tts-send/skyeye/pkg/controller/callsigns.go:164-194 | The nested loops give the calls of the trie in key order |
| `Collation.CollateCallsigns` | Common/TTS Test/srs-tts-send/skyeye/pkg/controller/callsigns.go:107-206 | The whole function, sorting both slices in place, returns the specified list; with at most one receiver it returns the receivers and sorts nothing |
| `CollationMeaning.TrieLookup` | Common/TTS Test/srs-tts-send/skyeye/pkg/controller/callsigns.go:141-158 | The trie holds exactly the callsigns it was built from, each with whether it receives |
| `CollationMeaning.CollatedHeard` | Common/TTS Test/srs-tts-send/skyeye/pkg/controller/callsigns.go:107-206 | For all receivers and everyone, a single receiver included: heard with the codeword of the last full callsign and a flight as all of everyone's members of it, the returned list as meant addresses each callsign that receives exactly once, and no other at all |
| `CollationMeaning.WholeFlightIff` | Common/TTS Test/srs-tts-send/skyeye/pkg/controller/callsigns.go:168-177 | A flight is called as one in the returned list if and only if everyone has two or more of it and all of them receive |
| `CollationMeaning.FreeKept` | Common/TTS Test/srs-tts-send/skyeye/pkg/controller/callsigns.go:196-203 | A receiver that is not strict is in the returned list exactly as often as it was given |
| `CollationMeaning.AddressedIff` | Common/TTS Test/srs-tts-send/skyeye/pkg/controller/callsigns.go:107-206 | A name is addressed by the returned list if and only if it is the only receiver, or one of several that is not strict or is in its own print and parses like a name of everyone's |
| `CollationMeaning.AddressesReceivers` | Common/TTS Test/srs-tts-send/skyeye/pkg/controller/callsigns.go:102-106 | With every receiver among everyone, the names addressed are the receivers if and only if there is at most one or every strict one is in its own print |
| `CollationOrder.CollatedOrderless` | Common/TTS Test/srs-tts-send/skyeye/pkg/controller/callsigns.go:113-135 | The list does not depend on the order of receivers or everyone |
| `CollationOrder.CollatedInOrder` | Common/TTS Test/srs-tts-send/skyeye/pkg/controller/callsigns.go:164-203 | In the returned list, flights come by codeword and number, each once, with its positions ascending behind the call that names it; behind them the other names ascending |
| `CollationText.ReadRender` | Common/TTS Test/srs-tts-send/skyeye/pkg/controller/callsigns.go:176-188 | A call reads as it was meant if and only if it is not a free name that looks like a flight or a pair of numbers |
| `CollationText.CollatedReads` | Common/TTS Test/srs-tts-send/skyeye/pkg/controller/callsigns.go:107-206 | For all receivers and everyone, the words of the returned list read as the calls meant if and only if no receiver's name looks like a flight or a pair of numbers |
| `CollationText.ContextIff` | Common/TTS Test/srs-tts-send/skyeye/pkg/controller/callsigns.go:168-192 | Among several receivers a callsign is called in full if and only if someone of everyone's receives whose flight is not called as one |
| `CollationText.TextHeard` | Common/TTS Test/srs-tts-send/skyeye/pkg/controller/callsigns.go:107-206 | For all receivers and everyone, the words of the returned list address each callsign that it is meant for once and no other, if and only if no receiver is named like a flight that someone is in, nor, while one of several receivers is called singly, as two numbers |
| `CollationText.NobodyMissed` | Common/TTS Test/srs-tts-send/skyeye/pkg/controller/callsigns.go:107-206 | Whatever the names, the words address every callsign that receives |
| `CollationText.NameTakenForFlight` | Common/TTS Test/srs-tts-send/skyeye/pkg/controller/callsigns.go:196-203 | A receiver named like a flight, alone or not, makes the words call the whole of that flight, receivers or not |
| `CollationText.PairTakenForMember` | Common/TTS Test/srs-tts-send/skyeye/pkg/controller/callsigns.go:186-203 | Behind a full callsign, a receiver named as two numbers makes the words address that member of the codeword named last, receiver or not |
| `PilotCallsigns.NormalizeText` | Common/TTS Test/srs-tts-send/skyeye/internal/normalize/normalize.go:18-44 | The loop with its look-ahead, then digit words, give the specified text |
| `PilotCallsigns.SpaceDigitsOf` | Common/TTS Test/srs-tts-send/skyeye/internal/normalize/normalize.go:58-67 | The loop puts a space before each digit and normalises |
| `PilotCallsigns.ReplaceDigitHomophones` | Common/TTS Test/srs-tts-send/skyeye/pkg/callsigns/callsign.go:35-54 | From the first digit position on, homophones are replaced and ordinals stripped, in place; without one nothing changes |
| `PilotCallsigns.ParsePilotCallsign` | Common/TTS Test/srs-tts-send/skyeye/pkg/callsigns/callsign.go:77-110 | The whole function, with the loop that stops at the third digit, gives the specified callsign |
| `PilotCallsigns.ParsedSpelled` | Common/TTS Test/srs-tts-send/skyeye/pkg/callsigns/callsign.go:70-110 | Whatever the name, the callsign is words separated by single spaces, each a single digit or without digits |
| `PilotCallsigns.SpelledCanonical` | Common/TTS Test/srs-tts-send/skyeye/pkg/controller/callsigns.go:44-86 | Such a callsign is its own print if it is strict |
| `SpokenNames.SpokenParsed` | Common/TTS Test/srs-tts-send/skyeye/pkg/callsigns/callsign.go:70-110 | A name of words and digits, each digit as a digit, a digit word or a word misheard for one, is called by the words and the first three digits, unless a stop phrase is heard in it |
| `SpokenNames.CaseIgnored` | Common/TTS Test/srs-tts-send/skyeye/internal/normalize/normalize.go:18-44 | The callsign of a name does not depend on upper or lower case |
| `SpokenNames.TagIgnored` | Common/TTS Test/srs-tts-send/skyeye/pkg/callsigns/callsign.go:112-116 | A clan tag in brackets in front does not matter |
| `SpokenNames.BarIgnored` | Common/TTS Test/srs-tts-send/skyeye/internal/normalize/normalize.go:18-22 | What stands behind a bar does not matter |
| `PilotNames.TwelveParsed` | Common/TTS Test/srs-tts-send/skyeye/pkg/callsigns/callsign.go:77-110 | The pilot named 12 has the callsign 1 2 |
| `PilotNames.OthisParsed` | Common/TTS Test/srs-tts-send/skyeye/pkg/callsigns/callsign.go:77-110 | The pilot named eagle othis isne flight has the callsign eagle 1 flight |
| `CollationCallers.CallersAddressed` | Common/TTS Test/srs-tts-send/skyeye/pkg/controller/callsigns.go:89-97 | With callsigns parsed from names, as the callers pass them, and receivers among everyone, the names addressed are exactly the receivers |
| `CollationCallers.CallersAmbiguous` | Common/TTS Test/srs-tts-send/skyeye/pkg/controller/callsigns.go:89-97 | Such a callsign looks like a call exactly if it is two digits, or words without digits, a digit and the word flight |
| `CollationCallers.TwelveTakenForViper` | Common/TTS Test/srs-tts-send/skyeye/pkg/controller/callsigns.go:196-203 | Receivers viper 1 1 and the pilot 12, with viper 1 2 around: the words address viper 1 2, which does not receive |
| `CollationCallers.OthisTakenForFlight` | Common/TTS Test/srs-tts-send/skyeye/pkg/controller/callsigns.go:196-203 | Receivers viper 1 1 and a pilot called eagle 1 flight: the words address eagle 1 1, which does not receive |
| `CollationCallers.LeadingZeroMissed` | Common/TTS Test/srs-tts-send/skyeye/pkg/controller/callsigns.go:49-86 | The name eagle 01 1 is strict and not its own print: it is not addressed among several receivers, whoever they are, and is if it is the only one; no pilot's name is parsed to it |
| `Bearings.NormalizeUnique` | Common/TTS Test/srs-tts-send/skyeye/pkg/bearings/normalization.go:11-21 | The normal form of an angle is the one angle in (0, 360] a whole number of turns from it |
| `Bearings.NormalizeAngle` | Common/TTS Test/srs-tts-send/skyeye/pkg/bearings/normalization.go:11-21 | The loop terminates and gives that angle |
| `Bearings.ConversionInverse` | Common/TTS Test/srs-tts-send/skyeye/pkg/bearings/magnetic.go:42-44 | True and magnetic conversion with one declination undo each other |
| `Bearings.ConversionTurns` | Common/TTS Test/srs-tts-send/skyeye/pkg/bearings/magnetic.go:42-49 | A true bearing is the magnetic one plus the declination, up to whole turns; a bearing of the wanted kind stays |
| `Bearings.ReciprocalOpposite` | Common/TTS Test/srs-tts-send/skyeye/pkg/bearings/true.go:52-54 | The reciprocal is of the same kind and half a turn away |
| `Bearings.ReciprocalTwice` | Common/TTS Test/srs-tts-send/skyeye/pkg/bearings/true.go:52-54 | The reciprocal of the reciprocal is the bearing |
| `Bearings.DistanceLeast` | Common/TTS Test/srs-tts-send/skyeye/pkg/bearings/distance.go:14-20 | The distance is the least difference over all whole turns, and is attained |
| `Bearings.DistanceMetric` | Common/TTS Test/srs-tts-send/skyeye/pkg/bearings/distance.go:14-20 | The distance is a metric of at most 180 degrees |
| `Bearings.DistanceTurned` | Common/TTS Test/srs-tts-send/skyeye/pkg/bearings/distance.go:10-20 | Turning both bearings alike, as a reciprocal or one declination does, keeps their distance |
| `Bearings.AspectOfDistance` | Common/TTS Test/srs-tts-send/skyeye/pkg/brevity/aspect.go:26-57 | The aspect is that of the distance between reciprocal bearing and track, with limits on the hotter side, if and only if the distance is not exactly 35, 75 or 115 past the half turn; it is never unknown |
| `Bearings.AspectsAgree` | Common/TTS Test/srs-tts-send/skyeye/pkg/brevity/aspect.go:26-57 | Two pairs at one distance have one aspect if and only if the distance is no limit or they lie on the same side of the half turn |
| `Bearings.LimitSides` | Common/TTS Test/srs-tts-send/skyeye/pkg/brevity/aspect.go:26-57 | At 35, 75 and 115 degrees, tracks on the two sides of north have one distance and two aspects |

## Left out

- LuaPrinter.Serialize: does not print `None`, floats, float and boolean keys, or
  tuples at the top level, because the parser has no nil and does not read printed
  exponents; a dict is taken to have pairwise different keys.
- LuaPrinter.SerializeTable: does not print them inside a table.
- LuaPrinter.SerializeEntry: does not print them as keys or values.
- LuaPrinter.SerializeKey: does not print float keys.
- Lua parser: `multival` and `verbose`; encodings other than the bytes
  themselves, so that decoding errors cannot happen; floats are exact reals; the
  limit of Python's `int` on the number of digits; all error texts.
- LuaUnserialize.Parser.SeekChild: does not model the branch for frames pushed in
  state KEY_EXPRESSION_OPEN and the state KEY_END behind it, because every frame
  is pushed in state VALUE, which the parser's invariant proves.
- LuaMachine.Step: does not model `pos = pos - 1` and the `pos = pos + 1` at the
  end of the loop body one by one, because the two together leave the position
  where it was.
- LuaRefusals.Refused: names faults, not every input that is refused; an input between
  the two, such as one with bytes that are stepped over, is covered by `LuaRuns.RunJunk`
  one byte at a time.
- LuaTexts.TableMeans: leaves out floats as keys, which the counting loop compares with
  ints; `LuaTexts.RunTable` covers them.
- Files of luadata: reading and writing files.
- Trackfiles.Values: does not model changes during the iteration, because
  handlers are taken as steps, except in the fine-grained part of Fades.
- Trackfiles: history before the last frame; the speed over the last frames is a
  fact that comes with a frame; a frame whose time is Go's zero time.
- Geodesy: distances, projections, declinations and courses are parameters.
- Grouping: nil trackfiles, threat, bullseye and declaration of a group.
- RadarScope.Radar.HandleFaded: does not model the center point of a group, which
  is passed to the callback too, because it is geodesy.
- RadarScope.Radar.HandleGarbageCollection: does not model when the removal
  callback runs, because it runs in goroutines of its own.
- RadarScope: waiting for fades to resolve.
- Fades.FineStepTracked: takes a tick and garbage collection whole. Both hold the
  lock on the pending fades throughout, but an update and the reset of the contacts
  do not take it and may run between the deletions of one tick.
- Fades.FineRunTracked: takes a tick and garbage collection whole, likewise.
- ContactDatabase.ContactStore.GetByCallsign: does not model the fuzzy search
  behind the exact hit, because it is a library's; a miss stands for what it would
  find. The parsing of pilot callsigns is a parameter there.
- RadarScope.Radar.FindCallsign: does not model the fuzzy search either.
- VoicePacket: frequencies are 64-bit patterns instead of floating-point numbers.
- VoicePacket.DecodePacket: does not model slices that reach beyond the length of
  the input into its capacity, because the capacity is the caller's.
- VoiceReceiver.HandleDatagram: takes the outcome of the coalition filter as a flag
  and the tuning of the radio as a parameter, because both belong to the client.
- VoiceReceiver: several radios at once, since each has a receiver of its own; Opus
  decoding.
- VoiceReceiver.RunConserves: does not model a full output channel, because
  sending blocks.
- AltitudeStacks: altitudes are exact feet, not floating-point meters.
- Merges.GroupStepPairs: speaks of hostiles that are neither among the friendlies nor
  paired as a friendly, and of friendlies with different IDs, because otherwise one
  sighting can change the pairs of another aircraft; for any IDs,
  `Merges.MergeTracker.UpdateMergesForGroup` gives the exact pairs.
- Merges.GroupStepNew: likewise; `UpdateMergesForGroup` gives the exact list.
- Merges: cooldowns, merged calls and furball declarations.
- SpokenNames.SpokenParsed: leaves out ordinals, digits run together and names with
  stop phrases, for which `PilotCallsigns.ParsedSpelled` gives the form only.
- Callsigns.FieldsOfJoin: splits at ASCII white space only, because strings are
  bytes.
- Callsigns.ParseNormal: knows ASCII digits and white space only, likewise.
- PilotCallsigns.NormalizeText: takes every byte outside ASCII for a letter without
  case, because strings are bytes.
- PilotCallsigns.SpaceDigitsOf: knows ASCII digits only, likewise.
- PilotCallsigns.ReplaceDigitHomophones: knows ASCII digits and white space only.
- PilotCallsigns.ParsedSpelled: says nothing of digits and spaces outside ASCII.
- PilotCallsigns.ParsePilotCallsign: takes every byte outside ASCII for a letter
  without case, because strings are bytes.
- Orders.SortInPlace: does not model how `slices.Sort` sorts, because it
  is a library's; the result is that of an insertion sort, and sorted lists of the
  same members are equal.
- Bearings: floating-point rounding, and the conversion of a bearing to text.
- Everything else of the repository: sockets, reconnects, configuration, text and
  speech, Lua mission scripts, and the order of threats, whose comparison is not
  transitive.
