# Oyez archive loader — a Dafny model

This project models the two pure cores of the Oyez Supreme Court archive loader.

**Case/person cross-linking engine** (`oyez/corpus.py`):
- case identifiers of the form `<year>.<docket>` are parsed into irregular, original-jurisdiction or appellate cases;
- `CaseCorpus.build` filters a list of identifiers into a corpus and attaches the first matching summary to each admitted case;
- a docket index maps each docket to the keys stored under it, and `search_by_docket` answers with a unique case or a list;
- a registry of people holds one `Person` per identifier, each carrying advocate and justice roles with appearance ledgers;
- `Case.load_votes` reads a vote file into advocates, decisions with per-justice vote maps, and justices, marking the case irregular on the documented abort paths;
- `build_votes` filters vote-file names and dispatches each file to the unique case of its docket.

**Transcript segmenter** (`oyez/transcripts.py`):
- the `OyezTranscript` constructor guard and flags;
- `_parse_transcript` flattens sections, turns and text blocks into Turns;
- `make_textgrid` groups the Turns into one tier per speaker.

Everything is a value. The Python object graph becomes a set of datatypes:
- The people registry is a `map` from identifier to `Person`.
- A case refers to its advocates and justices by identifier.
- An attribute that `load_votes` may never assign (`advocates`, `decisions`, `justices`) is an `Option`.
- Every operation that mutates shared state returns the new state.

Exceptions the source raises and catches become `Result` failures. Crashes the source does not catch become preconditions.

Files:
- `wrappers.dfy`: `Option` and `Result`.
- `strings.dfy`: Python's `in`, `str.split`, `str.upper`, `str.replace` and `int()`, each with its laws.
- `records.dfy`: the JSON records the loader reads.
- `people.dfy`: persons, roles, ledgers and the registry.
- `cases.dfy`: identifier parsing, `Case.year` and `load_summary`.
- `votes.dfy`: `load_votes`.
- `corpus.dfy`: the corpus, the docket index, `build` and `build_votes`.
- `transcripts.dfy`: the transcript segmenter.

In these places the model follows the code:
- The `orig` marker is matched case-sensitively (oyez/corpus.py:16).
- `term` and `docket_number` may be empty strings; for example `1990.-5` parses.
- A ledger entry is keyed by the vote file's `docket_number`, not by the case's docket (oyez/corpus.py:175, 191).
- `damaged` and `unavailable` hold the negation of the file's flags (oyez/transcripts.py:12-19).
- Re-encountering a registered advocate fails on the undefined name `justice_o`, and the bare `except` skips that advocate (oyez/corpus.py:62-64, 108). The same `except` also skips an entry whose `advocate` block is `null`, since subscripting it raises. `People.MakeAdvocate` returns a failure in both cases, and `Votes.LoadAdvocates` skips the entry without recording anything.

## Model

| member | source | states |
|---|---|---|
| `Strings.Find` | oyez/corpus.py:11 | the result is the leftmost occurrence of the separator at or after the start, or there is no occurrence |
| `Strings.SplitJoin` | oyez/corpus.py:11 | joining the pieces of `str.split` with the separator gives the string back |
| `Strings.SplitPartsFree` | oyez/corpus.py:11 | no piece of a split contains the separator |
| `Strings.SplitSingle` | oyez/corpus.py:11 | a split has exactly one piece iff the separator does not occur, and that piece is the whole string |
| `Strings.SplitCount` | oyez/corpus.py:11 | splitting on one character gives one more piece than the character's occurrences, which is why the tuple unpacking fails exactly on the wrong count |
| `Strings.JoinSplit` | oyez/corpus.py:250 | splitting a join of separator-free pieces gives the pieces back |
| `Strings.ParseShowInt` | oyez/corpus.py:30 | `int()` of the decimal rendering of an integer is that integer |
| `Cases.OriginalDocketNumber` | oyez/corpus.py:23 | an original docket number is the docket with each lower-case ASCII letter upper-cased and each `_` turned into a space, all other characters in place |
| `Cases.ParseFailure` | oyez/corpus.py:11-26 | construction fails iff the identifier has a dot count other than one, or it is appellate-shaped and its docket has a dash count other than one; the error says which unpacking failed |
| `Cases.ParseShape` | oyez/corpus.py:10-11 | a parsed case keeps its identifier as file root, the identifier is year, dot, docket, neither half has a dot, and nothing is loaded yet |
| `Cases.ParseKinds` | oyez/corpus.py:12-26 | irregular iff `_` in the year; original iff not irregular and `orig` in the docket, with the year as term and the normalised docket number; appellate otherwise, with the docket as term, dash, number |
| `Cases.ParseAppellateIdentifier` | oyez/corpus.py:11-26 | formatting year, term and number into an identifier and parsing it gives exactly that appellate case |
| `Cases.ParseOriginalIdentifier` | oyez/corpus.py:16-23 | formatting an original-jurisdiction identifier and parsing it gives the year as term and the upper-cased, space-separated docket number |
| `Cases.ParseIrregularIdentifier` | oyez/corpus.py:12-15 | an identifier whose year has `_` parses as irregular and derives nothing from the docket |
| `Cases.YearRoundTrip` | oyez/corpus.py:29-30 | the year read from an appellate identifier written with a rendered year is that year |
| `Cases.LoadSummary` | oyez/corpus.py:32-45 | only the summary changes; volume, page, ID, name, question, description, URL and each timeline event's type and dates are copied from the matched entry |
| `People.Role.AddAppearance` | oyez/corpus.py:167-168 | the ledger gains or overwrites the entry for the docket and keeps every other entry and the role's kind and president |
| `People.AddRole` | oyez/corpus.py:146-155 | a held role returns the person unchanged; an unknown name fails with that name; otherwise the role is added with an empty ledger, a justice taking the first role entry's appointing president, and nothing else changes |
| `People.AddRoleIdempotent` | oyez/corpus.py:148-149 | attaching a role a second time, with any block, changes nothing |
| `People.AppearanceData` | oyez/corpus.py:174-199 | every ledger entry records the vote file's case name; an advocate's entry is described by the entry's advocate description, a justice's by the title of the member's first role |
| `People.AddCase` | oyez/corpus.py:157-159 | identity is kept, the file's docket number is appended to `appeared_in`, and only the named role's ledger gains the entry built for that role |
| `People.MakeJustice` | oyez/corpus.py:117-128 | the registry gains at most the member's identifier; a known justice is returned unchanged; a known person without a justice role keeps identity and roles and gains exactly a justice role with an empty ledger and the first role entry's appointing president; a new person is exactly the member's data with that fresh justice role; nobody else changes; the registry only grows and stays well formed |
| `People.MakeAdvocate` | oyez/corpus.py:104-115 | fails exactly when the `advocate` block is `null` or its identifier is registered, the path that references the undefined `justice_o`, and the error says which; otherwise registers exactly a new advocate with an empty ledger; the registry only grows and stays well formed |
| `People.MakeJusticeIdempotent` | oyez/corpus.py:117-122 | resolving a justice identifier a second time changes nothing, so there is at most one person per identifier |
| `Votes.FirstVoteless` | oyez/corpus.py:73-84 | the loop reaches exactly the decisions before the first one without votes |
| `Votes.LoadAdvocates` | oyez/corpus.py:59-66 | the registry gains exactly the identifiers of the non-null advocate blocks, and the case lists exactly those that were not registered before |
| `Votes.LoadAdvocatesRecords` | oyez/corpus.py:59-66 | registered people are untouched, and each newly listed advocate is a new advocate holding the appearance of its first entry |
| `Votes.LoadAdvocatesOrder` | oyez/corpus.py:59-66 | listed advocates appear once each, in the order of their first entries |
| `Votes.LoadAdvocatesSound` | oyez/corpus.py:59-66 | after the advocates loop the registry is well formed and grown, and every listed advocate holds an advocate appearance for the file's docket |
| `Votes.RecordVote` | oyez/corpus.py:89-100 | resolving and recording one vote registers exactly its member, leaves everyone else unchanged, keeps the registry well formed and grown, links the member as a justice of the docket with the ledger entry of their first role's title and the case name, and appends the docket to their `appeared_in` |
| `Votes.VoterRecord` | oyez/corpus.py:117-128 | the record a run of votes leaves for one voter: a voter new to the registry takes identifier, name and oyez id from the member of their first vote; a registered one keeps them; the justice role is kept if held, otherwise added with the appointing president of the first vote's member's first role; its ledger entry for the docket holds the last vote's member's first role title and the case name; `appeared_in` gains the docket once per vote |
| `Votes.LoadVoteEntriesVoters` | oyez/corpus.py:85-100 | after one decision's votes, every voter holds exactly the `VoterRecord` of those votes |
| `Votes.LoadVoteEntriesAppend` | oyez/corpus.py:85-100 | running the votes loop over two lists in a row leaves the registry running it over their concatenation does |
| `Votes.ReachedCastBy` | oyez/corpus.py:73-87 | someone casts one of the reached votes iff they vote in a decision before the first voteless one |
| `Votes.LoadDecisionsAsVotes` | oyez/corpus.py:73-102 | the decisions loop leaves the registry the votes loop leaves over all reached votes in order |
| `Votes.LoadDecisionsVoterRecords` | oyez/corpus.py:73-102 | after the decisions loop every voter of a reached decision holds exactly their `VoterRecord` over all reached votes |
| `Votes.TallyMeaning` | oyez/corpus.py:94-101 | a decision's vote map has exactly one entry per voter, holding ideology, seniority and side of that voter's last vote |
| `Votes.LoadVoteEntries` | oyez/corpus.py:85-101 | one justice identifier is appended per vote, in vote order, and the registry stays well formed |
| `Votes.LoadVoteEntriesRegistry` | oyez/corpus.py:85-101 | a decision's votes register exactly its voters, change nobody else and only grow the registry |
| `Votes.LoadVoteEntriesLinked` | oyez/corpus.py:85-101 | every voter of a decision ends up a justice with an appearance for the file's docket |
| `Votes.LoadDecisions` | oyez/corpus.py:73-102 | the loop aborts iff some decision has no votes, keeps as many decisions as come before it, and leaves the registry well formed |
| `Votes.LoadDecisionsRead` | oyez/corpus.py:73-102 | the kept decisions are, in order, those of the entries before the first voteless one, each with its held text, tallies, winner and vote map |
| `Votes.LoadDecisionsVoters` | oyez/corpus.py:73-102 | the justices list is the voters of the reached decisions, decision after decision in vote order with repeats kept; the people added are exactly those voters; each voter holds exactly their `VoterRecord` over the reached votes; nobody else changes; the registry only grows |
| `Votes.LoadDecisionsJusticeOrder` | oyez/corpus.py:85-100 | the justices list is the concatenation, over the decisions before the first voteless one, of each decision's voters in vote order |
| `Votes.LoadDecisionsLinked` | oyez/corpus.py:73-102 | every voter of a reached decision is a justice with an appearance for the file's docket |
| `Votes.LoadVotes` | oyez/corpus.py:47-102 | the registry stays well formed, and only the irregular flag, advocates, decisions and justices of the case can change |
| `Votes.LoadVotesIrregular` | oyez/corpus.py:48-84 | the case is irregular afterwards iff it was, or the ID differs, or advocates or decisions are empty, or a reached decision has no votes; a mismatched ID changes nothing else |
| `Votes.LoadVotesContents` | oyez/corpus.py:54-102 | a matching file sets the advocates to the new advocates in first-entry order; when advocates exist it sets the decisions to those before the first voteless one and the justices to their voters in order, repeats kept; with no advocates the decisions, the justices and the registry stay as they were |
| `Votes.LoadVotesRegistry` | oyez/corpus.py:54-101 | for a matching file the registry gains exactly the identifiers of its non-null advocate blocks and, when it lists advocates, the voters of the reached decisions; a mismatched file adds nobody; everyone else registered keeps their record; a new advocate who does not vote is exactly the new advocate holding the appearance of its first entry; when it lists advocates, each voter of the reached decisions holds exactly their `VoterRecord` over the reached votes, starting from the registry the advocates loop left |
| `Votes.LoadVotesLinked` | oyez/corpus.py:54-101 | the registry only grows, every listed advocate holds an advocate appearance and every listed justice a justice appearance for the file's docket |
| `Corpus.Empty` | oyez/corpus.py:211-215 | a new corpus keeps the summary list, stores no case and indexes no docket, and is consistent with a well-formed empty registry |
| `Corpus.SetItem` | oyez/corpus.py:217-221 | the case is stored under its key, the summaries and registry stay |
| `Corpus.SetItemIndex` | oyez/corpus.py:219-221 | the key is appended to its docket's list and no other docket's list changes |
| `Corpus.SetItemConsistent` | oyez/corpus.py:217-221 | storing keeps the index consistent with the cases unless a key is re-stored with another docket |
| `Corpus.SetItemTwice` | oyez/corpus.py:221 | storing a key twice lists it twice, since the append does not deduplicate |
| `Corpus.SearchByDocket` | oyez/corpus.py:264-279 | the answer is one case iff exactly one key is listed, and then it is that key's case; otherwise it is the list of the listed keys' cases in key order, empty for an unindexed docket |
| `Corpus.SearchSound` | oyez/corpus.py:264-279 | in a consistent corpus every case a search returns is stored and has the searched docket |
| `Corpus.SearchComplete` | oyez/corpus.py:264-279 | in a consistent corpus every stored case of the docket is the unique answer or among the listed ones |
| `Corpus.SearchAfterSet` | oyez/corpus.py:276-277 | a case stored under a fresh docket is what the search for that docket returns |
| `Corpus.FirstSummary` | oyez/corpus.py:235-239 | the result is the first summary entry with the docket, or no entry has it |
| `Corpus.AdmitMeaning` | oyez/corpus.py:226-240 | an identifier is admitted iff it parses as appellate with a year inside the inclusive window and some summary has its docket; the case is the parsed case with the first such summary loaded |
| `Corpus.Build` | oyez/corpus.py:223-240 | building keeps the summary list and the registry |
| `Corpus.BuildContents` | oyez/corpus.py:223-240 | the corpus gains exactly the admitted identifiers, each stored as admitted, and no other case changes |
| `Corpus.BuildIndex` | oyez/corpus.py:217-240 | after building, each docket lists the keys it listed before followed by the admitted identifiers with that docket, in list order, an identifier listed twice being indexed twice |
| `Corpus.BuildConsistent` | oyez/corpus.py:223-240 | building keeps the docket index consistent with the stored cases |
| `Corpus.BuildAdmitted` | oyez/corpus.py:231-240 | every case building stores is appellate, regular, inside the window and summarized |
| `Corpus.VoteFileDocket` | oyez/corpus.py:243-255 | a file is dispatched only if its name has no `-t` and no `_`, and then to its middle piece, which must contain a dash |
| `Corpus.VoteFileRoundTrip` | oyez/corpus.py:250-255 | a file named year, docket and extension is dispatched to its docket iff the docket has a dash, whatever the extension |
| `Corpus.DispatchVotes` | oyez/corpus.py:256-262 | one dispatch keeps the registry well formed |
| `Corpus.DispatchVotesMeaning` | oyez/corpus.py:258-262 | a file whose docket has a unique case replaces that case with the result of `load_votes` on it and takes its registry; every other case is untouched; any other file changes nothing |
| `Corpus.VotesOnlyConsistent` | oyez/corpus.py:262 | loading votes keeps the docket index consistent |
| `Corpus.BuildVotes` | oyez/corpus.py:242-262 | dispatching all vote files keeps the registry well formed |
| `Corpus.BuildVotesFrame` | oyez/corpus.py:242-262 | `build_votes` leaves the index, the keys and every parsed and summary field alone, only grows the registry, keeps the index consistent and leaves every case no file reaches untouched |
| `Corpus.TranscribedNames` | oyez/corpus.py:293-294 | the root of every transcript file name is among the identifiers |
| `Corpus.TranscriptNameRoundTrip` | oyez/corpus.py:294 | the root of a transcript file name is the identifier written before its `-t` |
| `Corpus.TranscribedNamesOf` | oyez/corpus.py:292-294 | transcript files named after identifiers yield exactly those identifiers |
| `Transcripts.SpeakerOf` | oyez/transcripts.py:40-45 | a turn without a speaker mapping gets `Unknown` for both identifier and last name; otherwise it gets the mapping's |
| `Transcripts.ParseTranscript` | oyez/transcripts.py:34-50 | the nested loops produce the section, turn, block flattening |
| `Transcripts.FlattenCount` | oyez/transcripts.py:38-50 | the flattening has exactly one Turn per text block |
| `Transcripts.FlattenAt` | oyez/transcripts.py:38-50 | block `b` of turn `t` of section `s` becomes the Turn after all earlier blocks, with the block's start, stop and text and its turn's speaker |
| `Transcripts.MakeTextGrid` | oyez/transcripts.py:52-63 | the one-pass dictionary grouping produces the grid of one tier per speaker in first-appearance order |
| `Transcripts.Speakers` | oyez/transcripts.py:57-60 | the speakers are exactly those of some Turn, each listed once |
| `Transcripts.FirstOf` | oyez/transcripts.py:59-60 | the position is a Turn of the speaker and no earlier Turn is theirs |
| `Transcripts.SpeakersOrdered` | oyez/transcripts.py:57-63 | tiers are ordered by their speakers' first Turns |
| `Transcripts.TextGridMeaning` | oyez/transcripts.py:53-63 | one tier per distinct speaker in first-appearance order; each tier is named by the last name on its speaker's first Turn, holds that speaker's intervals in order, and shares the grid's bounds, which are the first start and the last stop |
| `Transcripts.TextGridCoversTurns` | oyez/transcripts.py:58-61 | every Turn contributes exactly one interval, so the tiers hold as many intervals as there are Turns |
| `Transcripts.NewTranscript` | oyez/transcripts.py:9-32 | a missing payload fails first; a title not splitting into two fails next; otherwise the flags are negated, the name is cut at `.json`, the title gives type and date, and the Turns and grid are the flattening and its grouping |
| `Transcripts.TitleRoundTrip` | oyez/transcripts.py:25 | a title written as type, separator, date splits back into type and date |
| `Transcripts.FnameRoundTrip` | oyez/transcripts.py:21 | a file named stem plus `.json` gives the stem back |

Functions without a contract of their own are described by the lemmas in the table:
- `Cases.NewCase` (oyez/corpus.py:7-26) by `Cases.ParseFailure`, `Cases.ParseShape`, `Cases.ParseKinds` and the three identifier round trips.
- `Cases.Year` (oyez/corpus.py:28-30) by `Cases.YearRoundTrip`.
- `Corpus.Admit` (oyez/corpus.py:226-240) by `Corpus.AdmitMeaning` and `Corpus.BuildAdmitted`.
- `Votes.CastVote` (oyez/corpus.py:89-100) by `Votes.RecordVote`.
- `Votes.Tally` (oyez/corpus.py:94-101) by `Votes.TallyMeaning`.
- `Votes.DecisionOf` (oyez/corpus.py:74-80) by `Votes.LoadDecisionsRead` and `Votes.TallyMeaning`.
- `Transcripts.TurnOf` (oyez/transcripts.py:71-76) by `Transcripts.FlattenAt`.
- `Strings.Split` by `Strings.SplitJoin`, `Strings.SplitPartsFree`, `Strings.SplitSingle`, `Strings.SplitCount` and `Strings.JoinSplit`.
- `Strings.Upper` and `Strings.ReplaceChar` by `Cases.OriginalDocketNumber`.
- `Strings.ParseInt` by `Strings.ParseShowInt`.

## Left out

- File and directory I/O is left out: `read_summary`, `os.listdir`, `open` and `json.load`, `transcripts.main` and the `.textgrid` write. `Corpus.BuildVotes` takes each file's name together with its parsed content. The module-level `build()` is modelled only for the identifiers it derives from transcript names (`Corpus.TranscribedNames`, `Corpus.TranscriptNameRoundTrip`, `Corpus.TranscribedNamesOf`), since those are what it hands to `CaseCorpus.build`.
- The module-level `build()` also drops summaries without a citation. The model's summary records always carry a citation, so that filter is not modelled.
- The module-level `build()` sorts the identifiers before building. `Corpus.Build` takes them in any order; the order only affects the order of keys within one docket's list.
- The `textgrid` library is foreign code and is not modelled. Tiers and the grid are plain sequences, and whatever the library validates in `IntervalTier.add` is not checked.
- Dates are opaque. Event timestamps stay as epoch seconds instead of going through `datetime.fromtimestamp`. A transcript's date stays as the title text instead of going through `strptime`, so a date `strptime` would reject is not modelled as a failure.
- `print` diagnostics are not modelled. A vote file with a non-`json` extension only draws a warning, so it is treated like any other file.
- The empty stubs `Party` and `load_transcript`, and the plain dictionary subclass `Roladex`, are not modelled.
- `Strings.Upper`: only ASCII letters are upper-cased. Python's full Unicode case mapping is not modelled.
- `Strings.ParseInt`: accepts an optional sign followed by decimal digits. The whitespace and digit-group underscores Python's `int()` also accepts are not modelled. A year with an underscore never reaches `int()` anyway, because such a case is irregular.
- Crash paths the source does not catch are preconditions, not behaviour:
  - `int()` of an appellate year that is not a number (`Corpus.Build`);
  - a voting member with an empty `roles` list (`Votes.LoadVotes`);
  - a vote-file name that passes the filters but does not split into three pieces (`Corpus.VoteFileDocket`);
  - a transcript with a payload and a well-formed title but no text blocks (`Transcripts.NewTranscript`);
  - `load_votes` on a case without a summary, which has no `oyez_id` (`Votes.LoadVotes`).
- JSON values are typed. The `null` speaker and the `null` advocate block are modelled, since the source handles both. Any other missing key or value of the wrong type is outside the model; those the advocates loop's bare `except` would also swallow (a malformed `advocate` block) are among them.
- `Corpus.Build`: its own contract only says the summaries and registry are kept. What it stores is stated by `Corpus.BuildContents`, `Corpus.BuildConsistent` and `Corpus.BuildAdmitted`, and what it indexes by `Corpus.BuildIndex`.
- `Corpus.BuildVotes`: its own contract only says the registry stays well formed. The effect of each dispatch is stated by `Corpus.DispatchVotesMeaning`, and the effect of the whole run by `Corpus.BuildVotesFrame`.
- `Corpus.DispatchVotes`: its own contract only says the registry stays well formed. Its effect is stated by `Corpus.DispatchVotesMeaning`.
- `Votes.LoadVoteEntries`: its own contract covers the justices list and well-formedness. Its registry effect is stated by `Votes.LoadVoteEntriesRegistry`, `Votes.LoadVoteEntriesLinked` and, for each voter's record, `Votes.LoadVoteEntriesVoters`.
- `Votes.LoadDecisions`: the contents of the decisions it keeps are stated by `Votes.LoadDecisionsRead`. The justices and registry it produces are stated by `Votes.LoadDecisionsVoters`, `Votes.LoadDecisionsLinked` and `Votes.LoadDecisionsVoterRecords`.
- `Votes.LoadAdvocates`: what it records for each person is stated by `Votes.LoadAdvocatesRecords`.
- `Votes.LoadVotes`: its own contract only frames which fields change. The rest is stated by `Votes.LoadVotesIrregular`, `Votes.LoadVotesContents`, `Votes.LoadVotesRegistry` (which includes each voter's record) and `Votes.LoadVotesLinked`.
- `Corpus.Empty`: `CaseCorpus(json_obj=...)` passes the keyword on to `dict.__init__` (oyez/corpus.py:211-212), so the Python dictionary also holds an item `'json_obj'`. That item is not in the case map: it is not a parsed case, and no modelled operation reads it.
- `Corpus.SetItem`: its contract does not cover the index. The index update is stated by `Corpus.SetItemIndex`.
