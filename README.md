# rbot storage, poll, YouTube and weather logic in Dafny

This project models four parts of the rbot IRC bot and proves properties of
the model.

- **The Berkeley DB storage layer** (`lib/rbot/dbhash.rb`). It covers:
  - the case-insensitive key order of every ordered store;
  - how a store's file is found and whether it is opened or created;
  - the process-wide database environment `@@env`, which is opened lazily
    once, has its logs cleaned, and is closed and removed at shutdown.

  The library is abstract. The disk is a set of paths. The environment is a
  record of its home, its active-transaction count and two lists of log
  files: those archivable now, and those a checkpoint frees. Each
  environment and cleanup call that can raise is given as a fault flag; a
  database open fails when its file appeared or vanished after the
  `File.exist?` test, given as the directory the open finds. Each run records the calls
  it makes in order, so the order of the shutdown steps can be stated.
- **Polls** (`data/rbot/plugins/poll.rb`).
  - The `Poll` object: lettered answers, a tally and one vote per voter,
    with the life cycle not running, then running, then stopped.
  - The plugin around it: duration parsing, the per-author limit, parsing
    of the question and answers, id allocation, the outcome computed when a
    poll closes, and the `:running` / `:archives` / `:last_poll_id`
    registry.
- **YouTube helpers** (`data/rbot/plugins/youtube.rb`).
  - The `PT#H#M#S` duration parser.
  - `comma_numbers`.
  - The video-id test of `info`.
  - The whitespace collapse applied to descriptions.
- **Weather helpers** (`data/rbot/plugins/weather.rb`).
  - The heat-index / windchill clause.
  - The row filter of Weather Underground pages.
  - The units and service selection of `weather`, with the nick → location
    registry it writes.
  - The reply-type dispatch of `communicate`.

Where the source changes state, the model has a class with the same fields.

- `DbHash.DbTree` holds `@@env`, the disk and the library-call trace.
- `Polls.Poll` holds a poll's instance variables.
- `PollPlugin.PollPlugin` holds the three registry entries.
- `Weather.WeatherPlugin` holds the location registry.

Each method is proved to produce exactly the reply and new state of a
function over values that follows the code as written. Lemmas about those
functions then state what the source does. Where the code as written
departs from what it evidently means (see Findings), the intended
definition is stated beside it, marked "corrected", with its own lemmas. The bot's registry marshals what it stores, so a stored
poll is a value (`Polls.PollData`). The plugin methods load it into a fresh
`Poll`, run the `Poll` method and store the result back, as the source does.

Files:

- `Wrappers.dfy`: `Option` and `Result`.
- `Text.dfy`: the Ruby string operations the core relies on:
  - ASCII `downcase`/`upcase`;
  - `split(' ')`;
  - `String#to_i`;
  - decimal text of a number;
  - `join`.
- `DbHash.dfy`, `Polls.dfy`, `PollPlugin.dfy`, `YouTube.dfy`, `Weather.dfy`:
  one module per source file. The `Poll` class and the `PollPlugin` class
  are in separate modules.

The model departs from a plain reading of the source in a few places:

- `cleanup_env` still runs `cleanup_logs`, which deletes logs, when
  transactions are active. Only `BDB::Env.remove` is skipped
  (`lib/rbot/dbhash.rb:183-196`). The model follows that.
- The comment at `lib/rbot/dbhash.rb:94` asks for `lg_max` to be at least
  four times `lg_bsize`. Nothing enforces it, and the model does not
  either.
- In `weather`, both branches compute `loc` as `where[1].to_s`
  (`data/rbot/plugins/weather.rb:133` and `:144`), and nothing uses it. The
  report helpers get the whole `where`: an array of words, or the whole
  stored entry.

## Model

| member | source | states |
|---|---|---|
| DbHash.Spaceship | lib/rbot/dbhash.rb:37 | String#<=> answers -1, 0 or 1, and 0 exactly on equal strings |
| DbHash.SpaceshipAntisymmetric | lib/rbot/dbhash.rb:37 | swapping the operands of <=> negates its answer |
| DbHash.SpaceshipTransitive | lib/rbot/dbhash.rb:37 | <=> is transitive |
| DbHash.CompareKeys | lib/rbot/dbhash.rb:33-38 | the comparator answers -1, 0 or 1; 0 exactly when the keys, nil read as "", differ only in ASCII letter case; it warns exactly when an operand is nil |
| DbHash.CompareKeysAntisymmetric | lib/rbot/dbhash.rb:37 | cmp(a, b) = -cmp(b, a) |
| DbHash.CompareKeysTransitive | lib/rbot/dbhash.rb:37 | the key order is transitive, so it is a total preorder a btree can use |
| DbHash.CompareKeysIsLowercaseOrder | lib/rbot/dbhash.rb:37 | the order is <=> of the downcased keys, nil read as "" |
| DbHash.CaseVariantsCompareAlike | lib/rbot/dbhash.rb:37 | keys that differ only in letter case compare the same way with every other key |
| DbHash.ResolvePath | lib/rbot/dbhash.rb:55-63 | an absolute key is the file name itself; a relative key is the bot path followed by ".db" |
| DbHash.OpenFile | lib/rbot/dbhash.rb:76-85 | "r+" succeeds exactly when the file exists; CREATE\|EXCL succeeds exactly when it does not; on success the file is present; otherwise the matching error |
| DbHash.OpenStore | lib/rbot/dbhash.rb:57-69 | an existing file is opened, never re-created; a file is created only where none existed, so nothing is truncated; with no interference the open succeeds; losing the creation race is an error |
| DbHash.EnsureEnv | lib/rbot/dbhash.rb:101-110 | with `@@env` set nothing happens; otherwise one open with set_lg_max, whose `conf` is then read, and exactly one retry without set_lg_max when the open or the read raises; success leaves a fresh environment with no transactions (with lg_max only when nothing raised); it fails exactly when the retry runs and raises, with `@@env` still nil when the first open raised and holding the first environment when the read did; database files are untouched |
| DbHash.FailedRetryKeepsFirstEnv | lib/rbot/dbhash.rb:101-108 | when the `conf` read and the retry raise, DBTree.new raises but `@@env` stays set, and the next DBTree reuses it without opening |
| DbHash.EnvSharedAfterOpen | lib/rbot/dbhash.rb:101 | once the environment is open, every later DBTree reuses it without calling the library |
| DbHash.OpenTree | lib/rbot/dbhash.rb:98-142 | DBTree#initialize keeps an open environment; a failed environment open stops before any database call; otherwise one `open_db` of the resolved path follows, "r+" when the file existed and CREATE\|EXCL otherwise; it succeeds exactly when the file is still (or still not) there when the open runs, leaving the file on disk; if another process created or removed it in between, AlreadyExists or NoSuchFile is raised with the environment kept open; with no such interference only the environment open can fail |
| DbHash.DeleteLogsRemovesPrefix | lib/rbot/dbhash.rb:156-158 | the deletion loop removes exactly the logs it got through, and stops at the first missing one |
| DbHash.DeleteLogsAllPresent | lib/rbot/dbhash.rb:156-158 | when every listed log is on disk and listed once, all of them are deleted |
| DbHash.PurgeOnlyDeletes | lib/rbot/dbhash.rb:156-158 | the deletion loop makes no library call but File.delete |
| DbHash.PurgeDeletesListed | lib/rbot/dbhash.rb:154-158 | the loop tries and removes only logs that log_archive listed |
| DbHash.AfterCheckpointRecyclable | lib/rbot/dbhash.rb:145-154 | whether or not the checkpoint raised, the listed logs are among those archivable now or freed by the checkpoint |
| DbHash.CleanupLogsKeepsEnv | lib/rbot/dbhash.rb:144-162 | cleanup_logs keeps the environment, its home and its transaction count; the checkpoint comes first and the flush is tried whether or not the checkpoint raised; the archive follows a flush that did not raise |
| DbHash.CleanupLogsDeletesOnlyLogs | lib/rbot/dbhash.rb:144-162 | cleanup_logs only deletes files, and only recyclable logs |
| DbHash.CleanupLogsFreesAllLogs | lib/rbot/dbhash.rb:144-162 | when nothing raises, every recyclable log is deleted and the environment lists none |
| DbHash.CleanupLogsCalls | lib/rbot/dbhash.rb:144-162 | cleanup_logs never reads the transaction count, closes or removes the environment |
| DbHash.CleanupEnvReadsTxnsFirst | lib/rbot/dbhash.rb:181-186 | the transaction count is the first call of cleanup_env and is read only once |
| DbHash.CleanupEnvClearsEnv | lib/rbot/dbhash.rb:187-190 | once cleanup_env gets past the close, `@@env` is nil |
| DbHash.CleanupEnvRemovesOnlyWhenIdle | lib/rbot/dbhash.rb:179-200 | Env.remove is called only when no transaction was active, on the environment's home, as the last call, right after the close; with active transactions the region files stay; the three reports are returned exactly in their cases |
| DbHash.CleanupEnvKeepsDatabases | lib/rbot/dbhash.rb:179-200 | files that are not recyclable logs, the databases among them, survive cleanup_env |
| DbHash.DbTree.constructor | lib/rbot/dbhash.rb:92 | the process starts with `@@env` nil |
| DbHash.DbTree.EnsureOpen | lib/rbot/dbhash.rb:101-110 | the lazy open moves the state and records the calls exactly as EnsureEnv says |
| DbHash.DbTree.Open | lib/rbot/dbhash.rb:98-142 | DBTree#initialize answers, moves the state and records the calls exactly as OpenTree says |
| DbHash.DbTree.CleanupLogs | lib/rbot/dbhash.rb:144-162 | DBTree.cleanup_logs moves the state and records the calls exactly as CleanupLogsSpec says |
| DbHash.DbTree.SecondBlock | lib/rbot/dbhash.rb:151-161 | the second guarded block: flush, archive, then the deletions |
| DbHash.DbTree.PurgeLogFiles | lib/rbot/dbhash.rb:154-158 | the deletion loop over the environment's archivable logs, as PurgeLogs says |
| DbHash.DbTree.DeleteLogFiles | lib/rbot/dbhash.rb:156-158 | the `logs.each` loop leaves the files DeleteLogs gives, and records one delete per log it tried, the failing one included |
| DbHash.DbTree.CleanupEnv | lib/rbot/dbhash.rb:179-200 | DBTree.cleanup_env moves the state, records the calls and reports exactly as CleanupEnvSpec says |
| DbHash.DbTree.Finish | lib/rbot/dbhash.rb:187-196 | the close, `@@env = nil` and the conditional remove, as CloseAndRemove says |
| Polls.Label | data/rbot/plugins/poll.rb:26-32 | answer letters are non-empty runs of capitals, one letter exactly for the first 26 answers |
| Polls.LabelSucc | data/rbot/plugins/poll.rb:32 | `next!` on a letter gives the letter of the next answer, "Z" to "AA" and "AZ" to "BA" included |
| Polls.LabelInjective | data/rbot/plugins/poll.rb:26-33 | different answers get different letters, so no answer overwrites another |
| Polls.FreshAnswers | data/rbot/plugins/poll.rb:26-33 | one entry per answer, in input order, with letter Label(k), the answer text and count 0 |
| Polls.BuildAnswers | data/rbot/plugins/poll.rb:26-33 | the `answers.each` / `next!` loop builds exactly FreshAnswers |
| Polls.NewPollIsFresh | data/rbot/plugins/poll.rb:16-34 | a new poll is not running and has no voters; its answers are the input in order under "A", "B", ..., each with count 0; its tally is consistent |
| Polls.StartStopKeepTally | data/rbot/plugins/poll.rb:36-47 | start! and stop! keep answers and voters; start! of a running poll is a no-op, otherwise it runs until started + duration; stop! leaves it stopped and a second stop! is a no-op |
| Polls.FindLetter | data/rbot/plugins/poll.rb:59 | `has_key?`: found exactly when some answer has the letter, and where |
| Polls.VoteRejected | data/rbot/plugins/poll.rb:50-56 | a vote on a closed poll, or a second vote by the same voter, is refused with its message and changes nothing |
| Polls.VoteKnownLetter | data/rbot/plugins/poll.rb:58-63 | a known letter, in any case, adds exactly one to that answer, leaves the others alone and records the upcased letter for the voter |
| Polls.VoteUnknownLetter | data/rbot/plugins/poll.rb:58-66 | an unknown letter is refused with its upcased form and changes nothing |
| Polls.VotePreservesTally | data/rbot/plugins/poll.rb:49-67 | every vote keeps the tally consistent: the counts add up to the number of voters, every recorded choice is an answer key, each count is the number of voters who chose it |
| Polls.VoteForLetter | data/rbot/plugins/poll.rb:60-61 | one more vote for an answer, recorded under its letter, keeps the tally consistent |
| Polls.TotalBump | data/rbot/plugins/poll.rb:60 | one more vote adds one to the total |
| Polls.Poll.constructor | data/rbot/plugins/poll.rb:16-34 | Poll#initialize sets the fields as NewPoll says |
| Polls.Poll.Start | data/rbot/plugins/poll.rb:36-42 | start! sets the fields as Started says |
| Polls.Poll.Stop | data/rbot/plugins/poll.rb:44-47 | stop! sets the fields as Stopped says |
| Polls.Poll.RecordVote | data/rbot/plugins/poll.rb:49-67 | record_vote answers and changes the fields exactly as Vote says |
| PollPlugin.Multiplier | data/rbot/plugins/poll.rb:112-118 | the unit is known exactly when it is seconds, minutes, hours, days or weeks |
| PollPlugin.ParseDuration | data/rbot/plugins/poll.rb:159-165 | with fewer than two words there is no unit; an unknown unit is an error naming it |
| PollPlugin.ParseDurationOfAmount | data/rbot/plugins/poll.rb:159-161 | "<n> <unit>" gives n times the unit's seconds for every known unit |
| PollPlugin.ParseBlobWith | data/rbot/plugins/poll.rb:140-150 | "This isn't a dictatorship!" exactly when there are at most two chunks; on success at least two answers and a non-empty question |
| PollPlugin.ParseBlob | data/rbot/plugins/poll.rb:140-150 | corrected: the parsed question and answers carry no quote character (the question's added "?" aside); see Findings |
| PollPlugin.ParseBlobOfQuoted | data/rbot/plugins/poll.rb:140-150 | corrected: a blob written as the help shows, with any quote character, gives back its question with "?" added and its answers, in order |
| PollPlugin.ParseBlobAsWrittenKeepsQuotes | data/rbot/plugins/poll.rb:148-150 | as written, a blob quoted with `'` keeps the opening quote on the question and the closing quote on the last answer |
| PollPlugin.WithQuestionMark | data/rbot/plugins/poll.rb:149 | the question ends in "?" and gains one only when it did not already end in one |
| PollPlugin.SortByCount | data/rbot/plugins/poll.rb:195 | the sort orders answers by descending count, and is a permutation with the same total |
| PollPlugin.Percent | data/rbot/plugins/poll.rb:211 | corrected: the winner's share 100·count/total to the nearest integer, between 0 and 100 |
| PollPlugin.PercentAsWrittenDropsShare | data/rbot/plugins/poll.rb:211 | as written, every winner short of a unanimous vote gets 0% (2 of 3 votes: 0, not 67) |
| PollPlugin.NobodyVotedIff | data/rbot/plugins/poll.rb:198-201 | "Nobody voted" exactly when every count is 0 |
| PollPlugin.WinnerOfUniqueTop | data/rbot/plugins/poll.rb:211-215 | an answer with strictly the most votes is the winner, with its letter, text, votes and the share as written, 100·(count/total) in integers |
| PollPlugin.WinnerShareAsWritten | data/rbot/plugins/poll.rb:211 | as written, the winner's reported share is 100 when it took every vote and 0 otherwise |
| PollPlugin.UniqueTopOfWinner | data/rbot/plugins/poll.rb:203-215 | a winner has strictly the most votes |
| PollPlugin.NoClearWinnerIff | data/rbot/plugins/poll.rb:200-209 | there is no clear winner exactly when somebody voted and no answer leads alone |
| PollPlugin.NoClearWinnerTally | data/rbot/plugins/poll.rb:204-209 | a tie lists exactly the answers that got votes, with their counts, most votes first |
| PollPlugin.StartShape | data/rbot/plugins/poll.rb:130-184 | the checks run in source order; every rejection leaves the registry alone; an opening files the parsed poll under last_poll_id + 1 |
| PollPlugin.StartOpensFreshPoll | data/rbot/plugins/poll.rb:167-183 | an accepted start files a running poll by the author, with no votes, ending at now + duration, under the free id last_poll_id + 1, which becomes last_poll_id; other polls are untouched and the registry stays valid |
| PollPlugin.StartCountsAuthor | data/rbot/plugins/poll.rb:120-138 | starting a poll counts one more running poll for its author and none for anybody else |
| PollPlugin.StartKeepsAuthorLimit | data/rbot/plugins/poll.rb:134-138 | an author at or under the limit stays at or under it |
| PollPlugin.CountVotesArchives | data/rbot/plugins/poll.rb:186-230 | a vanished id changes nothing; otherwise the poll moves under the same id from running to archives, stopped, with its votes and its outcome; no other poll changes; the registry stays valid |
| PollPlugin.RecordVoteKeepsRegistry | data/rbot/plugins/poll.rb:243-258 | the id is read with to_i (sign, `0d` prefix, underscores); an id not running is refused and changes nothing; otherwise only that poll changes, exactly as Poll#record_vote says; the registry stays valid |
| PollPlugin.PollPlugin.constructor | data/rbot/plugins/poll.rb:99-110 | a stored registry entry is kept, and a missing one gets its default |
| PollPlugin.PollPlugin.Start | data/rbot/plugins/poll.rb:130-184 | PollPlugin#start answers and changes the registry exactly as StartSpec says, with the blob parsed as written (only `"` removed) |
| PollPlugin.PollPlugin.CountVotes | data/rbot/plugins/poll.rb:186-230 | count_votes changes the registry exactly as CountVotesSpec says, with the share computed as written |
| PollPlugin.PollPlugin.RecordVote | data/rbot/plugins/poll.rb:243-258 | record_vote answers and changes the registry exactly as RecordVoteSpec says |
| YouTube.FindPT | data/rbot/plugins/youtube.rb:86-87 | the match starts at the first "PT", or there is none |
| YouTube.ParseIsoDuration | data/rbot/plugins/youtube.rb:85-97 | nil exactly when the text has no "PT" |
| YouTube.ParseIsoText | data/rbot/plugins/youtube.rb:85-93 | every `PT[#H][#M][#S]` gives seconds + 60·minutes + 3600·hours, a missing part counting 0, so "PT" alone is 0 |
| YouTube.ParseIsoOfPT | data/rbot/plugins/youtube.rb:85-93 | any text starting with "PT" parses to a duration |
| YouTube.CommaNumbersRoundTrip | data/rbot/plugins/youtube.rb:216-218 | removing the delimiters from comma_numbers(n) gives back the digits of n |
| YouTube.CommaNumbersShape | data/rbot/plugins/youtube.rb:216-218 | up to three digits are unchanged; otherwise the digits in groups of three from the right, the leftmost group with one to three, joined by the delimiter, never leading with it |
| YouTube.CommaNumbersGroups | data/rbot/plugins/youtube.rb:217 | on a digit string, comma_numbers joins its groups of three with the delimiter |
| YouTube.Thousands | data/rbot/plugins/youtube.rb:217 | the leftmost group has one to three digits and every other group exactly three |
| YouTube.MovieId | data/rbot/plugins/youtube.rb:158-163 | an id, when there is one, is the movie text itself |
| YouTube.MovieIdOfLine | data/rbot/plugins/youtube.rb:161-163 | on a one-line text, the id is used exactly when the text is non-empty ASCII letters and digits |
| YouTube.MovieIdOfLines | data/rbot/plugins/youtube.rb:161-163 | Ruby's `^`/`$` anchor at line breaks: one alphanumeric line makes the whole text the id |
| YouTube.Collapse | data/rbot/plugins/youtube.rb:73-75 | the collapse is empty exactly on empty text, and keeps the first character or turns leading whitespace into one space |
| YouTube.CollapseDescription | data/rbot/plugins/youtube.rb:73-75 | a missing description stays missing; a present one has no whitespace but single spaces |
| YouTube.CollapsedResult | data/rbot/plugins/youtube.rb:74 | after the collapse, whitespace is only single spaces |
| YouTube.CollapseIdempotent | data/rbot/plugins/youtube.rb:74 | collapsing twice is collapsing once |
| YouTube.CollapseKeepsText | data/rbot/plugins/youtube.rb:74 | every other character is kept, in order |
| YouTube.CollapseJoinsWords | data/rbot/plugins/youtube.rb:74 | on text that neither starts nor ends with whitespace, the collapse is its words joined by single spaces |
| Weather.HeatIndexOrWindChill | data/rbot/plugins/weather.rb:60-70 | the heat-index clause exactly when the heat index is present and not "NA"; the windchill clause exactly when the heat index is unusable and the windchill usable; "" exactly when neither |
| Weather.WuWeatherFilter | data/rbot/plugins/weather.rb:312-326 | the result is the header line, if any, then the reported rows, joined with "; " |
| Weather.ReportedLinesSound | data/rbot/plugins/weather.rb:317-323 | every line comes from a row that is not empty, not a placeholder and not the raw METAR |
| Weather.ReportedLinesComplete | data/rbot/plugins/weather.rb:317-323 | every reported row's line is in the result |
| Weather.ReportedLinesAround | data/rbot/plugins/weather.rb:317-324 | each row's line, or nothing when it is dropped, sits between the lines of the rows before and after it, keeping page order |
| Weather.ReportedLinesAppend | data/rbot/plugins/weather.rb:317-324 | the filter of two stretches of rows is the two filters in order |
| Weather.UnitsSuffix | data/rbot/plugins/weather.rb:156-166 | "_english"/"_metric" exactly for those units; "" for both, nil and unknown units; a notice exactly for unknown units |
| Weather.ServiceOf | data/rbot/plugins/weather.rb:141-147 | "nws" and "station" select those services, any other first word the wu service |
| Weather.OrElse | data/rbot/plugins/weather.rb:134 | the units parameter when given, otherwise the stored units |
| Weather.WeatherRegistryWritesAsWritten | data/rbot/plugins/weather.rb:126-183 | as written, "I don't know where you are" exactly when there is no location and none stored; only a wu or station report writes the registry, and only the nick's entry, with the service and location asked and with the units parameter, or else the stored units, for a bare `weather` and none for an explicit location, whose suffix and notice the lookup uses; anything else leaves it alone |
| Weather.ExplicitLocationAsWritten | data/rbot/plugins/weather.rb:140-182 | as written, an explicit "nws" location makes the helper raise and stores nothing; any other asks station or wu with the words as given and no units, and stores them without units |
| Weather.WeatherKeepsWrittenAsWritten | data/rbot/plugins/weather.rb:168-182 | as written, every entry `weather` stores names station or wu, so on a registry it wrote the unknown-service answer never comes and only an explicit "nws" location raises |
| Weather.WeatherRegistryWrites | data/rbot/plugins/weather.rb:126-183 | corrected: "I don't know where you are" exactly when there is no location and none stored; a known service writes the nick's entry and no other, with the units parameter (or the stored units for a bare `weather`), whose suffix and notice the lookup uses; anything else leaves the registry alone |
| Weather.ExplicitLocation | data/rbot/plugins/weather.rb:140-174 | corrected: an explicit location asks the service its first word names, passes the words on and honours the units parameter |
| Weather.WeatherKeepsValid | data/rbot/plugins/weather.rb:168-182 | corrected: entries hold a known service and a given location, so an unknown service never comes from a registry `weather` wrote |
| Weather.WeatherRemembers | data/rbot/plugins/weather.rb:127-134 | corrected: after `weather <location>`, a bare `weather` asks for the same report and rewrites the same entry |
| Weather.UnitsIgnoredAsWritten | data/rbot/plugins/weather.rb:141-160 | as written, `weather metric London` asks for the report with no units suffix |
| Weather.StoredEntryNestsAsWritten | data/rbot/plugins/weather.rb:129-182 | as written, a bare `weather` passes the whole stored entry on and stores it one level deeper |
| Weather.WeatherPlugin.constructor | data/rbot/plugins/weather.rb:126 | the plugin starts from the stored registry |
| Weather.WeatherPlugin.Weather | data/rbot/plugins/weather.rb:126-183 | the `weather` command answers and changes the registry exactly as WeatherAsWritten says: a stored entry is passed on whole, an explicit location drops the units, and the nws and google helpers raise before the write |
| Weather.Communicate | data/rbot/plugins/weather.rb:88-104 | private gives a private reply; notice gives a notify on a private message and a channel notice otherwise; "private notice" gives a notify; anything else a public reply |
| Text.ToIOfNatToString | data/rbot/plugins/poll.rb:244 | `to_i` reads back the decimal text of a number |
| Text.ToIOfDecimalPrefix | data/rbot/plugins/poll.rb:244 | after an optional sign, `to_i` skips a `0d` or `0D` prefix: `"0d1".to_i` is 1 and `"-0D5".to_i` is -5 |

## Left out

- Berkeley DB itself: btree and hash storage, the log format, checkpoint mechanics and the `Env.open` flags. Each library call is an abstract effect; the environment and cleanup calls each have a fault flag, and `open_db` fails through the directory it finds (see DbHash.OpenTree below).
- DbHash.OpenTree: `open_db` raises only because its file appeared or vanished after `File.exist?`; a corrupt or unreadable database file is not modelled.
- DbHash.EnsureEnv: when the `conf` read raises and the retry succeeds, the first environment stays open but unreferenced; the model keeps only the one `@@env` holds.
- `method_missing` forwarding (`lib/rbot/dbhash.rb:72-74`, `130-132`). It stands only behind `DbHash.DbTree.BeginTxn`, `EndTxn` and `RollLog`, which play the library's transaction and log activity so that the cleanup has a state to act on.
- The library load and version checks, and `DBTree.stats`. These are startup aborts and debug dumps.
- The `lg_max` of four times `lg_bsize`. It is a comment, not a rule the code enforces.
- `@bot.path` and `@bot.botclass`. They are passed in as strings.
- Network fetching and page parsing:
  - `httputil`, REXML, JSON and Hpricot;
  - `ircify_html` and `riphtml`;
  - the YouTube URL extraction;
  - `CurrentConditions`, `wu_check_special`, `wu_weather_multi`, `nws_describe`, `wu_station`, `wu_weather` and `google_weather`.

  The model works on text already extracted. `weather` stops at which helper it would ask and with what.
- `data/rbot/plugins/fml.rb`. It is HTTP fetching and HTML scraping with no logic of its own.
- Timers and the clock. `Time.now` is a parameter, and the `timer.add_once` that calls count_votes is the caller's business.
- IRC replies and message formatting:
  - `Bold`;
  - `options`, `printing_values`, `to_s`;
  - the text of each reply, modelled by reply constructors;
  - `%3.0f` in count_votes, modelled as an integer percentage.
- `list`, `info` and `help` of the poll plugin, and `help` of the weather plugin. These only format replies.
- Threading. Everything is sequential.
- Unicode case mapping. `downcase`/`upcase` are modelled on ASCII letters.
- PollPlugin.Split: the separator is the blob's first character taken literally. The source builds a regular expression from it, and there a metacharacter quote such as `.` or `*` would mean something else.
- Errors the source leaves to Ruby. An empty question makes `question[-1].chr` raise, and a duration of one word makes `units.to_sym` raise. The bot reports such an exception to the user. The model answers `NoQuestion` and `NoUnit` instead, and leaves the registry alone, as the exception does.
- `poll start` with an empty blob. The command's `*blob` parameter always has a word, so the blob starts with a non-space character; ParseBlobWith and StartSpec require that.
- PollPlugin.SortByCount: the sort is stable. Ruby's sort is not, so among answers with equal counts the source's order in the tie list may differ.
- PollPlugin.Percent: this is the corrected share, not the figure the source prints. The source divides integers first (`PollPlugin.PercentAsWritten`, used by `ComputeOutcome`); see Findings. Percent rounds halves up, whereas `%3.0f` on the intended float would round them to even.
- YouTube.CommaNumbers: the delimiter is one character. The source accepts a string, and the round trip is stated for a delimiter that is not a digit.
- The `:service` parameter of `weather`. The command template `weather :units :service *where` (`data/rbot/plugins/weather.rb:408-418`) binds a leading word matching `wu|nws|station|google` to `:service`, which the code never reads; so that word never reaches `where`. The documented `weather nws <station>` and `weather station <code>` (`:108-109`) therefore go to wu with `where` = `[<code>]`, and the nws and station branches are reached only when `where` itself starts with the service word, as in `weather nws nws KJFK`. The model starts from `where` as the template leaves it; the command parsing is not modelled.
- The second `where.empty?` check of `weather` (`data/rbot/plugins/weather.rb:150-154`). Neither branch can reach it with an empty `where`.
- Weather.WeatherPlugin.Weather: what the report helpers send is not modelled. Only whether each one returns is modelled. `nws_describe` and `google_weather` are given an array where they expect a string. They raise outside their own rescue: `CurrentConditions.new` upcases an array (`data/rbot/plugins/weather.rb:21`, `:189`), and `CGI.escape` escapes one (`:338`). So `weather` never reaches the registry write for them (reply `HelperRaised`). `wu_station` and `wu_weather` escape the same array with `CGI.escape(where)` (`:208`, `:231`), which raises too, but inside their own rescue (`:224`, `:254`): as written, every wu and station lookup answers "retrieving info about ... failed", and then the write is reached. The model's `Looked` reply records which helper was asked and with what, not that it reported weather.

## Findings

| source | as written | input that shows it | evidently intended | confidence | as-written member | corrected member |
|---|---|---|---|---|---|---|
| data/rbot/plugins/poll.rb:211 | `100 * (count / total)` divides integers first | 2 votes of 3 for the winner shows "  0%" | the winner's share, 67% | high; not executed | PollPlugin.PercentAsWrittenDropsShare | PollPlugin.Percent |
| data/rbot/plugins/poll.rb:148-150 | the blob is split at its own first character but only `"` is removed | `poll start 'Lunch' 'pizza' 'soup'` gives question `'Lunch?` and last answer `soup'` | the quote character used is removed | high; not executed | PollPlugin.ParseBlobAsWrittenKeepsQuotes | PollPlugin.ParseBlobOfQuoted |
| data/rbot/plugins/weather.rb:141-160 | with an explicit location `units` is never assigned, so it is nil | `weather metric London` asks for the report without `_metric` | the units parameter is honoured | high; not executed | Weather.UnitsIgnoredAsWritten | Weather.ExplicitLocation |
| data/rbot/plugins/weather.rb:129-182 | a bare `weather` hands on and stores the whole stored entry as the location | `weather London`, then `weather`, stores `[:wu, [:wu, ["London"], nil], nil]` | the stored location is reused | medium; not executed | Weather.StoredEntryNestsAsWritten | Weather.WeatherRemembers |
| data/rbot/plugins/weather.rb:140-189 | the nws helper gets the word array `where`, not the computed `loc`, and `CurrentConditions.new` upcases it (line 21) | `weather nws nws KJFK` (the template takes the first "nws" as `:service`, so `where` is `["nws", "KJFK"]`) raises NoMethodError and stores nothing | the nws service is asked and the location is remembered (the corrected member passes the words as given, not `loc`) | medium; not executed | Weather.ExplicitLocationAsWritten | Weather.ExplicitLocation |
