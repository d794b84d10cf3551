# Voice assistant command resolution, modelled in Dafny

`VoiceAssistant` (in `v_assis.py`) listens for an utterance and answers it from a
phrase table. The table is built from three parts:

- a base table of 13 phrases, which a JSON commands file replaces when one is present;
- an extended table generated from templates (cartesian products of prefixes and
  suffixes, plus fixed lists);
- the dict merge `{**commands, **extended_commands}` of the two.

`process_command` answers an utterance in three stages:

1. It scans the merged table in insertion order and runs the handler of the first
   phrase that occurs anywhere in the utterance as a substring.
2. If no phrase occurs, it tries keyword rules (greeting, then time, then date, then
   joke).
3. If no rule applies, it gives a fixed "not sure" reply.

`stop` clears the liveness flag. `start` raises the flag, greets, and loops until the
flag drops.

The project models this core as follows:

- `wrappers.dfy`: the `Option` type.
- `text.dfy`: Python's `p in s` substring test, as `Text.Contains`, and the
  `endswith` test used to show that templates do not overlap.
- `handlers.dfy`: the closed set of handlers and the reply each one produces. The
  clock and the random source are parameters (`Env`).
- `table.dfy`: a Python `dict` with string keys, as a sequence of entries in insertion
  order. `Put` is `d[k] = v`: overwriting keeps the key's position, and a new key is
  appended. `PutAll` is a run of assignments or `dict.update`. `Merge` is
  `{**a, **b}`.
- `builder.dfy`:
  - `_load_commands` and the base table;
  - the template expansion of `_generate_extended_commands`, as a specification
    function and as the nested-loop method the source runs;
  - the merged table.
- `categories.dfy`: the categories of the generated table do not overlap. Every
  generated phrase keeps its own category's handler, and no assignment overwrites
  another, so the generated table holds 135 phrases.
- `resolver.dfy`: `process_command` as a specification (`Resolve`, `Reply`).
- `defaults.dfy`: facts about the table an assistant actually builds. These cover the
  stop phrases, the greeting entries that lead the table, and two phrases that the
  base table shadows.
- `assistant.dfy`: the `VoiceAssistant` class, with its flag and tables. Its methods
  are `ProcessCommand` (the scan loop), `Stop`, `Invoke` and `Start`. The listening
  loop runs over a finite sequence of turns.

Substring matching makes some generated phrases unreachable when spoken alone.
`DefaultTable.HiAlwaysGreets` shows that any utterance containing "hi" anywhere is
answered with a greeting, by the base "hello" entry or the base "hi" entry. Two examples of this shadowing:

- "tell me somet**hi**ng funny" contains "hi" in "something", so it is greeted,
  although the table binds it to the joke handler.
- "what's the weather" is answered by the base "weather" entry, although the
  extension binds it to the weather stub.

The model states this behaviour as the code has it.

## Model

| member | source | states |
|---|---|---|
| Text.Contains | v_assis.py:271 | `p in s` holds exactly when `p` occurs as a contiguous block of `s` at some offset |
| Text.ContainsInfix | v_assis.py:271 | a phrase is contained in any utterance that extends it on either side |
| Text.ContainsShorter | v_assis.py:271 | a contained phrase is never longer than the utterance |
| Handlers.Choose | v_assis.py:172 | `random.choice` always returns a member of the list |
| Handlers.ChooseCoversAll | v_assis.py:172 | every member of the list can be drawn |
| Handlers.GreetingReply | v_assis.py:162-172 | `_respond_hello` answers with one of its four greetings |
| Handlers.JokeReply | v_assis.py:188-204 | `_tell_joke` answers with one of its ten jokes |
| Handlers.Respond | v_assis.py:272-273 | no contract of its own. It is the reply of each handler: `_get_time` (174-179), `_get_date` (181-186) and the lambdas at lines 46, 50, 51, 134 and 138-154 as their literal texts. Its behaviour is stated by `GreetingReply`, `JokeReply`, `EveryGreetingReachable`, `EveryJokeReachable` and `Resolver.MatchedReply`; a static value being returned as it is, and `stop` saying goodbye, by the helper lemmas `StaticVerbatim` and `StopSaysGoodbye` |
| Handlers.HelpText | v_assis.py:206-224 | no contract of its own: the help reply is the source's literal text, with the assistant's name in its first line |
| Handlers.EveryGreetingReachable | v_assis.py:166-172 | each of the four greetings is produced for some random draw |
| Handlers.EveryJokeReachable | v_assis.py:192-204 | each of the ten jokes is produced for some random draw |
| CommandTable.IndexOf | v_assis.py:81 | finds the first position holding a key, and finds none exactly when the key is absent |
| CommandTable.Put | v_assis.py:81 | `d[k] = v` binds `k` to `v` and leaves every other key's value. The order of keys is unchanged when `k` was present; otherwise `k` is appended |
| CommandTable.OverwriteIndex | v_assis.py:81 | overwriting an existing key moves no key |
| CommandTable.AppendIndex | v_assis.py:81 | a new key goes last and moves no other key |
| CommandTable.LookupAt | v_assis.py:81 | in a dict, the key of entry `i` looks up entry `i`'s value |
| CommandTable.LookupDefined | v_assis.py:81 | a key has a value exactly when it is one of the table's keys |
| CommandTable.PutAll | v_assis.py:117 | a run of assignments keeps keys unique and keeps the existing keys at the front in their order |
| CommandTable.LastBindingDefined | v_assis.py:117 | a key has a surviving assignment exactly when some entry assigns it |
| CommandTable.LastBindingUnique | v_assis.py:42-56 | in a literal without repeated keys the surviving assignment is the only one |
| CommandTable.PutAllLookup | v_assis.py:117 | after `update(es)` a key holds its last value in `es`, or its old value when `es` does not assign it |
| CommandTable.PutAllKeys | v_assis.py:117 | after `update(es)` the keys are the old keys in their order, followed by the new keys of `es` in order of first appearance |
| CommandTable.PutAllIntoEmpty | v_assis.py:42-56 | a dict literal without repeated keys holds its entries in order |
| CommandTable.PutAllAppend | v_assis.py:72-156 | updating with `a` and then `b` is updating with `a + b` |
| CommandTable.Merge | v_assis.py:34 | no contract of its own. `{**a, **b}` is stated by `MergeKeys`, `MergeLookup`, `MergePrefix` and `MergeKeeps` |
| CommandTable.MergeKeys | v_assis.py:34 | `{**a, **b}` has unique keys, namely those of `a` in their order and then the new keys of `b`; a key is present exactly when it is in `a` or in `b` |
| CommandTable.MergeLookup | v_assis.py:34 | on a shared key the value from `b` wins; every other key keeps its value |
| CommandTable.MergePrefix | v_assis.py:34 | the keys of `a` keep their positions at the front of the merge |
| CommandTable.MergeKeeps | v_assis.py:34 | an entry of `a` whose key `b` lacks keeps its position and its value |
| Builder.LoadCommands | v_assis.py:38-66 | with no commands file the table is the 13-entry base table; with one, the file's table replaces it entirely. It then has exactly the file's keys, in the order they first appear in the file, each holding the last value the file gives it |
| Builder.Statics | v_assis.py:61 | no contract of its own: the values loaded from a file are static. Stated through `LoadCommands` and `DefaultTable.StaticsOnly` |
| Builder.ExtendedCommands | v_assis.py:68-160 | no contract of its own. Specified by `ExtendedLookup`, `GenerateExtended`, the `Categories` lemmas (each phrase keeps its category's handler; 135 phrases, in assignment order) and `DefaultTable.ExtendedUnique` |
| Builder.AllCommands | v_assis.py:34 | no contract of its own. The constructor ties `allCommands` to it; it is stated by the `DefaultTable` lemmas, through the merge lemmas |
| Builder.ProductShape | v_assis.py:78-81 | the nested loops produce one phrase per prefix and suffix; with `m` suffixes, prefix `i` joined to suffix `j` sits at position `i * m + j` |
| Builder.ProductLength | v_assis.py:78-81 | the nested loops produce the number of prefixes times the number of suffixes phrases |
| Builder.ProductAt | v_assis.py:78-81 | with `m` suffixes, prefix `i` joined to suffix `j` is the phrase at position `i * m + j` |
| Builder.ProductMember | v_assis.py:78-81 | a phrase is generated exactly when it joins some prefix, the separator and some suffix |
| Builder.ProductOnlyJoins | v_assis.py:96-99 | every generated phrase joins a prefix, the separator and a suffix |
| Builder.NotInProduct | v_assis.py:87-90 | a phrase starting with no prefix is never generated |
| Builder.ProductStartsWith | v_assis.py:132-134 | every generated phrase starts with one of the prefixes |
| Builder.ProductEndsWith | v_assis.py:78-81 | every generated phrase ends with one of the suffixes |
| Builder.ProductDistinct | v_assis.py:78-81 | when no prefix repeats and no suffix ends another suffix, the nested loops generate no phrase twice |
| Builder.ProductsApart | v_assis.py:75-90 | two templates whose suffixes do not end one another generate no common phrase |
| Builder.ListApart | v_assis.py:102-106 | a list none of whose phrases ends with a suffix of a template shares no phrase with that template |
| Builder.BindMember | v_assis.py:105-106 | a list bound to one handler holds exactly its phrases, each with that handler |
| Builder.LastBindingBind | v_assis.py:123-124 | assigning a list to one handler binds exactly its phrases to it |
| Builder.LastBindingAppend | v_assis.py:72-156 | for a later run of assignments, a key it assigns takes that run's value; any other key keeps the earlier value |
| Builder.LastBindingFrom | v_assis.py:72-156 | a surviving binding was made by one of the assignments |
| Builder.TemplateSizes | v_assis.py:75-134 | there are 20 time, 25 date, 25 joke and 30 calculator phrases. Each is its prefix and suffix joined in loop order, by a space, or by " me " for jokes. That none repeats is stated by the `Categories.*PhrasesDistinct` lemmas |
| Builder.ExtendedLookup | v_assis.py:68-160 | the generated table binds a phrase to the category assigned last among those that generate it (weather over music, calculator, help, stop, greeting, joke, date, time); a phrase no category generates is absent. The `Categories.*Kept` lemmas show that no phrase is generated by two categories |
| Builder.GenerateExtended | v_assis.py:68-160 | the loops and updates of `_generate_extended_commands`, run in source order, build exactly the generated table |
| Builder.AddProduct | v_assis.py:78-81 | the nested `for` loops assign every prefix-suffix phrase to the handler, in loop order |
| Builder.AddEach | v_assis.py:105-106 | a `for` loop over a list assigns each phrase to the handler, in order |
| Categories.TimePhrasesDistinct | v_assis.py:75-81 | no two of the generated time phrases are equal |
| Categories.DatePhrasesDistinct | v_assis.py:84-90 | no two of the generated date phrases are equal |
| Categories.JokePhrasesDistinct | v_assis.py:93-99 | no two of the generated joke phrases are equal |
| Categories.CalcPhrasesDistinct | v_assis.py:128-134 | no two of the generated calculator phrases are equal |
| Categories.TimeApartDate | v_assis.py:75-90 | no time phrase is a date phrase |
| Categories.TimeApartJoke | v_assis.py:75-99 | no time phrase is a joke phrase |
| Categories.TimeApartCalc | v_assis.py:75-134 | no time phrase is a calculator phrase |
| Categories.DateApartJoke | v_assis.py:84-99 | no date phrase is a joke phrase |
| Categories.DateApartCalc | v_assis.py:84-134 | no date phrase is a calculator phrase |
| Categories.JokeApartCalc | v_assis.py:93-134 | no joke phrase is a calculator phrase |
| Categories.GreetingNotTime | v_assis.py:75-106 | no greeting phrase is a time phrase |
| Categories.GreetingNotDate | v_assis.py:84-106 | no greeting phrase is a date phrase |
| Categories.GreetingNotJoke | v_assis.py:93-106 | no greeting phrase is a joke phrase |
| Categories.GreetingNotCalc | v_assis.py:102-134 | no greeting phrase is a calculator phrase |
| Categories.SystemNotTime | v_assis.py:75-117 | no system phrase is a time phrase |
| Categories.SystemNotDate | v_assis.py:84-117 | no system phrase is a date phrase |
| Categories.SystemNotJoke | v_assis.py:93-117 | no system phrase is a joke phrase |
| Categories.SystemNotCalc | v_assis.py:109-134 | no system phrase is a calculator phrase |
| Categories.HelpNotTime | v_assis.py:75-124 | no help phrase is a time phrase |
| Categories.HelpNotDate | v_assis.py:84-124 | no help phrase is a date phrase |
| Categories.HelpNotJoke | v_assis.py:93-124 | no help phrase is a joke phrase |
| Categories.HelpNotCalc | v_assis.py:120-134 | no help phrase is a calculator phrase |
| Categories.MusicNotTime | v_assis.py:75-146 | no music phrase is a time phrase |
| Categories.MusicNotDate | v_assis.py:84-146 | no music phrase is a date phrase |
| Categories.MusicNotJoke | v_assis.py:93-146 | no music phrase is a joke phrase |
| Categories.MusicNotCalc | v_assis.py:128-146 | no music phrase is a calculator phrase |
| Categories.WeatherNotTime | v_assis.py:75-156 | no weather phrase is a time phrase |
| Categories.WeatherNotDate | v_assis.py:84-156 | no weather phrase is a date phrase |
| Categories.WeatherNotJoke | v_assis.py:93-156 | no weather phrase is a joke phrase |
| Categories.WeatherNotCalc | v_assis.py:128-156 | no weather phrase is a calculator phrase |
| Categories.GreetingListApart | v_assis.py:102-156 | no greeting phrase is a system, help, music or weather phrase |
| Categories.HelpListApart | v_assis.py:120-156 | no help phrase is a music or weather phrase |
| Categories.MusicListApart | v_assis.py:137-156 | no music phrase is a weather phrase |
| Categories.ListsDistinct | v_assis.py:102-156 | the greeting, system, help, music and weather lists repeat no phrase |
| Categories.TimeKept | v_assis.py:75-81 | every time phrase is bound to `_get_time` in the generated table: no later assignment overwrites it |
| Categories.DateKept | v_assis.py:84-90 | every date phrase is bound to `_get_date` in the generated table: no later assignment overwrites it |
| Categories.JokeKept | v_assis.py:93-99 | every joke phrase is bound to `_tell_joke` in the generated table: no later assignment overwrites it |
| Categories.GreetingKept | v_assis.py:102-106 | every greeting phrase is bound to `_respond_hello` in the generated table: no later assignment overwrites it |
| Categories.HelpKept | v_assis.py:120-124 | every help phrase is bound to `_provide_help` in the generated table: no later assignment overwrites it |
| Categories.CalcKept | v_assis.py:128-134 | every calculator phrase is bound to the calculator stub in the generated table: no later assignment overwrites it |
| Categories.MusicKept | v_assis.py:137-146 | every music phrase is bound to the music stub in the generated table: no later assignment overwrites it |
| Categories.WeatherKept | v_assis.py:149-156 | every weather phrase is bound to the weather stub in the generated table: no later assignment overwrites it |
| Categories.ExtendedIsInsertions | v_assis.py:68-160 | no assignment overwrites another, so the generated table is the assignments themselves, in order: 135 phrases |
| Resolver.FirstMatch | v_assis.py:270-271 | the scan stops at the first entry whose phrase occurs in the utterance; it finds none exactly when no phrase occurs |
| Resolver.Fallback | v_assis.py:279-289 | the keyword chain answers with a greeting iff a greeting word occurs. It answers with the time iff a time word occurs and no greeting word does, and likewise for date and then joke. It answers with nothing iff no keyword occurs |
| Resolver.Resolve | v_assis.py:262-292 | `None` or `""` gets no handler. Otherwise the first matching entry answers; only when no phrase occurs does the keyword chain answer; and only when that fails is the utterance unrecognised |
| Resolver.Reply | v_assis.py:262-292 | no contract of its own. What it answers is stated by `NoInputReply`, `MatchedReply` and `UnmatchedReply` |
| Resolver.FirstMatchUnique | v_assis.py:270-273 | at most one entry is the first match |
| Resolver.FirstMatchFound | v_assis.py:270-273 | the first matching entry is the one the scan returns |
| Resolver.NoInputReply | v_assis.py:266-267 | a missing or empty utterance is answered "I didn't catch that. Could you repeat?" whatever the table |
| Resolver.LaterEntriesIgnored | v_assis.py:270-273 | once an entry matches, appending any entries after it changes nothing |
| Resolver.MatchedReply | v_assis.py:270-275 | the reply is the matching handler's reply; a static value is returned verbatim |
| Resolver.UnmatchedReply | v_assis.py:279-292 | with no phrase occurring, the reply is that of the first keyword rule that applies, else "I'm not sure how to respond to that. Say 'help' for a list of commands." |
| DefaultTable.BaseUnique | v_assis.py:42-56 | the base table has no repeated phrase |
| DefaultTable.ExtendedUnique | v_assis.py:68-160 | the generated table has no repeated phrase |
| DefaultTable.NotExtended | v_assis.py:68-160 | a phrase that is in none of the literal lists and starts with none of the template prefixes is absent from the generated table |
| DefaultTable.SystemPhrasesExtended | v_assis.py:109-117 | the six system phrases stay bound to `stop` in the generated table |
| DefaultTable.SystemPhrasesDistinct | v_assis.py:109-156 | no system phrase is a help, music or weather phrase, and each has at most 12 characters (so, with the helper `CalcPhrasesLong`, none is a calculator phrase) |
| DefaultTable.ExtendedStopsOnlySystem | v_assis.py:109-117 | the generated table binds only the system phrases to `stop` |
| DefaultTable.StopPhrasesStop | v_assis.py:52-53 | each of the eight stop phrases is bound to `stop` in the default table |
| DefaultTable.StopPhraseKept | v_assis.py:34 | a merge keeps "stop listening" and "exit" bound to `stop` when the extension lacks them, and keeps bound to `stop` any phrase the extension binds to it |
| DefaultTable.OnlyStopPhrasesStop | v_assis.py:52-53 | no other phrase is bound to `stop` in the default table |
| DefaultTable.BaseStops | v_assis.py:52-53 | in the base table only "stop listening" and "exit" are bound to `stop` |
| DefaultTable.StopBindings | v_assis.py:34 | in the default table a phrase is bound to `stop` exactly when it is one of the eight stop phrases |
| DefaultTable.LoadedStopBindings | v_assis.py:58-66 | with a commands file the base stop phrases are gone, and exactly the six system phrases stop |
| DefaultTable.StaticsOnly | v_assis.py:58-61 | every value a commands file supplies is static |
| DefaultTable.GreetingsLead | v_assis.py:34 | "hello" and "hi" are the first two entries of the default table, bound to the greeting handler |
| DefaultTable.BaseLeadKept | v_assis.py:34 | merging into the base table an extension that lacks "hello" and "hi" keeps them first |
| DefaultTable.HiAlwaysGreets | v_assis.py:270-273 | with the default table, every utterance containing "hi" anywhere is matched to a greeting entry and answered by one of the four greetings |
| DefaultTable.GreetingFirst | v_assis.py:270-273 | any table led by "hello" and "hi" greets every utterance containing "hi" |
| DefaultTable.BaseKept | v_assis.py:34 | each base entry keeps its position in the merge, and its value when the extension lacks its phrase |
| DefaultTable.SomethingFunnyBound | v_assis.py:93-99 | the default table binds "tell me something funny" to the joke handler |
| DefaultTable.SomethingFunnyGreets | v_assis.py:270-273 | "tell me something funny" is bound to the joke handler, yet it is matched by a greeting entry |
| DefaultTable.WeatherAnsweredByBase | v_assis.py:270-273 | "what's the weather" is bound to the weather stub, yet the scan matches entry 7, the base "weather" entry |
| DefaultTable.WeatherFirstIn | v_assis.py:270-271 | in the base table merged with an extension lacking "weather", no phrase before "weather" occurs in "what's the weather" |
| Assistant.Answers | v_assis.py:308-313 | no more replies than turns |
| Assistant.Intro | v_assis.py:306 | no contract of its own: the literal introduction line with the assistant's name. `VoiceAssistant.Start` states that it is spoken first |
| Assistant.Session | v_assis.py:308-317 | no contract of its own. What the loop says is stated by `SessionUpToStop`, `LaterTurnsIgnored`, `StoppedSessionSaysGoodbye`, `SessionStep` and `VoiceAssistant.Start` |
| Assistant.FirstStop | v_assis.py:314-317 | finds the first turn whose command stops the assistant, and none exactly when no turn stops it |
| Assistant.SessionUpToStop | v_assis.py:308-317 | the loop answers every turn with input up to and including the first stopping turn, or every turn when none stops |
| Assistant.LaterTurnsIgnored | v_assis.py:316-317 | once a command stops the loop, later turns are never processed |
| Assistant.StoppedSessionSaysGoodbye | v_assis.py:294-317 | a session that stops ends with the goodbye reply |
| Assistant.SessionStep | v_assis.py:308-319 | one more turn extends a session that has not stopped by that turn's reply, if it has input |
| Assistant.NextTurn | v_assis.py:308-319 | one pass of the loop adds the turn's reply, and stops the loop exactly when that turn stops |
| Assistant.SessionOver | v_assis.py:308-317 | leaving the loop, on a stop or when the turns run out, the loop has said all the session says |
| Assistant.StopsWithinStep | v_assis.py:314-317 | a stop occurs among turns plus one more exactly when it occurs among the turns or in the last one |
| Assistant.VoiceAssistant.constructor | v_assis.py:12-34 | a new assistant is inactive and has the given name, "Assistant" by default; its commands are the loaded table, its extension is the generated table, and its full table is their merge |
| Assistant.VoiceAssistant.Stop | v_assis.py:294-299 | `stop` clears the liveness flag and returns the goodbye reply |
| Assistant.VoiceAssistant.Invoke | v_assis.py:272-275 | running a handler returns its reply; the flag drops exactly when the handler is `stop` |
| Assistant.VoiceAssistant.ProcessCommand | v_assis.py:262-292 | the scan loop returns the specified reply for the utterance; the flag drops exactly when the matched entry is `stop` |
| Assistant.VoiceAssistant.Start | v_assis.py:301-319 | `start` speaks the introduction, then the session's replies; the flag stays raised exactly when no turn stopped the assistant |

## Left out

- Speech recognition (`listen`) is not modelled. Each turn carries what it would return: `None` for a timeout, an unrecognised utterance, a `RequestError` from the recognition service or any other exception, or the lower-cased text.
- Speech output (`speak`) is not modelled. What would be spoken is returned as a sequence of strings.
- The voice engine configuration and the `recognizer` and `engine` fields are left out. Only `listen` (which uses `recognizer`) and `speak` (which uses `engine`) use them, and both methods are left out. They are calls into libraries outside the model.
- `print` output is left out, including the banner with the command count.
- `time.sleep` is left out.
- The clock and the random source are not modelled. `strftime` output and the index `random.choice` draws are supplied as `Env`.
- The commands file is modelled as its parsed content: `None` when it is missing or fails to load, otherwise its key/value pairs. The existence check, file reading, JSON parsing and the error print are left out.
- JSON values other than strings (numbers, lists, objects) are not modelled. JSON values are never callable, so they are returned as they are.
- The `while self.is_active` loop of `start` runs over a finite sequence of turns. A session that never stops is its behaviour on every finite prefix.
- The `break` of `start` is folded into the loop guard, which tests the flag again.
- Threads and the Tkinter GUI class (`VoiceAssistantGUI`) are not part of this model, and neither is the script entry point.
- The "over 5000 commands" claim in the introduction and help text is reproduced as written in both texts. The generated table holds 135 phrases (`Categories.ExtendedIsInsertions`). The size of the merged table is not computed.
- A commands file whose JSON top level is not an object (a list, a string or a number) is not modelled. The merge `{**self.commands, **self.extended_commands}` at line 34 then raises `TypeError`, and `__init__` does not catch it. The parsed file is modelled as key/value pairs, which cannot express such a file.
- Assistant.Answers: states only the length bound; its content is tied to the session by `Assistant.SessionUpToStop`.
