# RPGBot character commands, modelled in Dafny

RPGBot is a Discord bot for role-playing servers. Its `Characters` cog lets
the members of a guild keep character sheets. Each sheet has a name, an owner,
a description, a level, a free-form "meta" dictionary and a team. The commands
modelled here are:

- `create` asks the invoker, one message at a time, for a description, a
  level and the meta pairs. It then stores the sheet under its name.
- `delete` removes a sheet, but only its owner may do so.
- `edit` changes one field of a sheet the requester owns: the name, the
  description, the level or the meta.
- `characters` lists the invoker's own sheets.
- `allchars` lists every sheet of the guild, grouped by the case-folded first
  letter of its name.

Meta pairs are written in a small text format: `key: value` pairs separated by
commas, or by newlines when the text holds a newline. `create` and `edit`
parse that format with the same loop.

The model has five modules:

- `Text` (`text.dfy`) models the Python string operations the commands use:
  `split` with a separator, `strip()`, `lower()` and `int()`. It also
  defines `str()` for integers, which the commands do not call. It is there
  only to state that `int()` reads back every integer as Python prints it.
- `Meta` (`meta.dfy`) models the meta format:
  - the choice of separator (`Segments`);
  - one `key: value` segment (`Pair`);
  - the in-place write loop, as the method `ParseMetaInto`, proved against
    the function `ApplySegments`.
- `Guild` (`guild.dfy`) holds the sheet datatype and the store invariant
  (`Consistent`: every key is non-empty and is the name of its record).
  It states `create`, `delete` and `edit` as functions (`CreateFlow`,
  `DeleteFlow`, `EditFlow`) from the guild's records, the arguments and the
  invoker's replies. The lemmas about them are in the same module.
- `Characters` (`store.dfy`) is the guild's store: a class over a
  `map<string, Character>`. Its `Create`, `Delete` and `Edit` methods run the
  commands step by step, with `create`'s retry loop and the meta write loop.
  Each method is proved to produce exactly the outcome and the new records
  that the corresponding `Guild` function gives.
- `Views` (`views.dfy`) models the two listings:
  - the owner filter of `characters`;
  - the grouping loop of `allchars`, as the method `GroupByInitial`, proved
    against the function `WithInitial`.

The replies `create` waits for are a sequence of messages. Each one is
`Reply(content)` or `Timeout`, and running out of messages is a timeout. A
dictionary's iteration order is not known, so the listings take the order in
which the keys come out as an input sequence.

Where the command's docstrings or prompts suggest more than the code does,
the model follows the code:

- `cancel` is recognised only at the meta step. It is compared after
  `lower()` but without stripping, so `CANCEL` cancels and `cancel ` is a
  badly formatted meta text that is asked again. At the description step,
  `cancel` becomes the description.
- The level is whatever `int()` accepts, negative numbers included.
- In `edit`, renaming is an `if` of its own, followed by the
  `description`/`level`/`meta` chain. A rename therefore also ends in the
  "not a valid item" branch, even though the record is saved under its new
  name.
- Nothing checks that the new name is free. A rename onto another sheet's
  name replaces that sheet, whoever owns it.

## Model

| member | source | states |
|---|---|---|
| Text.Split | cogs/Characters.py:127-132 | Python's `split(sep)`, cutting at leftmost non-overlapping occurrences. Its properties are stated by `SplitJoin`, `SplitPartsLackSeparator`, `SplitAtFirstOccurrence` and `SplitColonSpaceParts` |
| Text.SplitAtFirstOccurrence | cogs/Characters.py:132 | The first cut falls at the first occurrence of the separator: when no occurrence starts inside `a`, splitting `a + sep + b` gives `a` and then the parts of `b` |
| Text.SplitAtFirst | cogs/Characters.py:127-132 | The special case where `a` holds no character equal to the separator's first |
| Text.SplitJoin | cogs/Characters.py:127-130 | Joining the parts of `split(sep)` with `sep` gives the text back, so splitting loses and invents nothing |
| Text.SplitPartsLackSeparator | cogs/Characters.py:127-130 | No part of a split on a one-character separator contains that character |
| Text.SplitColonSpaceParts | cogs/Characters.py:132 | `split(": ")` gives one part more than the text has occurrences of `": "`, so the two-name unpacking succeeds exactly when `": "` occurs once |
| Text.StripShape | cogs/Characters.py:133-134 | `strip()` gives a slice of its input that neither starts nor ends with whitespace, and everything cut off at either end is whitespace |
| Text.Strip | cogs/Characters.py:133-134 | Python's `strip()` over the full `isspace` set. Its shape is stated by `StripShape` and `StripUntrimmed` |
| Text.StripUntrimmed | cogs/Characters.py:133-134 | A text that neither starts nor ends with whitespace is its own strip |
| Text.Lower | cogs/Characters.py:119-122 | `lower()` keeps the length and lower-cases each character (ASCII letters). What a comparison with a command word means is stated by `LowerMatches` |
| Text.LowerMatches | cogs/Characters.py:119-122 | `s.lower() == w`, for a lower-case word such as `cancel` or `skip`, holds exactly when `s` spells `w` letter by letter in either case, with nothing before or after it |
| Text.ParseInt | cogs/Characters.py:113 | `int()` on a decimal numeral with optional sign and surrounding whitespace, `None` for the `ValueError` (also line 191). The round trip is stated by `ParseShowInt` |
| Text.ParseShowInt | cogs/Characters.py:113 | `int(str(n)) == n` for every integer, so a level typed as Python prints it is read back as itself |
| Meta.Segments | cogs/Characters.py:127-130 | Newline-separated segments when the text holds a newline, comma-separated ones otherwise. Stated by `SegmentsSeparator` |
| Meta.Pair | cogs/Characters.py:132-134 | One segment as a stripped key and value, or a failure. Stated by `PairShape` and `PairOf` |
| Meta.ApplySegments | cogs/Characters.py:131-140 | The segments written into the map in order, stopping at the first failure. Stated by `ApplyOkIff`, `ApplyStopsAtFailure`, `ApplyNoRollback`, `ApplyLastWins`, `ApplyUntouched` and `ApplyKeepsKeys` |
| Meta.PairOfLetters | cogs/Characters.py:132-134 | A one-character key, after at most one blank, then `": "` and a one-character value, parses to those two characters |
| Meta.ParseMetaInto | cogs/Characters.py:126-140 | The in-place write loop (also at lines 193-204) ends with the map and success flag of `ApplySegments` over the chosen segments |
| Meta.SegmentsSeparator | cogs/Characters.py:127-130 | A text with a newline is cut on newlines only, and its segments hold no newline; otherwise it is cut on commas only. Either way the segments rejoin to the text |
| Meta.PairShape | cogs/Characters.py:132-134 | A segment parses exactly when it holds `": "` once, and then the pair is the stripped text on either side of it |
| Meta.PairOf | cogs/Characters.py:132-134 | A key and a value that hold no `": "`, joined by `": "`, always parse, to the two stripped sides. The key may hold colons, even at its end |
| Meta.ExampleColonKey | cogs/Characters.py:132-134 | `"x:: b"` parses to the key `x:` and the value `b` |
| Meta.OnePairReply | cogs/Characters.py:126-137 | A reply of one `key: value` pair with no comma, newline or `": "` inside either side, and no whitespace around them, writes exactly that pair into any map and is accepted |
| Meta.ApplyKeepsUnwritten | cogs/Characters.py:131-135 | The keys a text writes do not depend on the map: a key it does not write into an empty map keeps its presence and its value in any map |
| Meta.FailingFirstSegment | cogs/Characters.py:131-140 | `"x, a: 9"` fails at its first segment and writes nothing into any map |
| Meta.ApplyOkIff | cogs/Characters.py:131-137 | The whole text is accepted exactly when every segment parses |
| Meta.ApplyStopsAtFailure | cogs/Characters.py:131-140 | Once a segment fails, the later segments change nothing |
| Meta.ApplyNoRollback | cogs/Characters.py:135-140 | When segment j is the first to fail, the map keeps exactly the pairs written by segments 0..j-1, and the result is a failure |
| Meta.ApplyLastWins | cogs/Characters.py:133-135 | With every segment parsing, a key takes the value of its last segment |
| Meta.ApplyUntouched | cogs/Characters.py:131-135 | A key that no parsed segment names keeps its presence and its value, whether or not the text parsed |
| Meta.ApplyKeepsKeys | cogs/Characters.py:135 | Writing only adds or overwrites: every key already in the map stays |
| Meta.ExampleCommas | cogs/Characters.py:126-137 | `"a: 1, b: 2"` gives `{a: "1", b: "2"}`, with the blank after the comma stripped |
| Meta.ExampleNewlines | cogs/Characters.py:127-137 | `"a: 1\nb: 2"` gives the same map |
| Meta.ExampleDuplicateKey | cogs/Characters.py:133-135 | `"a: 1, a: 2"` gives `{a: "2"}` |
| Meta.SameKeyTwice | cogs/Characters.py:133-135 | Two parsed segments with the same key leave the map holding that key at the second value, everything else as before |
| Meta.TwoPairs | cogs/Characters.py:131-135 | Two segments that both parse are written into the map one after the other and the reply is accepted |
| Meta.ExampleNoSpace | cogs/Characters.py:132 | `"a:1"` is rejected and writes nothing |
| Meta.ExampleTwoColons | cogs/Characters.py:132 | `"a: b: c"` is rejected and writes nothing |
| Meta.ExampleTrailingComma | cogs/Characters.py:130-140 | `"a: 1,"` is rejected, but `a: "1"` has already been written |
| Meta.ExampleMixedSeparators | cogs/Characters.py:127-132 | `"a: 1, b: 2\nc: 3"` is cut on the newline only, and its first segment has two `": "`, so the text is rejected with nothing written |
| Guild.MetaDialogue | cogs/Characters.py:117-140 | The additional-info step over the replies. Stated by `MetaRetriesUntilTimeout`, `MetaCancelAfterRetries`, `MetaKeepsEarlierPairs` and `MetaKeepsEarlierValues` |
| Guild.CreateFlow | cogs/Characters.py:101-143 | `create` answers "name taken" exactly when the name is in use. It creates a sheet exactly when the name is free, both replies arrive, the level parses and the additional-info step ends well. A created sheet has the name, the invoker as owner, the first reply verbatim as description, `int` of the second reply as level, an empty team, and the meta the additional-info step ended with |
| Guild.CreateAddsOne | cogs/Characters.py:101-142 | `create` either adds exactly one record, under the new name, keeping every other record, or changes nothing. The store stays consistent |
| Guild.CreateAborts | cogs/Characters.py:109-121 | A timeout at the description or the level step, a level `int()` refuses, or `cancel` at the meta step ends `create` without a record |
| Guild.CreateAfterLevel | cogs/Characters.py:117-143 | Once the description and a level are read, a timeout of the additional-info step times `create` out, a `cancel` cancels it, and its end creates the sheet with the meta it built |
| Guild.OkIndependentOfMeta | cogs/Characters.py:126-137 | Whether a meta text parses does not depend on the pairs written before it |
| Guild.MetaRetriesUntilTimeout | cogs/Characters.py:117-140 | Badly formatted replies never end the meta step: only a timeout does |
| Guild.MetaCancelAfterRetries | cogs/Characters.py:117-121 | `cancel`, in any letter case, ends the meta step even after any number of badly formatted replies |
| Guild.MetaKeepsEarlierPairs | cogs/Characters.py:131-140 | Every key written by earlier, failed replies is still present when the meta step ends well (values: `MetaKeepsEarlierValues`) |
| Guild.MetaKeepsEarlierValues | cogs/Characters.py:131-140 | A pair already written keeps its value to the end of the step unless a later reply writes the same key. A reply writes exactly the keys it puts into an empty map, so segments after its failing one do not count |
| Guild.MetaRetryStep | cogs/Characters.py:117-140 | A malformed reply is asked again, carrying the map it wrote into the next attempt |
| Guild.MetaSkip | cogs/Characters.py:122-124 | A first reply of `skip` ends the step with the map unchanged |
| Guild.ExampleUnwrittenAfterFailure | cogs/Characters.py:131-140 | With `a: "1"` written, the reply `"x, a: 9"` fails at `x` before reaching `a: 9`, and `skip` then ends the step with `a` still `"1"` |
| Guild.CreateKeepsFailedPair | cogs/Characters.py:135-142 | A pair written by a malformed first meta reply reaches the created sheet with its value unless a later reply writes the same key (as `MetaKeepsEarlierValues` counts writes) |
| Guild.ColonNotCommand | cogs/Characters.py:119-124 | A meta text holding a colon is never taken for `cancel` or `skip` |
| Guild.MetaOnePair | cogs/Characters.py:117-140 | One `key: value` reply (no comma, newline or `": "` inside either side, no whitespace at either end) ends the step with exactly that pair |
| Guild.CreateEndToEnd | cogs/Characters.py:107-142 | A description, a level as `str` prints it, and one `key: value` reply create the sheet with exactly that one pair. The key and the value may hold blanks and colons, as in `nickname: Kevin the Great`, but no comma, newline or `": "`, and no whitespace at either end |
| Guild.CreateKeepsPartialMeta | cogs/Characters.py:117-142 | A malformed meta reply followed by `skip` creates the sheet with the pairs the malformed reply had already written |
| Guild.DescriptionVerbatim | cogs/Characters.py:108-110 | Any first reply becomes the description unchanged, and `skip` then creates the sheet with an empty meta |
| Guild.ExampleCancelSpelling | cogs/Characters.py:119-121 | `CANCEL` cancels, and `cancel ` (padded) is asked again until the step times out |
| Guild.DeleteFlow | cogs/Characters.py:149-159 | The outcome of `delete` and the records after it. Stated by `DeleteRules` |
| Guild.DeleteRules | cogs/Characters.py:149-159 | A missing name or a requester who is not the owner changes nothing. An owner's delete removes exactly that key and keeps every other record, and the store stays consistent |
| Guild.EditFlow | cogs/Characters.py:173-208 | The outcome of `edit` and the records after it. Stated by `EditGuards`, `EditDescription`, `EditLevel`, `EditMeta`, `EditRename`, `RenameReplacesOther`, `EditOtherAttribute` and `EditKeepsConsistent` |
| Guild.EditRecord | cogs/Characters.py:184-206 | The sheet `edit` saves and its note, dispatched on the lower-cased attribute. Stated through `EditFlow`'s lemmas |
| Guild.EditGuards | cogs/Characters.py:174-182 | A missing name or a requester who is not the owner gives that outcome and changes nothing |
| Guild.EditDescription | cogs/Characters.py:188-189 | The description is replaced, every other field and every other record are kept, and the keys are unchanged |
| Guild.EditLevel | cogs/Characters.py:190-191 | A value `int()` refuses changes nothing. An integer replaces the level only |
| Guild.EditMeta | cogs/Characters.py:192-204 | The pairs are written into the sheet's meta and the sheet is saved even when the text is malformed, with the bad-format note. Earlier keys stay |
| Guild.EditRename | cogs/Characters.py:185-187 | The old key is removed and the sheet, otherwise unchanged, is saved under the new name, with the "not a valid item" note |
| Guild.RenameReplacesOther | cogs/Characters.py:185-208 | A rename onto another owner's sheet name replaces that sheet |
| Guild.EditOtherAttribute | cogs/Characters.py:205-208 | Any other attribute re-saves the sheet unchanged, with the "not a valid item" note |
| Guild.EditKeepsConsistent | cogs/Characters.py:184-208 | Every edit keeps each record under its own non-empty name |
| Characters.CharacterStore.Create | cogs/Characters.py:99-143 | The step-by-step `create` with its retry loop gives the outcome of `CreateFlow` and adds the sheet only when created. The store invariant is kept |
| Characters.CharacterStore.Delete | cogs/Characters.py:147-160 | The store ends as `DeleteFlow` says, keeping the invariant |
| Characters.CharacterStore.Edit | cogs/Characters.py:164-208 | Removing the old key on a rename, dispatching on the attribute and re-adding the sheet gives the outcome and records of `EditFlow`, keeping the invariant |
| Views.OwnedNames | cogs/Characters.py:38 | The comprehension keeps only keys whose sheet the author owns, and is no longer than the key list |
| Views.OwnedNamesExactly | cogs/Characters.py:38 | A name is listed exactly when it is a key owned by the author, and no name is listed twice |
| Views.CharactersView | cogs/Characters.py:36-41 | The "no characters" answer comes exactly when the author owns no sheet. Otherwise the listed names are exactly the author's sheets |
| Views.Initial | cogs/Characters.py:58-62 | `x[0].casefold()` for ASCII letters. Used by `WithInitialMembers` and `AllCharsListsEveryone` |
| Views.WithInitial | cogs/Characters.py:57-62 | The names with one initial, in key order. Stated by `WithInitialMembers` and `GroupsNonEmpty` |
| Views.GroupByInitial | cogs/Characters.py:57-62 | The loop builds a group for exactly the initials that occur. Each group holds the names with that initial in key order, and the result is empty exactly when there are no keys |
| Views.WithInitialMembers | cogs/Characters.py:57-62 | A group holds exactly the names whose case-folded first letter is its initial |
| Views.GroupsNonEmpty | cogs/Characters.py:64-66 | Every group the loop builds is non-empty, so the `if value` test always passes |
| Views.AllCharsListsEveryone | cogs/Characters.py:50-62 | Over a consistent store no key is empty, so `x[0]` is defined, and every sheet is listed under its own initial and under no other |

## Left out

- The `character` info command (lines 70-94) only renders one sheet as an embed. It changes nothing and is not modelled.
- Rendering and messages: embeds, avatars, the member lookup, and the text sent to the channel. The outcomes are tags such as `NameTaken`, `Cancelled` or `InvalidFormat`. The `upper()` of `allchars`' field names and the joining of names by newlines are not modelled.
- `wait_for`'s timing and its channel and author check are not modelled. The replies are an already-filtered sequence with a `Timeout` token. An exception other than a timeout or a refused level does not occur in the model.
- The bot's data interface (`get_guild_characters`, `add_character`, `remove_character`, `get_team`) is not part of this model. Adding a record puts it under its name, replacing what was there, and removing one deletes its key.
- Decorators, command aliases, the argument parsing of discord.py, and concurrency between two commands on the same guild. The last argument of `create` and `edit` takes the rest of the message and is required, so `Create` and `Edit` require a non-empty name or value.
- `cogs/utils/data.py`, where `Character` is declared, is not part of this model. `edit` fixes only some positions: name 0, description 2, level 3, meta 5. The datatype therefore puts owner and team at 1 and 4, and nothing modelled depends on which of them comes first.
- Text.ParseInt: only ASCII decimal numerals with surrounding whitespace and one optional sign, not underscores or other Unicode digits.
- Text.Lower: ASCII letters only, so a character such as the Kelvin sign, which Python lowers to `k`, is left as it is.
- Views.Initial: `casefold()` of the first character covers ASCII letters only, so a first letter that case-folds to another letter or to several characters is not modelled.
- Dictionary insertion order of the meta map is not modelled: meta is a `map`.
- Team contents are carried along unchanged; the team commands are elsewhere.
- Characters.CharacterStore.Edit: in the source, the meta dictionary of the edited sheet is updated in place, so it is shared with the sheet the store still holds. The model writes a new map, and the store ends in the same state because the sheet is re-added.
