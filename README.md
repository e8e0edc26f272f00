# TrueSightBot account registry and Riot ID resolution, in Dafny

TrueSightBot is a Discord bot (`bot.py`) that lets members of a server
("guild") register League of Legends summoner names ("Riot IDs" of the form
`GameName#TagLine`), list, rename and remove them, and look up the encrypted
summoner id of each of their names through the Riot API.

This project models the two parts of `bot.py` that hold real logic:

- **The account registry.** The data file `registered_accounts.json` holds a
  document guild id -> user id -> ordered list of summoner names. The
  `register`, `list`, `remove` and `update` commands each load the whole
  document, check ownership and uniqueness, change it, and write the whole
  document back only on success. Python dictionaries keep insertion order,
  and `list` prints in that order. So a dictionary is modelled as
  `OrderedDict.Dict`: a map plus the order of its keys. `d[k] = v` keeps an
  existing key's place and appends a new key; `del d[k]` drops the key from
  the order.
- **The `info` loop.** For each of the caller's names, in order, it parses
  `GameName#TagLine` by splitting at the first `#`. It asks the account
  endpoint for the PUUID, then the summoner endpoint for the encrypted id. It
  stops the name at the first failure and reports exactly one outcome per name.

Layout:

- `option.dfy` (`Optional`): `None` or a value.
- `lists.dfy` (`Lists`): `list.index`, `list.remove` and the no-duplicates
  predicate.
- `ordered_dict.dfy` (`OrderedDict`): Python dict semantics on string keys.
- `registry.dfy` (`Registry`): the document, the registry invariant, one
  specification function per command (`RegisterResult`, `Listing`,
  `RemoveResult`, `UpdateResult`), and one method per command proved equal
  to it. The methods keep the source's early-return scan loops (`ScanFor`).
- `registry_properties.dfy` (`RegistryProperties`): the lemmas about those
  functions, including that no history of commands breaks the invariant
  (`ReplayKeepsInvariant`).
- `resolution.dfy` (`Resolution`): the Riot ID split, one iteration of the
  loop as `Resolve`, and the `Info` method with its loop. The two HTTP
  helpers are function parameters that return `None` or a JSON object. `Info`
  also returns the log of provider calls it made.
- `resolution_properties.dfy` (`ResolutionProperties`): the parse rule, call
  order and success condition.
- `commands.dfy` (`Commands`): the `Store` class. It stands for the data
  file and the load / run / save-on-success shape of each handler.

Registry invariant (`Registry.Invariant`):

- I1: within one guild, a name occurs at most once. It is never under two
  users, and never twice in one list.
- I2: no user key has an empty list.
- I3: no guild key has an empty record.

The commands do not require it. They handle any document of the right
shape, as the source does: they only require `WellFormed`, which says that
both levels are dictionaries, and every document `json.load` builds in this
shape is. The lemmas prove that every command keeps it.

Python truthiness is modelled explicitly:

- `not account_info` and `not summoner_data` hold for `None` and for an empty
  JSON object (`Truthy`).
- `not puuid` and `not encrypted_id` hold for a missing field and for `""`
  (`Field`).

Points where `bot.py` behaves in a way a reader might not expect, and which
the model keeps as written:

- **Provider errors lose their status.** The helpers return `None` for every
  non-200 status (bot.py:157-159, 171-173). So the status never reaches the
  loop, and the model has just "no data" (`NoAccountInfo`, `NoSummonerData`).
- **Empty game name or tag line.** `"#Tag"` and `"Name#"` are accepted and
  split (into `""` and `"Tag"`, or `"Name"` and `""`) by bot.py:190-195.
- **`info` with an empty list.** Only a missing guild or user key gives "no
  accounts" (bot.py:181-183). A user key whose list is empty (possible only
  in a hand-edited file) gets an empty report: the bot sends the empty text
  `ctx.send("")` (bot.py:216).
- **Registering your own name twice.** This is refused (bot.py:50-55), with
  the same reply as when someone else holds the name.
- **Two outcomes, one text.** A failed account lookup (bot.py:197-198) and
  summoner data without an `id` (bot.py:209-210) both reply "No summoner ID
  found for". The model keeps them apart as `NoAccountInfo` and
  `NoSummonerId`.

## Model

| member | source | states |
|---|---|---|
| `Lists.IndexOf` | bot.py:140 | `list.index`: the result is a position that holds the name, and no earlier position does |
| `Lists.RemoveFirst` | bot.py:105 | `list.remove`: adds no element, keeps every element other than the name, and is one shorter exactly when the list held the name |
| `Lists.RemoveFirstSplices` | bot.py:105 | `list.remove` splices out exactly the first occurrence: the elements before and after it keep their order; a list without the name comes back unchanged |
| `Lists.RemoveFirstNoDup` | bot.py:105 | in a duplicate-free list, remove leaves no occurrence of the name and the list stays duplicate-free |
| `Lists.ReplaceKeeps` | bot.py:141 | overwriting one slot with a name the list lacks keeps it duplicate-free, and that name is the only new member |
| `OrderedDict.Put` | bot.py:48 | `d[k] = v`: the map gets the binding; an existing key keeps its place in the order, a new key goes last; the dict stays valid |
| `OrderedDict.Delete` | bot.py:108 | `del d[k]`: the key leaves the map; the key order is the old order with that key spliced out, the other keys keeping their order; the dict stays valid |
| `OrderedDict.EmptyIffNoEntries` | bot.py:110 | `not d` (no keys in the order) holds exactly when the map has no entries |
| `Registry.ScanFor` | bot.py:50-55 | the early-return scan over the guild's lists, in key order, finds the name exactly when some user of the guild lists it |
| `Registry.Register` | bot.py:41-65 | the `register` handler's result equals `RegisterResult`, and a saved document is well formed |
| `Registry.List` | bot.py:68-86 | the `list` handler's result equals `Listing` |
| `Registry.Remove` | bot.py:89-114 | the `remove` handler's result equals `RemoveResult`, and a saved document is well formed |
| `Registry.Update` | bot.py:117-145 | the `update` handler's result equals `UpdateResult`, and a saved document is well formed |
| `RegistryProperties.RegisterRefusesClaimed` | bot.py:50-55 | register is refused, with "already registered", exactly when some user of the guild lists the name, the caller included |
| `RegistryProperties.RegisterAppends` | bot.py:47-61 | a saved registration appends the name to the caller's list; a missing guild or user entry is created (and goes last in its key order); other users and other guilds are unchanged |
| `RegistryProperties.RegisterKeepsInvariant` | bot.py:50-60 | register keeps I1 (one owner per name, no repeat in a list), I2 and I3 |
| `RegistryProperties.ListingOneLinePerUser` | bot.py:73-83 | list says "no accounts" exactly when the guild is absent or its record empty; otherwise one line per user key, in key order, each user once, with that user's list |
| `RegistryProperties.RemoveRefusals` | bot.py:95-103 | remove is refused with "no accounts" when the guild or the user is absent, with "not registered under your user" when the caller's own list lacks the name; it saves exactly when the caller's list holds it |
| `RegistryProperties.OthersNamesAreProtected` | bot.py:99-103 | under the invariant, a name another user holds can be neither removed nor renamed by the caller |
| `RegistryProperties.RemoveDeletes` | bot.py:105-113 | a saved removal drops the first occurrence of the name from the caller's list, the other names keeping their order, deletes the user entry exactly when the list emptied, keeps the guild key exactly when some entry is left, never leaves an empty record, and changes no other user or guild |
| `RegistryProperties.WithListFacts` | bot.py:105-108 | storing the shortened list, or deleting the user key when it emptied: the user's list becomes the new list, the key stays exactly when the list is non-empty, no other user changes, and the record is empty exactly when no other user and no name is left |
| `RegistryProperties.WithListKeyOrder` | bot.py:105-108 | storing the list back keeps the record's key order; deleting the user key removes it from the order, the others keeping theirs |
| `RegistryProperties.RemoveKeepsKeyOrder` | bot.py:105-111 | after a saved removal the guild's users and the guilds keep their order, losing only the key that was deleted because it emptied |
| `RegistryProperties.WithRecordFacts` | bot.py:109-111 | storing the record, or deleting the guild key when it emptied: the key stays exactly when the record is non-empty, and no other guild changes |
| `RegistryProperties.WithListKeepsInvariant` | bot.py:105-108 | replacing a user's list by a duplicate-free sub-list, or pruning it when empty, keeps a record's I1 and I2 |
| `RegistryProperties.RemoveKeepsInvariant` | bot.py:105-113 | remove keeps I1, I2 and I3 |
| `RegistryProperties.UpdateRefusalOrder` | bot.py:123-138 | update refuses in this order: no accounts, old name not in the caller's list, new name listed by any user (including new equal to old, or equal to another of the caller's names); it saves exactly when none applies |
| `RegistryProperties.UpdateKeepsPosition` | bot.py:140-141 | a saved update writes the new name at the old name's index: same length, other positions, key orders, other users and guilds unchanged; the old name is gone from a duplicate-free list |
| `RegistryProperties.UpdateKeepsInvariant` | bot.py:133-141 | update keeps I1, I2 and I3 |
| `RegistryProperties.Step` | bot.py:41-145 | one chat command maps a well-formed document to a well-formed one: the saved document, or the same one when refused or when it only reads (`list`) |
| `RegistryProperties.Replay` | bot.py:41-145 | a history of commands maps a well-formed document to a well-formed one |
| `RegistryProperties.StepKeepsInvariant` | bot.py:41-145 | any single command keeps the invariant |
| `RegistryProperties.ReplayKeepsInvariant` | bot.py:41-145 | any sequence of register, remove, update and list commands keeps the invariant: no name is ever under two users of one guild |
| `RegistryProperties.EmptyDocumentSatisfiesInvariant` | bot.py:27-28 | the document read from a missing file satisfies the invariant |
| `RegistryProperties.ScenarioFirstRegistration` | bot.py:41-86 | from a missing file the first registration creates guild and user, `list` shows that one line, and a second user's registration of the same name is refused |
| `RegistryProperties.ScenarioRename` | bot.py:117-145 | renaming the only name puts the new name in its place and `list` shows it |
| `RegistryProperties.ScenarioRemoveLast` | bot.py:89-114 | removing the last name of the last user deletes the guild key, and `list` then says there are no accounts |
| `Resolution.SplitAtHash` | bot.py:195 | `split("#", 1)`: name + `#` + tag gives back the string, and the name has no `#` |
| `Resolution.Info` | bot.py:176-216 | "no accounts" exactly when the guild or user is absent; otherwise one report per registered name, in list order, each `Resolve`d on its own; the calls made are those of every name in sequence |
| `ResolutionProperties.SplitAtHashRoundTrip` | bot.py:195 | splitting `name#tag` with a `#`-free name gives back exactly (name, tag) |
| `ResolutionProperties.SplitAtHashIsAtFirstHash` | bot.py:195 | the game name ends at the first `#` of the string |
| `ResolutionProperties.InvalidExactlyWithoutHash` | bot.py:190-194 | a name is reported invalid exactly when it has no `#`, and then no provider call is made |
| `ResolutionProperties.AccountLookupComesFirst` | bot.py:195-196 | for a name with `#`, the first call is the account lookup with the two halves of the split, and at most two calls are made |
| `ResolutionProperties.SummonerLookupNeedsPuuid` | bot.py:196-204 | the summoner lookup is made exactly when the account data is non-empty with a non-empty `puuid`, and it is asked for that `puuid` |
| `ResolutionProperties.ResolvedExactlyWhenEveryStagePasses` | bot.py:196-214 | a name is resolved exactly when the parse, the account data with its `puuid` and the summoner data with its `id` all succeed; the reported id is non-empty |
| `ResolutionProperties.FailureAtFirstFailingStage` | bot.py:196-211 | each failure outcome is reported exactly when its stage is the first to fail: no account data; data without `puuid`; no summoner data for that `puuid`; summoner data without `id` |
| `ResolutionProperties.ScenarioNoHash` | bot.py:190-194 | `NoHash` is invalid and calls nothing, whatever the provider would answer |
| `ResolutionProperties.ScenarioAccountNotFound` | bot.py:196-198 | when the account lookup for `Name#Tag` gives no data, the outcome is `NoAccountInfo` (whose reply text, "No summoner ID found for", the bot also uses for `NoSummonerId`) after that one call, and the summoner endpoint is not called |
| `Commands.Store.Contents` | bot.py:23-28 | `load_data`: a missing file reads as the empty document; what is read is well formed |
| `Commands.Store.Load` | bot.py:23-28 | returns the stored document, or `{}` for a missing file |
| `Commands.Store.Save` | bot.py:31-33 | `save_data`: the whole document replaces the file |
| `Commands.Store.RegisterAccount` | bot.py:41-65 | the result is `RegisterResult` of the loaded document; the file becomes the new document when saved and is untouched otherwise |
| `Commands.Store.ListAccounts` | bot.py:68-86 | the result is `Listing` of the loaded document; the file is not written |
| `Commands.Store.RemoveAccount` | bot.py:89-114 | the result is `RemoveResult` of the loaded document; the file changes only on success |
| `Commands.Store.UpdateAccount` | bot.py:117-145 | the result is `UpdateResult` of the loaded document; the file changes only on success |
| `Commands.Store.SummonerInfo` | bot.py:176-216 | one report per name of the loaded document, as `Info`; the file is not written |

## Left out

- JSON encoding and decoding (bot.py:23-33): the file is modelled as the document value it holds, or as absent. Files that are not valid JSON, or not shaped guild -> user -> list of strings, are not modelled. Neither are write failures. So the round trip `save_data(load_data())` holds by construction and is not stated separately.
- The HTTP helpers `get_account_info` and `get_summoner_by_puuid` (bot.py:148-173): the URLs, the `X-Riot-Token` header, the fixed EUNE region and the debug prints are not modelled. They are parameters that return `None` (any non-200 status) or a JSON object. JSON field values are modelled as strings only.
- Discord: bot setup, intents, command dispatch and argument parsing, `ctx.send`, `on_ready`, `bot.run` (bot.py:9-18, 36-38, 219). The display-name lookup with `ctx.guild.get_member` (bot.py:80-81) and all reply texts are left out. That lookup calls `int(user_id)`, which raises for a user key that is not a decimal integer string (only a hand-edited file can hold one, since the bot writes `str(ctx.author.id)`). `list` then sends nothing, while `Listing` still gives a line for that user. Replies are modelled as tagged outcomes; `list` reports user ids and lists.
- `Resolution.Resolve`, `Resolution.Info`: the helpers are modelled as always answering, with `None` or a JSON object. In bot.py they can also raise, on an aiohttp connection error or on a 200 whose body is not JSON at `resp.json()` (bot.py:154, 168). JSON values other than objects are not modelled. An empty array, like `{}`, is falsy and is reported as no data (bot.py:197, 205), which the model gives through an empty object. A non-empty array, or a truthy scalar (a non-empty string, a non-zero number, `true`), makes `.get` raise (bot.py:200, 208). The helpers pass no timeout, so aiohttp's default session timeout bounds each call; when it expires the call raises. Each of these ends `summoner_info` before its reply (bot.py:216), so the bot sends nothing rather than one report per name. The model does not capture this.
- async/await: the handlers are coroutines on one event loop and interleave at every `await`. `register`, `remove` and `update` never `await` between `load_data()` and `save_data(data)` (bot.py:43-61, 91-113, 119-142); every earlier `await ctx.send` is followed by `return`. So each of their read-modify-write steps is atomic, and the one-command-at-a-time history of `RegistryProperties.Replay` is exact for them. What does interleave is `info`: it loads the document at bot.py:178 and waits on the provider at bot.py:196 and 204, so other commands can save meanwhile and it keeps reporting from the copy it loaded. `Commands.Store.SummonerInfo` and `Resolution.Info` model exactly that: they work on the document read at the start. The interleaving itself, and the reply order between concurrent handlers, are not modelled.
