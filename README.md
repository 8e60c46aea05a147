# nc-small-php-tools: interactive shell and cache containers in Dafny

This project models the small algorithmic core of the PHP library
nc-small-php-tools, and proves properties about the model.

- **The interactive shell** (`InteractiveShell`). The shell keeps a list of
  '.'-separated command patterns.
  - For a prompt at a given path, it offers a duplicate-free completion list.
    To build it, each pattern that contains the path is expanded: segments
    already typed are skipped, and each other segment is a literal word or a
    `?source_field` marker whose values the shell client lists.
  - It reads one line and handles it: quit, help, or dispatch to the client.
  - On a "missing item" reply it recovers a longer path from the typed
    command.
- **The URL-keyed item list** (`Cache`). An ordered list of cache items,
  identified by URL. It supports add (ignoring empty and duplicate URLs),
  first-match lookup, membership, remove-all-matching, update in place, and a
  JSON projection.
- **The single-slot typed result** (`CacheResult`). Every setter replaces the
  whole result with one entry. Each typed getter fails when the key is absent.
- **The memo table of results** (the `TCacheResult` trait). `cached` gets or
  creates one shared `CacheResult` object per key.

How the model is laid out:

- Each PHP class whose fields are updated becomes a Dafny `class`. It keeps
  the fields the modelled behaviour reads: `InteractiveShell` keeps only
  `commands`. Its console and client fields (`$parent`, `$input`, `$output`,
  `$client`, `$helper`) become parameters of `RunStep`, or `Line` values
  for what is written.
- The modelled methods become `method`s, with two exceptions. `run` is
  modelled one iteration at a time, as `RunStep`, and `Cache::hasItems` is a
  side-effect-free `function`. `Cache::getItems` and `Cache::import` have no
  member (see "Left out").
- Two inner loops of the shell are methods of their own: the segment loop
  of `availableCommands` (`ExpandPattern`) and the loop over the roots in
  `parseSubCommand` (`ExtendRoots`).
- Each method is proved against a function that states its result or its new
  state. The lemmas beside those functions state what the source promises.
- Exceptions become `Result` values.
- The shell client becomes two parameters:
  - an `Enumerator` for `fillCommandList`;
  - a `Dispatcher` that answers `manageCommand` with an `Outcome`:
    `Ok`, `MissingItem`, `UnknownItem`, `UnknownCommand`, or `OtherFailure`
    for any exception the loop does not catch.
- `commonPart` comes from a string-tools trait that is not part of this
  model. Its behaviour is an explicit ASSUMPTION, `StringTools.CommonPart`:
  the longest common prefix, character by character. Everything the model
  proves about path recovery rests on this assumption.

Points where the code's behaviour deserves a note:

- Recovery trims '.' from both ends of the common part: the code calls
  `trim(..., '.')` (lib/Service/InteractiveShell.php:130), not `rtrim`.
- Under the longest-common-prefix assumption, `grp` recovers the path `gr`
  when `group.add` is registered, because the common part is taken character
  by character and not word by word. `PartialWordRecovery` proves this.
- `updateItem` disagrees with its own doc comment
  (lib/Model/Cache.php:149). The comment says `$create` false means an item
  not already in the list is not created. The code appends an unmatched item
  exactly when `create` is false. `UpdatedSpec` states the behaviour as
  written.

Files:

- `wrappers.dfy`: Option and Result.
- `string_tools.dfy`: the PHP string built-ins the shell uses, and the
  assumed `commonPart`.
- `shell_expander.dfy`: the functions `availableCommands` and
  `parseSubCommand` are proved against.
- `shell_service.dfy`: the `InteractiveShell` class, one iteration of `run`,
  and path recovery.
- `cache.dfy`: the `Cache` class.
- `cache_result.dfy`: the `CacheResult` class.
- `cache_result_memo.dfy`: the `cached` memo.

## Model

| member | source | states |
|---|---|---|
| StringTools.Split | lib/Service/InteractiveShell.php:158-159 | `explode`: there is at least one piece; a single piece exactly when the separator is absent; no piece contains the separator |
| StringTools.JoinSplit | lib/Service/InteractiveShell.php:158-159 | joining the pieces of `explode` back with the separator gives the original string |
| StringTools.SplitJoin | lib/Service/InteractiveShell.php:158-159 | `explode` of a join of separator-free pieces gives those pieces back |
| StringTools.SplitAfter | lib/Service/InteractiveShell.php:158-159 | a separator-free first piece splits off on its own, ahead of the pieces of the rest |
| StringTools.SplitHead | lib/Service/InteractiveShell.php:195 | the first piece is the separator-free prefix that runs up to the first separator |
| StringTools.ContainsAt | lib/Service/InteractiveShell.php:154 | `strpos(h, n) !== false` holds exactly when `n` occurs in `h` at some offset |
| StringTools.Replace | lib/Service/InteractiveShell.php:124-130 | `str_replace` of one character: same length; each occurrence of the character replaced, every other character kept |
| StringTools.TrimLeft | lib/Service/InteractiveShell.php:130 | the result is no longer than the input and does not start with the character; an input that does not start with it is returned as is |
| StringTools.TrimRight | lib/Service/InteractiveShell.php:130 | the result is no longer than the input and does not end with the character; an input that does not end with it is returned as is |
| StringTools.Trim | lib/Service/InteractiveShell.php:130 | `trim(s, c)`: neither end of the result is `c`, and an input with no `c` at either end is returned as is |
| StringTools.TrimLeftSuffix | lib/Service/InteractiveShell.php:130 | left trimming drops only a leading run of the character and keeps the rest as a suffix |
| StringTools.TrimRightPrefix | lib/Service/InteractiveShell.php:130 | right trimming drops only a trailing run of the character and keeps the rest as a prefix |
| StringTools.TrimInfix | lib/Service/InteractiveShell.php:130 | the trimmed string is a contiguous piece of the input with only the trimmed character around it |
| StringTools.CommonPart | lib/Service/InteractiveShell.php:130 | ASSUMED `commonPart`: a prefix of both strings, and ends where they first differ (longest common prefix) |
| StringTools.CommonPartOfPrefix | lib/Service/InteractiveShell.php:130 | when one string is a prefix of the other, it is their whole common part |
| ShellExpander.SubCommandValues | lib/Service/InteractiveShell.php:194-199 | a segment not starting with '?' stands for itself; a marker fails with MalformedMarker exactly when its body has no '_' |
| ShellExpander.MarkerAsksClient | lib/Service/InteractiveShell.php:195-196 | `?source_field…` asks the client for (source, field), and further '_' parts are ignored |
| ShellExpander.RowAt | lib/Service/InteractiveShell.php:203-210 | the inner loop extends every root, in order, by one value ('' root gives the bare value, otherwise root, space, value) |
| ShellExpander.ProductLength | lib/Service/InteractiveShell.php:201-214 | the new root has \|values\| * \|roots\| entries |
| ShellExpander.ProductElement | lib/Service/InteractiveShell.php:201-214 | entry a * \|roots\| + b of the new root extends root b by value a (values outer loop, roots inner loop) |
| ShellExpander.ProductAt | lib/Service/InteractiveShell.php:201-214 | the length and every entry of the new root at once |
| ShellExpander.AppendNewConcat | lib/Service/InteractiveShell.php:205-207 | adding two streams of candidates one after the other is adding their concatenation |
| ShellExpander.AppendNewMembers | lib/Service/InteractiveShell.php:205-207 | after the `in_array` guarded appends, the list holds exactly the old entries and the offered ones |
| ShellExpander.AppendNewNoDuplicates | lib/Service/InteractiveShell.php:205-207 | the guarded appends never create a duplicate |
| ShellExpander.FirstIndexSnoc | lib/Service/InteractiveShell.php:205-207 | appending an element leaves the first occurrence of every earlier element where it was |
| ShellExpander.FirstIndexNew | lib/Service/InteractiveShell.php:205-207 | an element not yet in the list first occurs at the position where it is appended |
| ShellExpander.DedupFirstOccurrenceOrder | lib/Service/InteractiveShell.php:202-211 | the kept list has no duplicates, the same members as the stream, and follows first-occurrence order |
| ShellExpander.AvailableIsFirstProducedOrder | lib/Service/InteractiveShell.php:150-172 | the completion list has no duplicates, holds exactly the produced entries, and orders them by first production across all patterns |
| ShellExpander.StreamOrigin | lib/Service/InteractiveShell.php:153-169 | every produced entry comes from one registered pattern's expansion |
| ShellExpander.AvailableFromMatchingPatterns | lib/Service/InteractiveShell.php:154-156 | with a non-empty path, every candidate comes from a pattern that contains the path as a substring |
| ShellExpander.SkippedSegmentsVanish | lib/Service/InteractiveShell.php:161-168 | a segment equal to the path segment at its index contributes nothing, and the roots pass over it unchanged |
| ShellExpander.KeptBeyondFilter | lib/Service/InteractiveShell.php:162-166 | segments beyond the path's depth are never skipped |
| ShellExpander.LiteralExpansion | lib/Service/InteractiveShell.php:198-214 | literal segments from one root produce the chain of ever longer space-joined roots |
| ShellExpander.LiteralChainLength | lib/Service/InteractiveShell.php:161-168 | a literal chain has one entry per segment |
| ShellExpander.LiteralChainAt | lib/Service/InteractiveShell.php:201-214 | the j-th entry of a literal chain is the root followed by the first j + 1 segments, space joined |
| ShellExpander.LiteralPatternStream | lib/Service/InteractiveShell.php:153-168 | a matching pattern whose kept segments are literal produces the literal chain of its kept segments |
| ShellExpander.LiteralPatternPrefixes | lib/Service/InteractiveShell.php:158-168 | with an empty path, a literal pattern produces exactly its space-joined prefixes, shortest first |
| ShellExpander.ThreeWordPattern | lib/Service/InteractiveShell.php:158-168 | a pattern `a.b.c` under the empty path offers "a", "a b", "a b c" |
| ShellExpander.ConsumedSegment | lib/Service/InteractiveShell.php:158-168 | under path `u`, the pattern `u.a` offers only "a" |
| ShellService.HelpLinesExact | lib/Service/InteractiveShell.php:178-184 | the help listing shows exactly the candidates without a space, and nothing else |
| ShellService.KeepLongestIsFirstLongest | lib/Service/InteractiveShell.php:129-134 | the `strlen($tmp) > strlen($path)` scan never shortens the path, and ends on the first longest candidate when that is strictly longer than the start |
| ShellService.RecoveredIsFirstLongest | lib/Service/InteractiveShell.php:128-134 | recovery never shortens the path; it keeps it or adopts the first longest candidate, which is strictly longer, and no candidate is longer than the result |
| ShellService.RecoveredFromEmpty | lib/Service/InteractiveShell.php:120-134 | an empty command line recovers the empty path |
| ShellService.TypedPrefixCandidate | lib/Service/InteractiveShell.php:130 | a typed command that is a prefix of a registered command is its own candidate, in dotted form |
| ShellService.FullLengthCandidate | lib/Service/InteractiveShell.php:130 | no candidate is longer than the typed command, and one just as long is the command in dotted form |
| ShellService.RecoveredToTypedPrefix | lib/Service/InteractiveShell.php:128-134 | when the dotted command is a prefix of a registered command and longer than the path, recovery lands exactly on it |
| ShellService.WholeWordRecovery | lib/Service/InteractiveShell.php:128-134 | with `user.add`, `user.remove` and `group.add` registered, `user` recovers the path `user` |
| ShellService.PartialWordRecovery | lib/Service/InteractiveShell.php:128-134 | with the same commands, `grp` recovers `gr`: the common part is taken character by character |
| ShellService.SingleSharedStart | lib/Service/InteractiveShell.php:128-134 | when exactly one registered command starts with the command line's first character, an empty path recovers that command's candidate |
| ShellService.NoSharedStart | lib/Service/InteractiveShell.php:128-134 | a registered command that starts differently from the command line yields an empty candidate |
| ShellService.GroupCandidate | lib/Service/InteractiveShell.php:128-134 | `grp` against `group.add` yields the candidate `gr` |
| ShellService.StepConfigError | lib/Service/InteractiveShell.php:107 | a malformed marker in a pattern the path selects ends `run` with the error, before any input is handled |
| ShellService.StepQuit | lib/Service/InteractiveShell.php:111-113 | `quit`, `q` and `exit` end the shell without dispatching anything |
| ShellService.StepHelp | lib/Service/InteractiveShell.php:115-118 | `?` and `help` dispatch nothing, keep the path, and list exactly the single-word candidates |
| ShellService.StepDispatch | lib/Service/InteractiveShell.php:120-139 | the command is built from the path (dots to spaces) and the input; each outcome's new path and output; uncaught failures escape |
| ShellService.StepMissingItem | lib/Service/InteractiveShell.php:128-134 | on a missing item the path never shortens, and changes only to a strictly longer recovery candidate |
| ShellService.StepEmptyInput | lib/Service/InteractiveShell.php:120-124 | an empty line resets the path, dispatches the empty command, and leaves the path empty |
| ShellService.InteractiveShell.constructor | lib/Service/InteractiveShell.php:74 | the shell starts with no registered commands |
| ShellService.InteractiveShell.SetCommands | lib/Service/InteractiveShell.php:93-95 | the registered list is exactly the given patterns followed by `quit`, `help` |
| ShellService.InteractiveShell.ParseSubCommand | lib/Service/InteractiveShell.php:192-215 | a malformed marker fails; otherwise the new root is the product of values and roots, and the candidates gain its new entries in order |
| ShellService.InteractiveShell.AvailableCommands | lib/Service/InteractiveShell.php:150-172 | the loop computes exactly the completion list (see AvailableIsFirstProducedOrder), or the first malformed-marker error |
| ShellService.InteractiveShell.ExtendRoots | lib/Service/InteractiveShell.php:203-210 | the inner loop appends the value to every root in order, and each entry joins the candidates only when not already there |
| ShellService.InteractiveShell.ExpandPattern | lib/Service/InteractiveShell.php:161-168 | the segment loop of one pattern yields exactly the pattern's expansion added to the candidates, or the first malformed-marker error |
| ShellService.InteractiveShell.ListCurrentAvailableCommands | lib/Service/InteractiveShell.php:178-184 | the lines written are exactly the help listing of the candidates (see HelpLinesExact) |
| ShellService.InteractiveShell.RecoverPath | lib/Service/InteractiveShell.php:129-134 | the recovery loop computes the recovered path (see RecoveredIsFirstLongest) |
| ShellService.InteractiveShell.RunStep | lib/Service/InteractiveShell.php:105-139 | one iteration of `run` yields exactly the step result (see the Step lemmas) |
| CacheModel.Urls | lib/Model/Cache.php:204-208 | the URL list has one entry per item, each the URL of the item at the same position |
| CacheModel.LookupFirstMatch | lib/Model/Cache.php:103-111 | lookup fails exactly when no item has the URL, and otherwise returns the first item that has it |
| CacheModel.LookupWellFormed | lib/Model/Cache.php:103-111 | in a list with unique URLs, looking up an item's URL returns that item |
| CacheModel.LookupAppend | lib/Model/Cache.php:86-111 | appending an item changes a lookup only when the URL was absent before |
| CacheModel.AddedWellFormed | lib/Model/Cache.php:86-94 | `addItem` keeps URLs non-empty and unique, and adds exactly the new non-empty URL |
| CacheModel.AddedLookup | lib/Model/Cache.php:86-94 | an item with a fresh non-empty URL is found once added; lookups of other URLs are unaffected |
| CacheModel.AddAllWellFormed | lib/Model/Cache.php:86-94 | a list built only by `addItem` has unique, non-empty URLs, and holds every non-empty URL offered |
| CacheModel.RemovedMembers | lib/Model/Cache.php:135-146 | removal keeps exactly the items whose URL differs, and never grows the list |
| CacheModel.RemovedNoUrl | lib/Model/Cache.php:135-146 | after removal no item has the URL, so `hasItem` is false |
| CacheModel.RemovedAbsent | lib/Model/Cache.php:135-146 | removing a URL no item has leaves the list unchanged |
| CacheModel.RemovedConcat | lib/Model/Cache.php:136-143 | removal distributes over concatenation, so the kept items keep their relative order |
| CacheModel.RemovedWellFormed | lib/Model/Cache.php:135-146 | removal keeps URLs unique and non-empty |
| CacheModel.ReplaceMatchingAt | lib/Model/Cache.php:161-170 | the loop keeps the length and works position by position: each matching item becomes the new item, every other item stays |
| CacheModel.UpdatedSpec | lib/Model/Cache.php:156-179 | matching items are replaced in place and others kept; with no match the item is appended exactly when `create` is false |
| CacheModel.UpdatedLookup | lib/Model/Cache.php:156-179 | after an update the item is what its URL looks up, unless nothing matched and `create` was true |
| CacheModel.UpdatedWellFormed | lib/Model/Cache.php:156-179 | an update keeps every URL non-empty and held by one item only |
| CacheModel.LookupOnlyMatch | lib/Model/Cache.php:103-111 | when the URL is present and every item holding it is the given item, `getItem` returns that item |
| CacheModel.Keys | lib/Model/Cache.php:210-217 | the keys of the PHP array, in insertion order |
| CacheModel.PutSpec | lib/Model/Cache.php:216 | `$a[$k] = $v` makes `k` map to `v`, leaves other keys alone, and appends `k` to the key order only when it is new |
| CacheModel.PutItemsGet | lib/Model/Cache.php:215-217 | after the loop each URL maps to its last item, and every other key keeps its value |
| CacheModel.PutItemsKeys | lib/Model/Cache.php:215-217 | the loop keeps the existing keys first, in their order |
| CacheModel.PutItemsKeySet | lib/Model/Cache.php:215-217 | after the loop the keys are exactly the existing keys and the items' URLs |
| CacheModel.LastMatchWellFormed | lib/Model/Cache.php:215-217 | in a list with unique URLs, an item's URL last occurs at that item |
| CacheModel.LastMatchAbsent | lib/Model/Cache.php:215-217 | a URL no item has has no last occurrence |
| CacheModel.LastMatchPresent | lib/Model/Cache.php:215-217 | a URL some item has has a last occurrence, with that URL |
| CacheModel.SerializedKeyOrder | lib/Model/Cache.php:210-219 | `_items` and `_count` lead the keys, and the only other keys are the URLs |
| CacheModel.SerializedHeader | lib/Model/Cache.php:204-213 | unless an item's URL claims those keys, `_items` is the URLs in list order and `_count` their number |
| CacheModel.SerializedEntry | lib/Model/Cache.php:215-217 | every URL of the list maps to its last item |
| CacheModel.SerializedWellFormed | lib/Model/Cache.php:203-219 | in a list with unique URLs, each item's URL maps to that item |
| CacheModel.Cache.constructor | lib/Model/Cache.php:49-53 | a new cache holds no item |
| CacheModel.Cache.HasItems | lib/Model/Cache.php:59-61 | true exactly when some item (with some URL) is present |
| CacheModel.Cache.SetItems | lib/Model/Cache.php:75-79 | the items become exactly the given list |
| CacheModel.Cache.GetItem | lib/Model/Cache.php:103-111 | returns the first item with the URL, and CacheItemNotFound exactly when none has it |
| CacheModel.Cache.HasItem | lib/Model/Cache.php:119-127 | true exactly when some item has the URL |
| CacheModel.Cache.AddItem | lib/Model/Cache.php:86-94 | the items become the add result (see AddedWellFormed, AddedLookup) |
| CacheModel.Cache.RemoveItem | lib/Model/Cache.php:135-146 | the items become the removal result (see RemovedMembers, RemovedConcat) |
| CacheModel.Cache.UpdateItem | lib/Model/Cache.php:156-179 | the items become the update result, with `create` defaulting to true (see UpdatedSpec) |
| CacheModel.Cache.JsonSerialize | lib/Model/Cache.php:203-220 | returns exactly the serialized array (see SerializedKeyOrder, SerializedHeader, SerializedEntry) |
| CacheResultModel.AsString | lib/Model/CacheResult.php:98-105 | `get` fails with NotCached on an absent key, and succeeds exactly on a string entry, returning that string |
| CacheResultModel.AsArray | lib/Model/CacheResult.php:126-133 | `getArray` fails with NotCached on an absent key, and succeeds exactly on an array entry, returning that array |
| CacheResultModel.AsBool | lib/Model/CacheResult.php:154-161 | `getBool` fails with NotCached on an absent key, and succeeds exactly on a bool entry, returning that bool |
| CacheResultModel.AsInt | lib/Model/CacheResult.php:182-189 | `getInt` fails with NotCached on an absent key, and succeeds exactly on an int entry, returning that int |
| CacheResultModel.FreshNotCached | lib/Model/CacheResult.php:45-58 | on a fresh, empty result every getter fails with NotCached |
| CacheResultModel.SetThenGet | lib/Model/CacheResult.php:86-189 | each setter's value is read back by the matching getter under the same key |
| CacheResultModel.SetDiscardsOtherKeys | lib/Model/CacheResult.php:86-102 | after a setter, every other key is gone and each getter under it fails with NotCached |
| CacheResultModel.GettersOnPresentKey | lib/Model/CacheResult.php:98-189 | on a present key a getter returns the value or fails with WrongType, and exactly one getter succeeds on a string, array, bool or int |
| CacheResultModel.CacheResult.constructor | lib/Model/CacheResult.php:45-58 | a new result records its source and holds no entry |
| CacheResultModel.CacheResult.GetResult | lib/Model/CacheResult.php:64-66 | returns exactly the current result, changing nothing |
| CacheResultModel.CacheResult.SetResult | lib/Model/CacheResult.php:73-77 | replaces the result wholesale and keeps the source |
| CacheResultModel.CacheResult.Set | lib/Model/CacheResult.php:86-90 | the result becomes the single entry key to string value; the source is kept |
| CacheResultModel.CacheResult.Get | lib/Model/CacheResult.php:98-105 | reads the result without changing it (see AsString) |
| CacheResultModel.CacheResult.SetArray | lib/Model/CacheResult.php:114-118 | the result becomes the single entry key to array value; the source is kept |
| CacheResultModel.CacheResult.GetArray | lib/Model/CacheResult.php:126-133 | reads the result without changing it (see AsArray) |
| CacheResultModel.CacheResult.SetBool | lib/Model/CacheResult.php:142-146 | the result becomes the single entry key to bool value; the source is kept |
| CacheResultModel.CacheResult.GetBool | lib/Model/CacheResult.php:154-161 | reads the result without changing it (see AsBool) |
| CacheResultModel.CacheResult.SetInt | lib/Model/CacheResult.php:170-174 | the result becomes the single entry key to int value; the source is kept |
| CacheResultModel.CacheResult.GetInt | lib/Model/CacheResult.php:182-189 | reads the result without changing it (see AsInt) |
| CacheResultMemo.CachedResults.constructor | lib/Traits/TCacheResult.php:44 | the memo starts empty, and every stored result belongs to its key |
| CacheResultMemo.CachedResults.Cached | lib/Traits/TCacheResult.php:52-61 | hit: the same stored object, map unchanged; miss: a fresh empty result with source `k`, stored under `k`; other keys untouched, and each result stays under its own key, so in a valid table the returned result was created for the requested key |
| CacheResultMemo.CachedResults.CachedTwice | lib/Traits/TCacheResult.php:52-61 | two consecutive calls for a key return the same object, stored under that key |

## Left out

- Terminal I/O is not modelled: the prompt text and `%PATH%` substitution,
  `setAutocompleterValues`, `QuestionHelper::ask`, and the markup of the
  lines written. The prompt's input becomes a parameter of `RunStep`, and the
  written lines become `Line` values.
- The `while (true)` loop of `run` is modelled one iteration at a time, and
  `exit()` becomes the `Exit` step result.
- ShellService.InteractiveShell.ParseSubCommand: it compares candidates with
  exact string equality. PHP's `in_array` compares loosely, so two numeric
  strings such as "1" and "01" would also count as equal. The same holds for
  ShellExpander.AppendNew.
- ShellService.InteractiveShell.AvailableCommands: a segment beyond the
  path's depth is compared with an undefined index of `$subPath`. PHP reads
  null there, with a warning, and the strict comparison fails. The model
  treats it as "no match" and leaves the warning out.
- The body of `commonPart` is not part of this model. It is assumed to be the
  longest common prefix (StringTools.CommonPart).
- PHP strings are byte strings, and `strlen` at
  lib/Service/InteractiveShell.php:131 counts bytes. The model's strings are
  sequences of characters, and `CommonPart` and the length comparison work
  on characters. In reachable states both compared strings are prefixes of
  the same dotted command, so the comparison agrees. For non-ASCII input, a
  byte-wise `commonPart` could stop inside a multi-byte character, and the
  model cannot show that.
- `fillCommandList` and `manageCommand` are calls into client code, which
  becomes the `Enumerator` and `Dispatcher` parameters. Apart from the three
  exceptions `run` catches, any failure of `manageCommand` is `OtherFailure`,
  which escapes the loop.
- `Cache::import` is left out. It depends on `TArrayTools::getArray` and on
  the `CacheItem` class, neither of which is part of this model.
- `CacheItem` is not part of this model. It becomes a URL plus one opaque
  content string, because the list only ever reads the URL.
- `Cache::getItems` is a plain read of the `items` field, so it has no member
  of its own.
- The setters of `Cache` and `CacheResult` return `$this` for chaining. The
  model's methods return nothing.
- CacheModel.Cache.JsonSerialize: PHP turns a numeric-string key such as
  "12" into the integer key 12. The model keeps every key as a string, and
  the JSON text encoding itself is not modelled.
- CacheResultModel.CacheResult.SetArray: the array payload becomes a list of
  values, because `CacheResult` stores it and hands it back unchanged without
  reading its keys. PHP ints are 64-bit; the model's `int` is unbounded,
  since no arithmetic is done on them.
- `TCacheResult` is a trait mixed into other classes; the class
  `CachedResults` stands for a class that uses it.
- `lib/Traits/TRequest.php`, `lib/Db/ExtendedQueryBuilder.php`,
  `lib/Traits/Nextcloud/TNCMigration.php` and `lib/Model/Options.php` are
  outside the modelled core. They do network I/O, query building, database
  copies and plain option storage.
