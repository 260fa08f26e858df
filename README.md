# The object updater's async-pending queue, and socket-string parsing

This project models two parts of OpenStack Swift in Dafny and proves
properties of the model.

**The object updater (swift/obj/updater.py).** When an object server cannot tell the container
servers about a new or deleted object, it stores the container update as an
*async pending*: a pickled file named `<object hash>-<timestamp>` under
`async_pending[-<policy>]/<prefix>/` on the device. One pass of the updater
(`run_once`) works as follows:

- It goes over every device, skipping unmounted ones when mount checking is on.
- On a device, `object_sweep` walks every async-pending directory that maps to a valid storage policy, and each of its prefix directories.
- In a prefix directory it visits the names greatest first:
  - a name that is not `<hash>-<timestamp>` is counted as an error;
  - a name whose hash equals that of the file just processed is an older copy, and is unlinked;
  - any other file is handed to `process_object_update`.
- `process_object_update` works like this:
  - A file that does not unpickle is quarantined.
  - Otherwise the update is sent to the container nodes not yet recorded as having taken it.
  - When every one of them took it, the file is deleted and a success is counted.
  - If not, a failure is counted. The file is rewritten with the enlarged list of nodes when at least one node took it, and left alone otherwise.
- A prefix directory that the walk left empty is removed.

The model keeps the source's shapes:

- `ObjectUpdater` is a class. Its counters (`successes`, `failures`, plus the logger's `errors`, `unlinks` and `quarantines`) are fields, and the updates it has sent are a `seq<Request>` field.
- Each device is a `Device` object whose maps stand for its directory tree.
- The methods mirror the source's loops: `RunOnce`, `ObjectSweep`, `SweepAsyncDir`, `SweepPrefix`, `VisitEntry`, `ProcessObjectUpdate` and `AwaitEvents`.

The methods are proved against a specification on values (module `AsyncPending`):

- Every entry of a swept directory gets a `Fate`:
  - `Ignored` (not a regular file);
  - `Misnamed` (counted as an error);
  - `Superseded` (unlinked);
  - `Processed(outcome)`.
- `FateOf` defines a fate without reference to the walk: a candidate is processed exactly when its name is the greatest among the candidates for its object in its directory (`IsNewest`).
- `NewestIffNewHash` proves that the walk's `last_obj_hash` comparison computes exactly that.
- `SweptFiles`, `QuarantinedNames` and `TallyStats` give the files, the quarantine and the counters after a sweep. The sweep methods' postconditions are stated in them.
- `RunOnce` ends with every device in `AfterRun` of its old state and the counters at `RunStats` of the devices' old states.

**Socket strings (swift/common/utils/ipaddrs.py).** `parse_socket_string`, with the regular
expression `IPV6_RE` coded by hand, is modelled as a pure function. The model
keeps Python's `re` semantics where they matter:

- `.` does not match a newline.
- `$` also matches before one final newline.
- The address group is greedy: the longest bracket content for which the rest of the pattern matches.

The lemmas cover:

- both error cases;
- the greedy host;
- the three unbracketed cases;
- the round trips.

Python string behaviour used by both (module `PyStr`):

- ordering of byte strings;
- `sorted(reverse=True)`;
- `str.split`;
- `int()` of a string;
- `str()` of an integer.

## Model

| member | source | states |
|---|---|---|
| AsyncPending.AsyncDirPolicy | swift/obj/updater.py:143-162 | only `async_pending` and names starting `async_pending-` are async dirs; the base name is policy 0; `async_pending-X` is policy `int(X)` when X reads as an integer the policy table accepts, and is otherwise an unknown policy (skipped) |
| AsyncPending.AsyncDirPolicyOfIndex | swift/obj/updater.py:152-158 | the directory name `async_pending-<str(i)>` maps back to policy `i` for every valid policy `i` |
| PyStr.ParseInt | swift/obj/updater.py:157 | Python 2's `int()` of a string: white space, an optional sign, white space, one or more digits, white space; anything else is a ValueError. Its own contract says only that an accepted string holds a digit; its meaning is stated by `ParseIntOfIntToString`, `ParseIntSpaceAfterSign`, `ParseIntLeadingZero` and `ParseIntRefuses` |
| PyStr.ParseIntSpaceAfterSign | swift/obj/updater.py:157 | white space may follow the sign: `int("- 1")` is -1 and `int("+ 1")` is 1 |
| PyStr.ParseIntLeadingZero | swift/obj/updater.py:157 | leading zeros and surrounding white space are accepted: `int(" 07\n")` is 7 |
| PyStr.ParseIntRefuses | swift/obj/updater.py:157 | a sign alone, two signs, an `L` suffix and the empty string are refused |
| PyStr.IntToString | swift/obj/updater.py:220-222 | `str()` of an integer, as written into the policy-index header: a `-` for negative numbers, then the decimal digits; `ParseIntOfIntToString` is its partner |
| AsyncPending.AsyncDirPolicySpacedSign | swift/obj/updater.py:152-158 | since `int()` allows white space after the sign, `async_pending-+ 1` is the async directory of policy 1 |
| PyStr.ParseIntOfIntToString | swift/obj/updater.py:157 | `int()` of the decimal text of any integer gives that integer back |
| PyStr.Split | swift/obj/updater.py:174 | `str.split(c)`: one more part than there are `c` in the string, no part holding `c`, and the parts joined with `c` give the string back; also used for the `:` split at swift/common/utils/ipaddrs.py:135 |
| AsyncPending.SplitUpdateName | swift/obj/updater.py:174-181 | the two-way split of an update name succeeds exactly when the name holds one `-`, and then the parts are what lies on either side of it |
| AsyncPending.HashFromPrefix | swift/obj/updater.py:174 | a well-formed name beginning `h-`, with `h` free of `-`, has hash `h` |
| AsyncPending.HashIsPrefix | swift/obj/updater.py:174 | a well-formed name begins with its hash followed by `-` |
| AsyncPending.ObjectUpdate | swift/obj/updater.py:262-275 | a node's reply counts as an acknowledgement exactly when it is a response with a 2xx or 404 status; an exception or timeout yields status 500, which is not one |
| AsyncPending.HeadersOut | swift/obj/updater.py:219-222 | the headers sent keep every stored header except that `user-agent` is `object-updater <pid>`; the policy-index header keeps its stored value when present and is `str(policy)` otherwise; no other header is added |
| AsyncPending.Targets | swift/obj/updater.py:223-225 | the ring's nodes whose id is not among the stored successes, in ring order; its own contract is a length bound, and which nodes these are is `TargetsMembers` |
| AsyncPending.TargetsMembers | swift/obj/updater.py:223-225 | a node is sent the update exactly when it is among the ring's nodes and its id is not among the stored successes |
| AsyncPending.UpdateRequests | swift/obj/updater.py:204-225 | a file that does not unpickle sends nothing; a readable one sends one request per target, every ring node whose id is not among the stored successes gets one, and each goes to such a node with the ring's partition, the stored op, the object path and `HeadersOut` |
| AsyncPending.NewlyAcked | swift/obj/updater.py:226-234 | the ids the waiting loop appends to `successes`, in target order; its own contract is a length bound, and which ids these are is `AckedMeans` |
| AsyncPending.AllAcked | swift/obj/updater.py:226-234 | the waiting loop's `success`: false once some target fails; its meaning is stated by `AckedMeans` |
| AsyncPending.AnyAcked | swift/obj/updater.py:226-234 | the waiting loop's `new_successes`: true once some target succeeds; its meaning is stated by `AckedMeans` |
| AsyncPending.RequestsReachTargets | swift/obj/updater.py:223-225 | every target node gets a request |
| AsyncPending.SentForMeans | swift/obj/updater.py:186-187 | a request sent for a file goes from its device to a ring node that had not taken the update, with the file's op and object path, and with the headers `HeadersOut` makes from the file's headers and the policy the file was processed under |
| AsyncPending.AckedMeans | swift/obj/updater.py:226-234 | after the waiting loop, `success` holds iff every target acknowledged, `new_successes` iff some target did, and the ids appended are exactly those of the acknowledging targets |
| AsyncPending.ProcessOutcome | swift/obj/updater.py:204-250 | what `process_object_update` does to one file: quarantine when it does not unpickle, otherwise delivered, or retried with or without a rewrite; its properties are `OutcomeOfReadable`, `RetryTargetsTheFailedNodes` and `QuarantinedStep` |
| AsyncPending.OutcomeOfReadable | swift/obj/updater.py:226-250 | a readable update is delivered (and its file removed) iff every target acknowledged it, vacuously so with no target; a rewrite happens only when some target acknowledged, keeps the stored ids as a prefix, adds at least one id and changes nothing else; no rewrite on failure means no target acknowledged |
| AsyncPending.RetryTargetsTheFailedNodes | swift/obj/updater.py:223-250 | after a failed round, with unique node ids, the next attempt targets exactly the nodes of this round that did not acknowledge |
| AsyncPending.WalkFate | swift/obj/updater.py:171-188 | the branch the walk takes on one name: skipped when not a file, an error when misnamed, unlinked when its hash is `last_obj_hash`, processed otherwise; `NewestIffNewHash` and `WalkStep` tie it to `FateOf` |
| AsyncPending.NextHash | swift/obj/updater.py:182-188 | `last_obj_hash` becomes the hash of a processed file and is otherwise kept; `LastHashWitness` and `WalkStep` state what it holds |
| AsyncPending.LastHash | swift/obj/updater.py:168-188 | `last_obj_hash` after a prefix of the walk: the hash of the last well-formed file visited, None before any; stated by `LastHashWitness` |
| AsyncPending.NewestIsUnique | swift/obj/updater.py:168-188 | at most one file per object and prefix directory is the one processed |
| AsyncPending.NewestExists | swift/obj/updater.py:168-188 | every object with a well-formed file in a prefix directory has one file that is processed |
| AsyncPending.NewestIffNewHash | swift/obj/updater.py:168-188 | walking the names greatest first, a well-formed file is processed (its hash differs from `last_obj_hash`) exactly when it has the greatest name among its object's files, with no assumption on the hash alphabet |
| AsyncPending.SupersededWasSeen | swift/obj/updater.py:182-184 | a file with a greater name for the same object comes earlier in the walk, so `last_obj_hash` is its hash when the older one is reached |
| AsyncPending.SeenIsSuperseded | swift/obj/updater.py:182-188 | when `last_obj_hash` equals a file's hash, a greater name for the same object exists |
| AsyncPending.LastHashWitness | swift/obj/updater.py:168-188 | `last_obj_hash` is the hash of the last well-formed file visited, and None when none was |
| PyStr.BetweenSharesPrefix | swift/obj/updater.py:169 | in sorted order, a name lying between two names with the same prefix has that prefix, so the files of one object are adjacent among the well-formed names |
| PyStr.BelowTotal | swift/obj/updater.py:169 | `PyStr.Below` models Python 2's `<` on byte strings, the order `sorted` uses: any two different strings are ordered one way or the other |
| PyStr.BelowTransitive | swift/obj/updater.py:169 | that order is transitive |
| Updater.SortedListing | swift/obj/updater.py:169 | `sorted(os.listdir(prefix_path), reverse=True)` names every entry of the directory once, greatest first |
| PyStr.SortDesc | swift/obj/updater.py:169 | `sorted(reverse=True)` is descending and a permutation of its input |
| AsyncPending.ListingSorted | swift/obj/updater.py:169 | the sorted listing of a prefix directory names every entry of it exactly once |
| AsyncPending.EntryAfter | swift/obj/updater.py:182-250 | an entry is removed exactly when it was unlinked, quarantined or delivered; unchanged when not a file, misnamed or failed without new acknowledgements; rewritten with the new record otherwise |
| AsyncPending.WalkStep | swift/obj/updater.py:168-188 | one step of the walk gives the entry the fate `FateOf` defines, moves `last_obj_hash` on correctly, and moves the files, the quarantine and the counters on by that entry alone |
| AsyncPending.TallyStatsStep | swift/obj/updater.py:176-250 | each entry adds to the counters exactly its fate's contribution: success and unlink for delivery, failure for a retry, error when misnamed, unlink when superseded, quarantine when unreadable |
| AsyncPending.QuarantinedStep | swift/obj/updater.py:204-213 | an entry's base name joins the quarantine exactly when it does not unpickle and is processed |
| AsyncPending.FateIsLocal | swift/obj/updater.py:164-188 | what happens to a file depends only on the entries of its own prefix directory |
| AsyncPending.EmptiedAfterSweep | swift/obj/updater.py:190-193 | a prefix directory is empty after its walk exactly when the walk removed every entry of it |
| AsyncPending.PrunedOne | swift/obj/updater.py:190-193 | a prefix directory disappears after its walk exactly when the walk left it empty |
| AsyncPending.SweepCompose | swift/obj/updater.py:164-193 | walking further directories after some are done leaves the same files as walking them all at once, with the same fates and the same directories emptied |
| AsyncPending.SweepDirsCompose | swift/obj/updater.py:141-193 | walking directories one group after another adds up, in files, quarantine, counters and removed directories, to walking them together |
| AsyncPending.TallyCompose | swift/obj/updater.py:164-193 | a counter's tally over two disjoint groups of directories is the disjoint union of the two walks' tallies |
| Updater.ListDir | swift/obj/updater.py:141 | a listing names every entry once, in an order left open |
| Updater.SweepDirs | swift/obj/updater.py:141-167 | the swept prefix directories are exactly the directories inside a top-level directory that maps to a valid policy |
| Updater.SweptAmongStep | swift/obj/updater.py:141-162 | visiting the next top-level name adds exactly the prefix directories of that name when it is an async-pending directory of a valid policy, and they were untouched before |
| Updater.ListedStep | swift/obj/updater.py:164-167 | visiting the next name in an async-pending directory adds it to the swept directories exactly when it is a directory |
| Updater.ObjectUpdater.constructor | swift/obj/updater.py:40-56 | a new updater starts with all counters at zero and nothing sent |
| Updater.ObjectUpdater.AwaitEvents | swift/obj/updater.py:226-234 | the waiting loop's `success`, `new_successes` and enlarged successes list are `AllAcked`, `AnyAcked` and the stored ids plus `NewlyAcked` |
| Updater.ObjectUpdater.Conclude | swift/obj/updater.py:235-250 | on success one more success and one more unlink, file removed; on failure one more failure, file rewritten with the enlarged list only when there are new successes |
| Updater.ObjectUpdater.SendUpdate | swift/obj/updater.py:214-250 | sends one request per target, then leaves the file and counters as `ProcessOutcome` says |
| Updater.ObjectUpdater.ProcessObjectUpdate | swift/obj/updater.py:196-250 | an unreadable file is quarantined under its base name and counted; a readable one is sent and concluded; the file, quarantine, counters and sent requests change exactly as `ProcessOutcome` and `UpdateRequests` say |
| Updater.ObjectUpdater.VisitEntry | swift/obj/updater.py:170-188 | a non-file is skipped; a misnamed file adds an error and leaves `last_obj_hash` unchanged; a file whose hash is `last_obj_hash` is unlinked; any other is processed and its hash becomes `last_obj_hash` |
| Updater.ObjectUpdater.WalkName | swift/obj/updater.py:169-189 | one name of the walk moves the state from the specification after `names[..i]` to the one after `names[..i + 1]`; every request sent so far in the walk is one `UpdateRequests` gives, with the walk's policy, for a file of the directory as it was before the walk |
| Updater.ObjectUpdater.SweepPrefix | swift/obj/updater.py:168-189 | after the walk of a prefix directory the files, quarantine and counters are `SweptFiles`, `QuarantinedNames` and `TallyStats` of that directory; every request sent is one `UpdateRequests` gives, with the policy passed in, for a file of that directory as it was before the walk |
| Updater.ObjectUpdater.SweepPrefixDir | swift/obj/updater.py:164-193 | the walk, then removal of the directory exactly when the walk emptied it; the requests are those of the walk |
| Updater.ObjectUpdater.SweepAsyncDir | swift/obj/updater.py:164-193 | every prefix directory of an async-pending directory is swept, and the emptied ones are removed; every request sent is for a file of one of them, with the policy passed in |
| Updater.ObjectUpdater.SweepListed | swift/obj/updater.py:164-167 | one name of the listing of an async-pending directory: when it is a directory it is swept and pruned, and the state moves from the specification after `listing[..j]` to the one after `listing[..j + 1]` |
| Updater.ObjectUpdater.SweepListedDir | swift/obj/updater.py:166-193 | one more prefix directory is swept and pruned, and its requests are for its files as they were before the sweep began |
| Updater.ObjectUpdater.ObjectSweep | swift/obj/updater.py:133-194 | the sweep of a device leaves files, quarantine, counters and prefix directories as the specification of sweeping all of `SweepDirs` says; every request sent is for a file of one of those directories, with the policy of that file's own async-pending directory (`SentForMeans`: that policy is what the policy-index header defaults to) |
| Updater.ObjectUpdater.RunDevice | swift/obj/updater.py:116-123 | an unmounted device under mount checking adds one error, is left alone and sends nothing; any other is swept, and its requests are those of `ObjectSweep` |
| Updater.RunStatsStep | swift/obj/updater.py:116-123 | each device adds its own contribution to the run's counters |
| Updater.ObjectUpdater.RunAt | swift/obj/updater.py:116-123 | one device of the loop is swept and every other device is left as it was; a skipped device sends nothing, any other sends only requests of its own sweep |
| Updater.ObjectUpdater.RunOnce | swift/obj/updater.py:110-131 | `successes` and `failures` start from zero; afterwards every device is in `AfterRun` of its old state, the counters are the old logger counts plus the devices' contributions, and every request sent is one the sweep of a device not skipped sends for one of its files, with that file's directory's policy |
| IpAddrs.MatchTail | swift/common/utils/ipaddrs.py:22 | after `]`, the pattern accepts nothing or a final newline (no port), or `:` and one or more digits optionally followed by a final newline (that port) |
| IpAddrs.MatchTailPort | swift/common/utils/ipaddrs.py:22 | `:` and digits, with or without a final newline, match with those digits as the port |
| IpAddrs.Longest | swift/common/utils/ipaddrs.py:22 | the backtracking search returns the greatest address length, not above its bound, for which the pattern matches |
| IpAddrs.MatchIPv6 | swift/common/utils/ipaddrs.py:22 | `IPV6_RE.match` fails exactly when no address length fits; otherwise the address is the greatest bracket content that fits and the port group is the tail's |
| IpAddrs.ParseSocketString | swift/common/utils/ipaddrs.py:107-141 | `parse_socket_string` itself, with the default port left as the marker `Default`; its properties are the lemmas below, `ParseSplitsInput` first |
| IpAddrs.ParseSplitsInput | swift/common/utils/ipaddrs.py:125-141 | each error comes from its own case (`[` for an invalid IPv6 literal, two or more `:` otherwise); a bracketed host lies between the leading `[` and a `]` of the input; an unbracketed input is the host alone, or the host, one `:` and the port, neither holding `:` |
| IpAddrs.BracketedParts | swift/common/utils/ipaddrs.py:127-132 | a string starting with `[` is refused as an invalid IPv6 literal, or its host lies between `[` and a `]` at its start |
| IpAddrs.ColonParts | swift/common/utils/ipaddrs.py:134-138 | an unbracketed string with a `:` is refused only when it holds two or more, and otherwise is host, `:` and port, neither holding `:` |
| IpAddrs.MatchParts | swift/common/utils/ipaddrs.py:22 | a match's address group is the greatest bracket content that fits and holds no newline; its port group is absent exactly when the tail is empty or a final newline, and otherwise the digits after `:` |
| IpAddrs.BracketedRejected | swift/common/utils/ipaddrs.py:127-130 | a string starting with `[` is rejected as an invalid IPv6 address exactly when the pattern does not match, and that is its only error |
| IpAddrs.BracketedHostIsGreedy | swift/common/utils/ipaddrs.py:131-132 | for a matching bracketed string the host is the greatest bracket content the pattern allows, holds no newline, and the port is the digits after `]:`, or the default when the tail is empty or a final newline |
| IpAddrs.NoColonIsHost | swift/common/utils/ipaddrs.py:139-140 | an unbracketed string without `:` is the host, with the default port |
| IpAddrs.OneColonSplits | swift/common/utils/ipaddrs.py:134-138 | an unbracketed string with one `:` splits at it; the port text is taken unchecked, even empty or not numeric |
| IpAddrs.ManyColonsRejected | swift/common/utils/ipaddrs.py:135-137 | an unbracketed string with two or more `:` is rejected as an unbracketed IPv6 address |
| IpAddrs.RoundTripPlain | swift/common/utils/ipaddrs.py:125-141 | `h:p` parses back to `h` and `p` when neither holds `:` and `h` does not start with `[` |
| IpAddrs.RoundTripBracketed | swift/common/utils/ipaddrs.py:125-141 | `[a]:d` parses back to `a` and `d` for any `a` without a newline, `]` included, and a non-empty digit string `d` |
| IpAddrs.RoundTripBracketedDefault | swift/common/utils/ipaddrs.py:125-141 | `[a]` parses back to `a` with the default port, for any `a` without a newline, `]` included |
| IpAddrs.OnlyBracketAt | swift/common/utils/ipaddrs.py:22 | when what follows the `]` after `a` is nothing or `:` and digits, no longer address group fits, so the greedy group is `a` |
| IpAddrs.BracketInsideHost | swift/common/utils/ipaddrs.py:127-132 | the greedy group runs to the last `]`: `[x]y]:80` gives host `x]y` and port `80` |

## Left out

- `run_forever` is not modelled. It uses a pool of forked processes, signals, random start jitter and sleeps, which is process concurrency rather than sequential logic.
- Timing, logging and `dump_recon_cache` are left out, and so is the `slowdown` sleep between files. None of them affects the files or the counters. The logger's statsd counters `errors`, `unlinks` and `quarantines` are modelled as fields.
- Ring loading (`get_container_ring`) is modelled as the ring, a constant function field.
- `http_connect` and eventlet's `spawn` and `Timeout` are modelled by a `Responder` input. It gives each node's reply to each update, as a status or as an exception or timeout. Replies therefore depend only on the device, the file and the node. Responses arriving out of order, and replies that differ across attempts within one pass, are not modelled.
- The device directory listing (`os.listdir(self.devices)`) and `ismount` are inputs: a sequence of distinct `Device` objects, each with a `mounted` flag.
- A device path that is not a directory, and listing errors in general, are not modelled.
- Pickle details are not modelled.
  - An update file is either readable into a complete `Update` record or `Unreadable`.
  - A record without a `successes` key is modelled as one with an empty list.
  - A record missing one of the other keys, which would raise a `KeyError` outside the `try`, is not modelled.
- `write_pickle` is modelled as replacing the file's contents atomically. Its temporary directory is not modelled.
- `renamer` to `quarantined/objects` is modelled as adding the base name to a set. Overwriting a quarantined file of the same name is not distinguished.
- `os.rmdir` of a prefix directory is modelled as succeeding exactly when the directory is empty. Other `OSError` causes are not modelled.
- `ASYNCDIR_BASE` and `get_async_dir` come from swift/obj/diskfile.py, which is not part of this model.
  - `ASYNCDIR_BASE` is taken to be `async_pending`.
  - Whether `get_async_dir` accepts a policy index is the input predicate `validPolicy`.
- PyStr.ParseInt models Python 2's `int()` of a byte string: ASCII white space (space, tab, newline, vertical tab, form feed, carriage return) around the number and between the sign and the digits, and ASCII digits only. A `long` suffix `L`, underscores and other bases are refused, as `int()` with base 10 refuses them.
- PyStr.Below orders strings by character code, as Python 2 orders byte strings. Unicode collation plays no part.
- Updater.ObjectUpdater.WalkName states which requests the walk has sent only in one direction: each is one a file of the directory sends. It does not state that each processed file's requests are all sent, or in which order; `VisitEntry` and `ProcessObjectUpdate` state that per file.
- Updater.ObjectUpdater.SweepPrefix states which requests are sent only in one direction: each is one that a file of the swept directories sends, under that directory's policy. It does not state that every processed file's requests are all sent, or their order; `VisitEntry` and `ProcessObjectUpdate` state that per file.
- Updater.ObjectUpdater.SweepPrefixDir states which requests are sent only in one direction: each is one that a file of the swept directories sends, under that directory's policy. It does not state that every processed file's requests are all sent, or their order; `VisitEntry` and `ProcessObjectUpdate` state that per file.
- Updater.ObjectUpdater.SweepAsyncDir states which requests are sent only in one direction: each is one that a file of the swept directories sends, under that directory's policy. It does not state that every processed file's requests are all sent, or their order; `VisitEntry` and `ProcessObjectUpdate` state that per file.
- Updater.ObjectUpdater.SweepListed states which requests are sent only in one direction: each is one that a file of the swept directories sends, under that directory's policy. It does not state that every processed file's requests are all sent, or their order; `VisitEntry` and `ProcessObjectUpdate` state that per file.
- Updater.ObjectUpdater.SweepListedDir states which requests are sent only in one direction: each is one that a file of the swept directories sends, under that directory's policy. It does not state that every processed file's requests are all sent, or their order; `VisitEntry` and `ProcessObjectUpdate` state that per file.
- Updater.ObjectUpdater.ObjectSweep states which requests are sent only in one direction: each is one that a file of the swept directories sends, under that directory's policy. It does not state that every processed file's requests are all sent, or their order; `VisitEntry` and `ProcessObjectUpdate` state that per file.
- Updater.ObjectUpdater.RunDevice states which requests are sent only in one direction: each is one that a file of the swept directories sends, under that directory's policy. It does not state that every processed file's requests are all sent, or their order; `VisitEntry` and `ProcessObjectUpdate` state that per file.
- Updater.ObjectUpdater.RunAt states which requests are sent only in one direction: each is one that a file of the swept directories sends, under that directory's policy. It does not state that every processed file's requests are all sent, or their order; `VisitEntry` and `ProcessObjectUpdate` state that per file.
- Updater.ObjectUpdater.RunOnce states which requests are sent only in one direction: each is one that a file of the swept directories sends, under that directory's policy. It does not state that every processed file's requests are all sent, or their order; `VisitEntry` and `ProcessObjectUpdate` state that per file.
- AsyncPending.Targets states only a length bound in its own contract. Its membership property is `TargetsMembers`.
- `is_valid_ipv4`, `is_valid_ipv6`, `expand_ipv6` and `whataremyips` in swift/common/utils/ipaddrs.py are not modelled. They are thin wrappers over the socket and netifaces libraries.
- `parse_socket_string` returns the caller's `default_port` when no port is given. The model returns the marker `Default` instead, because the default is passed through untouched.
