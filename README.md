# airos-exporter in Dafny

A verified model of the core of `airos_exporter.py`, a Prometheus exporter for
Ubiquiti airOS radios. The model covers five parts:

- **Dotted-key store.** `DictX` and `Config` are modelled in `store.dfy`. The store is a flat str→str map whose keys encode nesting with `.`:
  - looking up a missing key yields the sub-store below it;
  - iteration treats `0.`/`1.` keys as an array;
  - `change` fans a structured value out into dotted keys;
  - the store renders as sorted `key=value` lines.
- **Decoded JSON objects.** These are `DictX` values (`dictx.dfy`). A missing key gives an empty `DictX`, and an empty `DictX` prints as nothing.
- **mca-status parser** (`mca.dfy`). The output of `ubntbox mca-status` is stripped, split on runs of `\r`, `\n` and `,`, and each segment is split on its first `=`. The pairs then go into a dictionary in which later keys win.
- **Connection loop** (`connect.dfy`). `airos_connect` makes up to nine guarded SSH attempts and, only if all nine fail with a retried SSH error, a tenth unguarded one.
- **Peer labels and count** (`peers.dfy`). These are the labels of a wireless peer's metrics and the count of peers that report extra details.

`text.dfy` holds the string pieces Python gives the source for free:
- `startswith`;
- `str(int)`;
- the ordering of `str` values;
- `join`;
- `strip`.

`wrappers.dfy` holds `Option` and `Result`.

`Config.change` updates the store in place, so `Config` is a class with the
map as a field and `Change` as a method. `Change`'s result is tied to the
reference function `Changed`, and the lemmas about `change` are stated about
`Changed`. Lookup, iteration and rendering only read the store, so they are
functions of the map.

The SSH connection is replaced by a parameter `attempt: nat -> Outcome`, which gives the outcome of the n-th attempt to build the client. Sleeping is replaced by a count of seconds.

## Model

| member | source | states |
|---|---|---|
| `DottedStore.Missing` | airos_exporter.py:32-38 | the sub-store of a missing key holds `k` exactly when `key.k` is stored, with the same value |
| `DottedStore.GetChained` | airos_exporter.py:32-38 | indexing never fails, and when `key` is not stored the chained lookup `self[key][p]` is `self[key.p]`, whether a stored value or a sub-store |
| `DottedStore.MissingTwice` | airos_exporter.py:32-38 | the sub-store of `p` inside the sub-store of `key` is the sub-store of `key.p` |
| `DottedStore.MissingEmpty` | airos_exporter.py:32-38 | the sub-store is empty exactly when no stored key starts with `key.` |
| `DottedStore.MissingUpdate` | airos_exporter.py:32-38 | storing one entry changes the sub-store of `key` only when the entry lies below `key.`, and then by exactly that entry |
| `DottedStore.TakeNonEmpty` | airos_exporter.py:42 | the rows taken from index `start` are the consecutive non-empty sub-stores, and the first row after them is empty (or the index range ended) |
| `DottedStore.Run` | airos_exporter.py:41-44 | row `j` of an array run is the sub-store of index `start + j`, non-empty, and the run stops at the first empty index |
| `DottedStore.Iterate` | airos_exporter.py:40-46 | a store with a `0.` key iterates as rows from 0; otherwise one with a `1.` key iterates as rows from 1; an array yields at least one row; any other store yields its keys |
| `DottedStore.IterateStopsAtGap` | airos_exporter.py:41-42 | keys `0.a` and `2.a` iterate to the single row `{a: x}`: the gap at 1 ends the array |
| `DottedStore.IterateOneBased` | airos_exporter.py:43-44 | keys `1.a` and `2.a` iterate as the 1-based rows `{a: x}`, `{a: y}` |
| `DottedStore.Lines` | airos_exporter.py:66 | one `key=value` line per key, in the given order |
| `DottedStore.Render` | airos_exporter.py:65-66 | `str()` of a store is empty exactly when the store is empty |
| `DottedStore.RenderSingle` | airos_exporter.py:65-66 | a one-entry store renders as `key=value` with no trailing newline |
| `DottedStore.RenderLeastFirst` | airos_exporter.py:65-66 | a store renders as the line of its least key, then a newline and the rendering of the other entries if there are any |
| `DottedStore.WithoutPrefix` | airos_exporter.py:51-52 | the deletion loop keeps exactly the keys that do not start with `key`, with their values |
| `DottedStore.Encode` | airos_exporter.py:53-63 | only strings, bools and ints have a stored text: a string as itself, `True`/`False` as `enabled`/`disabled`, an int as Python's `str` of it (`Text.IntToString`), which reads back as the int |
| `DottedStore.Changed` | airos_exporter.py:50-63 | `change` completes exactly when the value contains no unsupported type anywhere; otherwise it raises TypeError |
| `DottedStore.ChangedItems` | airos_exporter.py:59-61 | the dict case completes exactly when every item's value is supported |
| `DottedStore.ChangedFrame` | airos_exporter.py:50-63 | every key not starting with `key` keeps its presence and value, so everything `change` adds or deletes starts with `key`, also when it raises |
| `DottedStore.ChangedItemsFrame` | airos_exporter.py:59-61 | the recursive calls for the subkeys touch only keys starting with `key` |
| `DottedStore.ChangedForgets` | airos_exporter.py:51-52 | the result does not depend on what was stored under `key` before |
| `DottedStore.ChangedIdempotent` | airos_exporter.py:50-63 | applying `change(key, v)` twice gives the same store and outcome as applying it once |
| `DottedStore.ChangedScalar` | airos_exporter.py:53-58 | a scalar is stored as its text at `key`, and no other key starting with `key` remains |
| `DottedStore.ChangedDeletesSibling` | airos_exporter.py:51-52 | the prefix is a plain string prefix: `change("a", scalar)` on `{ab: y}` leaves only `a` |
| `DottedStore.ChangedOtherDeletes` | airos_exporter.py:51-63 | an unsupported value raises TypeError after every key starting with `key` has been deleted |
| `DottedStore.MissingWithout` | airos_exporter.py:32-38 | deleting below `key.p` and then looking up `key` equals deleting below `p` in the sub-store |
| `DottedStore.MissingAssign` | airos_exporter.py:32-38 | storing at `key.p` and then looking up `key` equals storing at `p` in the sub-store |
| `DottedStore.ChangedBelow` | airos_exporter.py:50-63 | `change(key.p, v)` followed by lookup of `key` equals `change(p, v)` applied to the sub-store of `key`, with the same outcome |
| `DottedStore.ChangedItemsBelow` | airos_exporter.py:59-61 | the same commutation for the dict case |
| `DottedStore.ChangedReadBack` | airos_exporter.py:50-63 | after `change(key.p, scalar)` with `key` not stored, `self[key][p]` reads back the scalar's text |
| `DottedStore.Config.Change` | airos_exporter.py:50-63 | the in-place method leaves exactly the store and outcome of `Changed` on the old store |
| `Text.Digits` | airos_exporter.py:57-58 | the decimal digits of a natural number: non-empty, all digits, no leading zero |
| `Text.IntToString` | airos_exporter.py:57-58 | the text stored for an int is Python's `str` of it: a minus sign exactly for negative ints, then digits with no leading zero except in `0` itself (never `07` or `-0`), reading back as that int |
| `Text.IntToStringInjective` | airos_exporter.py:57-58 | different ints are stored as different texts |
| `Text.BelowTotal` | airos_exporter.py:66 | Python's string order compares any two different keys |
| `Text.BelowTransitive` | airos_exporter.py:66 | Python's string order is transitive |
| `Text.Sorted` | airos_exporter.py:66 | `sorted(keys)` lists every key exactly once, in strictly increasing order |
| `Text.Join` | airos_exporter.py:66 | joining no parts gives the empty string; otherwise the result starts with the first part and its length is the parts' total plus one separator per gap |
| `Text.JoinAppend` | airos_exporter.py:66 | joining two non-empty lists of parts is joining each and putting one separator between them |
| `Text.Strip` | airos_exporter.py:115 | the stripped text neither starts nor ends with whitespace, it is a slice of the input, and only whitespace was cut |
| `Text.StripUnchanged` | airos_exporter.py:115 | a text without surrounding whitespace is unchanged by `strip` |
| `McaStatus.SplitRuns` | airos_exporter.py:115 | `re.split('[\r\n,]+', s)` gives at least one piece and no piece holds a separator; a text without separators is one piece; only the first and last pieces can be empty, the first exactly when `s` is empty or starts with a separator, and the last exactly when it ends with one |
| `McaStatus.SepRuns` | airos_exporter.py:115 | the separator runs cut out of the text: one fewer than the pieces, each a non-empty run of separators |
| `McaStatus.SplitRunsRebuild` | airos_exporter.py:115 | the pieces with the cut runs between them give back the text |
| `McaStatus.SplitRunsInterleave` | airos_exporter.py:115 | separator-free pieces, only the outer ones possibly empty, with any non-empty separator run in each gap split back into exactly those pieces; with `SplitRunsRebuild` this fixes the split of every text |
| `McaStatus.SplitRunsKeepsText` | airos_exporter.py:115 | splitting drops the separators and nothing else, keeping the order |
| `McaStatus.SplitRunsCons` | airos_exporter.py:115 | a field, a separator run and a rest not starting with a separator split into the field followed by the rest's pieces |
| `McaStatus.KeptFieldRun` | airos_exporter.py:115 | a separator-free field followed by a separator run contributes only the field |
| `McaStatus.SplitOnce` | airos_exporter.py:114 | `split('=', 1)` gives one piece exactly when there is no `=`; otherwise it gives the text before the first `=` and everything after it |
| `McaStatus.SplitOnceOf` | airos_exporter.py:114 | a `key=value` with no `=` in `key` splits into exactly `key` and `value`, so values may contain `=` |
| `McaStatus.Pairs` | airos_exporter.py:111-116 | the unpacking succeeds exactly when every segment has `=`; otherwise it fails at the first segment without one |
| `McaStatus.ToMap` | airos_exporter.py:110-112 | the dictionary's keys are the pairs' keys, and each key holds the value of its last pair |
| `McaStatus.LastWithKey` | airos_exporter.py:110-112 | a key carried by some pair has a last pair carrying it |
| `McaStatus.EntriesAreSegments` | airos_exporter.py:110-116 | each dictionary entry `key=value` is one of the segments, and no key holds `=` |
| `McaStatus.SegmentKeysAreEntries` | airos_exporter.py:110-116 | each segment's key is in the dictionary |
| `McaStatus.LastSegmentWins` | airos_exporter.py:110-116 | the last segment carrying a key prints back as that key and the value the dictionary keeps |
| `McaStatus.Collect` | airos_exporter.py:110-116 | the parse fails exactly when a segment lacks `=`, at the first such segment; otherwise every entry is a segment with an `=`-free key, every segment's key is present, and each key holds the value of its last segment |
| `McaStatus.ParseMcaStatus` | airos_exporter.py:110-116 | the dictionary's keys hold neither `=` nor a separator and its values hold no separator; the segment at which it fails is separator-free and has no `=` |
| `McaStatus.BlankOutputFails` | airos_exporter.py:110-116 | empty or whitespace-only output fails on the single empty segment |
| `McaStatus.TrailingCommaFails` | airos_exporter.py:110-116 | output whose stripped text ends with `,` fails |
| `McaStatus.TrailingSeparatorFails` | airos_exporter.py:110-116 | text ending in a separator (`,`, `\r` or `\n`) fails on its empty last segment |
| `McaStatus.SegmentWithoutEqualsFails` | airos_exporter.py:111-116 | a single segment without `=` anywhere in the output makes the whole parse fail |
| `McaStatus.LineSegment` | airos_exporter.py:114-115 | the `key=value` of a parseable pair is non-empty and separator-free, and starts with the key's first character (`=` when the key is empty) and ends with the value's last one (`=` when the value is empty) |
| `McaStatus.ParseRoundTrip` | airos_exporter.py:110-116 | pairs whose keys lack `=` and whose keys and values lack separators, printed with any separator run in each gap, parse to the dictionary of the pairs, later keys winning, provided the text does not start or end with whitespace |
| `McaStatus.PairsOfLines` | airos_exporter.py:113-114 | splitting each `key=value` line on its first `=` gives back the pairs |
| `McaStatus.ToMapLaterWins` | airos_exporter.py:110-112 | of two pairs with one key, the dictionary holds the second value |
| `McaStatus.LaterDuplicateWins` | airos_exporter.py:110-116 | `k=v,k=w` parses to `{k: w}` |
| `Connect.Tries` | airos_exporter.py:124-135 | from attempt `n` on, the call makes between `n + 1` and 10 attempts. Every attempt before the last was a retried SSH failure. The caller sees the last attempt's outcome. It sleeps 2 s per retry. An SSH failure is seen only on the 10th attempt |
| `Connect.Connection` | airos_exporter.py:124-135 | the whole call makes 1 to 10 attempts, retries only SSH failures with 2 s of sleep each, and hands the caller the last attempt's outcome, which is an SSH failure only on the 10th |
| `Connect.AirosConnect` | airos_exporter.py:124-135 | the loop makes at most 10 attempts and 9 sleeps of 2 s, retries only plain SSH failures, and matches `Connection` |
| `Connect.AttemptsExactly` | airos_exporter.py:124-135 | the call makes exactly `k` attempts iff the first `k-1` were retried SSH failures and the `k`-th was not (or `k` is 10) |
| `Connect.AuthFailureIsImmediate` | airos_exporter.py:127-129 | an authentication failure on the first attempt is raised with no retry and no sleep |
| `Connect.OtherFailureIsNotRetried` | airos_exporter.py:125-134 | an error outside the SSH hierarchy propagates from the attempt it occurs on |
| `Connect.TenthAttemptUnguarded` | airos_exporter.py:135 | after nine SSH failures, the 10th attempt's outcome, even another SSH failure, is what the caller sees after 18 s of sleep |
| `DictX.Index` | airos_exporter.py:24-28 | reading a key a `DictX` lacks gives an empty `DictX`, which is falsy and prints as the empty string; a held key gives its value |
| `DictX.Truthy` | airos_exporter.py:280-285 | the falsy values are exactly `None`, `False`, 0, and the empty string, list and dictionary |
| `DictX.Str` | airos_exporter.py:27-28 | an object prints as the empty string exactly when it is empty; text prints as itself; `None`, `True` and `False` print as those words; ints print as Python's `str` of them |
| `Peers.RemoteLabels` | airos_exporter.py:275-285 | the report is the peer's `remote` or `{}`. MAC and last IP come by `DictX` indexing. The hostname is the report's `hostname`, else the peer's `name`, else `''`, as text. Platform and version are present exactly when the report holds truthy ones. The labels fail when the report is not a dict, or when the hostname is a value whose text is not modelled |
| `Peers.PeerLabels` | airos_exporter.py:287-288 | the peer's labels override device labels of the same name, and every other device label is kept |
| `Peers.SilentPeerUsesName` | airos_exporter.py:278-285 | a peer without a report is labelled by its `name` and gets no platform or version label |
| `Peers.MissingMacIsBlank` | airos_exporter.py:276 | a peer without `mac` gets an empty `DictX` label that prints as nothing |
| `Peers.CountReporting` | airos_exporter.py:222 | the count is at most the number of peers. It is 0 exactly when no peer has `remote`, and equals the number of peers exactly when all do |
| `Peers.CountReportingAppend` | airos_exporter.py:222 | the count over two lists of peers is the sum of their counts |

## Left out

- SSH, paramiko and running the remote commands are left out. The command output is a parameter, and so is the outcome of each connection attempt.
- The UTF-8 decoding of the command output is left out. The parser works on the decoded text.
- JSON decoding is left out. Decoded values are given as `DictX.Json`, and JSON numbers are integers only.
- The five-second TTL cache of `status`, `mcastatus` and `wstalist` is left out, as are the `read_*` helpers that drop it.
- The metrics are left out: the gauges and counters, the float arithmetic on mca-status fields, the Prometheus registry and its text format.
- The WSGI application, its routing and the environment configuration are left out.
- Real sleeping and the `print` of the exception name are left out. Sleeping is counted in seconds.
- `DottedStore.Iterate`: `Config.__iter__` yields plain keys in insertion order. The model gives the set of keys, so the order is not modelled.
- `DottedStore.Render` is a ghost function. Python's `sorted` is specified by `Text.Sorted` rather than computed.
- `DictX.Str`: Python's repr of lists and non-empty dicts is not modelled (`None`).
- `Text.IntToString`: the limit on converting ints to text is not modelled. Since Python 3.11 (and the matching security releases of 3.7 to 3.10), `str()` of an int with more than 4300 decimal digits raises `ValueError`, and `sys.set_int_max_str_digits` can change that limit. So `change` with such an int completes in the model, storing its text. Python raises `ValueError` at line 58 instead, after the deletion loop at lines 51-52 has run. The rows for `Text.IntToString`, `DottedStore.Encode` and `DottedStore.Changed` hold only for ints within the limit.
- `McaStatus.Collect`: the model's error `NotEnoughValues(segment)` records the segment at which the unpacking fails; Python's `ValueError` ("not enough values to unpack") does not name the segment.
- `Peers.RemoteLabels`: a hostname that is a list or a non-empty dict makes the labels fail with `HostnameNotPrintable`, whereas Python prints its repr. Label values other than the hostname stay decoded values; the metrics library's own `str()` of them is not modelled.
- `DottedStore.Val`: a Python dict is a sequence of fields. Distinct subkeys are not required, which generalises Python's dicts.
- The device labels and the device and station metrics read from `status` are left out (they are lookups feeding the metrics).
- `Connect.Connection`: when the retries run out, the 10th attempt's own exception propagates; there is no separate error for exhausted retries. Only `SSHException` and its subclasses are retried, so any other error, such as a socket timeout, propagates from its own attempt.
