# ss-cluster configuration validator, modelled in Dafny

ss-cluster starts one ss-local worker per backend server listed in a JSON
configuration file. Before any worker starts, `validateConfig` in
`src/cli.js` normalises and checks the parsed configuration:

- it rejects a missing or empty `servers` list with the single error
  "No defined servers in config file";
- it merges the shared `default` block under every server entry with the
  shallow `extend` helper, the entry's own keys winning;
- it checks every merged server for `serverAddr`/`serverPort`,
  `localAddr`/`localPort`, `method` and `password`, in that order, recording
  at most one message per server (`server #i - ... not defined`);
- it sets `timeout` to 600 on a server that passes and leaves it falsy;
- it builds the string `localAddr + ":" + localPort` for every passing
  server;
- it hands back the error list (null when there is none) together with the
  server list.

This project models that pass as pure functions over parsed JSON values and
proves what it promises.

Modules:

- `Wrappers` (wrappers.dfy): `Option`; `None` plays JavaScript's `undefined`.
- `Decimal` (decimal.dfy): how an array index is written in decimal. The
  rendering reads back to the same number, so two indices never share a rendering.
- `Json` (json.dfy): JSON values (numbers as exact reals). Also JavaScript
  truthiness (`!x`), property lookup, `.length`, and the keys a
  `for (prop in x)` loop visits.
- `Merge` (extend.dfy): `extend(target, ...sources)`, where later sources
  override earlier ones.
- `Validator` (validate.dfy): the reference definition `Validate` of the
  callback's arguments, the whole run `Run` (which either calls back with
  `Validate`'s outcome or stops on an uncaught TypeError), and
  `ValidateConfig`, which mirrors the source's two loops and is proved equal
  to `Run`.
- `ValidateProperties` (properties.dfy): the properties of the whole pass.

Three behaviours of the code are worth knowing before reading the table:

- The merged server list is returned even when errors are reported
  (src/cli.js:72).
- `timeout` is defaulted only on servers that pass all four checks
  (src/cli.js:46-62).
- Building `localAddr + ":" + localPort` (src/cli.js:63) throws a TypeError
  when a passing server's `localAddr` or `localPort` is an object with an own
  `toString` key, or an array holding one. Nothing catches it, so the
  callback is never called. The lemmas stated over `Validate` describe the
  callback's arguments; `RunReachesCallback` says exactly when they are
  delivered.

## Model

| member | source | states |
|---|---|---|
| Decimal.DecimalString | src/cli.js:45 | the index in a message is a non-empty digit string without a leading zero |
| Decimal.DecimalRoundTrip | src/cli.js:45 | reading the decimal rendering of an index back gives the same index |
| Decimal.SplitAfterDigits | src/cli.js:45 | a digit run followed by " - " can be split back off a message unambiguously |
| Json.ForInVisits | src/cli.js:13-14 | `for (prop in source)` visits an object's own keys, an array's or string's decimal indices (one distinct key per element, so `length` keys in all), and nothing for undefined, null, booleans or numbers |
| Json.CountIndexKeys | src/cli.js:13-14 | a map keyed by exactly the decimal renderings of `0 .. n-1` has `n` entries, because no two indices share a rendering |
| Merge.ExtendKeys | src/cli.js:10-18 | the result of `extend` holds exactly the target's keys plus every key some source supplies |
| Merge.ExtendLastSourceWins | src/cli.js:10-18 | a key takes its value from the last source that supplies it |
| Merge.ExtendKeepsTarget | src/cli.js:10-18 | a target key that no source supplies keeps its value |
| Validator.GuardAdmitsNonEmptyArrays | src/cli.js:31 | among the modelled shapes, `!servers \|\| !servers.length` is false exactly for a non-empty array |
| Validator.FirstFailingIndex | src/cli.js:44-59 | the search stops at a check that fails with every earlier check passing, and runs off the end only when no check fails |
| Validator.ChecksRunInOrder | src/cli.js:44-59 | the address/port check decides first, then local address/port, then method, then password; the first failing one is reported |
| Validator.FirstThrowing | src/cli.js:42-63 | the loop stops at a server whose address key throws, every earlier server's key converting, and runs to the end only when none throws |
| Validator.CheckServer | src/cli.js:43-63 | one loop iteration records exactly that server's message (or none), defaults `timeout` only when all four checks pass, and throws exactly when the passing server's address key cannot be built |
| Validator.CheckServers | src/cli.js:42-71 | the in-place loop stops exactly at the first server whose address key throws; when nothing throws it yields exactly the reference error list and the list with `timeout` defaulted entry by entry |
| Validator.ValidateConfig | src/cli.js:31-72 | the source-shaped merge-then-validate procedure ends as the reference run does: the same uncaught throw, or a callback with the same errors and server list as the reference definition |
| ValidateProperties.MergePrecedence | src/cli.js:37 | a merged server holds the union of the entry's and `default`'s keys, the entry's value winning and a `default`-only key inherited |
| ValidateProperties.MergeWithoutDefaultCopies | src/cli.js:37 | without a `default` block an object entry is copied unchanged |
| ValidateProperties.MessageInjective | src/cli.js:45-57 | two equal error messages name the same server index and the same failed check |
| ValidateProperties.FailingIndicesExact | src/cli.js:42-59 | the failing indices are increasing, in range, no more than the servers, and contain exactly the servers that fail a check |
| ValidateProperties.ErrorsAlongFailingIndices | src/cli.js:42-59 | error `j` is the message of the `j`-th failing server, carrying its index and its first failing check |
| ValidateProperties.ErrorsEmptyIffAllValid | src/cli.js:39-59 | no message is recorded exactly when every merged server passes every check |
| ValidateProperties.ErrorsDependOnVerdictsOnly | src/cli.js:42-59 | the error list depends only on which check (if any) each server fails |
| ValidateProperties.NoServersRejected | src/cli.js:31-33 | a missing, falsy or empty `servers` yields exactly ["No defined servers in config file"] and a null list; otherwise a list is returned |
| ValidateProperties.ServersFollowInputOrder | src/cli.js:35-38 | the returned list keeps the input's length and order even when errors are reported, and apart from `timeout` entry `i` is `default` overridden by `servers[i]` |
| ValidateProperties.OnlyTimeoutWritten | src/cli.js:42-71 | validation changes no key of a merged server other than `timeout` |
| ValidateProperties.TimeoutDefaulting | src/cli.js:60-62 | a passing server with falsy `timeout` ends with 600; a truthy `timeout` is kept; a failing server is left exactly as merged |
| ValidateProperties.TimeoutWriteKeepsVerdict | src/cli.js:60-62 | writing the default `timeout` changes no check's verdict, and applying it twice equals applying it once |
| ValidateProperties.ErrorsNullIffAllValid | src/cli.js:72 | the error result is null exactly when every merged server passes all four checks |
| ValidateProperties.ErrorsListFailingServers | src/cli.js:42-59 | a non-null error result lists one message per failing server in index order |
| ValidateProperties.ErrorCountBounded | src/cli.js:44-59 | there are never more errors than servers |
| ValidateProperties.NoServerReportedTwice | src/cli.js:44-59 | no two messages of the error list name the same server index |
| ValidateProperties.ValidServerNotNamed | src/cli.js:42-59 | a merged server that passes all four checks is named by no message of the error list |
| ValidateProperties.DuplicateLocalAddressesAccepted | src/cli.js:63-70 | two servers sharing `localAddr` and `localPort` that both pass the four checks are named by no error message, whatever the other servers do |
| ValidateProperties.RevalidationIsStable | src/cli.js:35-72 | validating the returned list again, with no `default`, gives the same errors and the same list |
| ValidateProperties.RevalidationEndsAlike | src/cli.js:35-72 | validating the returned list again ends the run the same way: the callback again, or the same server's throw |
| ValidateProperties.FirstThrowingDependsOnVerdicts | src/cli.js:42-63 | where the run stops depends only on which servers' address keys throw |
| ValidateProperties.RunReachesCallback | src/cli.js:60-72 | the callback receives the reference outcome exactly when no passing server's address key throws; otherwise the run stops at the first such server, which passed all four checks |
| ValidateProperties.ScalarAddressesReachCallback | src/cli.js:63 | when every `localAddr` and `localPort` is a string, number, boolean, null or absent, the callback is always reached with the reference outcome |
| ValidateProperties.ToStringAddressHaltsRun | src/cli.js:63 | a passing first server whose `localAddr` is `{"toString": 0}` stops the run before the callback, whatever servers follow |

## Left out

- Reading the file and `JSON.parse` (src/cli.js:26-30) are I/O and a foreign
  parser. The model starts from the parsed `servers` and `default` values.
  The read-error path `callback([err], null)` is not modelled. Neither is the
  uncaught exception thrown by malformed JSON.
- A configuration whose top level is not an object is not modelled. For
  example, the JSON text `null` makes `configObj.servers` throw.
- Validator.ValidateConfig, `Validator.Validate` and every
  `ValidateProperties` lemma about the whole pass require
  `ModelledServersShape`. Two shapes of `servers` pass the guard without
  being arrays: a non-empty string, and an object whose own `length` is
  truthy. The source then walks them by key, and for an object the key order
  is not represented in a map. Both shapes are excluded.
- The `localAddrSet` set (src/cli.js:41, 70) is left out: it is filled but
  never read, because its duplicate check is commented out. Building its
  key (src/cli.js:63) is modelled only as far as whether it throws
  (`AddressKeyThrows`); the string it builds would need JavaScript's
  number-to-string conversion and is not modelled. The conversion's throw
  is taken from parsed JSON holding no functions: an object converts unless
  it has an own `toString` key, and an array converts unless one of its
  elements does not.
- `commander` option parsing, `console.log` output and `process.exit` codes
  (src/cli.js:6-8, 77-91) are CLI plumbing.
- `cluster.fork` and the worker-id-to-server mapping (src/cli.js:92-98) are OS
  process concurrency.
- `start`, `SSLocal` and `Logger` (src/cli.js:3, 5, 19-23): `./ssLocal` and
  `./logger` are not part of this model. Backend health, cooldown and
  connection relaying are not in the modelled file, so they are not modelled
  either.
- JSON numbers are exact reals. The model does not cover numerals that
  underflow to 0 in JavaScript, such as `1e-400`, which are falsy there but
  non-zero here.
- Strings are sequences of Unicode scalar values, while JavaScript strings
  are sequences of UTF-16 code units. Indexing differs for a string `default`
  or `servers` entry that contains characters outside the Basic Multilingual
  Plane. A string holding a lone surrogate, which `JSON.parse` produces from
  an escape such as `"\ud800"`, cannot be represented at all: a
  configuration with such a string in any key or value has no model.
- A key named `__proto__` is treated as an ordinary key. In JavaScript,
  assigning it in `extend` changes the target's prototype instead.
- The order of keys inside an object is not modelled, because objects are
  maps. Nothing in the validation pass depends on that order.
