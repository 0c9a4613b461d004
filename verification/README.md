# Bees with Machine Guns, modelled in Dafny

Bees with Machine Guns starts a swarm of small EC2 instances (the *bees*) and
has them load-test a web application together with ApacheBench (`ab`). This
project models the core of the tool in Dafny and proves properties of it:

- **tester.py**: `ABTester.get_command` (the `ab` command line one bee runs),
  `ABTester.parse_output` (the ten measures scanned out of `ab`'s report with
  regular expressions and `float()`), and `get_aggregate_result` (sum, max or
  mean per field over the bees that finished).
- **bees.py**: the roster file `~/.bees` (`_write_server_list` and
  `_read_server_list`), the `up` / `report` / `down` guards, and `attack`.
  `attack` splits the load with `int(float(n) / count)` and builds one parameter
  record per instance. It then stings the target from every bee (`_attack`),
  sorts the results into timeouts, socket errors and completed bees, and
  aggregates the completed ones.
- **main.py**: `NO_TRAILING_SLASH_REGEX`, choosing the target (`-f` before `-u`),
  and dispatching the command word to bees.py with its usage errors.

The modules follow the program:

- `Wrappers`: `Option`.
- `Text`: Python 2 string primitives restated on `seq<char>`. It covers
  `strip`, `split`, `join`, `readline`, `'%s' % n` and `float()` on
  digit-and-dot strings.
- `Tester`: the result record and the aggregation.
- `AbTester`: the command line and the report scanner.
- `Roster`: the roster file.
- `Bees`: the load split, one bee, the swarm, the partition, and the lifecycle.
- `Cli`: main.py.

Everything outside the process is a parameter of the model:

- EC2 gives the instance list and the launched ids; the local file system answers whether `~/.ssh/<key>.pem` exists.
- SSH is a `Remote` function from a session to stdout, a socket error or another failure.
- The URL ping is a boolean.
- The file system is a map from path to text.

Python's `re.search` is modelled for the one expression shape `parse_output`
uses: an optional leading `\s+`, then `LABEL\s+(CLASS+)SUFFIX`. The model is a staged, greedy matcher. It
is proved sound and complete against a plain reading of the expression, and it
finds the leftmost match.

## Model

| member | source | states |
|---|---|---|
| Text.Strip | beeswithmachineguns/bees.py:53-54 | `strip()` leaves no whitespace at either end |
| Text.StripSlice | beeswithmachineguns/bees.py:53-54 | what `strip()` keeps is one slice of the input with only whitespace before and after it |
| Text.StripTrimmed | beeswithmachineguns/main.py:139 | `strip()` returns a string with no surrounding whitespace unchanged |
| Text.StripTrailingSpace | beeswithmachineguns/bees.py:53-54 | stripping a trimmed value followed by whitespace (the newline `readline` keeps) gives the value back |
| Text.Split | beeswithmachineguns/bees.py:56 | `split('\n')` is never empty, no part contains the separator, and the result is `[s]` exactly when `s` has no separator |
| Text.Join | beeswithmachineguns/bees.py:66 | joining no parts gives `""`, joining one part gives that part |
| Text.SplitJoin | beeswithmachineguns/bees.py:56-66 | splitting what was joined returns the parts, when there is at least one and none contains the separator |
| Text.JoinSplit | beeswithmachineguns/bees.py:56-66 | joining what was split returns the string, whatever it contains |
| Text.ReadLine | beeswithmachineguns/bees.py:53-55 | `readline` and the following `read` split the text in two: the first line with its newline, then the rest; no newline gives the whole text |
| Text.ReadLineOf | beeswithmachineguns/bees.py:53-55 | a newline-free line followed by a newline is exactly what `readline` returns |
| Text.IntToString | beeswithmachineguns/tester.py:82-83 | `'%s' % n` is non-empty, has no space or quote, and starts with `-` exactly when `n` is negative |
| Text.IntRoundTrip | beeswithmachineguns/tester.py:82-83 | the integer written with `'%s' % n` reads back as `n` |
| Text.DecodeFloat | beeswithmachineguns/tester.py:107-140 | `float()` on a digit-and-dot capture succeeds exactly when it has a digit and at most one dot, and the value is never negative |
| Text.NumeralParts | beeswithmachineguns/tester.py:107-108 | a numeral with a dot is digits, dot, digits, and decodes to whole part plus fraction over a power of ten |
| Text.DecodeFloatZero | beeswithmachineguns/tester.py:110-112 | a captured mean is `0.0` exactly when all its digits are zeros |
| Text.DecodeDigitRun | beeswithmachineguns/tester.py:114-140 | `float()` of any non-empty run of digits, leading zeros included, is the number the digits denote |
| Text.DecodeFloatOfNat | beeswithmachineguns/tester.py:114-140 | the decimal text of `n` decodes to `n` |
| Tester.FieldsDetermineRecord | beeswithmachineguns/tester.py:16-29 | a result is determined by its ten named fields |
| Tester.Max | beeswithmachineguns/tester.py:57 | `max` is at least every bee's value and is the value of some bee |
| Tester.Aggregate | beeswithmachineguns/tester.py:49-67 | every field of the aggregate is its rule applied to the bees: sum, maximum for the time taken, and mean for the three times |
| Tester.SumAppend | beeswithmachineguns/tester.py:55-62 | the sum over two groups of bees is the sum of the groups' sums |
| Tester.MaxAppend | beeswithmachineguns/tester.py:57 | the maximum over two groups is the larger of the groups' maxima |
| Tester.SumPermutation | beeswithmachineguns/tester.py:55-62 | a sum does not depend on the order of the bees |
| Tester.MaxPermutation | beeswithmachineguns/tester.py:57 | the maximum does not depend on the order of the bees |
| Tester.AggregatePermutation | beeswithmachineguns/tester.py:49-67 | the aggregate does not depend on the order in which the pool returned the bees |
| Tester.AggregateSingleton | beeswithmachineguns/tester.py:49-67 | one bee aggregates to its own result |
| Tester.MeanTimesCount | beeswithmachineguns/tester.py:63-65 | the mean times the number of bees is the sum |
| Tester.AggregateAppendSummed | beeswithmachineguns/tester.py:55-62 | a summed field of two groups is the sum of the groups' aggregates |
| Tester.AggregateAppendMaximum | beeswithmachineguns/tester.py:57 | the time taken of two groups is the larger of the groups' aggregates |
| Tester.AggregateAppendAveraged | beeswithmachineguns/tester.py:63-65 | an averaged field of two groups is the count-weighted combination of the groups' means |
| Tester.MeanBounds | beeswithmachineguns/tester.py:63-65 | a mean lies between the smallest and the largest bee value |
| Tester.AggregateBounds | beeswithmachineguns/tester.py:49-67 | the time taken bounds every bee's and is attained, means lie within the bees' range, and non-negative inputs aggregate to non-negative fields |
| Tester.AggregateTwoBees | beeswithmachineguns/tests/test_ab_tester.py:112-118 | the two-bee example gives the sums and the maximum the upstream test asserts; its means are unweighted |
| AbTester.NextWord | beeswithmachineguns/tester.py:90 | a word is found exactly when there is a space, and the word, the space and the rest give back the text |
| AbTester.CommandText | beeswithmachineguns/tester.py:76-91 | the command line is `ab`, `-r`, `-n N`, `-c C`, optionally `-k`, and the quoted URL, one space apart |
| AbTester.DecodeQuotedOf | beeswithmachineguns/tester.py:85-88 | the words after `-c` give back the keepalive flag and the URL |
| AbTester.CommandRoundTrip | beeswithmachineguns/tester.py:76-91 | decoding the command line gives back the request count, concurrency, keepalive flag and URL |
| AbTester.GetCommandExample | beeswithmachineguns/tests/test_tester.py:18-21 | `get_command(3, 6, False, url)` is `ab -r -n 3 -c 6 "url"`, for the upstream test's URL and any other |
| AbTester.GetCommandKeepaliveExample | beeswithmachineguns/tests/test_tester.py:23-26 | `get_command(10, 100, True, url)` is `ab -r -n 10 -c 100 -k "url"`, for the upstream test's URL and any other |
| AbTester.SpaceRun | beeswithmachineguns/tester.py:108 | `\s+` taken greedily: a whitespace run that stops at a non-space or the end |
| AbTester.ClassRun | beeswithmachineguns/tester.py:108 | `[0-9.]+` or `[0-9]+` taken greedily: a class run that stops at a non-class character or the end |
| AbTester.MatchAtComplete | beeswithmachineguns/tester.py:94-98 | wherever the expression matches plainly, the matcher finds a match, capturing at least the plain capture (exactly it when a suffix follows) |
| AbTester.MatchAtSound | beeswithmachineguns/tester.py:94-98 | every match the matcher finds is a plain match of the expression, and the capture is the text after the label and its spaces |
| AbTester.FirstMatchFrom | beeswithmachineguns/tester.py:97 | `re.search` returns a matching position, and there is no match before it |
| AbTester.Capture | beeswithmachineguns/tester.py:97-98 | a captured group is non-empty and made of class characters |
| AbTester.CaptureSound | beeswithmachineguns/tester.py:97-98 | a capture comes from a plain match of the expression |
| AbTester.CaptureIsLeftmost | beeswithmachineguns/tester.py:97-98 | whenever the expression matches plainly, a capture exists and starts no later |
| AbTester.CaptureNeedsLabel | beeswithmachineguns/tester.py:97-98 | no label in the report, no capture |
| AbTester.PatternsUnambiguous | beeswithmachineguns/tester.py:107-140 | each of the ten expressions starts its label with a non-space and its suffix with a non-class character, so greedy matching is the only reading |
| AbTester.Measure | beeswithmachineguns/tester.py:94-98 | a measure is never negative; without a capture it is missing, except Non-2xx which defaults to 0 |
| AbTester.Assemble | beeswithmachineguns/tester.py:104-142 | the order of `parse_output`'s decisions: a missing mean raises, a zero mean gives `None`, any other missing field raises, otherwise every field is its measure |
| AbTester.ParseOutput | beeswithmachineguns/tester.py:101-142 | `None` exactly when the mean is `0.0`; a ValueError exactly when a needed measure is missing; otherwise a non-negative record with a positive mean that holds every measure |
| AbTester.MissingLabel | beeswithmachineguns/tester.py:94-98 | a label absent from the report makes `float('')` raise, except for Non-2xx, which defaults to 0 |
| AbTester.MissingNon2xxIsZero | beeswithmachineguns/tester.py:135-137 | with no Non-2xx line the measure is 0 |
| AbTester.ParseOutputWithoutMean | beeswithmachineguns/tester.py:107-108 | a report without a mean time per request is a ValueError, not `None` |
| Roster.ReadServerList | beeswithmachineguns/bees.py:46-60 | no file reads as nothing; a file reads as stripped user and key lines and at least one newline-free id |
| Roster.MobilizedIffFile | beeswithmachineguns/bees.py:46-60 | the `if instance_ids:` guards depend only on whether the roster file exists |
| Roster.RosterRoundTrip | beeswithmachineguns/bees.py:46-66 | reading back a written roster gives its user, key and ids, when there is at least one id and none contains a newline |
| Roster.EmptyRosterReadsBlankId | beeswithmachineguns/bees.py:56-66 | a roster written with no instances reads back one empty id, which counts as mobilized |
| Bees.TruncDiv | beeswithmachineguns/bees.py:232-233 | `int(float(n) / count)` rounds toward zero: within one share of `n` on the side of zero |
| Bees.TruncDivNegate | beeswithmachineguns/bees.py:232-233 | rounding toward zero is symmetric in the sign of `n` |
| Bees.BuildParams | beeswithmachineguns/bees.py:238-251 | one record per instance, in instance order, each with its index, its instance and the common share and options |
| Bees.TotalOfEqualShares | beeswithmachineguns/bees.py:232-251 | equal shares add up to the share times the number of bees |
| Bees.SharesCoverRequest | beeswithmachineguns/bees.py:231-251 | the swarm fires at most the requested number, and less than one request per bee short of it |
| Bees.Sting | beeswithmachineguns/bees.py:174-204 | a socket error of the exact type or of a subclass is returned as that exception, and only socket failures give a socket error; any other SSH failure raises; output is parsed: a record, `None`, or a ValueError that raises |
| Bees.SessionCommandDecodes | beeswithmachineguns/bees.py:185-198 | the command each bee runs carries exactly its own share and options |
| Bees.Swarm | beeswithmachineguns/bees.py:261-262 | `pool.map` raises exactly when some bee raises, and otherwise keeps one result per bee, in bee order |
| Bees.PoolMap | beeswithmachineguns/bees.py:262 | an order-preserving map that fails exactly when some call fails |
| Bees.CompleteResults | beeswithmachineguns/bees.py:267 | every completed result comes from the bees' results |
| Bees.TimeoutsCount | beeswithmachineguns/bees.py:265 | the timeout count is the number of bees whose result was `None` |
| Bees.SocketErrorsFromBees | beeswithmachineguns/bees.py:266 | every reported socket error is the reason of some bee's socket error, of the exact type or of a subclass |
| Bees.SocketErrorsKeepAll | beeswithmachineguns/bees.py:266 | no bee's socket error, of any subclass, is left out of the report |
| Bees.PartitionCounts | beeswithmachineguns/bees.py:265-267 | with the corrected socket-error test, every result is a timeout, a socket error or a completed bee, and exactly one of them |
| Bees.CompleteResultsKeepAll | beeswithmachineguns/bees.py:267 | no finished bee is dropped |
| Bees.TimeoutsAppend | beeswithmachineguns/bees.py:265 | counting timeouts distributes over concatenated result lists |
| Bees.SocketErrorsAppend | beeswithmachineguns/bees.py:266 | socket errors (of any subclass, the corrected test) keep bee order across concatenation |
| Bees.CompleteResultsAppend | beeswithmachineguns/bees.py:267 | completed results keep bee order across concatenation |
| Bees.OneSocketErrorAmongThree | beeswithmachineguns/bees.py:265-267 | three bees with the middle one refused: one socket error, no timeout, and the other two completed in order |
| Bees.Attack | beeswithmachineguns/bees.py:208-271 | no roster means no attack; no instances divide by zero; every bee gets its index, its instance, the URL, the keepalive flag, the roster's user and key and the truncated shares; a failed ping stops it; a raising bee aborts it; otherwise it completes exactly when some bee finished, reporting the partition and aggregating the completed bees, and with none it crashes on `max([])` |
| Bees.CompleteBeesAsWritten | beeswithmachineguns/bees.py:267 | as written, `complete_bees` holds only parsed results and subclass socket errors, all taken from the bees' results |
| Bees.CompleteBeesAsWrittenKeepsSubclass | beeswithmachineguns/bees.py:266-267 | as written, a socket error of a subclass passes the exact type test and is kept among the completed bees |
| Bees.CompleteBeesAsWrittenResults | beeswithmachineguns/bees.py:267 | the parsed results among `complete_bees` as written are exactly the bees' parsed results |
| Bees.ExceptionBeesWithoutSubclass | beeswithmachineguns/bees.py:266 | when no bee returned a subclass socket error, the exact type test collects every socket error |
| Bees.ConcludeAsWritten | beeswithmachineguns/bees.py:265-269 | as written, the end of the attack either completes with a non-empty aggregate or crashes, on a kept socket error or on `max([])` |
| Bees.SubclassCrashesAsWritten | beeswithmachineguns/bees.py:265-269 | as written, the attack crashes in `get_aggregate_result` exactly when some bee returned a socket error of a subclass |
| Bees.AsWrittenAgreesWithoutSubclass | beeswithmachineguns/bees.py:265-269 | without subclass socket errors the code as written and the corrected partition end the attack the same way |
| Bees.UnresolvedHostCrashesAsWritten | beeswithmachineguns/bees.py:265-269 | a finished bee beside one whose host did not resolve: the code as written crashes, the corrected partition reports one error and aggregates the finished bee |
| Bees.Conclude | beeswithmachineguns/bees.py:265-269 | the corrected end of the attack: it completes exactly when a result was parsed, reporting timeouts, every socket error and the parsed results, which together account for every bee; otherwise `max([])` raises |
| Bees.ConcludeCompletesIffFinished | beeswithmachineguns/bees.py:265-269 | the corrected attack completes exactly when some bee finished, whatever socket errors the others returned |
| Bees.Up | beeswithmachineguns/bees.py:76-127 | `up` refuses when a roster exists, stops when the key file is missing (naming its path), and otherwise writes a roster |
| Bees.UpThenRead | beeswithmachineguns/bees.py:76-127 | the roster `up` writes reads back as the user, key and launched ids |
| Bees.Down | beeswithmachineguns/bees.py:151-172 | `down` terminates the roster's ids exactly when a roster exists, and leaves no roster file |
| Bees.DownThenNothing | beeswithmachineguns/bees.py:151-172 | after `down` nothing is mobilized: a second `down` does nothing and `up` may run again |
| Bees.Report | beeswithmachineguns/bees.py:129-149 | `report` asks for the roster's ids exactly when a roster exists |
| Cli.LastNonWord | beeswithmachineguns/main.py:32 | the last position holding a non-word character, with only word characters after it |
| Cli.LacksTrailingSlashIsRegex | beeswithmachineguns/main.py:32 | the decision procedure accepts exactly the strings `^.*?\.\w+$` matches with `re.match` |
| Cli.TrailingSlashAccepted | beeswithmachineguns/main.py:143 | a URL ending in `/` passes the check |
| Cli.DotlessAccepted | beeswithmachineguns/main.py:143 | a URL without a dot passes the check |
| Cli.DottedHostRefused | beeswithmachineguns/main.py:143-144 | a host with a dotted domain and nothing after it is refused |
| Cli.SelectTarget | beeswithmachineguns/main.py:136-148 | `-f` wins and its first line is used stripped; an unreadable file is a usage error; `-u` is used or refused by the slash check; with neither it is a usage error |
| Cli.SelectTargetChecksSlash | beeswithmachineguns/main.py:142-146 | a `-u` URL is refused exactly when the expression matches it |
| Cli.FileLineIsTarget | beeswithmachineguns/main.py:136-139 | a file whose text is one stripped line gives that line as the target |
| Cli.FileSkipsSlashCheck | beeswithmachineguns/main.py:136-146 | the same `host.tld` is accepted from a file and refused from `-u` |
| Cli.DispatchAsWritten | beeswithmachineguns/main.py:134-151 | every attack that reaches the call to `bees.attack` fails on the number of arguments |
| Cli.Dispatch | beeswithmachineguns/main.py:116-155 | no command is a usage error; `up` runs exactly when a key is given and is otherwise refused with the key message; an attack calls `bees.attack` with the selected target and the options exactly when a target is selected, and otherwise exits with the target's message; `down` and `report` run on their words; other words do nothing |
| Cli.AttackCallFails | beeswithmachineguns/main.py:142-151 | `bees attack -u http://example.com/` passes the slash check and then fails on the call as written, while the corrected dispatch attacks that URL |
| Cli.AttackWithUrl | beeswithmachineguns/main.py:141-151 | an attack given by `-u` alone reaches `bees.attack` with that URL exactly when the trailing-slash expression does not match it, is refused with the slash message exactly when it does, and as written fails on the call exactly when it gets that far |
| Cli.AttackWithFile | beeswithmachineguns/main.py:135-151 | an attack given by `-f` reaches `bees.attack` with the file's stripped line whatever `-u` says, and as written fails on the call |
| Cli.DispatchAgreesElsewhere | beeswithmachineguns/main.py:116-155 | the code as written and the corrected dispatch differ only on attacks that reach the call |

## Left out

- EC2 (boto): connecting, launching, polling instance state, tagging and terminating. The launched ids, the instances EC2 reports and whether the key file exists are parameters.
- SSH (paramiko): one session is the `Remote` parameter. Its answer is stdout, a `socket.error` of the exact type, one of a `socket.error` subclass (`socket.timeout`, `socket.gaierror`, `socket.herror`), or any other exception. Which failures paramiko raises as which is not modelled.
- The URL ping `urllib2.urlopen(url)` is a boolean parameter. The model does not look at its response.
- The `multiprocessing.Pool`: only its result is modelled, an order-preserving map that fails as a whole when any bee raises. Concurrency and scheduling are left out.
- All printing, `TesterResult.print_text`, logging, the `-v` flag and the `-o` output modes.
- optparse itself: `Options` holds the values after parsing, with defaults applied. `int` conversion of `-s`, `-n` and `-c` is left out.
- `os.path.expanduser`: `PemPath` keeps the `~/.ssh/` prefix, and the roster file is the text of `~/.bees` or None.
- Deleting the roster file in `down` is modelled as the file becoming None. The `up` wait loop over instance states is not modelled.
- Regular expression internals: only the one expression shape `parse_output` uses and `NO_TRAILING_SLASH_REGEX` are modelled, each by its own matcher.
- Floating point: measures are exact reals. `float()` is modelled only on the digit-and-dot strings the expressions can capture. Rounding and exponents are left out.
- SiegeTester, percentile fields and weighted means from later versions of the tool. This version averages `ms_per_request` and the two percentiles without weights.
- Bees.Attack: it partitions socket errors as `Bees.Conclude` does, the corrected reading of bees.py:266-267; the code as written is `Bees.ConcludeAsWritten` (see Findings).
- Bees.Attack: `n` and `c` are unbounded integers. Python 2 floats would lose precision above 2^53 before `int()` truncates, and that loss is not modelled.
- The roster keeps no region: this version of `_write_server_list` writes only the user, the key name and the ids.
- A label missing from `ab`'s output makes `float('')` raise (`ParseOutcome.ValueError`); `parse_output` returns None only when the mean time per request is zero. This follows the code, not a description that would return None for any missing label.

## Findings

| source | as written | input that shows it | evidently intended | confidence | as-written member | corrected member |
|---|---|---|---|---|---|---|
| beeswithmachineguns/main.py:151 | `bees.attack(url, options.number, options.concurrent, options.keepalive, options.output_type)` passes five arguments to `attack(url, n, c, keepalive)` (bees.py:208), which takes four | `bees attack -u http://example.com/`: the call raises TypeError before `attack` runs (Cli.AttackCallFails; for every `-u` or `-f` target, Cli.AttackWithUrl and Cli.AttackWithFile) | call `bees.attack` with its four parameters | not executed | Cli.DispatchAsWritten | Cli.Dispatch |
| beeswithmachineguns/bees.py:266-267 | `type(r) == socket.error` keeps only the exact type, so a socket error of a subclass that `_attack` caught and returned (bees.py:203-204) goes to `complete_bees`, and `get_aggregate_result` raises AttributeError at `r.concurrency` (tester.py:55) | a bee whose host name does not resolve (`socket.gaierror`) next to a bee that finished (Bees.UnresolvedHostCrashesAsWritten, Bees.SubclassCrashesAsWritten) | `isinstance(r, socket.error)`: report every socket error and aggregate only the parsed results | plausible; not executed | Bees.ConcludeAsWritten | Bees.Conclude |
