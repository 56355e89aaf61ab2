# Motor coordinate handlers and IOC-manager string logic, in Dafny

This project models two pieces of the caproto-alive IOC applications.

**Motor record (`Motor`, motor.dfy).** A motor record exposes a user setpoint VAL, which is the value of the parent property. It also has a dial setpoint DVAL, a user readback RBV, a dial readback DRBV, a calibration offset OFF and a direction DIR. User and dial coordinates are related by `user = dial * d + OFF`, where `d = -1` when DIR is `"Neg"` and `+1` for any other value. The inverse is `dial = (user - OFF) / d`.

`MotorRecord` is a class with these six fields. It has one method per field handler, in two layers:
- `Put*` is the handler body.
- `Write*` runs the handler and only then stores the written value, as the record framework does. So the OFF and DIR handlers see the old offset or direction in their own field and pass the new one in explicitly.

`HandleNewUserDesiredValue` converts a desired user value to dial coordinates and writes DVAL. DVAL's handler then writes VAL back; the model stops after that one hop.

The invariant is `Consistent()`: VAL and RBV are the current DVAL and DRBV under OFF and DIR. Every `Write*` method and `HandleNewUserDesiredValue` preserves it, with each write running to completion before the next one. A `Put*` handler body alone does not preserve it: it runs while the written field still holds its old value. Writing OFF or DIR establishes it from any state.

**IOC manager (`Manager`, manager.dfy).**
- `ParseScriptLocation` splits a `[[user@]host:]/path` specifier the way Python's `re.match` applies `^(?:(?P<user>.+)@)?(?:(?P<host>.+):)?(?P<path>/.+)$`. It is a backtracking search: `LastSplit` tries each greedy group from its longest capture down, and returns the split together with what the rest of the pattern captured after it. `.` does not match a newline. `$` also matches just before one final newline, so `"/a\n"` has path `"/a"`. `None` stands for an input the pattern does not match; on such an input the source fails when it calls `.group` on the missing match.
- `Matches` states the pattern's language without any search. The lemmas show that the parser returns a match, finds one whenever one exists, and returns the first match in backtracking order: the longest user, then the longest host (`TriedNoLater`).
- `GuessRunner` chooses the SSH runner exactly when both a user and a host were captured.
- `RunArgs` gives the argument list each runner request hands to its script.
- `ParseStatusReply` classifies a status reply as Python applies `^\S+ is (not)? ?running`. `\S` excludes every character for which Python's `str.isspace` holds.

All motor quantities are `real`. The script's reply is a parameter, because `execute_script` is abstract in the source.

## Model

| member | source | states |
|---|---|---|
| `Motor.Sign` | src/caprotoapps/motor/motor_base.py:161-162 | the sign is -1 exactly when the direction is "Neg", +1 for every other value |
| `Motor.DialToUser` | src/caprotoapps/motor/motor_base.py:148-163 | user = offset - dial for "Neg", dial + offset for any other direction |
| `Motor.UserToDial` | src/caprotoapps/motor/motor_base.py:131-146 | the result maps back to the given user value; it is offset - user for "Neg", user - offset otherwise |
| `Motor.DialUserDialRoundTrip` | src/caprotoapps/motor/motor_base.py:142-163 | dial to user to dial recovers the dial value for every offset and direction |
| `Motor.DialToUserInjective` | src/caprotoapps/motor/motor_base.py:160-163 | two dial values have the same user value only if they are equal |
| `Motor.MotorRecord.Consistent` | src/caprotoapps/motor/motor_base.py:165-195 | the invariant the handlers keep: VAL and RBV are DVAL and DRBV in user coordinates under the stored OFF and DIR; the `Write*` methods and `HandleNewUserDesiredValue` preserve it, and the OFF and DIR writes establish it |
| `Motor.MotorRecord.constructor` | src/caprotoapps/motor/tests/test_motor_base.py:13 | a fresh record holds zeros and direction "Pos", and is consistent |
| `Motor.MotorRecord.PutDialDesiredValue` | src/caprotoapps/motor/motor_base.py:165-169 | the DVAL handler sets VAL to the incoming dial value under the stored OFF and DIR and changes nothing else |
| `Motor.MotorRecord.WriteDialDesiredValue` | src/caprotoapps/motor/motor_base.py:165-169 | after a DVAL write, DVAL is the new value and VAL is its user value; DRBV, RBV, OFF and DIR are unchanged; consistency is preserved |
| `Motor.MotorRecord.PutDialReadbackValue` | src/caprotoapps/motor/motor_base.py:171-175 | the DRBV handler sets RBV to the incoming dial readback's user value and changes nothing else |
| `Motor.MotorRecord.WriteDialReadbackValue` | src/caprotoapps/motor/motor_base.py:171-175 | after a DRBV write, RBV is its user value; VAL and DVAL (the setpoints), OFF and DIR are unchanged; consistency is preserved |
| `Motor.MotorRecord.PutUserOffset` | src/caprotoapps/motor/motor_base.py:177-185 | the OFF handler recomputes VAL and RBV from the unchanged DVAL and DRBV with the incoming offset, while OFF still holds the old one |
| `Motor.MotorRecord.WriteUserOffset` | src/caprotoapps/motor/motor_base.py:177-185 | after an OFF write, OFF is the new value, the dial values and DIR are unchanged, and the record is consistent |
| `Motor.MotorRecord.PutUserDirection` | src/caprotoapps/motor/motor_base.py:187-195 | the DIR handler recomputes VAL and RBV from the unchanged dial values with the incoming direction, while DIR still holds the old one |
| `Motor.MotorRecord.WriteUserDirection` | src/caprotoapps/motor/motor_base.py:187-195 | after a DIR write, DIR is the new value, the dial values and OFF are unchanged, and the record is consistent |
| `Motor.MotorRecord.HandleNewUserDesiredValue` | src/caprotoapps/motor/motor_base.py:120-129 | a desired user value u sets DVAL to u in dial coordinates and, through the DVAL handler, VAL to u; readbacks, OFF and DIR are unchanged |
| `Motor.SetpointScenario` | src/caprotoapps/motor/tests/test_motor_base.py:23-41 | DIR "Pos", OFF 1615, DVAL 5885 give VAL 7500; OFF 1715 gives 7600; OFF 12385 then DIR "Neg" give 6500 |
| `Motor.ReadbackScenario` | src/caprotoapps/motor/tests/test_motor_base.py:57-70 | the same steps on DRBV give RBV 7500, 7600 and 6500, while VAL follows only the unchanged DVAL |
| `Motor.DesiredValueScenario` | src/caprotoapps/motor/tests/test_motor_base.py:74-91 | with OFF 1615, a desired user value 7500 loads DVAL 5885 and leaves VAL at 7500 |
| `Manager.PathMatches` | src/caprotoapps/manager.py:53 | the search-free reading of `(?P<path>/.+)$`: the capture is '/' and at least one non-newline character, and it is the whole remainder or the remainder less one final newline |
| `Manager.HostPathMatches` | src/caprotoapps/manager.py:52-53 | the search-free reading of `(?:(?P<host>.+):)?(?P<path>/.+)$`: an optional `.+` host and its ':', then a path match |
| `Manager.Matches` | src/caprotoapps/manager.py:50-54 | the search-free reading of `script_re`: an optional `.+` user and its '@', then a host-and-path match; the parser lemmas below are measured against it |
| `Manager.TriedNoLater` | src/caprotoapps/manager.py:50-54 | Python's backtracking order over matches: a longer user first, a present user before an absent one, and for users of equal length a longer host first |
| `Manager.LastSplit` | src/caprotoapps/manager.py:51-52 | a greedy `(.+)sep` group: the split returned lies below the bound; `LastSplitSound` and `LastSplitLatest` below state which split it is |
| `Manager.LastSplitSound` | src/caprotoapps/manager.py:51-52 | the split returned has a `.+` capture before it and the separator at it, and what comes with it is the rest of the pattern's capture after the separator |
| `Manager.LastSplitLatest` | src/caprotoapps/manager.py:51-52 | whenever some split below the bound works, one is returned, and it is at that split or at a longer capture |
| `Manager.LastSplitAbsent` | src/caprotoapps/manager.py:51-52 | without the separator in the input, the optional group is skipped |
| `Manager.MatchPath` | src/caprotoapps/manager.py:53 | `(?P<path>/.+)$` on a remainder; its properties are `MatchPathSound` and `MatchPathComplete` below |
| `Manager.MatchPathSound` | src/caprotoapps/manager.py:53 | a returned path capture matches `(/.+)$`: it is the whole remainder, or the remainder less one final newline |
| `Manager.MatchPathComplete` | src/caprotoapps/manager.py:53 | every path match is the one returned, so `$` leaves only one choice |
| `Manager.MatchHostPath` | src/caprotoapps/manager.py:52-53 | the `(?:(?P<host>.+):)?(?P<path>/.+)$` half of the pattern, the longest host first; its properties are `HostPathSound` and `HostPathComplete` below |
| `Manager.HostPathSound` | src/caprotoapps/manager.py:52-53 | what the host-and-path matcher returns matches `(?:(.+):)?(/.+)$` |
| `Manager.HostSplitMatches` | src/caprotoapps/manager.py:52-53 | a host cut at a ':' and followed by a path match is a host-and-path match |
| `Manager.HostPathComplete` | src/caprotoapps/manager.py:52-53 | every host-and-path match is found, and the host returned is at least as long as that match's host |
| `Manager.ParseScriptLocation` | src/caprotoapps/manager.py:57-78 | `parse_script_location` on the whole pattern; its properties are `ParseSound`, `ParseComplete`, `ParseIsFirstMatch` and `ParseFailsIffNoMatch` below |
| `Manager.ParseSound` | src/caprotoapps/manager.py:50-78 | what the parser returns is a match of the script pattern |
| `Manager.NoUserMatches` | src/caprotoapps/manager.py:50-78 | when the user group is skipped, the host-and-path result over the whole input is a match with no user |
| `Manager.UserSplitMatches` | src/caprotoapps/manager.py:50-78 | a user cut at an '@' whose remainder the host-and-path matcher accepts gives a match |
| `Manager.ParseComplete` | src/caprotoapps/manager.py:50-78 | whenever the pattern matches, the parser succeeds, and its result comes no later in backtracking order than that match |
| `Manager.UserSplitFirst` | src/caprotoapps/manager.py:51-53 | a workable '@' split makes the parse succeed with a user at least that long, and with a host at least as long as that split's when the users agree |
| `Manager.MatchesUnique` | src/caprotoapps/manager.py:50-54 | two matches whose groups have the same lengths are identical |
| `Manager.ParseIsFirstMatch` | src/caprotoapps/manager.py:50-78 | a match tried no later than every other match is exactly what the parser returns |
| `Manager.ParseFailsIffNoMatch` | src/caprotoapps/manager.py:73-75 | the parser fails (the source's `.group` on no match) exactly when the pattern matches nothing |
| `Manager.MatchesSpelledOut` | src/caprotoapps/manager.py:50-54 | a match is user + "@" + host + ":" + path, with absent groups and separators left out, optionally followed by one newline |
| `Manager.ParseReconstructs` | src/caprotoapps/manager.py:57-78 | with user and host both present, user + "@" + host + ":" + path gives back the input, less a final newline if there was one |
| `Manager.ParsedPathShape` | src/caprotoapps/manager.py:53 | the parsed path starts with '/', has at least two characters and no newline |
| `Manager.ParseNeedsPathSuffix` | src/caprotoapps/manager.py:53-75 | a successful parse means the input ends with the path, or with the path and one newline; an input without such a suffix fails |
| `Manager.PlainPathParse` | src/caprotoapps/manager.py:51-53 | an input starting with '/' with at least two characters and no '@', ':' or newline parses as no user, no host, the whole input |
| `Manager.GreedyUser` | src/caprotoapps/manager.py:51 | "a@b@host:/p" gives user "a@b": the user is cut at the last workable '@' |
| `Manager.GreedyHost` | src/caprotoapps/manager.py:52 | "u@h:/a:/b" gives host "h:/a" and path "/b": the host is cut at the last ':' before a valid path |
| `Manager.ParseRemote` | src/caprotoapps/manager.py:57-78 | user@host:/path, where the user may hold any characters but a newline, the host no '@' and the path neither '@' nor ':', parses into exactly those three parts |
| `Manager.ParseHostOnly` | src/caprotoapps/manager.py:57-78 | host:/path, with no '@' in either part and no ':' in the path, parses as no user, that host and that path |
| `Manager.RemoteScriptExample` | src/caprotoapps/manager.py:9-10 | "myuser@myhost:/path/to/script" gives ("myuser", "myhost", "/path/to/script") |
| `Manager.Runner` | src/caprotoapps/manager.py:120-167 | `BCDARunner` keeps only the script path; `BCDASSHRunner` adds the user and host |
| `Manager.GuessRunner` | src/caprotoapps/manager.py:172-180 | fails exactly when parsing fails; the SSH runner exactly when user and host are both present, carrying them; the script path is the parsed path |
| `Manager.HostWithoutUserIsLocal` | src/caprotoapps/manager.py:176-180 | "myhost:/path/to/script" has a host but no user and gets the local runner, which keeps only the path |
| `Manager.RemoteScriptUsesSsh` | src/caprotoapps/manager.py:176-178 | the documented remote specifier gets the SSH runner with user "myuser" and host "myhost" |
| `Manager.Verb` | src/caprotoapps/manager.py:126-148 | the words "start", "stop", "restart" and "status" the four requests pass; that they differ is `RunArgsDistinguishRequests` below |
| `Manager.RunArgs` | src/caprotoapps/manager.py:124-149 | the start, stop, restart and status requests pass exactly [script path, "start" / "stop" / "restart" / "status"] |
| `Manager.RunArgsDistinguishRequests` | src/caprotoapps/manager.py:124-169 | two requests give the same argument list only if they are the same request, and the SSH runner builds the same list as the local runner |
| `Manager.StatusCode` | src/caprotoapps/manager.py:81-85 | Unknown is 0, Stopped is 1, Running is 2 |
| `Manager.IsSpace` | src/caprotoapps/manager.py:151 | `\s` in a Python `str` pattern, the characters for which `str.isspace` holds; `\S` is its complement, used by `NonSpaceRun` and `StatusMatches` |
| `Manager.NonSpaceRun` | src/caprotoapps/manager.py:151 | greedy `\S+`: the longest prefix with no whitespace |
| `Manager.NonSpaceRunOf` | src/caprotoapps/manager.py:151 | `\S+` over a word followed by whitespace takes exactly the word |
| `Manager.StatusMatches` | src/caprotoapps/manager.py:151 | the search-free reading of `^\S+ is (not)? ?running`: a non-empty word without whitespace, " is ", the optional "not", the optional space and "running", as a prefix of the reply |
| `Manager.ParseStatusReply` | src/caprotoapps/manager.py:151-161 | the classification in `ioc_status`; its properties are `ParseStatusReplyCorrect`, `StatusIgnoresTrailingText` and `StatusOfWordReply` below |
| `Manager.StatusWordIsRun` | src/caprotoapps/manager.py:151 | in any match, `\S+` captured the reply's whole leading non-space run |
| `Manager.StatusMatchTail` | src/caprotoapps/manager.py:151 | a match is that run, then " is ", then the optional "not", the optional space and "running" |
| `Manager.StatusMatchClassifies` | src/caprotoapps/manager.py:151-161 | a match that captures "not" makes the reply Stopped; a match without it makes it Running |
| `Manager.RecognisedReplyShape` | src/caprotoapps/manager.py:151-155 | a reply classified Stopped or Running is its non-empty leading non-space run, then " is ", then the rest |
| `Manager.StatusMatchOf` | src/caprotoapps/manager.py:151 | a non-space word, " is " and a tail beginning with the pattern's optional "not", optional space and "running" form a match |
| `Manager.StatusClassifiedHasMatch` | src/caprotoapps/manager.py:151-161 | a reply classified Stopped or Running has a match of that kind |
| `Manager.ParseStatusReplyCorrect` | src/caprotoapps/manager.py:151-161 | Stopped iff a match captures "not", Running iff a match does not, Unknown iff nothing matches |
| `Manager.StatusIgnoresTrailingText` | src/caprotoapps/manager.py:151 | appending text to a recognised reply does not change its classification |
| `Manager.StatusOfWordReply` | src/caprotoapps/manager.py:151-161 | a word then " is " is followed by "not" with or without one space and then "running" (Stopped), by "running" with or without one leading space (Running), or by anything else (Unknown) |
| `Manager.RunningReplyExample` | src/caprotoapps/manager.py:151-161 | "myioc is running" is Running |
| `Manager.StoppedReplyExample` | src/caprotoapps/manager.py:151-161 | "myioc is not running" is Stopped |
| `Manager.GarbledReplyExample` | src/caprotoapps/manager.py:151-155 | "myioc is sleeping" is Unknown |

## Left out

- The startup hook that opens a client context and subscribes to the parent property (src/caprotoapps/motor/motor_base.py:111-118) is network I/O. `HandleNewUserDesiredValue` is a direct call that takes the desired value, rather than `response.data[0]` of a subscription callback.
- The asynchronous loop VAL write → subscription → DVAL write is not modelled beyond one hop.
- The commented-out move, tweak, driver, description and jog code (src/caprotoapps/motor/motor_base.py:20-109) is inactive.
- Behaviour the record's tests check but this file does not implement comes from caproto's `MotorFields`, which is not part of this model. That covers limit propagation between HLM/LLM and DHLM/DLLM, RVAL/RRBV scaling by MRES, `do_move` and its speed, reading the motor, FOF/VOF, SSET/SUSE and SET calibration, precision broadcast and jog. So the calibration scenario and the raw-coordinate paths are not modelled. For the same reason MRES and VELO writes in the tests are skipped.
- The constructor's initial values (zeros, direction "Pos") come from the test property's initial value and from the default of a two-state Pos/Neg field. The record base class that really sets them is not part of this model.
- Each field write is modelled as running to completion before the next one. The source's putters are coroutines (src/caprotoapps/motor/motor_base.py:165-195), and each OFF and DIR putter writes VAL and RBV in two separate `await` steps. Interleaving with other writes at those `await` points is not modelled, so `Consistent()` is preserved only under this sequential reading.
- Floating point: motor values are `real`, so the round-trip laws are exact. IEEE rounding is not modelled.
- `ManagerGroup` and its start, stop and restart putters (src/caprotoapps/manager.py:185-237) are process plumbing through `run_in_executor`. `execute_script` is abstract (src/caprotoapps/manager.py:115-117), so the script's reply is an input to `ParseStatusReply`. The warning logged for a garbled reply is left out.
- `BaseRunner`'s methods only raise `NotImplementedError` (src/caprotoapps/manager.py:88-117).
- `Path(...)` in `parse_script_location` and `str(...)` in the runners are library calls. The path is kept as the matched text, so `RunArgs` does not model the normalisation `pathlib` applies, such as collapsing `//` or dropping a trailing `/`.
- A failed parse is `None` here; the source raises `AttributeError`.
- src/caprotoapps/apsbss.py, src/caprotoapps/apsbss_api.py, src/caprotoapps/local_storage.py, the LabJack package and the example scripts hold declarations, REST or CLI code, or code that is not part of this model.
- The motor record's DIR field is a two-state Pos/Neg menu. The code compares the stored value with `"Neg"` and treats every other value as positive, and the model follows the code (`DIR` is a `string`).
