# dde-display console: the output-configuration mutation engine

This project models the part of `KScreen::Console` (dde-display's console tool) that edits a display configuration from the command line. It receives a configuration snapshot: a list of outputs, each with an id, a name, its modes and settings. It then walks the specifiers `output.<ref>.<action>[.<arg>...]` in order.

For each specifier the tool:
- resolves `<ref>`, first by output name and then as an integer id;
- dispatches on the action and the exact number of segments;
- validates the argument;
- changes one output, or every output for `primary`.

It sets the changed flag on every successful change and stops at the first failure, with that failure's exit code. Once the loop is over, it commits the configuration (one `SetConfigOperation`) and exits with 0, exactly when the flag is set.

Modules:

- `Wrappers`: `Option`.
- `QtText`: the QString operations the engine relies on:
  - `split` and its inverse `Join`;
  - `replace`, `toLower`;
  - `toInt` with and without the ok flag;
  - `QString::number`;
  - the `uint32_t` conversion of an `int`.
- `Outputs`: the outputs, their modes, and the effect of each setter as a function on the list of outputs (`Update`, `MakePrimary`, `SelectMode`).
- `Specifiers`: the reference semantics of the engine as pure functions:
  - `Resolve`;
  - the argument parsers;
  - `Perform` (the dispatch);
  - `Step` (one specifier);
  - `Run` (the whole loop with its early stop).

  The lemmas about them state the promised properties.
- `KScreenConsole`: the class `Console` with the fields of the C++ class:
  - `config` (`m_config`, `None` for a null pointer);
  - `changed` (`m_changed`);
  - `outputArgs` (`m_outputArgs`).

  It also has two recording fields. `exits` holds every code passed to `qApp->exit`, in order. `commits` holds every configuration handed to a `SetConfigOperation`. The setters are loops over the outputs, and the parse loop is a loop over the specifiers. Each method is proved equal to the matching function of `Specifiers` or `Outputs`.

Behaviours of the code that a reader might not expect, all modelled as written:

- **Fail-fast does not discard earlier changes.** The parse loop's `return` only leaves the loop. `configReceived` (`src/console/console.cpp:307-312`) then calls `applyConfig` whenever `m_changed` is set, and `applyConfig` commits and calls `qApp->exit(0)`.
  - Example: `["output.1.disable", "output.bogus.enable"]` on a configuration with output 1. The output is disabled, the loop stops with exit 3, and then one commit and exit 0 follow: the exit trace is `[3, 0]`.
  - `Specifiers.ChangeSurvivesEarlyStop` and the contract of `KScreenConsole.Console.ConfigReceived` state this behaviour.
- **`setEnabled` on an unknown id exits twice.** It calls `qApp->exit(8)` itself, and its caller then calls `qApp->exit(1)`, so the trace is `[8, 1]`.
- **Only the y part of `position.x,y` is checked.** The second `toInt(&ok)` overwrites the ok flag of the first, so a non-numeric x is read as 0.
- **`overscan` accepts a non-numeric argument.** It uses `toInt()` without a flag, so such an argument means 0. A negative value wraps to a large `uint32_t` and is refused with 9.
- **A name can resolve to -1.** An output whose name matches `<ref>` but whose id is -1 is treated as no match, and `<ref>` is then read as an integer.
- **Setting a value already held still counts as a change.** For example, `disable` on a disabled output sets `m_changed` (`src/console/console.cpp:436`), and the configuration is committed.

The outputs of a KScreen configuration come from a map keyed by id, so the scans see them in ascending id order. The model keeps the outputs in a sequence of any order, which covers that order as one case. For example, "the last output with the name" is, in KScreen, the one with the highest id.

## Model

| member | source | states |
|---|---|---|
| QtText.ToUint32 | src/console/console.cpp:235 | the `int` to `uint32_t` conversion keeps non-negative values and adds 2^32 to negative ones |
| QtText.IntToString | src/console/console.cpp:477 | `QString::number`: an optional minus sign and the decimal digits; `NatToStringDigits`, `ParseIntRoundTrip` and `NumeralLacks` state its properties |
| QtText.Split | src/console/console.cpp:139 | `QString::split` yields at least one part, no part holds the separator, and joining the parts gives back the text |
| QtText.SplitJoin | src/console/console.cpp:139 | splitting the join of separator-free parts gives back exactly those parts |
| QtText.Replace | src/console/console.cpp:204 | replacing a character keeps the length, leaves no occurrence of the replaced character (when it differs from its replacement), and leaves text without that character unchanged |
| QtText.LowerOfUpper | src/console/console.cpp:216 | lower-casing ignores a prior upper-casing and is idempotent |
| QtText.NatToStringDigits | src/console/console.cpp:477 | `QString::number` of a natural is a non-empty digit string whose decimal value is that number |
| QtText.NumeralLacks | src/console/console.cpp:477 | a printed int holds only a minus sign and digits, so it never holds a dot or a comma |
| QtText.ParseIntRoundTrip | src/console/console.cpp:150 | `toInt(&ok)` reads back every `int` printed by `QString::number` |
| QtText.ParseInt | src/console/console.cpp:150 | `toInt(&ok)` in base 10: trim white space, an optional sign, digits, int range; `ParseIntRoundTrip`, `ResolveByNumber` and `PositionArg` state what it gives |
| QtText.ToIntOrZero | src/console/console.cpp:235 | `toInt()` without the flag, 0 when the text is not an int; `OverscanArg` and `PositionArgIgnoresBadX` state its uses |
| Outputs.FirstIndex | src/console/console.cpp:432-433 | the setters' scan stops at an output with the id, and no earlier output has it |
| Outputs.ModeLabel | src/console/console.cpp:475-477 | the `WxH@R` label of a mode; `LabelSelectsMode` and `LabelSelectsFirstMatch` state what it selects |
| Outputs.Apply | src/console/console.cpp:435 | a one-field setter writes its value into its own field and leaves every other field as it was |
| Outputs.Update | src/console/console.cpp:432-437 | a setter that found the id changes only the first output with that id, and only in the one field it writes |
| Outputs.MakePrimary | src/console/console.cpp:588-603 | after a successful `setPrimary` exactly the outputs with that id are primary, and nothing but the primary bits changes |
| Outputs.ExactlyOnePrimary | src/console/console.cpp:588-603 | with distinct ids, the output with the id is the one and only primary output |
| Outputs.LastPrimaryWins | src/console/console.cpp:588-603 | a second `setPrimary` completely overrides the first |
| Outputs.FirstMode | src/console/console.cpp:474-478 | the mode scan finds the first mode whose id or `WxH@R` label is the reference, or reports that none matches |
| Outputs.ModeTarget | src/console/console.cpp:471-478 | `setMode` acts on the first output that has the id and offers a matching mode; it fails exactly when no such output exists |
| Outputs.SelectMode | src/console/console.cpp:474-482 | a successful `setMode` changes only the current mode id of the chosen output, to the id of the first of its modes, in order, that matches the reference |
| Outputs.LabelSelectsMode | src/console/console.cpp:475-478 | `setMode` succeeds with the `WxH@R` label of any mode of an output with that id |
| Outputs.LabelSelectsFirstMatch | src/console/console.cpp:474-482 | the label of a mode selects that very mode exactly when no earlier mode of the output matches the label, since the scan keeps the first match |
| Specifiers.LastNamed | src/console/console.cpp:144-148 | the name scan keeps the last output carrying the name, and finds none exactly when no output carries it |
| Specifiers.Resolve | src/console/console.cpp:142-156 | the name scan, then the integer fallback; `ResolveByName`, `ResolveByNumber`, `ResolveMinusOneFallsBack` and `ResolveSameShape` state its behaviour |
| Specifiers.ResolveByName | src/console/console.cpp:144-148 | a name match wins over reading the reference as a number, and the last output with the name is used |
| Specifiers.ResolveByNumber | src/console/console.cpp:149-156 | without a name match the reference resolves exactly as `toInt(&ok)` reads it, and a failed read means exit 3 |
| Specifiers.ResolveMinusOneFallsBack | src/console/console.cpp:142-150 | a name match on an output with id -1 falls through to the integer reading of the reference |
| Specifiers.ResolveSameShape | src/console/console.cpp:142-156 | resolution depends only on the outputs' ids and names |
| Specifiers.RotationArg | src/console/console.cpp:216-228 | the rotation word is refused exactly when its lower-case form is none of none, normal, left, right and inverted; none and normal both give no rotation |
| Specifiers.VrrPolicyArg | src/console/console.cpp:247-259 | the VRR word is refused exactly when its lower-case form is none of never, always and automatic |
| Specifiers.RgbRangeArg | src/console/console.cpp:266-278 | the RGB range word is refused exactly when its lower-case form is none of automatic, full and limited |
| Specifiers.RotationArgRoundTrip | src/console/console.cpp:218-227 | every rotation can be requested, in lower or upper case |
| Specifiers.VrrPolicyArgRoundTrip | src/console/console.cpp:249-254 | every VRR policy can be requested, in lower or upper case |
| Specifiers.RgbRangeArgRoundTrip | src/console/console.cpp:268-273 | every RGB range can be requested, in lower or upper case |
| Specifiers.WordArgsIgnoreCase | src/console/console.cpp:216 | the three word parsers give the same answer for a word and its upper-case form |
| Specifiers.OverscanArg | src/console/console.cpp:235-240 | an overscan argument is accepted exactly when it reads as 0 to 100, or does not read as a number at all (then 0); the accepted value never exceeds 100 |
| Specifiers.PositionArg | src/console/console.cpp:182-194 | a position is accepted exactly when it has two comma-separated parts and the second reads as an `int`; x is the first part's `toInt` or 0 |
| Specifiers.PositionArgRoundTrip | src/console/console.cpp:182-196 | `x,y` written with `QString::number` is read back as the point (x, y) |
| Specifiers.PositionArgIgnoresBadX | src/console/console.cpp:188-190 | a non-numeric x with a valid y is accepted as x = 0 |
| Specifiers.SpecifierSegments | src/console/console.cpp:139 | a specifier written from dot-free pieces splits back into those pieces |
| Specifiers.ScaleSeparatorsAgree | src/console/console.cpp:203-208 | `scale.a,b` and `scale.a.b` hand the same text `a.b` to `toDouble` |
| Specifiers.ScaleText | src/console/console.cpp:203-208 | the text handed to `toDouble`: the fourth segment with commas turned into dots, then a dot and the fifth segment when there is one; `ScaleSeparatorsAgree` states its property |
| Specifiers.Perform | src/console/console.cpp:157-288 | the dispatch on action and segment count; `PerformRespects`, `PerformSetsFlag`, `PerformOverscan`, `StepPrimary`, `StepDisable`, `StepMode`, `StepOverscan` and `StepUnknownAction` state its behaviour |
| Specifiers.Step | src/console/console.cpp:139-288 | one pass of the loop body; `StepRespectsContract`, `StepSkips` and `StepUnresolved` state its behaviour |
| Specifiers.Run | src/console/console.cpp:138-291 | the whole loop, stopping at the first failure; `RunAppend`, `FailFast`, `RunUnaddressed`, `RunRespects` and `ChangeSurvivesEarlyStop` state its behaviour |
| Specifiers.SetterRespects | src/console/console.cpp:445-462 | a setter either keeps the exit trace and each output's identity and modes, or changes nothing but the trace, to which it appends its failure codes |
| Specifiers.PerformRespects | src/console/console.cpp:157-288 | every branch of the dispatch keeps each output's identity and modes and never clears the flag; a success leaves the trace alone; a failure changes nothing but the trace, and appends exactly one of [1], [2], [5], [9] or [8, 1] |
| Specifiers.PerformSetsFlag | src/console/console.cpp:157-288 | every branch of the dispatch that goes through leaves the flag set, even when the value written is the one already held |
| Specifiers.StepRespectsContract | src/console/console.cpp:138-288 | the same for one whole specifier, where exit 3 is added to the possible failures; an addressed specifier that goes through leaves the flag set |
| Specifiers.StepSkips | src/console/console.cpp:139-143 | a specifier with at most two segments, or whose first segment is not `output`, changes nothing |
| Specifiers.StepUnresolved | src/console/console.cpp:149-155 | an unresolvable reference stops the loop with exit 3 and no change |
| Specifiers.StepUnknownAction | src/console/console.cpp:284-287 | an unknown action, or a known one with the wrong segment count, stops the loop with exit 2 and no change |
| Specifiers.StepPrimary | src/console/console.cpp:157-161 | `primary` makes exactly the outputs with the id primary, or fails with exit 1 when the id is absent |
| Specifiers.StepDisable | src/console/console.cpp:167-171 | `disable` goes to `setEnabled(id, false)` with failure trace [8, 1] |
| Specifiers.StepMode | src/console/console.cpp:172-178 | `mode.<m>` succeeds exactly when some output with the id offers a matching mode, and otherwise fails with exit 9 and no change |
| Specifiers.StepOverscan | src/console/console.cpp:234-245 | `overscan.<n>` is refused with 9 for n outside 0..100, including every negative n, and is applied otherwise |
| Specifiers.PerformOverscan | src/console/console.cpp:234-245 | the overscan branch on a numeral applies n when 0 <= n <= 100, and otherwise fails with 9 |
| Specifiers.StepEnableUnresolved | src/console/console.cpp:149-155 | `output.<bad>.enable` with an unresolvable reference stops with exit 3 |
| Specifiers.RunAppend | src/console/console.cpp:138 | running two lists one after the other is running their concatenation, and a stop in the first list ends the run |
| Specifiers.FailFast | src/console/console.cpp:151-154 | once a specifier has stopped the loop, no later specifier is looked at |
| Specifiers.RunUnaddressed | src/console/console.cpp:138-143 | a list with nothing addressed to an output leaves the configuration, the flag and the trace as they were |
| Specifiers.RunRespects | src/console/console.cpp:135-292 | the whole loop keeps each output's identity and modes and never clears the flag; it sets the flag whenever the configuration changed; the trace gains nothing when the loop completes, and exactly one failure trace when it stops |
| Specifiers.ChangeSurvivesEarlyStop | src/console/console.cpp:135-312 | after a successful `disable`, an unresolvable reference stops the loop with exit 3, and the output stays disabled with the flag set |
| KScreenConsole.FindOutput | src/console/console.cpp:432-439 | the setter scan returns the first position holding the id, or -1 exactly when no output has it |
| KScreenConsole.NamedOutputId | src/console/console.cpp:142-148 | the name loop leaves in `output_id` the id of the last output with the name, or -1 |
| KScreenConsole.FindMode | src/console/console.cpp:474-484 | the inner loop of `setMode` finds the first matching mode, or -1 exactly when none matches |
| KScreenConsole.LocateMode | src/console/console.cpp:471-486 | the nested loops of `setMode` stop at the output and the mode the reference selects |
| KScreenConsole.Console.constructor | src/console/console.cpp:50-56 | a console starts with a null configuration and a clear flag |
| KScreenConsole.Console.SetOptionList | src/console/console.cpp:130-133 | stores the specifier list and nothing else |
| KScreenConsole.Console.UpdateOutput | src/console/console.cpp:445-462 | the shared setter body: with a configuration holding the id, exactly `Update` is applied and the flag is set; otherwise nothing changes |
| KScreenConsole.Console.SetEnabled | src/console/console.cpp:425-443 | as `UpdateOutput` for the enabled field, and it appends exit 8 when a configuration exists but lacks the id |
| KScreenConsole.Console.SetPosition | src/console/console.cpp:445-462 | as `UpdateOutput` for the position |
| KScreenConsole.Console.SetMode | src/console/console.cpp:464-489 | succeeds exactly when `ModeTarget` finds an output, and then leaves the configuration equal to `SelectMode` with the flag set; otherwise nothing changes |
| KScreenConsole.Console.SetScale | src/console/console.cpp:491-507 | as `UpdateOutput` for the scale |
| KScreenConsole.Console.SetRotation | src/console/console.cpp:509-525 | as `UpdateOutput` for the rotation |
| KScreenConsole.Console.SetOverscan | src/console/console.cpp:527-543 | as `UpdateOutput` for the overscan |
| KScreenConsole.Console.SetVrrPolicy | src/console/console.cpp:545-561 | as `UpdateOutput` for the VRR policy |
| KScreenConsole.Console.SetRgbRange | src/console/console.cpp:563-579 | as `UpdateOutput` for the RGB range |
| KScreenConsole.Console.SetPrimary | src/console/console.cpp:581-605 | the two passes find the id exactly when it is present, and then leave the configuration equal to `MakePrimary` with the flag set; otherwise nothing changes |
| KScreenConsole.Console.PerformAction | src/console/console.cpp:157-288 | the dispatch leaves the state and the stop decision that `Perform` prescribes |
| KScreenConsole.Console.PerformSetting | src/console/console.cpp:215-283 | the rotation, overscan, VRR and RGB branches leave the state and stop decision of `Perform` |
| KScreenConsole.Console.ProcessSpecifier | src/console/console.cpp:139-288 | one pass of the loop body leaves the state and stop decision of `Step` |
| KScreenConsole.Console.ParseOutputArgs | src/console/console.cpp:135-292 | the loop ends in the state `Run` prescribes for the whole list, stopping at the first failure |
| KScreenConsole.Console.ApplyConfig | src/console/console.cpp:607-616 | nothing happens unless the flag is set; otherwise one commit of the current configuration and exit 0 |
| KScreenConsole.Console.ConfigReceived | src/console/console.cpp:294-313 | the snapshot is stored and parsed; exactly when the flag is then set, one commit and exit 0 follow, even after an early stop; the flag ends clear |

## Left out

- Fetching the configuration (`start`, `src/console/console.cpp:62-100`) is asynchronous. The model takes the snapshot as the argument of `ConfigReceived`.
- The DPMS client (`setDpms`, `showDpms`) is not part of this model.
- Printing is left out: `showOutputs`, `showJson`, `outputCount` and every `cout`, `cerr`, `qDebug` and `qWarning` line. The `--json` and `--outputs` branches of `configReceived` (`src/console/console.cpp:298-305`) only print and call `qApp->quit()`, so they are left out too.
- What `SetConfigOperation` does with the committed configuration happens in KScreen. The model records the configuration handed to it in `commits`.
- `qApp->exit` does not end the process at the call; Qt leaves the event loop later. The model records each call in `exits`, so the status that Qt finally reports is not modelled.
- `QString::toDouble` is a parameter `toDouble: string -> Option<real>`. Floating point is modelled as `real`, with no NaN or infinity. `qFuzzyCompare(scale, 0.0)` is taken as `scale == 0`.
- `qRound` of a mode's refresh rate is taken as already done: `Mode.refreshRate` holds the rounded int.
- `QtText.ParseInt`: models `toInt` on ASCII digits and ASCII or Latin-1 white space only.
- `QtText.ToLower`: folds ASCII letters only; other scripts' case mappings are not modelled.
- Outputs are kept in a sequence of any order, while KScreen iterates its id-keyed map in ascending id order. Every result holds for that order as one case, but no lemma uses the ordering (for example, that the last output with a name has the highest id among them).
- Outputs are values in a sequence, while KScreen shares `OutputPtr` objects. A setter writes the new sequence back into `config`, so aliasing of output objects through other pointers is not modelled.
- `KScreenConsole.Console.ParseOutputArgs`: requires a configuration whenever some specifier is addressed to an output. The C++ dereferences a null `m_config` there, which is undefined behaviour.
- `KScreenConsole.Console.ProcessSpecifier`: requires a configuration when its argument is addressed to an output, for the same reason.
- Outputs.ExactlyOnePrimary: requires distinct ids, which KScreen's output map guarantees. The sequence model does not assume it elsewhere.
