# ClickAssist engine, modelled in Dafny

ClickAssist is the core of a Java agent for Minecraft 1.8.9. It watches the left mouse button on a background poll thread. When the game has the mouse captured, it reacts to each press: with a configured probability it makes the AWT robot synthesize one extra click, a release of button 1 (mask 16) followed by a press. A small text command interface switches it on and off and sets the probability as a percentage.

The project models that engine:

- `wrappers.dfy` — `Option`.
- `java_double.dfy` — the Java `double` values the engine meets (NaN, the infinities, finite numbers as `real`), Java's `<`/`>` on them, the clamp of `setChance` and the division by 100 of the chance command.
- `java_text.dfy` — the JDK string operations `handleCommand` uses: `trim`, `split("\\s+")`, the `toLowerCase(Locale.ROOT).startsWith` test and `equalsIgnoreCase`.
- `java_number.dfy` — the decimal part of `Double.parseDouble`.
- `edge_detection.dfy` — the pure meaning of one poll tick and of a run of ticks: the rising-edge detector, the probability gate, the robot events, and lemmas about whole runs.
- `commands.dfy` — `handleCommand`'s text analysis, as a function from the raw line to a `Command`. Lemmas cover each sub-command branch of `handleCommand` in general, plus literal lines such as `clickassist chance 65`.
- `click_assist.dfy` — the singleton as a class whose fields are updated in place: `Start`, `Stop`, the setters and getters, `LoopOnce`, `Run` and `HandleCommand`, each proved against the functions above.

Inputs that come from outside the engine are parameters:

- the three LWJGL mouse queries and the `SecureRandom` draw are the fields of a `Tick`;
- whether `new Robot()` succeeds or throws `AWTException` is the argument of `Start`;
- the robot is the log `injected` of the events handed to it.

Three details of the source that the model keeps:

- The keyword test is a prefix test on the trimmed line, not a token test, so `clickassistx on` is handled as `on`.
- `stop` does not reset `prevLeftDown`.
- `chance` with no number prints usage.

## Model

| member | source | states |
|---|---|---|
| Assist.ClickAssist.constructor | app/src/main/java/work/stdpi/finger/module/ClickAssist.java:25-36 | The singleton starts stopped, enabled, with chance 0.5, no worker, no robot, `prevLeftDown` false, and the invariant holds. |
| Assist.ClickAssist.Start | app/src/main/java/work/stdpi/finger/module/ClickAssist.java:38-51 | Starting a running engine changes nothing (no second robot or worker). A failed robot acquisition leaves the engine stopped and unchanged. Otherwise the engine runs with exactly one more robot and one more worker. The configuration is untouched. |
| Assist.ClickAssist.Stop | app/src/main/java/work/stdpi/finger/module/ClickAssist.java:53-58 | Afterwards the engine is not running and has no worker and no robot. On a stopped engine this is a no-op. The configuration and the edge state are kept. |
| Assist.ClickAssist.SetEnabled | app/src/main/java/work/stdpi/finger/module/ClickAssist.java:60 | The flag becomes the argument, and nothing else is written. |
| Assist.ClickAssist.IsEnabled | app/src/main/java/work/stdpi/finger/module/ClickAssist.java:61 | It returns the flag. |
| Assist.ClickAssist.SetChance | app/src/main/java/work/stdpi/finger/module/ClickAssist.java:63-69 | The new chance is `ChanceAfter(old chance, argument)`: NaN is ignored, everything else is clamped to [0,1], and the invariant `0 <= chance <= 1` is kept. |
| Assist.ClickAssist.GetChance | app/src/main/java/work/stdpi/finger/module/ClickAssist.java:71 | It returns the chance, which always lies in [0,1]. |
| Assist.ClickAssist.LoopOnce | app/src/main/java/work/stdpi/finger/module/ClickAssist.java:91-125 | The invariant is kept. After the tick, `prevLeftDown` is `NextPrev(tick)`. The robot receives `Emit(Fires(...))`: release(16) then press(16) exactly when the gate fires, and nothing when there is no robot. |
| Assist.ClickAssist.Run | app/src/main/java/work/stdpi/finger/module/ClickAssist.java:74-89 | The invariant is kept. A running engine ends with the edge state `PrevAfter` of the whole run and with the robot log extended by `Injections(Fired(...))` of every tick. A stopped engine polls nothing. |
| Assist.ClickAssist.HandleCommand | app/src/main/java/work/stdpi/finger/module/ClickAssist.java:129-157 | It returns true iff `Parse` recognises the line. The enabled flag and the chance change as the parsed command dictates, and the chance stays in [0,1]. |
| Assist.ClickAssist.PollNext | app/src/main/java/work/stdpi/finger/module/ClickAssist.java:76-78 | One iteration of the poll loop takes the edge state and the robot log of a run from tick `i` to tick `i + 1`, and keeps the invariant. |
| Assist.ClickAssist.Dispatch | app/src/main/java/work/stdpi/finger/module/ClickAssist.java:134-156 | It applies one command: handled iff recognised. Enable and disable write the flag, a parsed chance calls `SetChance(pct/100)`, and status, usage and a malformed number change nothing. |
| JavaDouble.DivideBy100 | app/src/main/java/work/stdpi/finger/module/ClickAssist.java:149 | `pct / 100.0` keeps NaN and both infinities, and a finite result times 100 is the input. |
| JavaDouble.Clamp | app/src/main/java/work/stdpi/finger/module/ClickAssist.java:65-66 | A non-NaN value maps into [0,1]: below 0 gives 0, above 1 gives 1, and a value inside is returned unchanged. |
| JavaDouble.Below | app/src/main/java/work/stdpi/finger/module/ClickAssist.java:65 | Java's `p < 0`: false for NaN, true for negative infinity, and the real comparison for a finite value. |
| JavaDouble.Above | app/src/main/java/work/stdpi/finger/module/ClickAssist.java:66 | Java's `p > 1`: false for NaN, true for positive infinity, and the real comparison for a finite value. |
| JavaDouble.Comparisons | app/src/main/java/work/stdpi/finger/module/ClickAssist.java:65-66 | NaN is neither below nor above, no value is both, and every other value is below, above or equal to the constant. |
| JavaDouble.ChanceAfter | app/src/main/java/work/stdpi/finger/module/ClickAssist.java:63-67 | The stored chance is in [0,1]. NaN keeps the current value, a value below 0 (negative infinity included) stores 0, a value above 1 (positive infinity included) stores 1, and an in-range number is stored as is. |
| JavaDouble.ClampingLaw | app/src/main/java/work/stdpi/finger/module/ClickAssist.java:63-67 | Samples of the law: -0.3 stores 0, 1.7 stores 1, the infinities store 0 and 1, and NaN keeps the current chance. |
| JavaText.TrimStart | app/src/main/java/work/stdpi/finger/module/ClickAssist.java:131 | It returns a suffix of the input: everything removed is a character `<= ' '`, and the result does not start with one. |
| JavaText.TrimEnd | app/src/main/java/work/stdpi/finger/module/ClickAssist.java:131 | It returns a prefix of the input: everything removed is a character `<= ' '`, and the result does not end with one. |
| JavaText.Trim | app/src/main/java/work/stdpi/finger/module/ClickAssist.java:131 | The result is trimmed at both ends and no longer than the input. |
| JavaText.TrimPadded | app/src/main/java/work/stdpi/finger/module/ClickAssist.java:131 | Trimming blank padding around a trimmed core gives back exactly the core. |
| JavaText.Word | app/src/main/java/work/stdpi/finger/module/ClickAssist.java:133 | The first piece is the longest separator-free prefix. |
| JavaText.SkipSeparators | app/src/main/java/work/stdpi/finger/module/ClickAssist.java:133 | It drops exactly the leading run of `\s` characters. |
| JavaText.Pieces | app/src/main/java/work/stdpi/finger/module/ClickAssist.java:133 | Splitting gives at least one piece, and the first is the leading word. |
| JavaText.DropTrailingEmpty | app/src/main/java/work/stdpi/finger/module/ClickAssist.java:133 | It keeps the prefix of the pieces that ends in a non-empty piece. Every dropped piece is empty. |
| JavaText.Split | app/src/main/java/work/stdpi/finger/module/ClickAssist.java:133 | On a line that does not start with whitespace, the first part is its leading word, and that word is not empty. |
| JavaText.DropTrailingEmptyCons | app/src/main/java/work/stdpi/finger/module/ClickAssist.java:133 | A non-empty leading piece is never dropped. |
| JavaText.SplitWord | app/src/main/java/work/stdpi/finger/module/ClickAssist.java:133-134 | A line without whitespace splits into itself alone, so `parts.length == 1`. |
| JavaText.SplitCons | app/src/main/java/work/stdpi/finger/module/ClickAssist.java:133 | `word + run of whitespace + rest` splits into the word followed by the split of the rest. |
| JavaText.WordStops | app/src/main/java/work/stdpi/finger/module/ClickAssist.java:133 | The leading word stops at the first separator. |
| JavaText.SkipSeparatorsRun | app/src/main/java/work/stdpi/finger/module/ClickAssist.java:133 | Skipping removes the whole separator run and nothing after it. |
| JavaText.UpperChar | app/src/main/java/work/stdpi/finger/module/ClickAssist.java:138-146 | `Character.toUpperCase` on the characters that fold onto ASCII: `a`-`z` to `A`-`Z`, dotless i to `I`, long s to `S`; every other character is kept. |
| JavaText.LowerChar | app/src/main/java/work/stdpi/finger/module/ClickAssist.java:132 | `Character.toLowerCase` on the characters that fold onto ASCII: `A`-`Z` to `a`-`z`, capital I with dot above to `i`, the Kelvin sign to `k`; every other character is kept. |
| JavaText.FoldsInverse | app/src/main/java/work/stdpi/finger/module/ClickAssist.java:132-146 | On ASCII letters the two folds change the letter and undo each other. |
| JavaText.SameIgnoringCase | app/src/main/java/work/stdpi/finger/module/ClickAssist.java:138-146 | Two characters match ignoring case when they are equal, their upper-case forms are equal, or the lower-case forms of their upper-case forms are equal. |
| JavaText.EqualsIgnoreCase | app/src/main/java/work/stdpi/finger/module/ClickAssist.java:138-146 | Two texts are equal ignoring case when they have the same length and match character by character. |
| JavaText.IgnoringCaseSymmetric | app/src/main/java/work/stdpi/finger/module/ClickAssist.java:138-146 | `equalsIgnoreCase` is reflexive and symmetric. |
| JavaText.LowerStartsWith | app/src/main/java/work/stdpi/finger/module/ClickAssist.java:132 | The lower-cased text starts with the prefix, character by character; capital I with dot above never matches, since it lower-cases to two characters. |
| JavaText.CaseVariantEquals | app/src/main/java/work/stdpi/finger/module/ClickAssist.java:138 | Any ASCII upper/lower-case variant of a word equals it ignoring case. |
| JavaNumber.ParseMantissa | app/src/main/java/work/stdpi/finger/module/ClickAssist.java:148 | A parsed unsigned mantissa is non-negative. |
| JavaNumber.MantissaOfDigits | app/src/main/java/work/stdpi/finger/module/ClickAssist.java:148 | A digit string is read as the integer it denotes. |
| JavaNumber.ParseExponent | app/src/main/java/work/stdpi/finger/module/ClickAssist.java:148 | An unsigned digit exponent is read as its value. |
| JavaNumber.ParseDecimal | app/src/main/java/work/stdpi/finger/module/ClickAssist.java:148 | An unsigned decimal literal parses to a non-negative value. |
| JavaNumber.DecimalOfDigits | app/src/main/java/work/stdpi/finger/module/ClickAssist.java:148 | A plain digit string parses to its integer value. |
| JavaNumber.ParseDouble | app/src/main/java/work/stdpi/finger/module/ClickAssist.java:148 | A token starting with a digit parses, if at all, to a non-negative number. |
| JavaNumber.DecimalDigits | app/src/main/java/work/stdpi/finger/module/ClickAssist.java:148 | The decimal numeral of a natural number is a non-empty digit string. |
| JavaNumber.DecimalDigitsValue | app/src/main/java/work/stdpi/finger/module/ClickAssist.java:148 | Reading a numeral back gives the number (a round trip). |
| JavaNumber.DigitsToken | app/src/main/java/work/stdpi/finger/module/ClickAssist.java:148 | A digit string is already trimmed and is none of the special forms. |
| JavaNumber.ParseDecimalDigits | app/src/main/java/work/stdpi/finger/module/ClickAssist.java:148 | `Double.parseDouble` of the numeral of `n` is `n`. |
| JavaNumber.MalformedStart | app/src/main/java/work/stdpi/finger/module/ClickAssist.java:148-152 | An unsigned literal starting with neither a digit nor `.` is rejected. |
| JavaNumber.MalformedToken | app/src/main/java/work/stdpi/finger/module/ClickAssist.java:148-152 | A token whose first character cannot begin a number is rejected (a `NumberFormatException`). |
| JavaNumber.BananaIsMalformed | app/src/main/java/work/stdpi/finger/module/ClickAssist.java:148-152 | `banana` is not a number. |
| EdgeDetection.NextPrev | app/src/main/java/work/stdpi/finger/module/ClickAssist.java:93-124 | After a tick with the mouse created and grabbed, the edge state is the button state. Otherwise it is false. |
| EdgeDetection.RisingEdge | app/src/main/java/work/stdpi/finger/module/ClickAssist.java:106 | A tick is a rising edge for the engine when the mouse is captured, the engine is enabled, the button is down and it was not down before. |
| EdgeDetection.Fires | app/src/main/java/work/stdpi/finger/module/ClickAssist.java:106-108 | The gate of a tick fires on a rising edge whose random draw is below the chance. |
| EdgeDetection.PrevAfter | app/src/main/java/work/stdpi/finger/module/ClickAssist.java:124 | The edge state after a run is the state after its last tick, or the starting state for an empty run. |
| EdgeDetection.Injections | app/src/main/java/work/stdpi/finger/module/ClickAssist.java:109-121 | The robot log of a run is the events of each tick's gate, tick by tick. |
| EdgeDetection.Emit | app/src/main/java/work/stdpi/finger/module/ClickAssist.java:108-115 | A fired gate sends exactly release(16) then press(16). Otherwise nothing is sent. |
| EdgeDetection.Fired | app/src/main/java/work/stdpi/finger/module/ClickAssist.java:76-124 | The gate sequence of a run has one entry per tick. |
| EdgeDetection.RunStep | app/src/main/java/work/stdpi/finger/module/ClickAssist.java:76-124 | One more polled tick sets the edge state to that tick's, and adds that tick's gate, taken from the edge state before it. |
| EdgeDetection.InjectionsStep | app/src/main/java/work/stdpi/finger/module/ClickAssist.java:76-121 | One more polled tick appends exactly that tick's robot events to the log. |
| EdgeDetection.FiredAt | app/src/main/java/work/stdpi/finger/module/ClickAssist.java:104-108 | Tick `i` fires iff the closed-form `EdgeAt` holds and the draw is below the chance. `EdgeAt` means: enabled, captured and down at `i`, and not captured-and-down at `i-1`. |
| EdgeDetection.NotCapturedNeverFires | app/src/main/java/work/stdpi/finger/module/ClickAssist.java:93-102 | A tick without a created and grabbed mouse never injects. |
| EdgeDetection.CaptureLossMakesFreshEdge | app/src/main/java/work/stdpi/finger/module/ClickAssist.java:93-108 | A press held across a capture loss is a fresh edge when capture returns: it fires iff the engine is enabled and the draw is below the chance. |
| EdgeDetection.DisabledNeverFires | app/src/main/java/work/stdpi/finger/module/ClickAssist.java:106 | A disabled engine never injects. |
| EdgeDetection.ZeroChanceNeverFires | app/src/main/java/work/stdpi/finger/module/ClickAssist.java:108 | With chance 0 and draws in [0,1), no tick of any run fires. |
| EdgeDetection.FullChanceFiresOnEveryEdge | app/src/main/java/work/stdpi/finger/module/ClickAssist.java:108 | With chance 1 and draws in [0,1), a tick fires iff it is a rising edge. |
| EdgeDetection.FiredSplit | app/src/main/java/work/stdpi/finger/module/ClickAssist.java:104-124 | The second half of a run behaves as a run from the edge state the first half left. Because that state ignores `enabled`, toggling `enabled` between the halves creates no spurious edge. |
| EdgeDetection.PrevAfterSplit | app/src/main/java/work/stdpi/finger/module/ClickAssist.java:124 | The edge state after two runs is the edge state after their concatenation. |
| EdgeDetection.HeldPressIsNoEdge | app/src/main/java/work/stdpi/finger/module/ClickAssist.java:104-124 | A button held down and captured across the boundary of two runs does not fire at the start of the second. |
| EdgeDetection.InjectionsShape | app/src/main/java/work/stdpi/finger/module/ClickAssist.java:109-115 | The robot log of a run has two events per fired gate, alternating release(16) and press(16), starting with the release. |
| EdgeDetection.TwoEdgesExample | app/src/main/java/work/stdpi/finger/module/ClickAssist.java:104-115 | Button states up, down, down, up, down with draw 0 and a positive chance fire exactly at ticks 1 and 4: two clicks, four robot events. |
| Commands.Subcommand | app/src/main/java/work/stdpi/finger/module/ClickAssist.java:138-156 | Any argument list yields a handled command other than status. It is usage iff the first argument is none of `on`, `enable`, `off`, `disable` ignoring case, and is not `chance` followed by an argument. |
| Commands.OtherWordIsUsage | app/src/main/java/work/stdpi/finger/module/ClickAssist.java:155-156 | An ASCII word that is no case variant of on, enable, off or disable, and not `chance` with an argument, prints the usage and changes neither the flag nor the chance. |
| Commands.UnknownWordExample | app/src/main/java/work/stdpi/finger/module/ClickAssist.java:155-156 | `foo` and `foo 65` print the usage. |
| Commands.EnabledAfter | app/src/main/java/work/stdpi/finger/module/ClickAssist.java:138-145 | Enable sets the flag to true and disable sets it to false. Every other command leaves it unchanged. |
| Commands.ChanceAfterCommand | app/src/main/java/work/stdpi/finger/module/ClickAssist.java:146-154 | A chance command with a parsed number `pct` stores `setChance(pct / 100)`, that is `ChanceAfter(chance, DivideBy100(pct))`. Every other command leaves the chance unchanged. The result stays in [0,1]. |
| Commands.KeywordStartIsNotBlank | app/src/main/java/work/stdpi/finger/module/ClickAssist.java:131-133 | A line that passes the keyword test starts with neither blank nor whitespace. |
| Commands.Parse | app/src/main/java/work/stdpi/finger/module/ClickAssist.java:129-137 | The line is handled iff it is present and its trim starts with `clickassist` after lower-casing. |
| Commands.BareKeyword | app/src/main/java/work/stdpi/finger/module/ClickAssist.java:133-137 | The keyword word alone, however padded, is a status query. |
| Commands.KeywordThenArguments | app/src/main/java/work/stdpi/finger/module/ClickAssist.java:131-137 | A padded `keyword + whitespace + rest` dispatches on the split of `rest`. |
| Commands.KeywordLineSplits | app/src/main/java/work/stdpi/finger/module/ClickAssist.java:133 | `keyword + whitespace + rest` splits into the keyword token followed by the parts of `rest`, of which there is at least one. |
| Commands.KeywordLineTrims | app/src/main/java/work/stdpi/finger/module/ClickAssist.java:131 | Trimming a padded keyword line leaves the keyword token, the separator and the rest. |
| Commands.KeywordPrefixKept | app/src/main/java/work/stdpi/finger/module/ClickAssist.java:132 | Whatever follows a token that passes the keyword test, the line passes it too. |
| Commands.ParseTrimmed | app/src/main/java/work/stdpi/finger/module/ClickAssist.java:131-137 | Once the trimmed line passes the keyword test and splits into a head and at least one more part, the command is the sub-command of the parts after the head. |
| Commands.AsciiLowerFold | app/src/main/java/work/stdpi/finger/module/ClickAssist.java:132 | An ASCII character lower-cases to a lower-case letter iff it is that letter or its capital. |
| Commands.AsciiLowerStartsWith | app/src/main/java/work/stdpi/finger/module/ClickAssist.java:132 | On ASCII input, the lower-cased prefix test with a lower-case word holds iff the text starts with a case variant of it (both directions). |
| Commands.AsciiFold | app/src/main/java/work/stdpi/finger/module/ClickAssist.java:138 | An ASCII character matches a lower-case letter ignoring case iff it is that letter or its capital. |
| Commands.AsciiEqualsIgnoreCase | app/src/main/java/work/stdpi/finger/module/ClickAssist.java:138 | On ASCII input, `equalsIgnoreCase` with a lower-case word holds iff the input is an upper/lower-case variant of it (both directions). |
| Commands.EnableWordsAscii | app/src/main/java/work/stdpi/finger/module/ClickAssist.java:138-141 | An ASCII sub-command enables iff it is a case variant of `on` or `enable`. |
| Commands.DisableWordsAscii | app/src/main/java/work/stdpi/finger/module/ClickAssist.java:142-145 | An ASCII sub-command disables iff it is a case variant of `off` or `disable`. |
| Commands.ChanceWords | app/src/main/java/work/stdpi/finger/module/ClickAssist.java:146-156 | `chance` with an argument is a chance command on the parse of that argument. Without one it is usage. |
| Commands.UnicodeFoldDisables | app/src/main/java/work/stdpi/finger/module/ClickAssist.java:142-145 | `equalsIgnoreCase` folds dotless i and long s, so `dıſable` disables. |
| Commands.WordIsToken | app/src/main/java/work/stdpi/finger/module/ClickAssist.java:131-133 | A non-empty alphanumeric word survives `trim` and `split` intact. |
| Commands.KeywordToken | app/src/main/java/work/stdpi/finger/module/ClickAssist.java:131-133 | Any case variant of the keyword survives `trim` and `split` and passes the prefix test. |
| Commands.ChanceToken | app/src/main/java/work/stdpi/finger/module/ClickAssist.java:131-146 | Any case variant of `chance` survives `trim` and `split` and equals `chance` ignoring case. |
| Commands.StatusExample | app/src/main/java/work/stdpi/finger/module/ClickAssist.java:133-137 | `clickassist` is a status query. |
| Commands.OnExample | app/src/main/java/work/stdpi/finger/module/ClickAssist.java:138-141 | `clickassist on` enables. |
| Commands.MixedCaseExample | app/src/main/java/work/stdpi/finger/module/ClickAssist.java:131-141 | `  ClickAssist ENABLE ` enables. |
| Commands.OffExample | app/src/main/java/work/stdpi/finger/module/ClickAssist.java:142-145 | `clickassist off` disables. |
| Commands.PrefixNotTokenExample | app/src/main/java/work/stdpi/finger/module/ClickAssist.java:130-141 | `clickassistx on` is handled, and it enables. |
| Commands.ChanceExample | app/src/main/java/work/stdpi/finger/module/ClickAssist.java:146-149 | `clickassist chance 65` is a chance command on the number 65. |
| Commands.MalformedChanceExample | app/src/main/java/work/stdpi/finger/module/ClickAssist.java:146-153 | `clickassist chance banana` is handled with no number, so the state is unchanged. |
| Commands.ChanceWithoutNumberExample | app/src/main/java/work/stdpi/finger/module/ClickAssist.java:146-156 | `clickassist chance` is usage. |
| Commands.ChanceAloneIsUsage | app/src/main/java/work/stdpi/finger/module/ClickAssist.java:146-156 | The keyword followed only by `chance`, however padded, is usage. |
| Commands.NotHandledExample | app/src/main/java/work/stdpi/finger/module/ClickAssist.java:130-132 | `somethingElse` and a null line are not handled. |
| Commands.ChanceCommand | app/src/main/java/work/stdpi/finger/module/ClickAssist.java:146-149 | A padded `keyword chance arg` is a chance command on `Double.parseDouble(arg)`. |
| Commands.DigitsAreToken | app/src/main/java/work/stdpi/finger/module/ClickAssist.java:133-148 | A numeral survives `trim` and `split` as one token. |
| Commands.ChanceLine | app/src/main/java/work/stdpi/finger/module/ClickAssist.java:146-149 | `clickassist chance ARG`, for a single token ARG, is a chance command on `Double.parseDouble(ARG)`. |
| Commands.ChancePercent | app/src/main/java/work/stdpi/finger/module/ClickAssist.java:146-149 | `clickassist chance N`, for every natural `N`, is a chance command on the number `N`. |
| Commands.PercentStored | app/src/main/java/work/stdpi/finger/module/ClickAssist.java:149 | Percentage `N` stores `N/100`, or 1 when `N >= 100`, for example 65 gives 0.65. |

## Left out

- Console output is not modelled: every `System.out`/`System.err` line, the status and usage texts, the `(int)(chance*100)` display and the invalid-chance message. A status query, usage and a malformed number therefore appear only as "no state change".
- Threads and timing are not modelled: the worker `Thread`, its daemon flag, `interrupt`, and the two `Thread.sleep` calls. `Run` is the loop over a finite sequence of ticks seen while `running`, and the configuration is fixed during one `Run`. Neither concurrent writes from the command thread nor a `stop` arriving mid-run are modelled.
- `Run` does not model exceptions: neither the catch-all that logs and continues nor the break on `InterruptedException`. No modelled tick throws.
- `LoopOnce` always sends the press after the release. An interrupt during the 1 ms pause between them, which in the source skips the press, is not modelled.
- `LoopOnce` treats a missing robot as a swallowed failure, so nothing is sent. Other robot failures are not modelled.
- The LWJGL reflection helper is not part of this model. Its three queries are the `Tick` fields, and each reads false when the library is unavailable.
- The agent bootstrap is not part of this model. It calls `start` once behind its own guard.
- `SecureRandom` is not modelled: its draw is the `draw` field of a tick, assumed to lie in [0,1) where a lemma needs it (`ValidDraws`).
- ParseDouble: models the decimal grammar only: an optional sign, `NaN`, `Infinity`, digits with an optional point, an exponent and an `f`/`F`/`d`/`D` suffix. Hexadecimal floating literals are rejected rather than parsed. Values are exact reals, with no rounding, no overflow to infinity and no underflow to zero.
- DivideBy100: divides exactly in `real`, without IEEE rounding, and -0.0 is not distinguished from 0.0.
- JavaText.UpperChar and JavaText.LowerChar: fold only ASCII letters, dotless i, long s, capital I with dot above and the Kelvin sign. Other Unicode case pairs are not modelled, and strings are sequences of Unicode scalar values rather than UTF-16 units.
- Assist.ClickAssist.Start: does not model `new Robot()` throwing anything other than `AWTException`, such as a `SecurityException`. At `ClickAssist.java:42` only `AWTException` is caught. Any other exception escapes `start()` after line 39 has already set `running`, so the engine stays "running" with no worker, and every later `start()` is a no-op. `Start` promises only the caught outcome.
- Assist.ClickAssist.Start: the worker and robot are flags and ghost counters, not objects. A second worker would show up as a counter mismatch, not as two threads.
