# EthBalanceMonitor polling core in Dafny

EthBalanceMonitor watches a list of Ethereum addresses. It reads the list from
`address.txt`, then loops forever. Each pass polls the address whose data is
stalest. It fetches that address's ETH and token balances from the ethplorer
API. It logs any change of a known token balance. It then asks one of three
chainpoint audit servers, taken in turn, whether the node's latest audit
passed. Finally it waits 500 ms before the next pass if the address had never
been fetched, or 15 s otherwise.

This project models that core as pure functions over immutable values:

- `Strings`: .NET `String.Trim` (with the `Char.IsWhiteSpace` set),
  `String.Length` in UTF-16 code units, and ordinal case-insensitive equality.
- `AddressRecord`: the `Address` class. It has five properties. Each setter
  writes its own backing field and raises `PropertyChanged` with its property
  name when a handler is attached. The constructor sets `Addr` before any
  handler can exist.
- `AddressLoader`: the constructor's loop over the lines of the address file.
- `Selection`: `OrderBy(x => x.LastUpdated).First()`. This is the stable
  minimum, or an exception on an empty list.
- `AuditRotation`: the three-server ring and its rotation.
- `BalanceUpdate`: the balance step. It writes `BalEth`, scales the token
  balance, applies the change rule, then writes `BalTnt` and `LastUpdated`.
- `AuditCheck`: the check of the first audit record's four flags. The `||`
  chain is evaluated left to right and short-circuits.
- `PollLog`: log lines, rendered with the source's exact wording.
- `PollCycle`: one pass as `Cycle(state, balance outcome, audit outcome, now)`.
  It returns the new state, the polled position, the requests issued, the log
  lines, the change events and the delay.
- `PollLoop`: a bounded run of passes.

The network, the clock and JSON parsing are inputs to the model:

- A fetch result is an outcome value. A balance fetch can fail before
  anything is written. It can fail after `BalEth` is written, when the token
  part is missing. Or it can complete.
- The token's raw balance is a `JsonNumber`. An integer literal comes in as an
  integer; any other literal comes in as a double.
- An audit record's flags are each the field's `ToString()` text, or absent.
- `now` is the `DateTime.Now` reading. Timestamps are naturals, with 0 for
  `default(DateTime)`, the "never fetched" value.

Exceptions are modelled where the code can throw them, and end the pass there.
Writes made before the exception are kept.

Details of the code the model keeps:

- A token-parse failure leaves `BalEth` already updated.
- The log texts read "Value changedfor" and "Audit faile for".
- An empty address list does not stop the loop itself. `First()` throws, the
  pass does nothing, and the next pass comes after 15 s. The program ends
  soon anyway: `frmMain_Shown` shows an error and calls `this.Close()` when
  the list is empty (frmMain.cs:178-187), which the model leaves out.
- A raw token balance that arrives as a JSON integer is divided by
  100000000 with integer division. The dynamic `/` on an integer JSON value is
  a 64-bit or big-integer division, so the fraction is dropped.
- An absent audit field throws only when the short-circuit test reaches it. A
  record whose first flag is "false" fails the audit even when later fields
  are missing.
- `BindingList.Add` attaches the list's handler to each added item. So loaded
  addresses are subscribed, and every setter call in a pass raises an event.

## Model

| member | source | states |
|---|---|---|
| `Strings.TrimStripsWhiteSpace` | EthBalanceMonitor/frmMain.cs:51 | the trimmed line is a contiguous middle part of the line: only white space is removed, from both ends, and the result neither starts nor ends with white space |
| `AddressRecord.Assign` | EthBalanceMonitor/Address.cs:27-88 | a setter makes its getter return the assigned value, leaves every other property and the subscription as they were, and raises exactly one event naming its property when a handler is attached, none otherwise |
| `AddressRecord.SameValueStillNotifies` | EthBalanceMonitor/Address.cs:31-35 | re-assigning the current value leaves the object equal to what it was, yet still raises the event |
| `AddressRecord.NewAddress` | EthBalanceMonitor/Address.cs:91-94 | a new address holds the given string; the audit flag is false, both balances are 0, the timestamp is the never-fetched default, and no event is raised because no handler exists yet |
| `AddressRecord.GetterReturnsLastAssigned` | EthBalanceMonitor/Address.cs:28-79 | after any sequence of setter calls each getter returns the value of the last call to its own setter, or the original value if there was none |
| `AddressRecord.OneEventPerAssignment` | EthBalanceMonitor/Address.cs:81-88 | a sequence of setter calls raises one event per call, naming the property written, in call order; without a handler it raises none |
| `Strings.Utf16LengthOfChar` | EthBalanceMonitor/frmMain.cs:51 | `String.Length` counts a character above U+FFFF as two code units and any other character as one |
| `Strings.Utf16LengthAdditive` | EthBalanceMonitor/frmMain.cs:51 | the length of a concatenation is the sum of the parts' lengths, so a string's length is the sum of its characters' counts |
| `Strings.Utf16LengthCountsCharsOnlyInBmp` | EthBalanceMonitor/frmMain.cs:51 | `String.Length` equals the number of characters exactly when no character lies above U+FFFF |
| `AddressLoader.Listed` | EthBalanceMonitor/frmMain.cs:56 | the entry `Addresses.Add(new Address(...))` stores holds the given string, the audit flag false, both balances 0 and the never-fetched timestamp, and has the list's change handler attached |
| `AddressLoader.AddLine` | EthBalanceMonitor/frmMain.cs:51-56 | one iteration either leaves the list as it was or appends the trimmed text of a line that passed the guard, as a fresh subscribed entry |
| `AddressLoader.AddLineKeepsDistinct` | EthBalanceMonitor/frmMain.cs:54-56 | a list with no two addresses equal ignoring case keeps that property through one iteration |
| `AddressLoader.AddLineHolds` | EthBalanceMonitor/frmMain.cs:51-56 | after one iteration an address is held, ignoring case, exactly when it was held before or the line passes the guard and trims to it |
| `AddressLoader.LoadAddresses` | EthBalanceMonitor/frmMain.cs:49-57 | every stored address is 42 UTF-16 code units long and otherwise fresh, no two stored addresses are equal ignoring case, and there are no more entries than lines |
| `AddressLoader.HeldIffSeen` | EthBalanceMonitor/frmMain.cs:51-56 | an address is stored, ignoring case, exactly when some non-empty line trims to it with a `Length` of 42 UTF-16 code units |
| `AddressLoader.LoadKeepsFirstOccurrences` | EthBalanceMonitor/frmMain.cs:49-57 | the stored list is the trimmed text of the first occurrence of each address, in file order; later duplicates in any case are skipped |
| `AddressLoader.StoredAddressesComeFromAcceptableLines` | EthBalanceMonitor/frmMain.cs:51-56 | each stored address is exactly the trimmed text of a line that passed the guard |
| `AddressLoader.AstralCharacterCountsTwice` | EthBalanceMonitor/frmMain.cs:51 | a line of 41 characters whose last lies above U+FFFF passes the length guard, and one of 42 such characters does not |
| `Selection.Oldest` | EthBalanceMonitor/frmMain.cs:111 | the chosen position holds the smallest timestamp, every earlier position a strictly larger one; there is no choice exactly when the list is empty |
| `Selection.OldestIsUnique` | EthBalanceMonitor/frmMain.cs:111 | any position that is stalest and earliest among ties is the one chosen |
| `Selection.OldestDependsOnTimestampsOnly` | EthBalanceMonitor/frmMain.cs:111 | two lists with the same timestamps position by position lead to the same choice |
| `AuditRotation.Rotate` | EthBalanceMonitor/frmMain.cs:138-140 | reading site 0, `RemoveAt(0)` and `Add` put the first site last and shift the others forward in order, keeping the length |
| `AuditRotation.RotatePermutes` | EthBalanceMonitor/frmMain.cs:138-140 | a rotation loses or duplicates no site |
| `AuditRotation.RotateTimesShifts` | EthBalanceMonitor/frmMain.cs:138-140 | up to a full turn, n rotations move the first n sites behind the rest, both groups in order |
| `AuditRotation.FullTurnRestores` | EthBalanceMonitor/frmMain.cs:138-140 | as many rotations as there are sites restore the original order |
| `AuditRotation.RotateTimesPermutes` | EthBalanceMonitor/frmMain.cs:138-140 | any number of rotations leaves a permutation of the original sites |
| `AuditRotation.RoundRobin` | EthBalanceMonitor/frmMain.cs:33-38 | after n audit steps the next server queried is number n mod 3 of the initial three, and every third step restores the initial order |
| `BalanceUpdate.ScaleToken` | EthBalanceMonitor/frmMain.cs:126 | a double raw balance is divided exactly by 10^8; an integer raw balance gives a whole number that is the quotient truncated toward zero |
| `BalanceUpdate.BalanceStep` | EthBalanceMonitor/frmMain.cs:124-134 | a failed fetch changes nothing; a token failure writes only `BalEth`; a complete response writes both balances and sets the timestamp to now; a change is logged, with the old and new token balance, exactly under the change rule `Anomaly` (the old balance is non-zero and differs from the new one, lines 128-129); the address and audit flag never change |
| `AuditCheck.FirstFailure` | EthBalanceMonitor/frmMain.cs:154-157 | every flag before the returned position is present and reads "true"; the one at it, if any, does not |
| `AuditCheck.CheckFlags` | EthBalanceMonitor/frmMain.cs:154-157 | the test passes when no flag fails, fails when the first failing flag is present, and throws when that flag is absent |
| `AuditCheck.CheckFlagsPassesIffAllTrue` | EthBalanceMonitor/frmMain.cs:154-163 | the test passes exactly when all four flags are present and equal "true" ignoring case |
| `AuditCheck.Verdict` | EthBalanceMonitor/frmMain.cs:154-163 | a record passes exactly when all four fields are present and read "true" ignoring case; the check throws exactly when the first field that does not pass is absent, and fails when it is present |
| `AuditCheck.VerdictFollowsConditionChain` | EthBalanceMonitor/frmMain.cs:154-157 | the verdict equals the four negated tests joined by `||` as written, read left to right, each field read only when the tests before it were false |
| `AuditCheck.AuditStep` | EthBalanceMonitor/frmMain.cs:152-168 | with a first record that can be read, the audit flag becomes its verdict, one event is raised, and a failure is logged with the address and raw body; a failed request, an empty list or a throwing check change nothing |
| `AuditCheck.OnlyFirstRecordCounts` | EthBalanceMonitor/frmMain.cs:152-167 | two responses whose first records agree lead to the same outcome, whatever follows |
| `PollLog.Render` | EthBalanceMonitor/frmMain.cs:130-160 | the change message starts "*** Value changedfor <address> -- previous: " and ends with the new value; the audit message starts "Audit faile for <address>. " and ends with the raw body |
| `PollCycle.Startup` | EthBalanceMonitor/frmMain.cs:32-57 | after construction the ring holds the three servers in their initial order, and the list holds the first occurrence of every acceptable address in file order, each fresh and subscribed |
| `PollCycle.Cycle` | EthBalanceMonitor/frmMain.cs:103-174 | one pass polls the stalest address, earliest among ties, and polls nothing exactly when the list is empty; the delay is 500 ms exactly when that address had never been fetched, else 15000 ms; only the polled entry changes, and never its address; the ring turns exactly when the audit step is reached, even if the audit request then fails |
| `PollCycle.EmptyListPassDoesNothing` | EthBalanceMonitor/frmMain.cs:105-114 | on an empty list the pass issues no request, changes nothing, logs nothing, raises no event and waits 15000 ms |
| `PollCycle.PassRequests` | EthBalanceMonitor/frmMain.cs:110-146 | the pass asks the balance API about the polled address and, when it reaches the audit step, the head of the ring about the same address, each request carrying the 10000 ms `Timeout` value the code assigns |
| `PollCycle.BalanceFailureKeepsTimestamp` | EthBalanceMonitor/frmMain.cs:116-134 | a balance step cut short keeps the token balance, the timestamp and the audit flag, turns no ring and logs nothing; a failed request changes nothing, and a token failure has already written `BalEth` |
| `PollCycle.BalanceSuccessUpdates` | EthBalanceMonitor/frmMain.cs:124-134 | a complete response writes both balances and sets the timestamp to now; the change line with the old and new token balance is logged exactly under the change rule |
| `PollCycle.AuditVerdictApplied` | EthBalanceMonitor/frmMain.cs:138-168 | once the audit step is reached and the first record can be read, the audit flag becomes its verdict and a failure is logged with the address and raw body; otherwise the flag stays and no audit line is logged |
| `PollCycle.FailedAddressIsPolledAgain` | EthBalanceMonitor/frmMain.cs:111-134 | after a pass whose balance step did not complete, the next pass selects the same position |
| `PollCycle.SuccessfulPollMovesOn` | EthBalanceMonitor/frmMain.cs:111-134 | when the clock is past every stored timestamp, a complete response makes the polled address strictly fresher than before and than every other address, so with two or more addresses the next pass polls another one |
| `PollCycle.FirstPollScenario` | EthBalanceMonitor/frmMain.cs:105-174 | a fresh address answered with 1.5 ETH and raw token balance 250000000000 ends with balances 1.5 and 2500, the timestamp set, no change line and a 500 ms delay; when the audit step decides, the audit flag becomes the verdict with a fourth event and a failing verdict is logged, otherwise the flag stays false with three events and no log line |
| `PollLoop.Run` | EthBalanceMonitor/frmMain.cs:103-175 | a run of n passes records one delay per pass and counts at most n audit steps |
| `PollLoop.RunDelays` | EthBalanceMonitor/frmMain.cs:174 | every pass of a run waits either 500 or 15000 ms |
| `PollLoop.RunKeepsAddresses` | EthBalanceMonitor/frmMain.cs:103-175 | a run of passes keeps the number of entries and every entry's address |
| `PollLoop.RingStep` | EthBalanceMonitor/frmMain.cs:138-140 | one pass keeps the ring equal to the starting ring rotated once per audit step reached so far |
| `PollLoop.RunRotatesRing` | EthBalanceMonitor/frmMain.cs:138-140 | after a run the ring equals the starting ring rotated once per pass that reached the audit step |
| `PollLoop.StartupRingIsRoundRobin` | EthBalanceMonitor/frmMain.cs:138-142 | from startup the ring always holds the three servers, its head is the next in round-robin order, and every third audit step restores the initial order |
| `PollLoop.AddressesStayDistinct` | EthBalanceMonitor/frmMain.cs:54-56 | no run of passes ever makes two stored addresses equal ignoring case |

## Left out

- File access in the constructor (`File.Exists`, `ReadAllLines`, creating an empty file): the lines are an input. A read error shown in a message box is not modelled.
- The startup log messages (frmMain.cs:73-75) and the timestamp prefix `AddLogMsg` adds: log lines are structured values without time.
- HTTP, async/await and JSON parsing: each request is represented by its URL and the `Timeout` value the code assigns, and its result is an outcome input. `HttpWebRequest.Timeout` does not apply to the asynchronous `GetResponseAsync` calls, so the value is recorded only; a server that never answers stalls the pass, which a finite model of passes does not represent.
- The endless `while (true)` loop and `Task.Delay`: one pass is a function, and a bounded sequence of passes is `PollLoop.Run`; the delay is returned, not waited.
- `float` and `DateTime`: balances are reals without single-precision rounding, and timestamps are naturals with `now` as a parameter.
- `Strings.EqualsIgnoreCase`: folds ASCII letters only. .NET's ordinal comparison also folds other letters by their simple upper-case mapping, a table not modelled here. The guard keeps any 42-unit line, not only hex addresses, so two lines that differ only in the case of a non-ASCII letter ("ä" and "Ä") are merged by the program but both stored by the model.
- `AddressLoader.LoadAddresses`: its duplicate check uses the ASCII-only folding above, so where two lines differ only in the case of a non-ASCII letter the model stores both and the program keeps only the first; `HeldIffSeen` and `LoadKeepsFirstOccurrences` inherit this.
- `Strings.Trim`: uses the `Char.IsWhiteSpace` set of .NET Framework 4.6 and later. Frameworks 4.0 to 4.5.x, built on Unicode data older than 6.3, also count U+180E as white space, and frameworks before 4.0 also trimmed U+200B and U+FEFF.
- `PollLog.Render`: float.ToString() is culture-dependent, so number formatting is a parameter.
- Change events carry the property name only; the sender is the polled entry, given by the pass's selected position.
- An audit record element that is not a JSON object behaves as a record whose first field is absent, so the check throws.
- The UI: grid binding and column resizing, `tmrCheckBalance_Tick`, and cell colouring in `dgMain_CellFormatting`. `frmMain_Shown`, which on an empty list shows a message box, opens the address file and closes the form, ending the program, is not modelled: the model's loop keeps passing over the empty list.
