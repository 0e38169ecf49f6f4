# winhotkey in Dafny

A model of the `winhotkey` Go package, which registers global Windows hotkeys
and dispatches the `WM_HOTKEY` messages the system sends for them. The model
covers four parts of `winhotkey.go`:

- the modifier constants;
- the label `(*Hotkey).String` builds;
- the process-wide registry that `RegisterHotkey` fills;
- the dispatch rule of the message pump `Run`.

The two user32 calls become inputs:

- `RegisterHotKey` is replaced by the `(r1, err)` answer it gives (`CallResult`).
- `GetMessageW` is replaced by a finite script of `(r1, err, WPARAM)` results (`MsgResult`).

Modules:

- `Hotkeys` (hotkeys.dfy) holds the data model:
  - the Go integer types used (`int16` ids, 64-bit `int`, `uintptr`);
  - the five modifier bits, each as a `bv64`. `Hotkey.Modifiers` is a Go `int`: `String` masks it with `&`, and `RegisterHotkey` passes it to the system as a `uintptr`. Its 64-bit pattern, a `bv64`, serves both uses;
  - the `Hotkey` record;
  - the call results;
  - `Channel`, a class standing for a buffered Go channel: a `seq` buffer with a fixed capacity. Its `TrySend` is the `select` with an empty `default` case.
- `Decimals` (decimals.dfy) holds Go's `%d` for the id, with a reader that inverts it.
- `Labels` (labels.dfy) holds:
  - `Label`, which is `String`;
  - `Present`, the modifiers a mask names, listed in label order;
  - `ParseLabel`, which reads a label back.

  The main result is a round trip: parsing a label gives back the id, the modifiers it names and the key character.
- `Registration` (registration.dfy) holds:
  - `Register`, the registration rule as a function on the map;
  - the class `Registry`, standing for the package-level `keys` map. Its `RegisterHotkey` scans the entries for the id as the Go `range` loop does, and is proved to agree with `Register`.
- `Pump` (pump.dfy) holds:
  - `Decide`, which is one iteration of `Run`;
  - `Run`, a loop over the script. It returns at the first fatal result, records each callback invocation in order, and offers each dispatched hotkey to its channel.
- `Seqs` (sequences.dfy) holds small facts about sequence concatenation that the label proofs use.

The doc comment at winhotkey.go:46 shows a label `Hotkey[Id: 1, Alt+Ctrl+O]`. The
code at winhotkey.go:64 writes `ID`, and lists Ctrl before Alt (lines 49-63).
The tests expect the code's output. The model follows the code.

Registration succeeds exactly when both of these hold:

- the id is free;
- r1 is 1, whatever error came with it, or r1 is non-zero and no error came with it.

It is not "any non-zero r1". A Go `syscall.Proc.Call` always returns a non-nil
error value, and the rule in winhotkey.go:122-127 is written around that.

## Model

| member | source | states |
|---|---|---|
| Hotkeys.HasIsFlagTest | winhotkey.go:49-63 | the modifier test `Has` used throughout agrees, for every modifier, with the bit test `mask & Flag(f) != 0` against that modifier's constant |
| Hotkeys.FlagsAreSingleBits | winhotkey.go:11-23 | each modifier constant is a single non-zero bit; two different modifiers share no bit; a mask made of one modifier has exactly that modifier set |
| Hotkeys.SumOfFlags | winhotkey.go:11-23 | any choice of modifiers added up, as the tests build masks, equals the same modifiers OR-ed together; the sum has a modifier's bit set exactly when that modifier was chosen |
| Hotkeys.OfferAllKeepsWhatFits | winhotkey.go:103-108 | offering a sequence of notifications to a buffer nobody drains keeps exactly those that fit below the capacity, in order, and drops the rest |
| Hotkeys.Offer | winhotkey.go:104-107 | one non-blocking send to a buffer: the hotkey is appended, at the end, exactly when the buffer is below capacity; otherwise the buffer is unchanged, and a buffer within its capacity stays within it |
| Hotkeys.Channel.TrySend | winhotkey.go:104-107 | the non-blocking send succeeds exactly when the buffer is below capacity; it appends the hotkey then, and otherwise leaves the buffer as it was |
| Decimals.Digits | winhotkey.go:64 | the `%d` digits of a natural number are at least one character, all decimal digits |
| Decimals.Decimal | winhotkey.go:64 | `%d` of an id is non-empty, made of digits except for a leading minus sign, which appears exactly when the id is negative |
| Decimals.DigitsRoundTrip | winhotkey.go:64 | the digits of a natural number read back as that number |
| Decimals.DecimalRoundTrip | winhotkey.go:64 | the `%d` rendering of any integer, negative ones included, reads back as that integer |
| Labels.KeyChar | winhotkey.go:64 | `%c` of the key code is the character with that code exactly when the code is a Unicode scalar value; any other code, negative ones included, gives U+FFFD |
| Labels.NameEndings | winhotkey.go:49-63 | "NoRepeat " ends in a space, every other prefix ends in `+`, and the ending is the only separator in a prefix |
| Labels.SelectIsSubset | winhotkey.go:49-63 | filtering a list of modifiers by a mask keeps exactly the listed modifiers whose bits are set |
| Labels.SelectIsAscending | winhotkey.go:49-63 | filtering keeps the fixed order of the list |
| Labels.PresentInOrder | winhotkey.go:49-63 | a label names a modifier if and only if its bit is set in the mask, names it at most once, and lists the modifiers in the order NoRepeat, Ctrl, Alt, Shift, Win |
| Labels.PrefixesNamePresent | winhotkey.go:48-63 | the five bit tests of `String` write exactly the prefixes of the modifiers the mask names, in label order |
| Labels.ParseJoin | winhotkey.go:48-63 | a run of prefixes in label order can be split back into its modifiers without ambiguity |
| Labels.ParsePrefixes | winhotkey.go:48-63 | the prefixes written for any mask read back as the modifiers the mask names |
| Labels.Prefixes | winhotkey.go:48-63 | the modifier part of a label; `PrefixesNamePresent` and `ParsePrefixes` state that it names exactly the modifiers set in the mask, in label order, and reads back as them |
| Labels.ParseLabel | winhotkey.go:47-65 | the reader that inverts `Label`; `LabelRoundTrip` states that it gives back the id, the named modifiers and the key character of every label |
| Labels.Label | winhotkey.go:47-65 | `String`; `LabelRoundTrip` states its shape and that it can be read back, and `SameLabel` states exactly when two hotkeys share a label |
| Labels.LabelRoundTrip | winhotkey.go:47-65 | every label has the form `Hotkey[ID: <id>, <prefixes><key>]`; reading it back gives the id, the named modifiers in order, and the `%c` character of the key code |
| Labels.SameLabel | winhotkey.go:47-65 | two hotkeys get the same label if and only if they have the same id, name the same modifiers and show the same key character |
| Labels.LabelExampleCtrlAlt | winhotkey_test.go:17-23 | id 1 with Ctrl+Alt and key 'A' is labelled `Hotkey[ID: 1, Ctrl+Alt+A]` |
| Labels.LabelExampleCtrlShift | winhotkey_test.go:26-32 | id 2 with Ctrl+Shift and key 'A' is labelled `Hotkey[ID: 2, Ctrl+Shift+A]` |
| Labels.LabelExampleNoRepeat | winhotkey_test.go:122-129 | the test pump's hotkey, id 1 with Alt+Ctrl+NoRepeat and key 'A', is labelled `Hotkey[ID: 1, NoRepeat Ctrl+Alt+A]` |
| Registration.Request | winhotkey.go:121 | the RegisterHotKey call passes no window, and the id and the key code as their 64-bit two's complement patterns: each is the signed value itself or that value plus 2^64; `RequestIsFaithful` states that nothing is lost |
| Registration.Accepted | winhotkey.go:122-127 | the system's answer counts as success exactly when r1 is 1, or r1 is non-zero and no error came with it; `Register` and `OsResultRule` state this rule |
| Registration.RequestIsFaithful | winhotkey.go:121 | the RegisterHotKey call carries the id, the mask and the key code unchanged: two hotkeys make the same call if and only if they agree on all three |
| Registration.Register | winhotkey.go:115-130 | the system is asked if and only if the id is free. Registration succeeds if and only if the id is free and r1 is 1 or r1 is non-zero with no error. On success the registry gains exactly the new entry. On failure the registry is unchanged. A taken id fails as a duplicate that names the entry already there |
| Registration.OsResultRule | winhotkey.go:121-127 | with a free id: r1 == 0 is refused with or without an error; r1 == 1 succeeds even with an error; any other non-zero r1 succeeds without an error and fails with one |
| Registration.RegisterKeepsWellKeyed | winhotkey.go:128 | every entry stays filed under its own id |
| Registration.RegistryOnlyGrows | winhotkey.go:116-128 | over any sequence of registrations no entry is removed or replaced |
| Registration.RegisterAllKeepsWellKeyed | winhotkey.go:128 | over any sequence of registrations every entry stays filed under its own id |
| Registration.DuplicateStaysRejected | winhotkey.go:116-120 | once an id has registered, every later registration with that id fails as a duplicate naming the first hotkey, without asking the system, whatever its modifiers and key and whatever happened in between |
| Registration.RegistrationExample | winhotkey_test.go:53-88 | the test's sequence: ids 1 and 3 succeed, the second id 3 fails as a duplicate without a system call, id 4 is refused when the system answers r1 == 0, and the registry ends with ids 1 and 3 |
| Registration.Registry.constructor | winhotkey.go:81 | the registry starts empty |
| Registration.Registry.RegisterHotkey | winhotkey.go:115-130 | the scan over the registry's entries and the system call behave as `Register` says: same status and same new registry. The only system call made is RegisterHotKey with the hotkey's id, mask and key, and none is made for a duplicate |
| Registration.RegistrationTest | winhotkey_test.go:44-97 | the test's four registrations on a fresh registry give success, success, a duplicate and a refusal, and leave ids 1 and 3 registered |
| Pump.IsFatal | winhotkey.go:94 | a result stops the pump exactly when an error came with it and r1 is not 1; `Decide`, `NoErrorNeverStops` and `ToleratedError` state this |
| Pump.Decide | winhotkey.go:93-110 | a result stops the pump if and only if an error came with it and r1 is not 1, and then the error is the one returned. A message is dispatched if and only if it is not fatal, its id is non-zero and registered, and then it goes to the registered hotkey |
| Pump.NoErrorNeverStops | winhotkey.go:94 | a result without an error never stops the pump, whatever r1 is |
| Pump.ToleratedError | winhotkey.go:94 | an error that comes with r1 == 1 does not stop the pump |
| Pump.IgnoredMessage | winhotkey.go:97-99 | a non-fatal message with id 0, or with an id nobody registered, is ignored |
| Pump.RegisteredIsVisible | winhotkey.go:97-99 | right after a successful registration, a message with the new id goes to the new hotkey, unless the id is 0, which is never dispatched |
| Pump.FirstFatal | winhotkey.go:91-96 | the index returned is that of the first fatal result of the script, or the script's length when there is none |
| Pump.DispatchedAreRegistered | winhotkey.go:97-99 | every dispatched hotkey is the registered entry for a non-zero id, and there are never more dispatches than messages |
| Pump.EveryHitDispatched | winhotkey.go:97-99 | when no result is fatal and every message names a registered non-zero id, each message is dispatched, in order, to the hotkey of its id |
| Pump.InvokedAll | winhotkey.go:100-101 | when every dispatched hotkey has a callback, every one of them is invoked, in order |
| Pump.SentToAll | winhotkey.go:103-105 | when every dispatched hotkey notifies the same channel, every one of them is offered to it, in order |
| Pump.DeliveriesCapped | winhotkey.go:97-108 | n messages for registered hotkeys that notify one channel, which nobody drains, are all dispatched. The channel then holds its earlier contents followed by the first min(n, room left) of them. Starting from an empty channel, it holds min(n, capacity) |
| Pump.OfferStep | winhotkey.go:103-108 | one dispatch extends what a channel has been offered by that hotkey exactly when the hotkey's channel is that one, and leaves it alone otherwise |
| Pump.RunStep | winhotkey.go:91-110 | a message that does not stop the pump adds exactly its own dispatch, if any, to the dispatches, and the hotkey to the callback invocations when it has a callback |
| Pump.Notify | winhotkey.go:100-108 | one dispatch records the callback invocation when the hotkey has a callback, offers the hotkey to its own channel, if it has one, and leaves every other channel as it was |
| Pump.Run | winhotkey.go:90-112 | the pump returns the error of the first fatal result. Every message before that result is handled by the dispatch rule. The callback invocations are those dispatched hotkeys that have a callback, in order. Each channel receives the dispatched hotkeys that notify it, as far as its buffer has room. The registry is not changed |
| Pump.RunExample | winhotkey_test.go:105-146 | the test's script of three error-free results for id 1 and then an error: the fourth result is the first fatal one, the callback fires three times, and a channel of capacity 10 buffers three notifications |
| Pump.RunTest | winhotkey_test.go:114-153 | the test run on a fresh channel of capacity 10 returns the test's error, makes three callback invocations and leaves three notifications in the channel |

## Left out

- Loading user32 and looking up its procedures, and pinning the goroutine to its thread (winhotkey.go:79-87), are Windows plumbing. The two procedures (`ProcInterface`, winhotkey.go:74-77) are replaced by their answers, passed in as parameters. The r2 result is never read, so it is not modelled.
- The memory layout of `MSG` and the `unsafe.Pointer` passing (winhotkey.go:36-43, 92-93). Only `WPARAM` matters, and it is part of each scripted result.
- Callbacks run as goroutines (winhotkey.go:101). The model records each invocation, in order, with the hotkey passed to it. What the callback does, and when it runs, are not modelled.
- The unsynchronised access to the global map from several goroutines is not modelled. Each operation runs on its own.
- Pump.Run: the Go loop never ends unless a result is fatal. The model runs over a finite script and reports `ScriptEnded` when the script runs out first.
- Receivers draining a channel while `Run` sends to it are not modelled. A channel's buffer only grows during `Run`.
- A send on a closed channel panics in Go, even inside `select` with a `default` case (winhotkey.go:104-105). `Channel.TrySend` has no closed state and never fails, so that panic is not modelled.
- `RegisterHotkey(nil)` panics when it reads `h.ID` (winhotkey.go:117 when the registry is non-empty, 121 otherwise). A `Hotkey` here is a value and cannot be nil, so that panic is not modelled.
- Error texts built by `fmt.Errorf` (winhotkey.go:118, 123) are not modelled. An error records its kind instead: a duplicate with the entry already there, a refusal with the label of the refused hotkey and the error that came with it, or the system's error.
- A `*Hotkey` is modelled as an immutable value, and the package never writes to one. If a caller changed a registered hotkey through its pointer, the registry would see the change; the model does not capture that.
- Registration.Register: the duplicate check is stated as "the id is a key of the map". `Registry.RegisterHotkey` scans the values for an equal `ID` as the source does. The two agree on a registry whose entries are filed under their own ids, which `Registry.Valid` keeps.
- Labels.LabelRoundTrip: a label recovers the key character, not the key code. Every code that is not a Unicode scalar value, negative codes included, prints as U+FFFD. Mask bits other than the five modifiers are not shown.
- example/main.go is application glue (signal handling, logging, a consumer goroutine) and is not part of this model.
