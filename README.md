# Live JSON parameters, modelled in Dafny

This project models the core of Cinder-LiveJsonParam. That core is a
process-wide registry (`JsonBag`) of named, typed "live parameters"
(`Param<T>`). The registry saves every parameter into one structured
document. It reloads them from that document whenever the file changes.

The model has five modules, one file each:

- `wrappers.dfy` (`Wrappers`): `Option` and `Result`.
- `text.dfy` (`Text`): the text form of scalar components.
  - int is written in decimal and bool as `"1"`/`"0"`; both are concrete here.
  - float text is a parameter `FloatText(show, parse)`. `ReadsBack(ft, xs)` states that each float in `xs` reads back as itself. Round-trip properties ask this only of the floats of the values involved.
- `codec.dfy` (`Codec`): the document tree and the per-type `save`/`load` specialisations.
  - `Node` is a named scalar or a named array.
  - `Value` is a tagged union over the supported `T`s.
  - `Encode` is `save`; `Decode` is `load` up to its call of `update`.
- `live.dfy` (`Live`): the stateful part.
  - `Cell` is `Param<T>` together with `ParamBase`: value, callback, owner, target.
  - `Bag` is `JsonBag`: the `items` map and the backing file.
  - `Process` is the `live::bag()` singleton.
  - Pure specification functions describe a load: `Replay`, `Dispatched`, `UnknownKeys`, `FirstFailure`, `Applied`, `Outcome`.
- `scenarios.dfy` (`Scenarios`): client programs over the model.

Representation choices:

- A callback is identified by a `CallbackId`. Every invocation is appended to the cell's `calls` log, so "fires once" and "fires nothing" are statements about that log.
- A cell's deregistration target (the source's `void*`) is the cell itself, or null when it was never set.
- The backing file is `Missing`, or `Present(doc)`. Here `doc` is `None` when the text does not parse.
- `load` returns what it would log: the unknown names, in order. It also returns how it ended (`LoadOutcome`).

Two behaviours of the code are easy to misread:

- `add` uses `emplace`. A second registration under a name keeps the first entry.
- Only a document parse error is caught by `load`. Two other library exceptions escape `load`: a missing `"params"` child, and a component child or scalar text that cannot be read. A load that throws at entry n has already applied the entries before it. The model returns `Threw(error)` for these exits.

## Model

| member | source | states |
|---|---|---|
| Live.Updated | src/LiveParam.h:76-81 | an equal value leaves value and callbacks unchanged; a different value is stored and the callback fires exactly once |
| Live.UpdatedIdempotent | src/LiveParam.h:76-81 | updating with the same value twice is the same as once |
| Live.Cell.Update | src/LiveParam.h:76-81 | the cell's new value and callback log are exactly what `Updated` gives |
| Live.Cell.Assign | src/LiveParam.h:62 | `operator=` stores the value; the callback log is not in its frame, so no callback fires |
| Live.Cell.SetUpdateFn | src/LiveParam.h:56-58 | the callback is replaced |
| Live.Cell.SetOwner | src/LiveParam.h:34 | the owner is set |
| Live.Cell.Default | src/LiveParam.h:48-50 | `Param()`: no owner, no callback, and the target is never set |
| Live.Cell.constructor | src/LiveParam.h:52-54 | `Param(T)`: the target is the cell itself |
| Live.Cell.Load | src/LiveParam.h:180-247 | a decoding failure is reported and changes nothing; otherwise the decoded value goes through `update`; a type without a load specialisation changes nothing |
| Live.Cell.Destroy | src/LiveParam.h:28-32 | a cell with an owner makes that registry remove one entry whose target is this cell's target, or none when none matches or the target is null; the registry's file and cells are unchanged |
| Codec.Encode | src/LiveParam.h:83-86 | the saved node carries the registration name; it is an array exactly for vec2/vec3/vec4, quat and Color |
| Codec.EncodeComponentOrder | src/LiveParam.h:128-178 | compound children are scalars named, in order, x,y[,z,w] for vectors, w,x,y,z for quat and r,g,b for Color |
| Codec.Decode | src/LiveParam.h:180-247 | only a type without a load specialisation decodes to "no update"; a decoded value has the cell's type |
| Codec.ReadFloat | src/LiveParam.h:192-196 | a float is read exactly when the node is a scalar whose text converts |
| Codec.ReadComponents | src/LiveParam.h:199-205 | a missing first component child fails with child-not-found; a success has one float per name |
| Codec.ReadComponentsMeaning | src/LiveParam.h:199-205 | the read succeeds exactly when every named child reads as a float, and then the i-th float is what `names[i]` reads as; a failure is the error of the first name that does not read, so a missing or unconvertible later child fails too |
| Codec.ScalarRoundTrip | src/LiveParam.h:180-196 | bool and int entries load back as the saved value, and a float entry does too when its text reads back as itself |
| Codec.CompoundRoundTrip | src/LiveParam.h:198-247 | vec2/vec3/vec4, quat and Color entries load back, child by child and by name, as the saved value, when each component's text reads back as that component |
| Codec.DecodeEncode | src/LiveParam.h:83-87 | for every type, loading what save wrote gives the value back when the value's own floats read back as themselves (bool and int need nothing), except a type without a load specialisation, which is not updated |
| Codec.DecodeReadsByName | src/LiveParam.h:229-237 | compounds are read by child name: two nodes with the same child under every component name decode alike, whatever the child order |
| Text.ParseShowInt | src/LiveParam.h:186-190 | int text written by `toString` reads back as the same int |
| Text.ParseShowBool | src/LiveParam.h:180-184 | bool text written by `toString` reads back as the same bool |
| Live.Created | src/LiveParam.cpp:18-21 | the constructor leaves a backing file present; an existing file is kept as it is |
| Live.Bag.constructor | src/LiveParam.cpp:13-21 | a new registry is empty and its file exists |
| Live.Bag.Add | src/LiveParam.h:100-109 | the cell gets this registry as owner and the callback in every case; the entry is inserted only when the name is free |
| Live.Process.Add | src/LiveParam.h:104-108 | `add` through the singleton: the bag is created at most once, with file `Created(disk)`, an existing bag keeps its file, the cell's value, callback log and target are unchanged, and the same registration rules hold |
| Live.Bag.RemoveTarget | src/LiveParam.cpp:65-77 | null changes nothing; otherwise exactly one entry whose target matches is erased, or nothing when none matches; `found` tells which |
| Live.SaveEntries | src/LiveParam.cpp:34-36 | the save loop yields one entry per registered name, each the node its value saves as, with no name twice |
| Live.Bag.Document | src/LiveParam.cpp:31-38 | the document's only child is the `"params"` array of saved entries |
| Live.Bag.Save | src/LiveParam.cpp:29-40 | the file now holds that document; only the file is in the frame, so the registry and the cells are unchanged |
| Live.Bag.Load | src/LiveParam.cpp:42-63 | only registered cells are in the frame; no file or a parse failure changes no cell; otherwise every registered cell is in the state its own entries, up to the first throwing entry, leave it; the outcome and the unknown names are given by `Outcome` and `UnknownKeys` |
| Live.Bag.LoadEntries | src/LiveParam.cpp:51-58 | the loop stops at the first entry whose decoding throws, with every earlier entry applied |
| Live.Bag.LoadEntry | src/LiveParam.cpp:52-57 | one iteration: a known name is loaded into its cell, an unknown name is reported and skipped |
| Live.Bag.LoadKnown | src/LiveParam.cpp:53-54 | only registered cells are in the frame, and of them only the cell registered under the entry's name changes, by that entry; a failure changes no cell |
| Live.Bag.SkipEntry | src/LiveParam.cpp:55-57 | an entry with an unknown name changes no cell |
| Live.FirstFailureSpec | src/LiveParam.cpp:48-62 | no entry before the stopping point throws, and the entry at that point does |
| Live.Replay | src/LiveParam.cpp:51-58 | loading entries into a cell only appends to its callback log, its own callback only, at most once per entry |
| Live.DispatchedMembers | src/LiveParam.cpp:53-54 | a cell receives exactly the entries whose name is registered to it |
| Live.UnknownKeysMembers | src/LiveParam.cpp:55-57 | a name is reported exactly when some entry carries it and nothing is registered under it |
| Live.ReplayOther | src/LiveParam.h:87 | a cell whose type has no load specialisation is never changed by loading |
| Live.ReplaySettles | src/LiveParam.cpp:51-54 | entries that agree on a value act as one update: the callback fires at most once |
| Live.ReplayTwice | src/LiveParam.cpp:51-54 | loading the same agreeing entries a second time fires no callback and changes nothing |
| Live.LoadedTwice | src/LiveParam.cpp:51-54 | registry-wide: a second load of a document that is unambiguous for every cell leaves every cell as it was |
| Live.DuplicateEntriesFireAgain | src/LiveParam.cpp:51-54 | a document naming one bool twice with different values fires the callback again on every load |
| Live.SavedEntriesReload | src/LiveParam.cpp:29-58 | save then load: when the floats of the saved values read back as themselves, the load runs to the end and brings every cell whose type has a load specialisation back to its saved value, through one update; any other cell is left as it was |
| Live.Process.Instance | src/LiveParam.cpp:79-87 | the first call creates the bag; every later call returns that same bag |
| Scenarios.FrictionFollowsTheFile | src/LiveParam.cpp:42-58 | a float saved at 0.9 and edited to 0.5 loads as whatever the text of 0.5 reads as: 0.5 with one callback when it reads back, and no change when it does not convert and the load throws; the unknown name before it is reported either way; a second load changes nothing |
| Scenarios.EditedEntriesRun | src/LiveParam.cpp:51-58 | the edited file's unknown name is reported; the load stops at the friction entry exactly when the text of 0.5 does not convert |
| Scenarios.EditedEntriesReplay | src/LiveParam.cpp:51-54 | the friction entry updates the cell to what the text of 0.5 reads as, with one callback when that is 0.5, and a second load of it is quiet |
| Scenarios.SaveResetLoad | src/LiveParam.cpp:29-58 | save, overwrite with `operator=`, load an int: the saved value is back with one callback, for any float text |
| Scenarios.LoadTwice | src/LiveParam.cpp:42-58 | two loads of an unchanged, unambiguous file: the second changes nothing |
| Scenarios.FirstRegistrationWins | src/LiveParam.h:100-109 | a second `add` under a taken name keeps the first entry but still sets the owner and callback of the second cell |
| Scenarios.SingletonIsShared | src/LiveParam.cpp:79-87 | two calls of `bag()` return the same registry |
| Scenarios.DefaultCellOutlivesDestroy | src/LiveParam.h:48-50 | as written: a registered cell made by `Param()` stays registered after it is destroyed |
| Scenarios.TargetedCellLeavesOnDestroy | src/LiveParam.h:52-54 | a registered cell whose target is set leaves the registry when it is destroyed |
| Scenarios.SingletonCellLeavesOnDestroy | src/LiveParam.h:101-109 | the same through the process-wide bag, the path `add` takes: a cell made by `Param(T)` leaves the singleton's registry when it is destroyed |

## Left out

- File-system I/O is not modelled: the existence test, creating the empty file, and reading and writing the file. The backing file is a `BackingFile` value. A file created empty by the constructor is `Present(None)`, because it does not parse.
- The document library's text parser and writer are not modelled. A parse failure is the `None` document.
- Float text conversion is numerics the model cannot see. It is the `FloatText` parameter. Round-trip properties require `ReadsBack` of the floats involved. Which floats the real formatting loses is out of scope, NaN included.
- The Watchdog subscription, which reloads on file change, is not modelled. It runs on another thread, and `call_once` is about concurrency. Reloads are explicit calls of `Load`.
- Logging is not modelled. "No item named" is returned as `unknown`, and "Target not found" as `found == false`.
- The contents of `std::function` callbacks are not modelled; a callback is an identifier.
- Live.Cell.Update: requires a callback. Every registered cell has one, since `add` always sets it. Calling an empty `std::function` throws, and that path is not modelled.
- `glm`'s default values for `T()` are not modelled. The default constructor takes the initial value as an argument.
- The const accessors only read `mValue`, and `View` stands for them. These are the conversion operator and the const overloads of `value()`, `operator()` and `ptr()` (src/LiveParam.h:60, 64, 68, 72). The non-const overloads (src/LiveParam.h:65, 70, 73) hand out a mutable reference or pointer to `mValue`. A write through one stores a value with no comparison and no callback, which is the effect of `Live.Cell.Assign`; the model has no separate member for them. Aliasing through a retained reference or pointer is not modelled.
- `getTarget` is a plain field read.
- The demo application (`samples/Demo/src/DemoApp.cpp`) is not part of this model.
- Live.Cell.Default: the source leaves `mVoidPtr` indeterminate, and the model uses null. Either way no entry is removed on destruction, unless the indeterminate value happens to equal another live cell's target.
- A `T` outside the supported types is `OtherV`, seen only through its `toString` text.
- Live.Updated: floats are reals, so NaN cannot be represented. In the source, `mValue != newValue` (src/LiveParam.h:77) holds when both values are NaN, so a float cell holding NaN fires its callback on every `update`. The same goes for a vec/quat/Color with a NaN component, or an entry that reads as NaN. Live.LoadedTwice, Live.ReplayTwice and Scenarios.LoadTwice therefore claim a quiet second load that the source does not give for such values.

## Findings

| source | as written | input that shows it | evidently intended | confidence | as-written member | corrected member |
|---|---|---|---|---|---|---|
| src/LiveParam.h:48-50 | `Param()` builds `ParamBase()` without a target, so its destructor asks `removeTarget` to remove nothing | a `Param<bool>` made by `Param()`, registered under "flag", then destroyed: "flag" stays registered and points at the destroyed cell, which the next save or load uses | the target is the cell's own value, as `Param(T)` sets it, so destruction removes the entry | medium, not executed | Scenarios.DefaultCellOutlivesDestroy | Scenarios.TargetedCellLeavesOnDestroy |
