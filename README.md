# Device registry of the test server's test framework

The test server keeps a registry of the devices that present themselves for
a test run. It is the base object that platform-specific test frameworks
build on. Construction works out how many devices of each platform a run
needs. The CI system's configuration gives the counts of deployed devices.
The user's configuration may override the count of a platform with its
`numDevices`. Each arriving device is appended to its platform's list. The
moment a list's length becomes equal to the platform's required count,
`startTests(platform, tests)` is called. It is a hook that the subclasses
define. A device that leaves is spliced out of its platform's list.

The model has two modules:

- `JsArray` (`js_array.dfy`) gives the semantics of the two JavaScript array
  operations the registry uses. `IndexOf` is `Array.prototype.indexOf`,
  which compares with `===`. `SpliceOne` is `splice(start, 1)`, including
  the rule that a negative start counts from the end.
- `DeviceRegistry` (`test_framework.dfy`) starts with the registry's behaviour
  on values: a `Snapshot` of its state, one addition `Add`, one removal
  `Remove`, a run of additions `AddAll`, and lemmas about them. The class
  `TestFramework` follows. It has the mutable fields `devices` and
  `requiredDevices` and a ghost trace `started` of `startTests` calls. `AddDevice`
  and `RemoveDevice` are proved to update the fields in place exactly as
  `Add` and `Remove` say. `CopyCounts` and `OverrideCounts` hold the constructor's two `forEach` loops.

A device is a datatype whose `id` field stands for the identity of the
JavaScript object, so `===` on objects becomes equality of values. For a
platform name that is not a property of `Object.prototype`, the JavaScript
test `!this.devices[p]` is true only when the key is missing, because an
empty array is truthy. An emptied list therefore stays in the map
and gets appended to. A platform whose required count is missing has the
count `undefined`, which no length equals, so its tests never start.

## Model

| member | source | states |
|---|---|---|
| `DeviceRegistry.CopyCounts` | test/TestServer/TestFramework.js:25-29 | the first loop leaves a map equal to the CI system's counts, whatever order it visits the platforms in |
| `DeviceRegistry.OverrideCounts` | test/TestServer/TestFramework.js:31-35 | the platforms with a count after the second loop are exactly those counted before plus those the user configured; every platform the user configured gets the user's `numDevices`, overriding an earlier count; every other platform keeps its count; the result does not depend on the order of the keys |
| `DeviceRegistry.TestFramework.constructor` | test/TestServer/TestFramework.js:9-36 | both configurations are kept; no device has been seen; no tests have started; `requiredDevices` is the CI counts overridden by the user's counts, with keys the union of both configurations |
| `DeviceRegistry.TestFramework.StartTests` | test/TestServer/TestFramework.js:52 | calling the hook records one `(platform, tests)` event and changes neither the device lists nor the required counts |
| `DeviceRegistry.TestFramework.AddDevice` | test/TestServer/TestFramework.js:40-54 | the new state is `Add` of the old one; the device is appended to its platform's list, or forms a new one-element list; every other platform's list and all required counts are unchanged; `startTests` is recorded once, with the device's tests, exactly when the new length equals the platform's required count |
| `DeviceRegistry.TestFramework.RemoveDevice` | test/TestServer/TestFramework.js:56-60 | the new state is `Remove` of the old one; the first occurrence of the device is removed and the rest keep their order; the list is one shorter and its multiset loses exactly that device; the device is no longer in the list exactly when it occurred once, which is the assertion of line 59; other lists, the required counts and the trace are unchanged |
| `DeviceRegistry.AddEffect` | test/TestServer/TestFramework.js:40-54 | one addition appends the device to its platform's list, creating the list if it is missing, so the length grows by one; it adds no platform but that one and changes no other list and no count; the trace gains `(platform, tests)` if the new length equals the required count, and otherwise stays as it was |
| `DeviceRegistry.AddAllLists` | test/TestServer/TestFramework.js:43-47 | after any run of additions, each platform's list is its old list followed by the run's devices of that platform, in arrival order; the required counts do not change |
| `DeviceRegistry.AddAllStartsOnce` | test/TestServer/TestFramework.js:51-53 | over any run of additions, earlier trace entries are kept, and the tests of a platform are started exactly once if the run takes its device count from below the required count up to it or past it, and otherwise never; adding past the count does not start the tests again, and a platform without a count never starts |
| `DeviceRegistry.RemoveEffect` | test/TestServer/TestFramework.js:56-59 | one removal of a listed device takes out its first occurrence and keeps the order of the rest; the list is one shorter and its multiset loses exactly that device; the device is gone exactly when it occurred once; no platform is added or dropped, and no other list, no count and no `startTests` call changes |
| `DeviceRegistry.RemoveUndoesAdd` | test/TestServer/TestFramework.js:40-60 | removing a device right after adding it, when it was not already listed, gives back its platform's list as it was (an empty list if the platform had none) and changes nothing else; a `startTests` call the addition made is not undone |
| `JsArray.IndexOf` | test/TestServer/TestFramework.js:57 | `indexOf` returns -1 exactly when the element is absent; otherwise it returns a position holding the element with no occurrence before it |
| `JsArray.SpliceStart` | test/TestServer/TestFramework.js:58 | the position `splice` starts at: a start within the array is taken as it is, a negative start counts back from the end and is clamped at 0, and a start past the end is clamped to the length |
| `JsArray.SpliceOne` | test/TestServer/TestFramework.js:58 | `splice(start, 1)` with a start inside the array (a negative start counting from the end) gives an array one shorter that keeps the elements before the start and shifts those after it down by one; a start past the end changes nothing |
| `JsArray.RemoveFirstOccurrence` | test/TestServer/TestFramework.js:57-59 | on an array holding the element, `splice(indexOf(x), 1)` removes exactly its first occurrence, keeps the order of the rest and shortens the array by one; `x` is gone afterwards exactly when it occurred once |
| `JsArray.SpliceOfAbsentDropsLast` | test/TestServer/TestFramework.js:57-58 | on a non-empty array without the element, `indexOf` gives -1 and `splice(-1, 1)` drops the last element instead |

## Left out

- `src/android/java/io/jxcore/node/IncomingSocketThread.java` is not part of this model. It opens a loopback socket, copies streams on threads, logs, and relies on a base class that is not available. Its only sequential state is the loopback port number with its getter and setter (lines 51-62), too small to be worth a model.
- The `console.log` of line 50 is I/O. It is left out.
- The `EventEmitter` inheritance (lines 7, 10 and 38) is left out. It adds no state the registry reads.
- The body of `startTests` is defined by subclasses, which are not part of this model. `StartTests` only records the call in the ghost trace `started` and promises to leave `devices` and `requiredDevices` alone. `AddDevice`'s frame rests on that promise: a subclass hook that changed the registry would break it.
- AddDevice: platform names are assumed not to be property names of `Object.prototype` (`constructor`, `toString`, `valueOf`, `hasOwnProperty`, `__proto__` and the like). For such a name with no list of its own, `this.devices[p]` at line 43 is an inherited truthy value. Line 46 then calls `push` on it and throws a `TypeError`: no list is created and `startTests` is not reached. The model instead creates the list `[d]`.
- DeviceRegistry.TestFramework.constructor: for the platform name `__proto__`, the assignments at lines 28 and 34 do not create a key in the source, while the model's `requiredDevices` has it. Like `AddDevice`, the model assumes platform names are not property names of `Object.prototype`.
- RemoveDevice: requires that the device's platform has a list and that the device is in it. With no list, the source throws a `TypeError`. With the device absent, `indexOf` gives -1, and `splice(-1, 1)` silently removes the platform's last device. `JsArray.SpliceOfAbsentDropsLast` shows that second behaviour, but the class never reaches it.
- RemoveDevice: the assertion of line 59 is stated as a postcondition (`d` is gone exactly when it occurred once), not as a check that throws. `assert` is also never imported in the file, so at run time line 59 would fail with a reference error.
- Configuration values are modelled as integers. A count given as a string or as `undefined` is never `===` to a length. The model covers only missing counts, which never fire.
- The order in which `Object.keys` visits platforms is left open: `CopyCounts` and `OverrideCounts` pick keys in any order. Their contracts fix the result whatever the order.
