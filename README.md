# Audit plugin core, modelled in Dafny

This project models the core of the change-audit plugin. When a document changes, the plugin works out two things:

- **Which keys changed.** `diffObjects` walks the union of the two snapshots' keys. It drops ignored names and keys whose JSON text is unchanged. A changed key with a sensitive name is replaced by the marker `[REDACTED]`. Two nested objects are descended into, and any other changed value is stored raw. Names are matched only at the levels the diff descends into: an array, or an object facing a non-object, is stored with its contents as they are, listed names included (`Utils.RawObjectKeepsListedNames`, `Utils.RawArrayKeepsListedNames`). `filterChangedKeysKeepObjects` runs this diff under the global ignore and redact lists, merged with the caller's own lists.
- **Which stamps to write.** The hook that `setAuditData(usernameField, noOp)` returns makes sure the document has an `audit` group. It writes into that group the `created*`, `updated*` and `published*` stamps the operation calls for, and returns the document.

`redactKeys` is also modelled. It rewrites a value, replacing every listed key's value with the marker at any depth.

The project has four files:

- **`js_value.dfy`** (`JsValue`) models the JavaScript values these functions handle. Objects are entry sequences in insertion order. It defines:
  - reading a property (`Lookup`, `Get`) and `Object.keys` (`KeysOf`, `Keys`);
  - assignment (`SetEntry`) and `new Set` (`Dedup`);
  - what `JSON.stringify` makes of a value (`Serial`, `Changed`);
  - truthiness (`Truthy`) and `String(v)` (`ToText`).
- **`constants.dfy`** (`Constants`) holds the fixed names and lists.
- **`utils.dfy`** (`Utils`) holds the diff, the filter and the redaction:
  - the diff: the method `DiffObjects` is the loop of the source, and the function `DiffOf` (with `DiffOver` and `KeyChange`) is its specification;
  - the filter: the function `FilterChangedKeysKeepObjects`;
  - redaction: the method `RedactKeys` and its specification function `Redact`.
- **`set_audit_data.dfy`** (`SetAuditData`) holds the hook. The class `AuditDataHook` is the closure. `HookArgs` is the mutable `args` object, whose `data` and `operation` the hook updates in place. Its method `Apply` is proved against the specification function `Stamped`.

The clock is the parameter `now`: the ISO text that `new Date().toISOString()` would give.

The functions modelled here match by key name, never by dotted field path. The diff does so at every level it descends into (two plain objects); `redactKeys` does so at every depth, inside arrays too. A redacted key appears only when its value changed (`Utils.UnchangedKeyOmitted`); it is not emitted unconditionally.

## Model

| member | source | states |
|---|---|---|
| JsValue.Find | src/utils.ts:25-26 | The position found holds the key and no earlier entry has it; the length means absent |
| JsValue.FindIsMember | src/utils.ts:25-26 | A property lookup finds an entry exactly when the key is among `Object.keys` |
| JsValue.SetEntry | src/utils.ts:63-64 | Assignment keeps an existing key's position, appends a new key, makes the key read the new value and leaves every other key's value alone |
| JsValue.SetEntryTwice | src/hooks/setAuditData.ts:35-47 | Assigning a property twice leaves only the second value, so `audit ??= {}` followed by writes into it is one assignment of the filled group |
| JsValue.Dedup | src/utils.ts:22 | `new Set` of the key lists has no repeats, holds exactly the listed keys, and leaves a list without repeats as it is |
| JsValue.DedupPrefix | src/utils.ts:22 | Keys come out in order of first occurrence: deduplicating a prefix of the list gives a prefix of the result |
| JsValue.Serial | src/utils.ts:32 | The JSON text abstraction is `undefined` exactly for `undefined`, and leaves primitives as they are |
| JsValue.SerialMeaning | src/utils.ts:32 | Serialising keeps an array's length, writing `undefined` elements as `null`, and keeps exactly an object's entries whose value is not `undefined`, each serialised; an object without `undefined` values keeps its keys in their order |
| JsValue.DropUndefined | src/utils.ts:32 | The result holds exactly the entries whose value is not `undefined`, and is the input itself when no value is `undefined` |
| JsValue.DropUndefinedAppend | src/utils.ts:32 | Dropping distributes over concatenation, so the kept entries stay in their order |
| JsValue.NatToDecimal | src/hooks/setAuditData.ts:32 | The decimal text denotes the number, in digits without a leading zero |
| Constants.GlobalListsAreDistinct | src/constants.ts:13-32 | The global lists hold 17 and 3 distinct names |
| Constants.GlobalListsDisjoint | src/constants.ts:13-32 | No name is both globally redacted and globally ignored |
| Constants.AuditGroupIsIgnored | src/constants.ts:5-32 | The stamp group `audit` is globally ignored and not redacted, so stamps never show in a diff |
| Constants.StampFieldNamesDistinct | src/constants.ts:6-11 | The six stamp names are distinct |
| Utils.UnionKeys | src/utils.ts:22 | The loop's keys are distinct and are exactly the keys of either snapshot |
| Utils.DiffObjects | src/utils.ts:10-68 | The loop over the key union computes exactly `DiffOf`, the key-by-key specification |
| Utils.DiffKey | src/utils.ts:24-65 | One iteration records exactly the change `KeyChange` decides for its key: nothing, the marker pair, the nested diff or the raw pair |
| Utils.DiffOverStep | src/utils.ts:24-65 | Visiting one more key adds that key's change to the projections built so far |
| Utils.DiffOverAt | src/utils.ts:24-65 | After any prefix of keys, both projections have equal, distinct keys; a key is present exactly when visited and emitted, holding the emitted values |
| Utils.RecordAt | src/utils.ts:40-64 | Writing one key into both projections keeps their keys equal and distinct and changes only that key |
| Utils.DiffAt | src/utils.ts:24-67 | A key is in the result exactly when `KeyChange` emits it, and then both sides hold the emitted values |
| Utils.DiffShape | src/utils.ts:19-67 | Both projections have the same distinct keys in the same order; each comes from an input and none is ignored |
| Utils.NoKeyMeansEmpty | src/utils.ts:19-67 | When no key is emitted the result is `{ before: {}, after: {} }` |
| Utils.EmptyWhenOnlyIgnoredKeysDiffer | src/utils.ts:28-36 | Inputs that differ only under ignored names give an empty diff |
| Utils.DiffOfSelfIsEmpty | src/utils.ts:32-36 | A snapshot diffed against itself gives an empty diff |
| Utils.IgnoredKeyOmitted | src/utils.ts:28-30 | An ignored name is on neither side |
| Utils.UnchangedKeyOmitted | src/utils.ts:32-36 | A key whose values serialise alike is on neither side, even with a redacted name |
| Utils.ChangedRedactedKeyIsMarker | src/utils.ts:38-43 | A changed key with a redacted name holds the marker on both sides and is never descended into |
| Utils.NestedObjectsDiff | src/utils.ts:45-59 | Two changed nested objects appear exactly when their nested diff is non-empty, holding that nested diff |
| Utils.EquivalentObjectsDropped | src/utils.ts:45-59 | Nested objects that agree on every non-ignored name are dropped even when their JSON differs |
| Utils.KeyOrderOnlyIsDropped | src/utils.ts:32-59 | Objects differing only in key order count as changed, yet give an empty diff |
| Utils.LeafValuesVerbatim | src/utils.ts:62-64 | A changed key that is not a pair of objects holds both raw values, `undefined` for a missing side |
| Utils.AbsentBeforeSnapshot | src/utils.ts:22-26 | A missing before snapshot acts as `{}`: every defined, non-ignored after key is emitted against `undefined` |
| Utils.AbsentAfterSnapshot | src/utils.ts:22-26 | A missing after snapshot acts as `{}`: every defined, non-ignored before key is emitted against `undefined` |
| Utils.PolicyAtEveryDepth | src/utils.ts:28-59 | At every level the diff descends into (two plain objects), no ignored name appears and every redacted name holds the marker; raw values are not looked into |
| Utils.EffectiveOptions | src/utils.ts:78-87 | The lists used are the global ones merged with the caller's, an absent list counting as empty |
| Utils.FilterChangedKeysKeepObjects | src/utils.ts:70-88 | Both sides share keys; globally and caller-ignored names never appear; a globally redacted name the caller does not ignore appears exactly when it changed; every redacted name present holds the marker |
| Utils.FilterPolicyFor | src/utils.ts:78-87 | The filter's promises hold of the diff under the merged lists |
| Utils.FilterPolicy | src/utils.ts:28-43 | Under any lists, ignored names never appear, a redacted name that is not ignored appears exactly when changed, and any redacted name present holds the marker |
| Utils.CallerIgnoreBeatsRedaction | src/utils.ts:78-87 | A name the caller ignores is left out even when it is globally redacted |
| Utils.ChangedPasswordRedacted | src/utils.ts:83-86 | A changed `password` is redacted on both sides with no caller options |
| Utils.FilteredLeafIsRaw | src/utils.ts:62-64 | Under the global lists alone, a changed value with an unlisted name that is not a pair of objects is stored raw on both sides |
| Utils.RawObjectKeepsListedNames | src/utils.ts:46-64 | A `password` inside an object that became `null` comes through unredacted |
| Utils.RawArrayKeepsListedNames | src/utils.ts:46-64 | A `password` inside an array element comes through unredacted |
| Utils.RedactKeys | src/utils.ts:90-113 | The method computes exactly `Redact` under the global names followed by the caller's |
| Utils.RedactKeepsShape | src/utils.ts:91-110 | Redaction keeps the kind, array length and keys in order; primitives are unchanged; each key holds the marker or its redacted value |
| Utils.RedactContains | src/utils.ts:99-110 | After redaction, every listed name holds the marker at every depth, inside arrays too |
| Utils.RedactFixesRedacted | src/utils.ts:99-110 | A value already fully redacted is returned unchanged |
| Utils.RedactIdempotent | src/utils.ts:90-113 | Redacting twice gives the same as redacting once |
| SetAuditData.OperationOrUpdate | src/hooks/setAuditData.ts:28 | A missing operation resolves to update; a given one is kept |
| SetAuditData.UserName | src/hooks/setAuditData.ts:31 | A falsy name property falls back to `System`; a truthy one is written as its text |
| SetAuditData.UserId | src/hooks/setAuditData.ts:32 | The id text is never empty: a nullish id, or one whose text is empty, gives `-`; any other id gives its own text; anything other than `-` is the id's own text |
| SetAuditData.Publishes | src/hooks/setAuditData.ts:51-64 | Publishing needs a signed-in user and a published status, and an update needs a draft original |
| SetAuditData.StampWritesShape | src/hooks/setAuditData.ts:39-64 | Two stamps per call, four when publishing; each `By` stamp holds the actor and each `At` stamp the clock |
| SetAuditData.AuditDataHook.constructor | src/hooks/setAuditData.ts:20 | The hook keeps the username field and the `noOp` flag it was made with |
| SetAuditData.HookArgs.constructor | src/hooks/setAuditData.ts:21-26 | The arguments object holds the given data, operation, original document and user |
| SetAuditData.AuditDataHook.Apply | src/hooks/setAuditData.ts:20-74 | The outcome is `Stamped` of the old data and the resolved operation; the data is updated to the returned document (unchanged on a type error); the operation is defaulted to update and deleted when `noOp` holds |
| SetAuditData.WriteStamps | src/hooks/setAuditData.ts:39-65 | The assignments into the audit group are exactly the stamp writes of the call, in order |
| SetAuditData.OverwritePair | src/hooks/setAuditData.ts:39-47 | Two writes in a row are two assignments |
| SetAuditData.OverwriteSplit | src/hooks/setAuditData.ts:39-65 | Writing a list is writing its first part, then the rest |
| SetAuditData.OverwriteAt | src/hooks/setAuditData.ts:39-65 | After distinct writes each written name holds its value, every other name is as before, and the keys are the old ones plus the written ones |
| SetAuditData.KeysOfTail | src/hooks/setAuditData.ts:39-65 | The names of a write list are its first name then the rest's, and distinct names stay distinct |
| SetAuditData.StampWritesNames | src/hooks/setAuditData.ts:39-65 | The names written are distinct: update or create stamps, then the published pair when publishing |
| SetAuditData.StampedTouchesOnlyAudit | src/hooks/setAuditData.ts:35-72 | The hook fails exactly on a boolean, number or string audit group; otherwise only the audit group changes and it is appended when missing |
| SetAuditData.StampedStoresAudit | src/hooks/setAuditData.ts:35-47 | With no audit group, or an object there, the hook succeeds and stores the old group (or `{}`) with the stamps written in |
| SetAuditData.AuditAfterAt | src/hooks/setAuditData.ts:35-65 | Each property of the new group is the written value if stamped, otherwise the old group's value |
| SetAuditData.UpdateStamps | src/hooks/setAuditData.ts:39-42 | An update sets `updatedBy` to the actor and `updatedAt` to the clock; a create leaves them |
| SetAuditData.CreateStamps | src/hooks/setAuditData.ts:44-47 | A create sets `createdBy` to the actor and `createdAt` to the clock; an update leaves them |
| SetAuditData.PublishedStamps | src/hooks/setAuditData.ts:51-65 | The published stamps are set exactly when publishing, and left as they were otherwise |
| SetAuditData.OtherAuditPropertiesKept | src/hooks/setAuditData.ts:35-65 | Properties of the audit group other than the six stamps are kept |
| SetAuditData.StampWriteValues | src/hooks/setAuditData.ts:39-65 | `By` stamps hold the actor and `At` stamps the clock |
| SetAuditData.FreshAuditHoldsOnlyStamps | src/hooks/setAuditData.ts:35-65 | A new audit group holds exactly the stamps, in the order they are written |
| SetAuditData.FreshOverwriteKeys | src/hooks/setAuditData.ts:35-47 | Distinct writes into `{}` give exactly those keys, in order |
| SetAuditData.OverwriteKeysAppend | src/hooks/setAuditData.ts:39-65 | Writing fresh distinct names appends them in order |
| SetAuditData.PublishingRules | src/hooks/setAuditData.ts:51-65 | Publishing needs a user and a published status: a create publishes, and an update publishes only from a draft |
| SetAuditData.ActorDefaults | src/hooks/setAuditData.ts:30-32 | A missing name gives `System`, a missing id gives `-`, no user gives `System (-)` |
| SetAuditData.ActorExample | src/hooks/setAuditData.ts:31-40 | The user `{ id: 42, email: "ann@example.com" }` is written as `ann@example.com (42)` |
| SetAuditData.ZeroNameAndZeroId | src/hooks/setAuditData.ts:31-32 | A name of 0 falls back to `System`, but an id of 0 is kept as `0` |

## Left out

- `computeAuditDiff` is not part of this model. The hooks and `dev/int.spec.ts` import this path-aware diff from `src/utils.ts`, but the file does not define it. Those tests expect the marker `'REDACTED'`; the constant in `src/constants.ts`, which this model uses, is `[REDACTED]`.
- `processAuditGroupFields`, `enqueueAuditLog`, the audit-log hooks and tasks, the job queue, the collection config and access control are not modelled. They are framework glue and I/O around the functions modelled here.
- Asynchronous execution and the database are outside these functions and are not modelled.
- `JSON.stringify` is abstracted by `Serial`. Numbers are integers, so floating point, `NaN`, the exponent notation of large numbers, `toJSON`, functions, symbols and `bigint` are not modelled.
- Property lookups see the entries of an object only. Own non-enumerable properties (such as `length` of `""` or `[]`), the index properties of strings and arrays, inherited properties and getters are not modelled. Neither is the JavaScript rule that integer-like keys enumerate first.
- `JSON.stringify` throws a TypeError on a cyclic value. The `Value` type is acyclic, so that error path cannot arise in the model.
- Utils.RedactKeys: `keysToRedact` is a required parameter. The default `[]` is the call with the empty list.
- SetAuditData.AuditDataHook.constructor: `noOp` is a required parameter. The default `false` is the call with `false`.
- Distinct keys within an object are assumed, not enforced. JavaScript objects have them; `Lookup` reads the first entry under a name.
- Utils.DiffObjects: requires both inputs to be snapshots (objects, nullish values, booleans, numbers, `""` or `[]`). A non-empty string or array at the top level would add its index keys to the union, and that is not modelled.
- Utils.FilterChangedKeysKeepObjects: carries the same snapshot requirement as `Utils.DiffObjects`, for the same reason.
- SetAuditData.AuditDataHook.Apply: all stamps of one call use the same clock value `now`. The source reads the clock once per stamp.
- SetAuditData.AuditDataHook.Apply: when the audit group is an array, the stamps land on named array properties that the value model cannot show. The modelled data is then unchanged.
- SetAuditData.AuditDataHook.Apply: the audit group is treated as a value. Other references to the same group object would also see the stamps; that sharing is not modelled.
- SetAuditData.AuditDataHook.Apply: `args.req` is assumed present, with the user as a value (`undefined` when nobody is signed in). A missing `req` would throw when the publishing check reads `args.req.user`.
