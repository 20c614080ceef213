# ToolType name registry

A model of `net.minecraftforge.common.ToolType`, the Minecraft Forge class that
interns tool-kind names ("axe", "pickaxe", "shovel") into token objects. The
class keeps a process-wide table from name to token. Its only way to make a
token is `ToolType.get(name)`, which works in two steps:

1. It rejects the name when the pattern `[^a-z_]` finds a character in it,
   by throwing an `IllegalArgumentException` whose message is
   `ToolType.create() called with invalid name: ` followed by the name.
2. Otherwise it calls `putIfAbsent(name, new ToolType(name))` on the table and
   returns what `putIfAbsent` returns.

A token only carries its name, which `getName()` returns.

In the model (`tooltype.dfy`, module `ToolTypes`):

- `ToolType` is a class with a `const name`. Tokens are compared by object
  identity, as in Java, where the class does not override `equals`.
- The static table becomes an explicit `Registry` object with a field
  `values: map<string, ToolType>`. Its invariant `Valid()` says that every key
  maps to a token carrying that key as its name (`Interned`).
- `Registry.Get` is `get` as written. The exception becomes
  `Failure(IllegalArgument(message))`. The return value is
  `putIfAbsent`'s previous mapping, an `Option<ToolType>`. So the first call
  for a name yields `Success(None)`, which stands for Java's `null`. Later
  calls yield `Success(Some(t))` with the token stored by the first call.
- The pattern search `VALID_NAME.matcher(name).find()` is `FindForbidden`. It
  returns the index of the first character outside `a`-`z` and `_`. The
  empty name contains no such character, so it passes validation and can be
  registered.
- `PutIfAbsent` is Java's `Map.putIfAbsent` on values. `Replay` is the table
  after a run of `get` calls, and `Registry.Get`'s contract states its new
  table as one step of it. Lemmas about these two state the table's
  lifetime properties: it only grows, no entry is replaced, it stays
  interned, and a repeated `get` changes nothing.

Two consequences of the code, as opposed to what its own text suggests:

- The comment on line 33 says only `a`-`z` and `_` are allowed. The check on
  line 37 only searches for a character outside that set, so the empty name
  contains nothing to find, passes validation and can be registered.
- Lines 28-30 declare `AXE = get("axe")` and so on, and `get` is declared to
  return a `ToolType`. This shows that a token is expected back. Line 39
  instead returns `putIfAbsent`'s previous mapping, which is `null` the first
  time a name is registered (see "Findings").

## Model

| member | source | states |
|---|---|---|
| `ToolTypes.FindForbidden` | src/main/java/net/minecraftforge/common/ToolType.java:33-37 | The search finds an index exactly when the name is not valid. A found index is the first character outside `a`-`z`/`_`; every character before it is allowed. |
| `ToolTypes.InvalidIffSomeForbiddenChar` | src/main/java/net/minecraftforge/common/ToolType.java:33-38 | A name is rejected if and only if some character of it lies outside `a`-`z` and `_`. |
| `ToolTypes.EmptyNameIsValid` | src/main/java/net/minecraftforge/common/ToolType.java:33-37 | The empty name passes validation: the rejection pattern finds nothing in it. |
| `ToolTypes.ConcatenationOfValidNamesIsValid` | src/main/java/net/minecraftforge/common/ToolType.java:33 | Joining two accepted names gives an accepted name, so any string built only from `a`-`z` and `_` passes. |
| `ToolTypes.ValidExampleNames` | src/main/java/net/minecraftforge/common/ToolType.java:28-33 | The three registered names `axe`, `pickaxe` and `shovel` pass validation, and so does `tool_axe`, which uses `_` to separate words as the line-33 comment describes. |
| `ToolTypes.UpperCaseRejected` | src/main/java/net/minecraftforge/common/ToolType.java:33-38 | `Pickaxe` is rejected, and the search stops at the upper-case letter at index 0. |
| `ToolTypes.DigitRejected` | src/main/java/net/minecraftforge/common/ToolType.java:33-38 | `axe2` is rejected at the digit, index 3. |
| `ToolTypes.SpaceRejected` | src/main/java/net/minecraftforge/common/ToolType.java:33-38 | `tool axe` is rejected at the space, index 4. |
| `ToolTypes.ToolType.constructor` | src/main/java/net/minecraftforge/common/ToolType.java:42-47 | A new token carries exactly the name it was constructed with. The field is immutable, so the name never changes. |
| `ToolTypes.ToolType.GetName` | src/main/java/net/minecraftforge/common/ToolType.java:49-52 | `getName()` returns the token's construction-time name. |
| `ToolTypes.PutIfAbsent` | src/main/java/net/minecraftforge/common/ToolType.java:39 | The new table has the old keys plus `k`, and every old entry is kept unchanged. `k` maps to its old value if it had one, otherwise to `v`. The result is the previous mapping (None when absent). The size grows by one exactly when `k` was absent. |
| `ToolTypes.PutIfAbsentKeepsInterned` | src/main/java/net/minecraftforge/common/ToolType.java:39-47 | Inserting a token under its own name keeps every key mapped to a token named by that key. |
| `ToolTypes.PutIfAbsentLeavesOtherNames` | src/main/java/net/minecraftforge/common/ToolType.java:39 | For any other name, membership and the stored token are the same before and after the call. |
| `ToolTypes.PutIfAbsentIdempotent` | src/main/java/net/minecraftforge/common/ToolType.java:39 | A second call with the same key leaves both the table and its size unchanged, whatever value it offers. It returns the value the first call stored. |
| `ToolTypes.InternedIsInjective` | src/main/java/net/minecraftforge/common/ToolType.java:39-47 | In an interned table, two different names are never mapped to the same token. |
| `ToolTypes.Replay` | src/main/java/net/minecraftforge/common/ToolType.java:32-40 | The table after a run of `get` calls, one call per token it would construct. Each call adds at most one entry, so the table grows by at most the number of calls. |
| `ToolTypes.ValidNamesOfMembers` | src/main/java/net/minecraftforge/common/ToolType.java:33-37 | A name is among the valid names of a run of calls exactly when it passes validation and some call asks for it. |
| `ToolTypes.ReplayIsMonotone` | src/main/java/net/minecraftforge/common/ToolType.java:32-40 | After any run of `get` calls, every earlier entry is still present and unchanged, and the table is still interned. |
| `ToolTypes.ReplayNames` | src/main/java/net/minecraftforge/common/ToolType.java:32-40 | After any run of `get` calls, the table's names are the earlier ones plus exactly the valid names that were asked for. |
| `ToolTypes.Intern` | src/main/java/net/minecraftforge/common/ToolType.java:39 | Corrected return value: the table update is the same as `putIfAbsent`'s, and the result is the token now stored under the key. That is the old token when the key was present. |
| `ToolTypes.InternIdempotent` | src/main/java/net/minecraftforge/common/ToolType.java:39 | Interning the same key twice returns the same token and the same table as interning it once. |
| `ToolTypes.Registry.constructor` | src/main/java/net/minecraftforge/common/ToolType.java:32 | The table starts empty, and the empty table satisfies the invariant. |
| `ToolTypes.Registry.Get` | src/main/java/net/minecraftforge/common/ToolType.java:35-40 | Fails exactly when the name is invalid. On failure it carries the source's message and leaves the table unchanged. For a present name it returns `Some` of the stored token and leaves the table unchanged. For an absent name it returns `None` and adds exactly one entry, a fresh token with that name. It keeps the invariant, and no entry is ever removed or replaced. The new table is one step of `Replay`: with the fresh token it stores, or with any token of that name when it stores none. |
| `ToolTypes.Registry.GetOrCreate` | src/main/java/net/minecraftforge/common/ToolType.java:35-40 | The same validation, error and table update as `Get`. The result is the token stored under the name: the existing one if present, otherwise the fresh one just added. |
| `ToolTypes.ConstantsAsWritten` | src/main/java/net/minecraftforge/common/ToolType.java:28-30 | On an explicit, initialised, empty registry, `get("axe")`, `get("pickaxe")` and `get("shovel")` as written all return no token. |
| `ToolTypes.ConstantsCorrected` | src/main/java/net/minecraftforge/common/ToolType.java:28-30 | With the corrected `get`, the three constants are distinct tokens named `axe`, `pickaxe` and `shovel`. Asking for `pickaxe` again returns the same token. |

## Findings

| source | as written | input that shows it | evidently intended | confidence | as-written member | corrected member |
|---|---|---|---|---|---|---|
| src/main/java/net/minecraftforge/common/ToolType.java:39 | `get` returns `putIfAbsent`'s previous mapping, which is `null` when the name is registered for the first time | `get("axe")` on an initialised, empty table returns `null`. So once the initialisation order is fixed (see "Left out"), the constants `AXE`, `PICKAXE` and `SHOVEL` of lines 28-30 would all be `null` | return the token now stored under the name (`computeIfAbsent`-like) | high; not executed | `ToolTypes.ConstantsAsWritten` (uses `ToolTypes.Registry.Get`) | `ToolTypes.Registry.GetOrCreate` with `ToolTypes.Intern`, `ToolTypes.InternIdempotent`, `ToolTypes.ConstantsCorrected` |

## Left out

- `CustomizeGuiOverlayEvent.java`: left out. It only holds data for the game's GUI overlay events, with trivial getters and setters. Dispatch and cancellation belong to the host's event bus, which is not part of this model.
- Class initialisation order (lines 28-33): left out. Java runs static initialisers in textual order, so the three `get` calls of lines 28-30 run before `values` and `VALID_NAME` are assigned on lines 32-33. As written, class loading would therefore dereference a null pattern. The model starts from an explicit, empty `Registry` instead. `ConstantsAsWritten` and `ConstantsCorrected` show what the three calls return on such a registry.
- Thread safety: left out. The table is an unsynchronised `HashMap`, so the source makes no concurrent insert-if-absent promise to verify. The model is sequential.
- A `null` name: left out. Java would throw a `NullPointerException` from the matcher, but a Dafny `string` cannot be null.
- The Java regex engine: left out. The pattern `[^a-z_]` matches a single character, so `find()` becomes a per-character search. Java strings are UTF-16 while a Dafny `char` is a Unicode scalar value. A character outside `a`-`z`/`_` is rejected either way, so the verdict is the same.
- The discarded token: the token that `get` constructs for a name that is already present is discarded (Java builds it before calling `putIfAbsent`). The model builds it too, but its contracts say nothing about that unreachable object.
