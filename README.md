# User accounts of the RPCSX Android front-end, in Dafny

This project models the user-account repository of the RPCSX Android
front-end (`app/src/main/java/net/rpcsx/UserRepository.kt`). The emulator
keeps one directory per account under `<hdd0>/home/`. Each directory is named
by an eight-digit identifier and holds a `localusername` file with the
display name. The repository holds:

- an in-memory map from the identifier's numeric key to a `User` record;
- the active identifier.

Every operation that touches the disk ends by rebuilding the map from a
fresh scan of `home/`. The exception is `createUser` when `generateUser`
throws: the refresh never runs.

The model has four modules:

- `Wrappers` (`wrappers.dfy`): the `Option` type for the source's nullable
  values.
- `UserValidator` (`user_validator.dfy`): the pure rules of `UserValidator`.
  - An identifier is eight digits. `asUserKeyOrZero` turns it into its key,
    with 0 for an invalid identifier.
  - `"%08d"` formats a key back into an identifier, and the two directions
    are proved to round-trip.
  - A username must match `[A-Za-z0-9_]{3,16}`.
  - `normalizeUsername` cleans a stored name and falls back to a default.
  - `trim` is used when the name file is read.
- `Users` (`users.dfy`): the `User` record and the disk. The disk is a map
  from entry name to entry, where an entry is a plain file or a directory
  with the text of its `localusername`; a missing `home/` is `None`.
  - `readTextOrNull` and `toUser` are modelled as functions.
  - `Scan` is a reference definition of what a scan of `home/` yields, stated
    key by key: key `k` is present exactly when the entry named
    `"%08d".format(k)` is a directory.
  - Lemmas give the effect of deleting or writing one entry on that scan.
- `Repository` (`repository.dfy`): the class `UserRepository`.
  - Fields: the disk root `hdd0`, the `home/` listing, the value stored under
    `"active_user"` in the settings, the map `users` and `activeUser`.
  - Methods, one per operation of the source: `Load`, `CreateUser`,
    `RemoveUser`, `RenameUser`, `LoginUser`, `RefreshUsersList`,
    `FindNextFreeUserId`, `GenerateUser` and `GetUserAccounts`.
    `FindNextFreeUserId` and `GetUserAccounts` keep the source's loops, with
    their invariants.
  - Two pure functions state the rules the methods are proved against:
    `FirstFree` (the first-gap allocation rule) and `ResolveActive` (the
    choice `load` makes).

`Valid()` is the invariant of every record in the map:

- the key lies in [1, 99 999 999];
- the identifier is the key zero-padded;
- the directory is `<hdd0>/home/<id>`;
- the name is valid.

`Synced()` says the map is exactly what a scan of the disk yields now.

Behaviour of the code worth noting:

- A directory with no readable `localusername` is still listed, with the
  name `"User" + id` (`Users.ScanFallbackName`).
- When the emulator reports a valid identifier that has no account, `load`
  goes straight to the smallest key and does not fall back to the settings
  identifier, although it reads the settings first
  (`Repository.ResolveActivePreference`).
- When no identifier is left, `createUser` returns silently.
- `loginUser` accepts any valid identifier, whether or not it has an
  account.
- `removeUser` ignores the result of the delete.
- `normalizeUsername` is idempotent whenever the fallback, cut to 16
  characters, is a valid name (`UserValidator.NormalizeIdempotent`). The
  only fallback the code passes, `"User" + id`, is valid. In general it is
  idempotent on every input exactly when normalising the cut fallback gives
  the cut fallback back (`UserValidator.NormalizeIdempotentIff`). With the
  fallback `"a-bc"` it is not idempotent
  (`UserValidator.NormalizeNotIdempotentWithInvalidFallback`).

## Model

| member | source | states |
|---|---|---|
| `UserValidator.IsValidUserId` | app/src/main/java/net/rpcsx/UserRepository.kt:21 | definition: exactly eight characters, all decimal digits; properties in `KeyOrZero`, `Format8` and `ParseRoundTrip` |
| `UserValidator.ValidUsername` | app/src/main/java/net/rpcsx/UserRepository.kt:19-23 | definition: the whole name matches `[A-Za-z0-9_]{3,16}`; properties in `NormalizeKeepsValid` and `NormalizeResult` |
| `UserValidator.KeyOrZero` | app/src/main/java/net/rpcsx/UserRepository.kt:21-22 | every key is below 100 000 000; a nonzero key comes only from a valid identifier (8 digits) |
| `UserValidator.Format8` | app/src/main/java/net/rpcsx/UserRepository.kt:135 | `"%08d"` of a key below 10^8 is a valid identifier whose key is that number again (round trip) |
| `UserValidator.DigitsValue` | app/src/main/java/net/rpcsx/UserRepository.kt:135 | zero-padded decimal writing of a number that fits the width reads back as that number |
| `UserValidator.ValueDigits` | app/src/main/java/net/rpcsx/UserRepository.kt:22 | a digit string's value fits its width, and writing that value back at that width gives the string |
| `UserValidator.ParseRoundTrip` | app/src/main/java/net/rpcsx/UserRepository.kt:21-22 | a valid identifier is the zero-padded form of its own key |
| `UserValidator.FormatMatchesName` | app/src/main/java/net/rpcsx/UserRepository.kt:150-152 | a name is the zero-padded form of key `k` exactly when `asUserKeyOrZero` maps it to `k`, so distinct names never share a key |
| `UserValidator.FilterNameChars` | app/src/main/java/net/rpcsx/UserRepository.kt:26 | the filter keeps at most the input's length and leaves only `[A-Za-z0-9_]` characters |
| `UserValidator.Take` | app/src/main/java/net/rpcsx/UserRepository.kt:26-27 | `take(n)` gives `min(n, length)` characters, a prefix of the input |
| `UserValidator.NormalizeUsername` | app/src/main/java/net/rpcsx/UserRepository.kt:25-28 | definition; properties in `NormalizeResult`, `NormalizeKeepsValid` and `NormalizeIdempotent` |
| `UserValidator.FilterKeepsNameChars` | app/src/main/java/net/rpcsx/UserRepository.kt:26 | filtering keeps a string made only of `[A-Za-z0-9_]` unchanged |
| `UserValidator.FilterAppend` | app/src/main/java/net/rpcsx/UserRepository.kt:26 | filtering a concatenation is concatenating the filtered parts |
| `UserValidator.NormalizeResult` | app/src/main/java/net/rpcsx/UserRepository.kt:25-28 | the result is the first 16 name characters of `raw` when there are at least 3 of them (then a valid name), else the fallback cut to 16; either way valid or the cut fallback |
| `UserValidator.NormalizeKeepsValid` | app/src/main/java/net/rpcsx/UserRepository.kt:19-28 | a name that already matches the pattern is returned unchanged |
| `UserValidator.NormalizeIdempotent` | app/src/main/java/net/rpcsx/UserRepository.kt:25-28 | normalising twice equals normalising once when the cut fallback is a valid name |
| `UserValidator.NormalizeIdempotentIff` | app/src/main/java/net/rpcsx/UserRepository.kt:25-28 | normalisation with a fallback is idempotent on every input exactly when normalising the cut fallback gives it back |
| `UserValidator.NormalizeNotIdempotentWithInvalidFallback` | app/src/main/java/net/rpcsx/UserRepository.kt:25-28 | with fallback `"a-bc"`, `""` normalises to `"a-bc"` and that normalises to `"abc"` |
| `UserValidator.Trim` | app/src/main/java/net/rpcsx/UserRepository.kt:32 | definition of `trim` over ASCII whitespace; properties in `FilterTrim` and `NormalizeIgnoresTrim` |
| `UserValidator.FilterTrim` | app/src/main/java/net/rpcsx/UserRepository.kt:31-33 | trimming removes only characters the name filter drops, so the filtered text is the same |
| `UserValidator.NormalizeIgnoresTrim` | app/src/main/java/net/rpcsx/UserRepository.kt:31-39 | the name derived from trimmed text equals the name derived from the raw text |
| `Users.ReadTextOrNull` | app/src/main/java/net/rpcsx/UserRepository.kt:31-33 | definition: the trimmed text of a readable file, else null; properties in `ReadTextKeepsNameChars` |
| `Users.ReadTextKeepsNameChars` | app/src/main/java/net/rpcsx/UserRepository.kt:31-33 | null exactly when the file cannot be read; trimming keeps every name character of the text |
| `Users.ToUser` | app/src/main/java/net/rpcsx/UserRepository.kt:35-40 | definition of `toUser`; properties in `ToUserName` |
| `Users.FallbackValid` | app/src/main/java/net/rpcsx/UserRepository.kt:37 | `"User" + id` of a valid identifier is a valid name of 12 characters, unchanged by the cut to 16 |
| `Users.ToUserName` | app/src/main/java/net/rpcsx/UserRepository.kt:35-40 | `toUser` keeps the identifier, puts the account in `<hdd0>/home/<id>`, always gives a valid name, `"User" + id` when `localusername` is unreadable, and a valid stored name unchanged |
| `Users.Scan` | app/src/main/java/net/rpcsx/UserRepository.kt:145-155 | the reference definition of the listing: key `k` is present exactly when `1 <= k < 10^8` and the entry named `"%08d".format(k)` is a directory, with `toUser` of that name as its record; a missing `home/` (:147) yields the empty map |
| `Users.ScanWellFormed` | app/src/main/java/net/rpcsx/UserRepository.kt:145-155 | every scanned key is nonzero, below 10^8 and equal to `asUserKeyOrZero` of its record's identifier, with its directory and a valid name |
| `Users.ScanMembership` | app/src/main/java/net/rpcsx/UserRepository.kt:148-152 | an entry yields an account exactly when it is a directory and its name has a nonzero key; plain files and key-0 names are excluded |
| `Users.ScanFallbackName` | app/src/main/java/net/rpcsx/UserRepository.kt:38 | a directory without a readable `localusername` is listed, named `"User" + id` |
| `Users.ScanNamesSkip` | app/src/main/java/net/rpcsx/UserRepository.kt:149-151 | an entry that is not a directory, or whose key is 0, adds nothing to the scan |
| `Users.ScanNamesAdd` | app/src/main/java/net/rpcsx/UserRepository.kt:152 | an account directory adds exactly its record under its key |
| `Users.ScanRemoveOthers` | app/src/main/java/net/rpcsx/UserRepository.kt:92-93 | deleting entry `name` leaves every key other than `asUserKeyOrZero(name)` as it was |
| `Users.ScanRemove` | app/src/main/java/net/rpcsx/UserRepository.kt:92-93 | deleting entry `name` removes only the account under `asUserKeyOrZero(name)` from what a scan yields |
| `Users.ScanPut` | app/src/main/java/net/rpcsx/UserRepository.kt:101-104 | writing a directory entry changes only the account under that name's key (nothing when the key is 0) |
| `Repository.FirstFreeFromIsFirst` | app/src/main/java/net/rpcsx/UserRepository.kt:129-134 | the search from `c` ends on a free integer, with every integer from `c` up to it taken |
| `Repository.FirstFree` | app/src/main/java/net/rpcsx/UserRepository.kt:129-134 | the result is the smallest positive integer that is not a key |
| `Repository.FirstFreeUnique` | app/src/main/java/net/rpcsx/UserRepository.kt:129-134 | only one integer is the smallest free one |
| `Repository.FirstFreeExamples` | app/src/main/java/net/rpcsx/UserRepository.kt:129-134 | keys {1,2,4} give 3, keys {1,2,3} give 4, no keys give 1 |
| `Repository.MinKey` | app/src/main/java/net/rpcsx/UserRepository.kt:62 | `minOrNull` of a nonempty key set is a key no greater than any other |
| `Repository.GetUserFromSettings` | app/src/main/java/net/rpcsx/UserRepository.kt:74-77 | always a valid identifier: the stored one if valid, else `"00000001"` |
| `Repository.ResolveActive` | app/src/main/java/net/rpcsx/UserRepository.kt:57-63 | definition of the choice `load` makes; properties in `ResolveActiveIsPresent` and `ResolveActivePreference` |
| `Repository.ResolveActiveIsPresent` | app/src/main/java/net/rpcsx/UserRepository.kt:57-63 | the chosen active identifier is valid; it is the zero-padded form of a present key, or `"00000001"` when there are no keys |
| `Repository.DefaultIdIsKeyOne` | app/src/main/java/net/rpcsx/UserRepository.kt:62-63 | the default `"00000001"` is a valid identifier, the zero-padded form of key 1 |
| `Repository.ResolveActivePreference` | app/src/main/java/net/rpcsx/UserRepository.kt:57-63 | the whole order of preference: a valid present emulator id wins; a valid absent one leads to the smallest key without falling back to the settings id; without a valid emulator id a valid present settings id wins, and otherwise the smallest key is taken when there is one |
| `Repository.CreatedHome` | app/src/main/java/net/rpcsx/UserRepository.kt:138-143 | after `generateUser` the account directory exists with `exdata`, `savedata`, `trophy` and `localusername` holding the name; other entries are untouched |
| `Repository.CreateAddsFirstFree` | app/src/main/java/net/rpcsx/UserRepository.kt:79-86 | creating the first free key's directory with a valid name adds exactly that key, with that name, to the scan |
| `Repository.RenameChangesOnlyName` | app/src/main/java/net/rpcsx/UserRepository.kt:97-105 | writing a valid name into an account's `localusername` changes that account's name and nothing else |
| `Repository.UserRepository.constructor` | app/src/main/java/net/rpcsx/UserRepository.kt:42-44 | the repository starts with an empty map and an empty active identifier |
| `Repository.UserRepository.GetUsername` | app/src/main/java/net/rpcsx/UserRepository.kt:71-72 | the name of the record whose identifier is `userId`, and nothing exactly when no record has it |
| `Repository.UserRepository.GetUserAccounts` | app/src/main/java/net/rpcsx/UserRepository.kt:145-155 | the loop over the entries of `home/` builds exactly `Scan` of the disk, whatever the order of the entries |
| `Repository.UserRepository.RefreshUsersList` | app/src/main/java/net/rpcsx/UserRepository.kt:119-127 | the map is replaced by the scan of the disk, keeping nothing from the old map; the rest of the state is unchanged |
| `Repository.UserRepository.FindNextFreeUserId` | app/src/main/java/net/rpcsx/UserRepository.kt:129-136 | the walk over the sorted keys returns the zero-padded first free key, or nothing exactly when that key is 100 000 000 or more |
| `Repository.UserRepository.GenerateUser` | app/src/main/java/net/rpcsx/UserRepository.kt:138-143 | the disk gains the account directory, or is unchanged when a plain file blocks it (the write throws and `createUser` stops before its refresh) |
| `Repository.UserRepository.CreateUser` | app/src/main/java/net/rpcsx/UserRepository.kt:79-86 | an invalid name, no free identifier or a blocked directory change nothing; otherwise the first free key's directory is created and the map refreshed; from a synced map exactly that key is added with the given name |
| `Repository.UserRepository.RemoveUser` | app/src/main/java/net/rpcsx/UserRepository.kt:88-95 | an invalid or active identifier changes nothing; otherwise the account's directory goes if the delete succeeds, and from a synced map only that key disappears |
| `Repository.UserRepository.RenameUser` | app/src/main/java/net/rpcsx/UserRepository.kt:97-106 | an invalid identifier or name changes nothing; otherwise the name is written if the directory exists and the write succeeds, and from a synced map only that account's name changes |
| `Repository.UserRepository.LoginUser` | app/src/main/java/net/rpcsx/UserRepository.kt:108-116 | a valid identifier becomes the active one and is stored under `"active_user"`, without checking that an account has it; an invalid one changes nothing |
| `Repository.UserRepository.Load` | app/src/main/java/net/rpcsx/UserRepository.kt:53-69 | after the refresh the active identifier is `ResolveActive` of the keys: valid, and the identifier of a present account, or `"00000001"` when there is none |

## Left out

- Concurrency is not modelled: the coroutine scope, the `Dispatchers.IO`/`Main` switches and the `Mutex` in `refreshUsersList`. Each launched operation is modelled as running to completion before the next one starts.
- File I/O is a map from entry name to entry. The outcome of `deleteRecursively` (`deleteSucceeds`) and of `writeText` in `renameUser` (`writeSucceeds`) are inputs. A failed delete leaves the disk unchanged; a partial delete is not modelled.
- Repository.UserRepository.GenerateUser: models only the failure of a plain file already sitting at `home/<id>`. Other I/O exceptions of `mkdirs`/`writeText` are not modelled, nor is `home` itself being a plain file. When the write throws, `createUser` does not catch the exception inside `repoScope.launch`, and the scope has no exception handler. The exception therefore escapes the coroutine, which the platform's default handler treats as an uncaught crash. The model records this outcome as "no change, no refresh" (`ok == false`) and does not model the crash.
- `readTextOrNull` returning null covers a missing `localusername`, one that is not a regular file, and one that cannot be read (`Entry.Directory` with `None`).
- The native binding `RPCSX` is not modelled. `getUser` is the `fromEmu` input of `Load` (`None` when it returns null or throws). `loginUser` and `kill` have no modelled effect. `getHdd0Dir` is the constant `hdd0`.
- `GeneralSettings` is the field `storedActiveUser`. A stored value that is not a string is `None`.
- `GameRepository.queueRefresh()` is not modelled; it is a signal to another component.
- Characters are ASCII. `isDigitsOnly` is `'0'..'9'` and `isLetterOrDigit` is ASCII letters and digits. `trim` removes ASCII whitespace (9-13, 28-31, 32). A stored name with non-ASCII letters is therefore cleaned differently from the source, which keeps such letters and then falls back.
- UserValidator.Format8: models `"%08d"` only for values below 100 000 000. These are the only values the code formats. It also assumes a default locale whose zero digit is `'0'`, so the digits written are `'0'..'9'`. `String.format` uses the default locale, and under a locale with other digits (Persian, say) the source writes identifiers such as `"۰۰۰۰۰۰۰۱"`. The source's `isDigitsOnly` and `toIntOrNull` accept such identifiers, but the model's `IsValidUserId` does not.
- `File(hdd0, "home/<id>").path` is the string `hdd0 + "/home/" + id`. Path normalisation by `java.io.File` is not modelled.
- The Compose state holders (`mutableStateMapOf`, `mutableStateOf`) are plain fields. The `if (activeUser.value != resolved)` guard in `load` leaves the same state as a plain assignment.
- `RPCSXTheme.kt`, `ui/user/UsersScreen.kt` and `ui/common/Previews.kt` are not part of this model. They are colour tables, Compose UI and a preview wrapper.
