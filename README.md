# CodeHub account storage, modelled in Dafny

CodeHub's iOS client keeps one on-disk store per signed-in account
(`CodeHub.iOS/Data/Account.cs`). Each account has a directory. The directory
lives under `BaseDir/Documents/accounts` and is named by the account's
integer id, written in the culture-invariant decimal form. The `Account`
record lazily opens one SQLite connection on `settings.db` inside that
directory and caches it. It builds the pinned-repositories store on that
connection once and caches that too. It creates its directory on
`Initialize`, deletes it recursively on `Destory` (so spelled in the source)
and disposes the connection on `Dispose`. Equality and hashing are decided by
the id alone.

The model has these modules:

- `Decimal`: the invariant rendering of an integer (`IntToDecimal`). A parser
  is its partner; the round trip proves that distinct ids get distinct names.
- `Paths`: `Path.Combine` on the device's `/`-separated paths. It also defines
  the ancestors of a path and when one path lies at or beneath another.
- `FileSystem`: the effect of `Directory.CreateDirectory` (`Created`, which
  also adds missing ancestors) and of `Directory.Delete(p, true)`
  (`Removed`). The `Disk` class holds the sets of directories and files and a
  count of opened connections. Its invariant says the directory set is a tree
  and every file lies in an existing directory.
- `AccountPaths`: `BaseDir`, `AccountsDir`, the per-account directory and the
  settings file path. Lemmas prove injectivity over ids and that no account's
  directory or settings file lies inside another account's directory.
- `Sqlite`: stand-ins for `SQLiteConnection` (the path it opened, a disposed
  flag) and `AccountPinnedRepositories` (the connection it was built on).
- `Accounts`: the `Account` class. Its fields are those of the source, plus
  the two caches. Its methods are the `Database` and `PinnnedRepositories`
  (here `PinnedRepositories`) getters, `CreateAccountDirectory`, `Initialize`, `Destory` (here `Destroy`)
  and `Dispose`. Its functions are `Equals`, `GetHashCode` and `ToString`.
- `Scenarios`: caller sequences proved from the class contracts alone.

Two behaviours of the code differ from what one might expect of such a
store. The model keeps the code's behaviour in both:

- Two records whose ids are both 0 (not yet persisted) are equal. `Equals`
  compares ids whatever their value, so reference identity does not separate
  unpersisted records. `EqualsIsIdEquality` states this.
- `Dispose` does not clear the cached connection. A later `Database` read
  returns the disposed connection and does not open a new one.

## Model

| member | source | states |
|---|---|---|
| `Decimal.NatToDecimal` | CodeHub.iOS/Data/Account.cs:105 | the digits of a magnitude are non-empty, all decimal digits, start with '0' only for zero, and form a single character exactly below ten |
| `Decimal.IntToDecimal` | CodeHub.iOS/Data/Account.cs:105 | the invariant rendering of an id is non-empty, starts with '-' exactly when the id is negative, and is otherwise digits only, so it has no group separators and no path separator |
| `Decimal.ParseNatToDecimal` | CodeHub.iOS/Data/Account.cs:105 | reading back the digits of any natural number gives that number |
| `Decimal.ParseIntToDecimal` | CodeHub.iOS/Data/Account.cs:105 | parsing the rendering of any integer gives that integer back |
| `Decimal.IntToDecimalInjective` | CodeHub.iOS/Data/Account.cs:105 | distinct ids are rendered as distinct strings |
| `Paths.Combine` | CodeHub.iOS/Data/Account.cs:43 | the right operand is always the tail of the result; an empty right operand returns the left one; a rooted right operand replaces it; otherwise the left operand is a prefix |
| `Paths.CombineChild` | CodeHub.iOS/Data/Account.cs:105 | joining a separator-free name to a directory not ending in '/' inserts one '/' and makes a direct child: its ancestors are the directory and the directory's ancestors |
| `Paths.Ancestors` | CodeHub.iOS/Data/Account.cs:88 | every ancestor of a path is a proper prefix of it |
| `Paths.AncestorsTransitive` | CodeHub.iOS/Data/Account.cs:88 | an ancestor of an ancestor of p is an ancestor of p |
| `Paths.SiblingsApart` | CodeHub.iOS/Data/Account.cs:105 | nothing at or beneath one separator-free child of a directory lies at or beneath a differently named child |
| `FileSystem.Created` | CodeHub.iOS/Data/Account.cs:121 | after creating p, p exists, nothing was removed, and the only new directories are p and its ancestors; in a tree where p already exists nothing changes |
| `FileSystem.Removed` | CodeHub.iOS/Data/Account.cs:139 | after a recursive delete of p, neither p nor anything beneath it remains, and every path outside p is kept |
| `FileSystem.CreatedKeepsTree` | CodeHub.iOS/Data/Account.cs:121 | creating a directory keeps the directory set closed under ancestors |
| `FileSystem.CreatedIdempotent` | CodeHub.iOS/Data/Account.cs:120-121 | creating the same directory twice has the effect of creating it once |
| `FileSystem.BeneathThroughAncestor` | CodeHub.iOS/Data/Account.cs:139 | if an ancestor of d is at or beneath p, so is d, so a recursive delete takes d with it |
| `FileSystem.RemovedKeepsTree` | CodeHub.iOS/Data/Account.cs:139 | a recursive delete keeps the directory set a tree and leaves no file in a deleted directory |
| `FileSystem.StrictlyBeneath` | CodeHub.iOS/Data/Account.cs:137-139 | a path strictly beneath a non-empty directory has that directory as an ancestor |
| `FileSystem.RemovedAbsent` | CodeHub.iOS/Data/Account.cs:137-138 | in a tree, a directory that does not exist has nothing beneath it, so deleting it would remove nothing |
| `FileSystem.Disk.constructor` | CodeHub.iOS/Data/Account.cs:87 | a disk starts with the given directory tree and files, and with no connection opened on it |
| `FileSystem.Disk.DirectoryExists` | CodeHub.iOS/Data/Account.cs:87 | `Directory.Exists` holds exactly for the paths in the directory set |
| `FileSystem.Disk.CreateDirectory` | CodeHub.iOS/Data/Account.cs:121 | `Directory.CreateDirectory` sets the directories to `Created` of the old ones, keeps the tree invariant and touches no file |
| `FileSystem.Disk.DeleteRecursive` | CodeHub.iOS/Data/Account.cs:139 | `Directory.Delete(p, true)` needs p to exist and removes p with every directory and file beneath it |
| `AccountPaths.BaseDir` | CodeHub.iOS/Data/Account.cs:39 | the base directory extends the personal folder and ends in `..` |
| `AccountPaths.AccountsDir` | CodeHub.iOS/Data/Account.cs:41-44 | the accounts root extends the base directory, ends in `Documents/accounts` and is non-empty without a trailing '/' |
| `AccountPaths.AccountDirectory` | CodeHub.iOS/Data/Account.cs:100-107 | an account's directory is the accounts root, '/', and the invariant decimal id; it is a direct child of the accounts root |
| `AccountPaths.SettingsPath` | CodeHub.iOS/Data/Account.cs:90 | the settings database is `settings.db` directly inside the account directory |
| `AccountPaths.AccountDirectoryInjective` | CodeHub.iOS/Data/Account.cs:100-107 | two ids give the same directory exactly when they are equal |
| `AccountPaths.AccountDirectoriesApart` | CodeHub.iOS/Data/Account.cs:100-107 | no account's directory lies at or beneath another account's directory |
| `AccountPaths.SettingsPathApart` | CodeHub.iOS/Data/Account.cs:90 | no account's settings file lies inside another account's directory |
| `AccountPaths.DeleteKeepsOtherAccounts` | CodeHub.iOS/Data/Account.cs:135-140 | a recursive delete of one account's directory leaves every other account's directory and settings file as present or absent as before |
| `AccountPaths.CreateAccountDirectoryAddsOnlyIt` | CodeHub.iOS/Data/Account.cs:118-122 | when the accounts root exists, creating an account directory adds exactly that one path |
| `Sqlite.Connection.Open` | CodeHub.iOS/Data/Account.cs:91 | opening a connection needs the file's directory to exist; it creates the file, counts one opening and starts undisposed |
| `Sqlite.Connection.Dispose` | CodeHub.iOS/Data/Account.cs:154 | a disposed connection is marked disposed |
| `Sqlite.AccountPinnedRepositories.constructor` | CodeHub.iOS/Data/Account.cs:114 | the pinned-repositories store is bound to the connection it is given |
| `Accounts.Account.constructor` | CodeHub.iOS/Data/Account.cs:47-78 | a fresh account has id 0, empty strings, `DontRemember` false and no cached connection or store |
| `Accounts.Account.Directory` | CodeHub.iOS/Data/Account.cs:100-107 | the `AccountDirectory` getter is the accounts root, '/', and the invariant decimal form of the account's current id |
| `Accounts.Account.Database` | CodeHub.iOS/Data/Account.cs:81-97 | the first read creates the account directory if missing and opens one fresh connection on its `settings.db`; later reads return the same connection and leave the disk unchanged |
| `Accounts.Account.PinnedRepositories` | CodeHub.iOS/Data/Account.cs:110-116 | the store is built once, on the cached connection, and later reads return the same object; the connection is opened at most once along the way |
| `Accounts.Account.CreateAccountDirectory` | CodeHub.iOS/Data/Account.cs:118-122 | afterwards the account directory exists; only it and its missing ancestors were added; files and connections are untouched |
| `Accounts.Account.Initialize` | CodeHub.iOS/Data/Account.cs:127-130 | same effect as `CreateAccountDirectory`; a second call finds the directory present and changes nothing |
| `Accounts.Account.Destroy` | CodeHub.iOS/Data/Account.cs:135-140 | with the directory absent nothing changes; otherwise the directory and everything beneath it are gone and all other paths are kept |
| `Accounts.Account.Dispose` | CodeHub.iOS/Data/Account.cs:152-155 | disposes the cached connection if there is one; keeps the cache and leaves the disk unchanged |
| `Accounts.Account.Equals` | CodeHub.iOS/Data/Account.cs:163-171 | null is never equal; the account itself always is; any other object is equal exactly when it is an account with the same id |
| `Accounts.Account.GetHashCode` | CodeHub.iOS/Data/Account.cs:180-183 | the hash code is the id, unmixed |
| `Accounts.Account.ToString` | CodeHub.iOS/Data/Account.cs:147-150 | the display string is the username, whatever the id |
| `Scenarios.ReadDatabaseTwice` | CodeHub.iOS/Data/Account.cs:81-97 | two reads of `Database` return one and the same connection, and at most one connection is opened |
| `Scenarios.InitializeTwice` | CodeHub.iOS/Data/Account.cs:118-130 | calling `Initialize` twice has the effect of one call: the directory exists and no file changes |
| `Scenarios.RemoveAndReAdd` | CodeHub.iOS/Data/Account.cs:135-155 | after initialize, open, dispose, destroy and initialize again, the directory exists, the old connection is disposed and no settings file remains |
| `Accounts.EqualsIsIdEquality` | CodeHub.iOS/Data/Account.cs:163-171 | two accounts are equal exactly when their ids match; username, avatar and the other fields play no part |
| `Accounts.EqualsNullAndSelf` | CodeHub.iOS/Data/Account.cs:165-168 | no account equals null and every account equals itself |
| `Accounts.EqualsIsEquivalence` | CodeHub.iOS/Data/Account.cs:163-171 | on accounts, equality is reflexive, symmetric and transitive |
| `Accounts.HashAgreesWithEquals` | CodeHub.iOS/Data/Account.cs:180-183 | whatever an account equals is an account with the same hash code |
| `Accounts.EqualAccountsShareDirectory` | CodeHub.iOS/Data/Account.cs:163-171 | accounts on one base directory are equal exactly when they have the same account directory |

## Left out

- I/O failures are not modelled. The source lets exceptions propagate when a directory cannot be created or deleted, or when the settings file cannot be opened (permissions, full disk, corrupt file, a directory where the file should be). The model's operations always succeed.
- `Environment.GetFolderPath(Personal)` is a parameter (`personal`) of the `Account` constructor. The process-wide `BaseDir` is computed from it once and kept in each account.
- Culture handling: `IntToDecimal` is the invariant rendering itself. No culture is an input, so locale independence holds by construction.
- `Path.Combine` is modelled only for '/'-separated paths, as on the device. Null arguments, which throw in .NET, cannot occur. Its check for invalid path characters, which throws, is not modelled: the operands here are fixed names and decimal digits.
- Paths are compared as written. `..` is never resolved, although every path this store uses contains one (`BaseDir` ends in `..`). The `Disk` holds the store's own spellings, so another spelling of the same directory (such as the resolved one) counts as a different path. The statements about what `Created` adds and `Removed` keeps, and the isolation lemmas, hold among paths spelled from the same `BaseDir`.
- SQLite is not modelled: the schema attributes, how rows are stored and read back, and the mapping of a missing `DontRemember` column to false. Reading settings back through a new handle is therefore not stated.
- C# strings that start as null (`Username`, `AvatarUrl`, `DefaultStartupView`) start as "" in the model.
- `Account` is abstract in the source. Its subclasses and the `IAccount` interface add no behaviour and are not modelled.
- Concurrency: the lazy caches have no locking and assume single-threaded use, so the model is sequential.
- `Accounts.Account.Destroy`: when the directory is absent, the model states that nothing changes, and so does not state "nothing remains beneath it" for a file stored under the directory's own path.
- The UI files are not part of this model: `ReactiveTableViewSource.cs` (table and Rx plumbing), `ReadmeView.cs` (web-view navigation) and `IAlertDialogFactory.cs` (a dialog interface with no implementation).
