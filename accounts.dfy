/**
 * `CodeHub.iOS.Data.Account`: the identity and settings of one signed-in
 * account, the lazily opened connection to its settings database, the
 * pinned-repositories store built on that connection, and the creation and
 * removal of the account's directory.
 */
module Accounts {
  import Decimal
  import opened Paths
  import opened FileSystem
  import opened AccountPaths
  import opened Sqlite

  /** The source's `int`. */
  newtype int32 = x: int | -0x8000_0000 <= x < 0x8000_0000

  class Account {
    /** The device whose file system the static `Directory` calls act on. */
    const disk: Disk
    /** `AccountPreferencesService.BaseDir`, fixed for the process. */
    const baseDir: string

    var id: int32
    var username: string
    var avatarUrl: string
    var defaultStartupView: string
    var dontRemember: bool

    /** The cached `_database`; null until `Database` is first read. */
    var database: Connection?
    /** The cached `_pinnedRepositories`; null until first read. */
    var pinnedRepositories: AccountPinnedRepositories?

    /** The pinned-repositories store, once built, runs on this account's cached connection. */
    ghost predicate Valid()
      reads this
    {
      pinnedRepositories != null ==> pinnedRepositories.connection == database
    }

    /** A fresh record: id 0, empty strings, `DontRemember` false, nothing opened. */
    constructor (disk: Disk, personal: string)
      ensures Valid()
      ensures this.disk == disk && baseDir == BaseDir(personal)
      ensures id == 0 && username == "" && avatarUrl == "" && defaultStartupView == ""
      ensures !dontRemember
      ensures database == null && pinnedRepositories == null
    {
      this.disk := disk;
      baseDir := BaseDir(personal);
      id := 0;
      username, avatarUrl, defaultStartupView := "", "", "";
      dontRemember := false;
      database, pinnedRepositories := null, null;
    }

    /** `AccountDirectory`: the accounts root joined with the invariant decimal id. */
    function Directory(): (r: string)
      reads this
      ensures r == AccountsDir(baseDir) + [Separator] + Decimal.IntToDecimal(id as int)
    {
      AccountDirectory(baseDir, id as int)
    }

    /**
     * The `Database` getter. The first read creates the account directory if
     * it is missing and opens one connection on its settings file; every
     * later read returns that same connection and touches nothing.
     */
    method Database() returns (c: Connection)
      requires Valid() && disk.Valid()
      modifies this`database, disk
      ensures Valid() && disk.Valid() && database == c
      ensures old(database) != null ==> c == old(database) && unchanged(disk)
      ensures old(database) == null ==>
        && fresh(c) && !c.disposed && c.path == SettingsPath(baseDir, id as int)
        && disk.dirs == Created(old(disk.dirs), Directory())
        && disk.files == old(disk.files) + {c.path}
        && disk.connectionsOpened == old(disk.connectionsOpened) + 1
    {
      if database == null {
        var dir := Directory();
        assert dir == AccountDirectory(baseDir, id as int);
        if !disk.DirectoryExists(dir) {
          disk.CreateDirectory(dir);
        }
        var dbPath := Combine(dir, SettingsFileName);
        assert dbPath == SettingsPath(baseDir, id as int);
        assert dir in disk.dirs && Ancestors(dbPath) == Ancestors(dir) + {dir};
        database := new Connection.Open(disk, dbPath);
        return database;
      }
      return database;
    }

    /**
     * The `PinnnedRepositories` getter: built once, on the connection that
     * `Database` returns, and cached.
     */
    method PinnedRepositories() returns (p: AccountPinnedRepositories)
      requires Valid() && disk.Valid()
      modifies this`database, this`pinnedRepositories, disk
      ensures Valid() && disk.Valid()
      ensures pinnedRepositories == p && p.connection == database && database != null
      ensures old(pinnedRepositories) != null ==> p == old(pinnedRepositories)
      ensures old(pinnedRepositories) == null ==> fresh(p)
      ensures old(database) != null ==> database == old(database) && unchanged(disk)
      ensures old(database) == null ==>
        && fresh(database) && !database.disposed && database.path == SettingsPath(baseDir, id as int)
        && disk.dirs == Created(old(disk.dirs), Directory())
        && disk.files == old(disk.files) + {database.path}
        && disk.connectionsOpened == old(disk.connectionsOpened) + 1
    {
      if pinnedRepositories == null {
        var db := Database();
        pinnedRepositories := new AccountPinnedRepositories(db);
      }
      p := pinnedRepositories;
    }

    /** `CreateAccountDirectory`: creates the account directory only if it is absent. */
    method CreateAccountDirectory()
      requires disk.Valid()
      modifies disk
      ensures disk.Valid() && Directory() in disk.dirs
      ensures disk.dirs == Created(old(disk.dirs), Directory())
      ensures disk.files == old(disk.files) && disk.connectionsOpened == old(disk.connectionsOpened)
    {
      var dir := Directory();
      if !disk.DirectoryExists(dir) {
        disk.CreateDirectory(dir);
      }
    }

    /** `Initialize`: makes sure the account directory exists. */
    method Initialize()
      requires disk.Valid()
      modifies disk
      ensures disk.Valid() && Directory() in disk.dirs
      ensures disk.dirs == Created(old(disk.dirs), Directory())
      ensures disk.files == old(disk.files) && disk.connectionsOpened == old(disk.connectionsOpened)
    {
      CreateAccountDirectory();
    }

    /**
     * `Destory` (so spelled in the source): nothing happens when the account
     * directory is absent; otherwise it goes with everything beneath it.
     */
    method Destroy()
      requires disk.Valid()
      modifies disk
      ensures disk.Valid()
      ensures Directory() !in old(disk.dirs) ==> unchanged(disk)
      ensures disk.dirs == Removed(old(disk.dirs), Directory())
      ensures Directory() in old(disk.dirs) ==> disk.files == Removed(old(disk.files), Directory())
      ensures disk.connectionsOpened == old(disk.connectionsOpened)
    {
      var dir := Directory();
      if !disk.DirectoryExists(dir) {
        RemovedAbsent(disk.dirs, dir);
        return;
      }
      disk.DeleteRecursive(dir);
    }

    /** `Dispose`: disposes the cached connection if one was opened; the cache itself is kept. */
    method Dispose()
      modifies database
      ensures database == old(database) && unchanged(disk)
      ensures database != null ==> database.disposed
    {
      if database != null {
        database.Dispose();
      }
    }

    /** `Equals`: false for null, true for the same object, otherwise decided by `Id` alone. */
    function Equals(obj: object?): (r: bool)
      reads this, obj
      ensures obj == null ==> !r
      ensures obj == this ==> r
      ensures r ==> obj is Account && (obj as Account).id == id
      ensures obj != null && obj is Account && (obj as Account).id == id ==> r
    {
      if obj == null then false
      else if obj == this then true
      else obj is Account && id == (obj as Account).id
    }

    /** `GetHashCode`: the id, unmixed. */
    function GetHashCode(): (r: int32)
      reads this
      ensures r == id
    {
      id
    }

    /** `ToString`: the username. */
    function ToString(): (s: string)
      reads this
      ensures s == username
    {
      username
    }
  }

  /** Two accounts are equal exactly when their ids match, whatever their other fields hold. */
  lemma EqualsIsIdEquality(a: Account, b: Account)
    ensures a.Equals(b) <==> a.id == b.id
  {
  }

  /** Nothing equals null, and every account equals itself. */
  lemma EqualsNullAndSelf(a: Account)
    ensures !a.Equals(null) && a.Equals(a)
  {
  }

  /** On accounts, `Equals` is reflexive, symmetric and transitive. */
  lemma EqualsIsEquivalence(a: Account, b: Account, c: Account)
    ensures a.Equals(a)
    ensures a.Equals(b) ==> b.Equals(a)
    ensures a.Equals(b) && b.Equals(c) ==> a.Equals(c)
  {
  }

  /** Equal accounts have equal hash codes. */
  lemma HashAgreesWithEquals(a: Account, obj: object?)
    ensures a.Equals(obj) ==> obj is Account && a.GetHashCode() == (obj as Account).GetHashCode()
  {
  }

  /** Accounts on the same base directory share a directory exactly when they are equal. */
  lemma EqualAccountsShareDirectory(a: Account, b: Account)
    requires a.baseDir == b.baseDir
    ensures a.Equals(b) <==> a.Directory() == b.Directory()
  {
    AccountDirectoryInjective(a.baseDir, a.id as int, b.id as int);
  }
}
