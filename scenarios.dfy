/**
 * Caller-side sequences over one account, proved from the contracts of
 * `Account` alone: what a view-model may rely on when it reads the
 * connection twice, initializes twice, or removes and re-adds an account.
 */
module Scenarios {
  import opened Paths
  import opened FileSystem
  import opened AccountPaths
  import opened Sqlite
  import opened Accounts

  /** Two reads of `Database` give one connection, opened at most once. */
  method ReadDatabaseTwice(a: Account) returns (first: Connection, second: Connection)
    requires a.Valid() && a.disk.Valid()
    modifies a, a.disk
    ensures first == second == a.database
    ensures a.disk.connectionsOpened <= old(a.disk.connectionsOpened) + 1
    ensures old(a.database) != null ==> first == old(a.database) && unchanged(a.disk)
  {
    first := a.Database();
    second := a.Database();
  }

  /** A second `Initialize` changes nothing: the effect is that of one call. */
  method InitializeTwice(a: Account)
    requires a.disk.Valid()
    modifies a.disk
    ensures a.Directory() in a.disk.dirs
    ensures a.disk.dirs == Created(old(a.disk.dirs), a.Directory())
    ensures a.disk.files == old(a.disk.files)
  {
    a.Initialize();
    ghost var once := a.disk.dirs;
    a.Initialize();
    assert a.disk.dirs == once;
  }

  /**
   * Initialize, open the store, dispose, destroy, initialize again: the
   * directory is back, the old connection is disposed, and no settings file
   * survived, so the re-added account starts from an empty store.
   */
  method RemoveAndReAdd(a: Account) returns (previous: Connection)
    requires a.Valid() && a.disk.Valid()
    modifies a, a.disk, a.database
    ensures a.Directory() in a.disk.dirs
    ensures SettingsPath(a.baseDir, a.id as int) !in a.disk.files
    ensures previous.disposed && a.database == previous
  {
    a.Initialize();
    previous := a.Database();
    a.Dispose();
    ghost var dir := a.Directory();
    assert dir in a.disk.dirs;
    a.Destroy();
    assert Beneath(SettingsPath(a.baseDir, a.id as int), dir);
    a.Initialize();
  }
}
