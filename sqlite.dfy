/**
 * Stand-ins for the two storage objects the account hands out. The SQLite
 * library itself is not modelled: a connection is an object that remembers
 * the file it was opened on and whether it has been disposed; opening one
 * creates that file if it is missing and is counted on the disk.
 */
module Sqlite {
  import opened Paths
  import opened FileSystem

  class Connection {
    const path: string
    var disposed: bool

    /** `new SQLiteConnection(path)`: the directory holding the file must already exist. */
    constructor Open(disk: Disk, path: string)
      requires disk.Valid() && Ancestors(path) <= disk.dirs
      modifies disk
      ensures this.path == path && !disposed
      ensures disk.Valid()
      ensures disk.dirs == old(disk.dirs) && disk.files == old(disk.files) + {path}
      ensures disk.connectionsOpened == old(disk.connectionsOpened) + 1
    {
      this.path := path;
      disposed := false;
      disk.files := disk.files + {path};
      disk.connectionsOpened := disk.connectionsOpened + 1;
    }

    /** Releases the underlying handle. */
    method Dispose()
      modifies this
      ensures disposed
    {
      disposed := true;
    }
  }

  /** The pinned-repositories sub-store: it reads and writes through the connection it was built on. */
  class AccountPinnedRepositories {
    const connection: Connection

    constructor (connection: Connection)
      ensures this.connection == connection
    {
      this.connection := connection;
    }
  }
}
