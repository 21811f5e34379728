/**
 * The device's file system as the account store sees it through
 * `System.IO.Directory`: a set of directory paths and a set of file paths.
 * The pure functions give the effect of creating and of recursively deleting
 * a directory; the `Disk` class holds the state that those calls change.
 */
module FileSystem {
  import opened Paths

  /** Every ancestor of a directory is itself a directory: the set is a tree. */
  predicate Closed(dirs: set<string>) {
    forall d :: d in dirs ==> Ancestors(d) <= dirs
  }

  /** Every file lies in an existing directory chain. */
  predicate FilesPlaced(files: set<string>, dirs: set<string>) {
    forall f :: f in files ==> Ancestors(f) <= dirs
  }

  /** The directories after `Directory.CreateDirectory(p)`: p and all its missing ancestors. */
  function Created(dirs: set<string>, p: string): (r: set<string>)
    ensures p in r && dirs <= r
    ensures forall q :: q in r && q !in dirs ==> q == p || q in Ancestors(p)
    ensures Closed(dirs) && p in dirs ==> r == dirs
  {
    dirs + {p} + Ancestors(p)
  }

  /** The paths left after `Directory.Delete(p, true)`: everything at or beneath p goes. */
  function Removed(paths: set<string>, p: string): (r: set<string>)
    ensures r <= paths && p !in r
    ensures forall q :: q in paths && !Beneath(q, p) ==> q in r
    ensures forall q :: q in r ==> !Beneath(q, p)
  {
    set q | q in paths && !Beneath(q, p)
  }

  /** Creating a directory keeps the directory set a tree. */
  lemma CreatedKeepsTree(dirs: set<string>, p: string)
    requires Closed(dirs)
    ensures Closed(Created(dirs, p))
  {
    var r := Created(dirs, p);
    forall d | d in r ensures Ancestors(d) <= r {
      if d in Ancestors(p) {
        AncestorsTransitive(d, p);
      }
    }
  }

  /** Creating the same directory twice is the same as creating it once. */
  lemma CreatedIdempotent(dirs: set<string>, p: string)
    ensures Created(Created(dirs, p), p) == Created(dirs, p)
  {
  }

  /** If an ancestor of d is at or beneath p, so is d. */
  lemma BeneathThroughAncestor(a: string, d: string, p: string)
    requires a in Ancestors(d) && Beneath(a, p)
    ensures Beneath(d, p)
  {
    var i :| 0 < i < |d| && d[i] == Separator && a == d[..i];
    if a == p {
      assert d[..|p| + 1] == p + [Separator];
    } else {
      assert d[..|p| + 1] == a[..|p| + 1];
    }
  }

  /** A recursive delete keeps the directory set a tree and keeps files placed. */
  lemma RemovedKeepsTree(dirs: set<string>, files: set<string>, p: string)
    requires Closed(dirs) && FilesPlaced(files, dirs)
    ensures Closed(Removed(dirs, p))
    ensures FilesPlaced(Removed(files, p), Removed(dirs, p))
  {
    var rd := Removed(dirs, p);
    forall d | d in rd ensures Ancestors(d) <= rd {
      forall a | a in Ancestors(d) ensures a in rd {
        if Beneath(a, p) {
          BeneathThroughAncestor(a, d, p);
        }
      }
    }
    forall f | f in Removed(files, p) ensures Ancestors(f) <= rd {
      forall a | a in Ancestors(f) ensures a in rd {
        if Beneath(a, p) {
          BeneathThroughAncestor(a, f, p);
        }
      }
    }
  }

  /** A path strictly beneath a non-empty p has p among its ancestors. */
  lemma StrictlyBeneath(q: string, p: string)
    requires |p| > 0 && Beneath(q, p) && q != p
    ensures p in Ancestors(q)
  {
    assert q[|p|] == Separator && q[..|p|] == p;
  }

  /** In a tree, deleting a directory that does not exist removes no directory. */
  lemma RemovedAbsent(dirs: set<string>, p: string)
    requires Closed(dirs) && |p| > 0 && p !in dirs
    ensures Removed(dirs, p) == dirs
  {
    forall q | q in dirs ensures q in Removed(dirs, p) {
      if q != p && Beneath(q, p) {
        StrictlyBeneath(q, p);
      }
    }
  }

  /** The directories and files of the device, and how many database connections were opened on it. */
  class Disk {
    var dirs: set<string>
    var files: set<string>
    var connectionsOpened: nat

    ghost predicate Valid()
      reads this
    {
      Closed(dirs) && FilesPlaced(files, dirs)
    }

    constructor (dirs: set<string>, files: set<string>)
      requires Closed(dirs) && FilesPlaced(files, dirs)
      ensures Valid()
      ensures this.dirs == dirs && this.files == files && connectionsOpened == 0
    {
      this.dirs := dirs;
      this.files := files;
      connectionsOpened := 0;
    }

    /** `Directory.Exists`. */
    function DirectoryExists(p: string): (r: bool)
      reads this
      ensures r <==> p in dirs
    {
      p in dirs
    }

    /** `Directory.CreateDirectory`: creates p together with its missing ancestors. */
    method CreateDirectory(p: string)
      requires Valid() && p != ""
      modifies this
      ensures Valid()
      ensures dirs == Created(old(dirs), p)
      ensures files == old(files) && connectionsOpened == old(connectionsOpened)
    {
      CreatedKeepsTree(dirs, p);
      dirs := Created(dirs, p);
    }

    /** `Directory.Delete(p, true)`: p must exist; it goes with everything beneath it. */
    method DeleteRecursive(p: string)
      requires Valid() && p in dirs
      modifies this
      ensures Valid()
      ensures dirs == Removed(old(dirs), p) && files == Removed(old(files), p)
      ensures connectionsOpened == old(connectionsOpened)
    {
      RemovedKeepsTree(dirs, files, p);
      dirs, files := Removed(dirs, p), Removed(files, p);
    }
  }
}
