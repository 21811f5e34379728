/**
 * Where account data lives: `AccountPreferencesService.BaseDir` and
 * `AccountsDir`, one directory per account named by the invariant decimal
 * form of its id, and the settings database inside it.
 */
module AccountPaths {
  import opened Decimal
  import opened Paths
  import opened FileSystem

  const AccountsSubPath: string := "Documents/accounts"
  const SettingsFileName: string := "settings.db"

  /** `BaseDir`: the parent of the platform's personal folder, joined without normalisation. */
  function BaseDir(personal: string): (r: string)
    ensures personal <= r && EndsWith(r, "..")
  {
    Combine(personal, "..")
  }

  /** `AccountsDir`: the root under which every account directory lives. */
  function AccountsDir(baseDir: string): (r: string)
    ensures baseDir <= r && EndsWith(r, AccountsSubPath)
    ensures |r| > 0 && r[|r| - 1] != Separator
  {
    Combine(baseDir, AccountsSubPath)
  }

  /** `Account.AccountDirectory`: a direct child of the accounts root, named by the id. */
  function AccountDirectory(baseDir: string, id: int): (r: string)
    ensures r == AccountsDir(baseDir) + [Separator] + IntToDecimal(id)
    ensures Ancestors(r) == Ancestors(AccountsDir(baseDir)) + {AccountsDir(baseDir)}
  {
    CombineChild(AccountsDir(baseDir), IntToDecimal(id));
    Combine(AccountsDir(baseDir), IntToDecimal(id))
  }

  /** The settings database an account's connection opens: a direct child of its directory. */
  function SettingsPath(baseDir: string, id: int): (r: string)
    ensures r == AccountDirectory(baseDir, id) + [Separator] + SettingsFileName
    ensures Ancestors(r) == Ancestors(AccountDirectory(baseDir, id)) + {AccountDirectory(baseDir, id)}
  {
    CombineChild(AccountDirectory(baseDir, id), SettingsFileName);
    Combine(AccountDirectory(baseDir, id), SettingsFileName)
  }

  /** Two ids share a directory exactly when they are the same id. */
  lemma AccountDirectoryInjective(baseDir: string, i: int, j: int)
    ensures AccountDirectory(baseDir, i) == AccountDirectory(baseDir, j) <==> i == j
  {
    var n := |AccountsDir(baseDir)| + 1;
    if AccountDirectory(baseDir, i) == AccountDirectory(baseDir, j) {
      assert AccountDirectory(baseDir, i)[n..] == IntToDecimal(i);
      assert AccountDirectory(baseDir, j)[n..] == IntToDecimal(j);
      IntToDecimalInjective(i, j);
    }
  }

  /** No account directory lies inside another one. */
  lemma AccountDirectoriesApart(baseDir: string, i: int, j: int)
    requires i != j
    ensures !Beneath(AccountDirectory(baseDir, j), AccountDirectory(baseDir, i))
  {
    IntToDecimalInjective(i, j);
    SiblingsApart(AccountsDir(baseDir), IntToDecimal(i), IntToDecimal(j), []);
    assert AccountDirectory(baseDir, j) == AccountsDir(baseDir) + [Separator] + IntToDecimal(j) + [];
  }

  /** The settings file of one account is never inside another account's directory. */
  lemma SettingsPathApart(baseDir: string, i: int, j: int)
    requires i != j
    ensures !Beneath(SettingsPath(baseDir, j), AccountDirectory(baseDir, i))
  {
    IntToDecimalInjective(i, j);
    var tail := [Separator] + SettingsFileName;
    SiblingsApart(AccountsDir(baseDir), IntToDecimal(i), IntToDecimal(j), tail);
    assert SettingsPath(baseDir, j) == AccountsDir(baseDir) + [Separator] + IntToDecimal(j) + tail;
  }

  /**
   * Deleting one account's directory leaves every other account's directory
   * and settings file exactly as present or absent as before.
   */
  lemma DeleteKeepsOtherAccounts(dirs: set<string>, files: set<string>, baseDir: string, i: int, j: int)
    requires i != j
    ensures AccountDirectory(baseDir, j) in Removed(dirs, AccountDirectory(baseDir, i))
            <==> AccountDirectory(baseDir, j) in dirs
    ensures SettingsPath(baseDir, j) in Removed(files, AccountDirectory(baseDir, i))
            <==> SettingsPath(baseDir, j) in files
  {
    AccountDirectoriesApart(baseDir, i, j);
    SettingsPathApart(baseDir, i, j);
  }

  /** Once the accounts root exists, creating an account directory adds that one path only. */
  lemma CreateAccountDirectoryAddsOnlyIt(dirs: set<string>, baseDir: string, id: int)
    requires Closed(dirs) && AccountsDir(baseDir) in dirs
    ensures Created(dirs, AccountDirectory(baseDir, id)) == dirs + {AccountDirectory(baseDir, id)}
  {
    assert Ancestors(AccountsDir(baseDir)) <= dirs;
  }
}
