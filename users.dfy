/**
 * Account records and how they are derived from the `home/` directory
 * (`User`, `readTextOrNull`, `toUser` and the scan of `getUserAccounts` in
 * UserRepository.kt).
 *
 * The disk is a map from the names listed in `home/` to entries; a missing
 * `home/` directory is `None`.
 */
module Users {
  import opened Wrappers
  import opened UserValidator

  /** `User(userId, userDir, username)`. */
  datatype User = User(userId: string, userDir: string, username: string)

  /**
   * One entry of `home/`: a plain file, or a directory with the names of its
   * sub-directories and the text of its `localusername` file (`None` when
   * that is missing, is not a regular file, or cannot be read).
   */
  datatype Entry =
    | File
    | Directory(subdirs: set<string>, localUsername: Option<string>)

  type Home = Option<map<string, Entry>>

  /** The sub-directories `generateUser` creates in every account directory. */
  const AccountSubdirs: set<string> := {"exdata", "savedata", "trophy"}

  /** The path of `File(hdd0, "home/<userId>")`. */
  function UserDir(hdd0: string, userId: string): string
  {
    hdd0 + "/home/" + userId
  }

  /** `readTextOrNull`: the trimmed text of a readable file, or null. */
  function ReadTextOrNull(file: Option<string>): Option<string>
  {
    match file
    case Some(text) => Some(Trim(text))
    case None => None
  }

  /** Only a file that cannot be read gives null, and trimming keeps every name character of the text. */
  lemma ReadTextKeepsNameChars(file: Option<string>)
    ensures ReadTextOrNull(file).Some? <==> file.Some?
    ensures file.Some? ==> FilterNameChars(ReadTextOrNull(file).value) == FilterNameChars(file.value)
  {
    if file.Some? {
      FilterTrim(file.value);
    }
  }

  /** The name given to an account whose `localusername` is missing or unusable. */
  function FallbackName(userId: string): string
  {
    "User" + userId
  }

  /** `toUser`: the record for directory `home/<userId>` whose `localusername` holds `localUsername`. */
  function ToUser(hdd0: string, userId: string, localUsername: Option<string>): User
  {
    var fallback := FallbackName(userId);
    var name := match ReadTextOrNull(localUsername)
                case Some(text) => text
                case None => fallback;
    User(userId, UserDir(hdd0, userId), NormalizeUsername(name, fallback))
  }

  /** The fallback of a valid identifier is a valid name of twelve characters. */
  lemma FallbackValid(userId: string)
    requires IsValidUserId(userId)
    ensures ValidUsername(FallbackName(userId))
    ensures Take(FallbackName(userId), 16) == FallbackName(userId)
  {
  }

  /**
   * The name `toUser` gives a valid identifier: always a valid name; the
   * fallback `"User" + id` when `localusername` is absent; otherwise the
   * normalised text, trimmed or not; and the text itself when it is a valid name.
   */
  lemma ToUserName(hdd0: string, userId: string, localUsername: Option<string>)
    requires IsValidUserId(userId)
    ensures var u := ToUser(hdd0, userId, localUsername);
            && u.userId == userId
            && u.userDir == UserDir(hdd0, userId)
            && ValidUsername(u.username)
            && (localUsername.None? ==> u.username == FallbackName(userId))
            && (localUsername.Some? ==> u.username == NormalizeUsername(localUsername.value, FallbackName(userId)))
            && (localUsername.Some? && ValidUsername(localUsername.value) ==> u.username == localUsername.value)
  {
    var fallback := FallbackName(userId);
    FallbackValid(userId);
    match localUsername {
      case None =>
        NormalizeKeepsValid(fallback, fallback);
      case Some(text) =>
        NormalizeIgnoresTrim(text, fallback);
        NormalizeResult(text, fallback);
        if ValidUsername(text) {
          NormalizeKeepsValid(text, fallback);
        }
    }
  }

  // ---------------------------------------------------------------------
  // The scan of home/
  // ---------------------------------------------------------------------

  predicate IsUserDir(dirs: map<string, Entry>, name: string)
  {
    name in dirs && dirs[name].Directory?
  }

  /**
   * The accounts found among the entries `names` of `home/`: key `k` is
   * present exactly when the entry named `Format8(k)` is among them and is a
   * directory.
   */
  ghost function ScanNames(hdd0: string, dirs: map<string, Entry>, names: set<string>): map<nat, User>
  {
    map k: nat | 1 <= k < IdLimit && Format8(k) in names && IsUserDir(dirs, Format8(k))
      :: ToUser(hdd0, Format8(k), dirs[Format8(k)].localUsername)
  }

  /** What a full scan of `home/` yields: nothing when `home/` is missing. */
  ghost function Scan(hdd0: string, home: Home): (users: map<nat, User>)
    ensures home.None? ==> users == map[]
  {
    match home
    case None => map[]
    case Some(dirs) => ScanNames(hdd0, dirs, dirs.Keys)
  }

  /** The invariant of every record in the repository's map, stated for key `k`. */
  ghost predicate WellFormedUser(hdd0: string, k: nat, u: User)
  {
    && 1 <= k < IdLimit
    && u.userId == Format8(k)
    && KeyOrZero(u.userId) == k
    && u.userDir == UserDir(hdd0, u.userId)
    && ValidUsername(u.username)
  }

  ghost predicate WellFormedUsers(hdd0: string, users: map<nat, User>)
  {
    forall k :: k in users ==> WellFormedUser(hdd0, k, users[k])
  }

  /** Every key a scan produces is nonzero, is the key of its record's identifier, and names a valid user. */
  lemma ScanWellFormed(hdd0: string, home: Home)
    ensures WellFormedUsers(hdd0, Scan(hdd0, home))
  {
    if home.Some? {
      var users := Scan(hdd0, home);
      forall k | k in users ensures WellFormedUser(hdd0, k, users[k]) {
        ToUserName(hdd0, Format8(k), home.value[Format8(k)].localUsername);
      }
    }
  }

  /**
   * An entry of `home/` yields an account exactly when it is a directory and
   * its name has a nonzero key; plain files and other names are left out.
   */
  lemma ScanMembership(hdd0: string, dirs: map<string, Entry>, name: string)
    requires name in dirs
    ensures var users := Scan(hdd0, Some(dirs));
            && (KeyOrZero(name) in users <==> dirs[name].Directory? && KeyOrZero(name) != 0)
            && (KeyOrZero(name) in users ==> users[KeyOrZero(name)] == ToUser(hdd0, name, dirs[name].localUsername))
  {
    var k := KeyOrZero(name);
    if k != 0 {
      ParseRoundTrip(name);
    }
  }

  /** A directory without a readable `localusername` is still an account, named `"User" + id`. */
  lemma ScanFallbackName(hdd0: string, dirs: map<string, Entry>, name: string)
    requires name in dirs && dirs[name].Directory? && dirs[name].localUsername.None?
    requires KeyOrZero(name) != 0
    ensures var users := Scan(hdd0, Some(dirs));
            KeyOrZero(name) in users && users[KeyOrZero(name)].username == FallbackName(name)
  {
    ScanMembership(hdd0, dirs, name);
    ToUserName(hdd0, name, None);
  }

  /** Looking at one more entry that is not an account leaves the scan as it was. */
  lemma ScanNamesSkip(hdd0: string, dirs: map<string, Entry>, names: set<string>, name: string)
    requires name in dirs
    requires !dirs[name].Directory? || KeyOrZero(name) == 0
    ensures ScanNames(hdd0, dirs, names + {name}) == ScanNames(hdd0, dirs, names)
  {
  }

  /** Looking at one more entry that is an account adds exactly its record, under its key. */
  lemma ScanNamesAdd(hdd0: string, dirs: map<string, Entry>, names: set<string>, name: string)
    requires name in dirs && dirs[name].Directory? && KeyOrZero(name) != 0
    ensures ScanNames(hdd0, dirs, names + {name})
         == ScanNames(hdd0, dirs, names)[KeyOrZero(name) := ToUser(hdd0, name, dirs[name].localUsername)]
  {
    var key := KeyOrZero(name);
    var user := ToUser(hdd0, name, dirs[name].localUsername);
    var a := ScanNames(hdd0, dirs, names + {name});
    var before := ScanNames(hdd0, dirs, names);
    var b := before[key := user];
    ParseRoundTrip(name);
    forall k | k in a ensures k in b && a[k] == b[k] {
      FormatMatchesName(k, name);
      if k != key {
        assert Format8(k) in names;
        assert k in before;
      }
    }
    forall k | k in b ensures k in a {
      FormatMatchesName(k, name);
    }
    assert a.Keys == b.Keys;
  }

  /** After deleting entry `name`, each key other than `KeyOrZero(name)` holds what it held before. */
  lemma ScanRemoveOthers(hdd0: string, dirs: map<string, Entry>, name: string, k: nat)
    requires k != KeyOrZero(name)
    ensures var a := Scan(hdd0, Some(dirs - {name}));
            var b := Scan(hdd0, Some(dirs));
            (k in a <==> k in b) && (k in a ==> a[k] == b[k])
  {
    if 1 <= k < IdLimit {
      FormatMatchesName(k, name);
      assert Format8(k) != name;
    }
  }

  /** Deleting entry `name` removes at most the account whose key is `KeyOrZero(name)`, and nothing else. */
  lemma ScanRemove(hdd0: string, dirs: map<string, Entry>, name: string)
    ensures Scan(hdd0, Some(dirs - {name})) == Scan(hdd0, Some(dirs)) - {KeyOrZero(name)}
  {
    var key := KeyOrZero(name);
    var a := Scan(hdd0, Some(dirs - {name}));
    var b := Scan(hdd0, Some(dirs)) - {key};
    if key != 0 {
      ParseRoundTrip(name);
      assert key !in a;
    }
    forall k | k != key ensures (k in a <==> k in b) && (k in a ==> a[k] == b[k]) {
      ScanRemoveOthers(hdd0, dirs, name, k);
    }
    assert a.Keys == b.Keys;
  }

  /** Putting an entry under a name whose key is 0 leaves the scan as it was. */
  lemma ScanPutIgnored(hdd0: string, dirs: map<string, Entry>, name: string, e: Entry)
    requires KeyOrZero(name) == 0
    ensures Scan(hdd0, Some(dirs[name := e])) == Scan(hdd0, Some(dirs))
  {
  }

  /** After putting directory `e` under `name`, the accounts under the other keys are those of before. */
  lemma ScanPutOthers(hdd0: string, dirs: map<string, Entry>, name: string, e: Entry, k: nat)
    requires e.Directory? && KeyOrZero(name) != 0 && k != KeyOrZero(name)
    ensures var a := Scan(hdd0, Some(dirs[name := e]));
            var b := Scan(hdd0, Some(dirs));
            (k in a <==> k in b) && (k in a ==> a[k] == b[k])
  {
  }

  /** After putting directory `e` under a name with a nonzero key, that key holds the record `e` yields. */
  lemma ScanPutSelf(hdd0: string, dirs: map<string, Entry>, name: string, e: Entry)
    requires e.Directory? && KeyOrZero(name) != 0
    ensures var a := Scan(hdd0, Some(dirs[name := e]));
            KeyOrZero(name) in a && a[KeyOrZero(name)] == ToUser(hdd0, name, e.localUsername)
  {
    ParseRoundTrip(name);
  }

  /**
   * Putting directory `e` under `name` changes only the account under
   * `KeyOrZero(name)`, which becomes the record `e` yields; a name with key 0
   * changes nothing.
   */
  lemma ScanPut(hdd0: string, dirs: map<string, Entry>, name: string, e: Entry)
    requires e.Directory?
    ensures var key := KeyOrZero(name);
            Scan(hdd0, Some(dirs[name := e]))
            == if key == 0 then Scan(hdd0, Some(dirs))
               else Scan(hdd0, Some(dirs))[key := ToUser(hdd0, name, e.localUsername)]
  {
    var key := KeyOrZero(name);
    if key == 0 {
      ScanPutIgnored(hdd0, dirs, name, e);
    } else {
      var a := Scan(hdd0, Some(dirs[name := e]));
      var b := Scan(hdd0, Some(dirs))[key := ToUser(hdd0, name, e.localUsername)];
      ScanPutSelf(hdd0, dirs, name, e);
      forall k | k != key ensures (k in a <==> k in b) && (k in a ==> a[k] == b[k]) {
        ScanPutOthers(hdd0, dirs, name, e, k);
      }
      assert a.Keys == b.Keys;
    }
  }
}
