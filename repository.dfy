/**
 * The account repository (`UserRepository` in UserRepository.kt): a map from
 * key to account record and the active identifier, kept in step with the
 * `home/` directory of the emulator's disk.
 *
 * The operations run one after another; the coroutine scope, the dispatcher
 * switches and the mutex only serialise them in the source. The outcome of a
 * filesystem write or delete, the identifier the emulator reports and the
 * value stored under `"active_user"` in the settings are inputs or fields.
 */
module Repository {
  import opened Wrappers
  import opened UserValidator
  import opened Users

  // ---------------------------------------------------------------------
  // Allocation of identifiers
  // ---------------------------------------------------------------------

  /** `c` is the smallest positive integer that is not a key. */
  ghost predicate IsFirstFree(keys: set<nat>, c: nat)
  {
    c >= 1 && c !in keys && forall j :: 1 <= j < c ==> j in keys
  }

  /** The smallest integer `>= c` that is not in `keys`. */
  function FirstFreeFrom(keys: set<nat>, c: nat): nat
    decreases |keys|
  {
    if c !in keys then c else FirstFreeFrom(keys - {c}, c + 1)
  }

  /** `FirstFreeFrom(keys, c)` is free, and every integer from `c` up to it is taken. */
  lemma {:induction false} FirstFreeFromIsFirst(keys: set<nat>, c: nat)
    ensures var r := FirstFreeFrom(keys, c);
            r >= c && r !in keys && forall j :: c <= j < r ==> j in keys
    decreases |keys|
  {
    if c in keys {
      var r := FirstFreeFrom(keys - {c}, c + 1);
      FirstFreeFromIsFirst(keys - {c}, c + 1);
      forall j | c <= j < r ensures j in keys {
        if j != c {
          assert j in keys - {c};
        }
      }
    }
  }

  /** The smallest positive integer that is not in `keys`: the first gap, or one past the largest key when there is none. */
  function FirstFree(keys: set<nat>): (r: nat)
    ensures IsFirstFree(keys, r)
  {
    FirstFreeFromIsFirst(keys, 1);
    FirstFreeFrom(keys, 1)
  }

  /** Only one integer is the first free one. */
  lemma FirstFreeUnique(keys: set<nat>, c: nat)
    requires IsFirstFree(keys, c)
    ensures FirstFree(keys) == c
  {
  }

  /** The examples of the allocation rule: `{1, 2, 4}` gives 3 and `{1, 2, 3}` gives 4. */
  lemma FirstFreeExamples()
    ensures FirstFree({1, 2, 4}) == 3
    ensures FirstFree({1, 2, 3}) == 4
    ensures FirstFree({}) == 1
  {
    FirstFreeUnique({1, 2, 4}, 3);
    FirstFreeUnique({1, 2, 3}, 4);
    FirstFreeUnique({}, 1);
  }

  // ---------------------------------------------------------------------
  // Choice of the active user
  // ---------------------------------------------------------------------

  /** `m` is the least element of `s`. */
  predicate IsLeast(s: set<nat>, m: nat)
  {
    m in s && forall k :: k in s ==> m <= k
  }

  /** The least element of a nonempty finite set of keys (`minOrNull`). */
  ghost function MinKey(s: set<nat>): (m: nat)
    requires s != {}
    ensures IsLeast(s, m)
  {
    var x :| x in s;
    assert forall k :: k in s ==> k == x || k in s - {x};
    if s == {x} then
      x
    else
      var least := MinKey(s - {x});
      if x < least then x else least
  }

  /** `getUserFromSettings`: the stored identifier if it is a valid one, `"00000001"` otherwise. */
  function GetUserFromSettings(stored: Option<string>): (id: string)
    ensures IsValidUserId(id)
    ensures stored.Some? && IsValidUserId(stored.value) ==> id == stored.value
    ensures !(stored.Some? && IsValidUserId(stored.value)) ==> id == "00000001"
  {
    var s := match stored case Some(v) => v case None => "";
    if IsValidUserId(s) then s else "00000001"
  }

  ghost predicate KeysInRange(keys: set<nat>)
  {
    forall k :: k in keys ==> 1 <= k < IdLimit
  }

  /**
   * The active identifier `load` settles on, given the keys after the
   * refresh: the emulator's identifier if it is valid, else the settings'
   * identifier; kept if its key is present, else replaced by the smallest
   * key, zero-padded, or by `"00000001"` when there is no key.
   */
  ghost function ResolveActive(keys: set<nat>, fromEmu: Option<string>, stored: Option<string>): string
    requires KeysInRange(keys)
  {
    var fromSettings := GetUserFromSettings(stored);
    var resolved := if fromEmu.Some? && IsValidUserId(fromEmu.value) then fromEmu.value else fromSettings;
    if KeyOrZero(resolved) in keys then resolved
    else if keys == {} then "00000001"
    else Format8(MinKey(keys))
  }

  /**
   * After `load` the active identifier is valid; it is the zero-padded form of
   * a present key, or `"00000001"` when there is no key.
   */
  lemma ResolveActiveIsPresent(keys: set<nat>, fromEmu: Option<string>, stored: Option<string>)
    requires KeysInRange(keys)
    ensures var r := ResolveActive(keys, fromEmu, stored);
            && IsValidUserId(r)
            && (keys == {} ==> r == "00000001")
            && (keys != {} ==> KeyOrZero(r) in keys && r == Format8(KeyOrZero(r)))
  {
    var r := ResolveActive(keys, fromEmu, stored);
    assert IsValidUserId("00000001");
    ParseRoundTrip(r);
  }

  /** The default identifier `"00000001"` is the zero-padded form of key 1. */
  lemma DefaultIdIsKeyOne()
    ensures IsValidUserId("00000001") && KeyOrZero("00000001") == 1
    ensures Format8(1) == "00000001"
  {
    var d := "00000001";
    assert Value("0") == 0 by { assert "0"[..0] == ""; }
    assert Value("00") == 0 by { assert "00"[..1] == "0"; }
    assert Value("000") == 0 by { assert "000"[..2] == "00"; }
    assert Value("0000") == 0 by { assert "0000"[..3] == "000"; }
    assert Value("00000") == 0 by { assert "00000"[..4] == "0000"; }
    assert Value("000000") == 0 by { assert "000000"[..5] == "00000"; }
    assert Value("0000000") == 0 by { assert "0000000"[..6] == "000000"; }
    assert Value(d) == 1 by { assert d[..7] == "0000000"; }
    ParseRoundTrip(d);
  }

  /**
   * The order of preference of `load`: a valid, present emulator identifier
   * wins; a valid but absent one sends `load` to the smallest key without
   * falling back to the settings identifier; without a valid emulator
   * identifier a valid, present settings identifier wins, and otherwise the
   * smallest key is taken when there is one.
   */
  lemma ResolveActivePreference(keys: set<nat>, fromEmu: Option<string>, stored: Option<string>)
    requires KeysInRange(keys)
    ensures var r := ResolveActive(keys, fromEmu, stored);
            var emuValid := fromEmu.Some? && IsValidUserId(fromEmu.value);
            var storedPresent := stored.Some? && IsValidUserId(stored.value) && KeyOrZero(stored.value) in keys;
            && (emuValid && KeyOrZero(fromEmu.value) in keys ==> r == fromEmu.value)
            && (emuValid && KeyOrZero(fromEmu.value) !in keys && keys != {} ==> r == Format8(MinKey(keys)))
            && (!emuValid && storedPresent ==> r == stored.value)
            && (!emuValid && !storedPresent && keys != {} ==> r == Format8(MinKey(keys)))
  {
    var emuValid := fromEmu.Some? && IsValidUserId(fromEmu.value);
    var storedValid := stored.Some? && IsValidUserId(stored.value);
    if !emuValid && !storedValid && keys != {} {
      DefaultIdIsKeyOne();
      if 1 in keys {
        var m := MinKey(keys);
        assert m == 1;
      }
    }
  }

  // ---------------------------------------------------------------------
  // Effect of generateUser on the disk
  // ---------------------------------------------------------------------

  /** A plain file sits at `home/<name>`. */
  predicate HasFile(home: Home, name: string)
  {
    home.Some? && name in home.value && home.value[name].File?
  }

  /**
   * `home/` after `generateUser(userId, userName)`: `home/` and
   * `home/<userId>` exist, the latter holds the three account
   * sub-directories and a `localusername` with `userName`.
   */
  function CreatedHome(home: Home, userId: string, userName: string): (dirs: map<string, Entry>)
    ensures userId in dirs && dirs[userId].Directory?
    ensures AccountSubdirs <= dirs[userId].subdirs && dirs[userId].localUsername == Some(userName)
    ensures forall n :: n != userId ==> (n in dirs <==> home.Some? && n in home.value)
    ensures home.Some? ==> forall n :: n != userId && n in home.value ==> dirs[n] == home.value[n]
  {
    var dirs := if home.Some? then home.value else map[];
    var existing := if userId in dirs && dirs[userId].Directory? then dirs[userId].subdirs else {};
    dirs[userId := Directory(existing + AccountSubdirs, Some(userName))]
  }

  /**
   * Creating the first free key's directory with a valid name adds exactly
   * one account to what a scan finds: that key, with that name.
   */
  lemma CreateAddsFirstFree(hdd0: string, home: Home, username: string)
    requires ValidUsername(username)
    requires FirstFree(Scan(hdd0, home).Keys) < IdLimit
    ensures var f := FirstFree(Scan(hdd0, home).Keys);
            var id := Format8(f);
            Scan(hdd0, Some(CreatedHome(home, id, username)))
            == Scan(hdd0, home)[f := User(id, UserDir(hdd0, id), username)]
  {
    var f := FirstFree(Scan(hdd0, home).Keys);
    var id := Format8(f);
    var dirs := if home.Some? then home.value else map[];
    assert Scan(hdd0, Some(dirs)) == Scan(hdd0, home);
    var e := CreatedHome(home, id, username)[id];
    assert CreatedHome(home, id, username) == dirs[id := e];
    ScanPut(hdd0, dirs, id, e);
    ToUserName(hdd0, id, Some(username));
  }

  /** Writing a valid name into an account's `localusername` renames that account and changes nothing else. */
  lemma RenameChangesOnlyName(hdd0: string, dirs: map<string, Entry>, userId: string, username: string)
    requires ValidUsername(username)
    requires IsUserDir(dirs, userId) && KeyOrZero(userId) != 0
    ensures var key := KeyOrZero(userId);
            var before := Scan(hdd0, Some(dirs));
            key in before
            && Scan(hdd0, Some(dirs[userId := dirs[userId].(localUsername := Some(username))]))
               == before[key := before[key].(username := username)]
  {
    var e := dirs[userId].(localUsername := Some(username));
    ScanMembership(hdd0, dirs, userId);
    ScanPut(hdd0, dirs, userId, e);
    ToUserName(hdd0, userId, Some(username));
  }

  // ---------------------------------------------------------------------
  // The repository
  // ---------------------------------------------------------------------

  class UserRepository {
    /** The emulator's disk root (`RPCSX.getHdd0Dir()`). */
    const hdd0: string
    /** The entries of `<hdd0>/home`, `None` when that directory is missing. */
    var home: Home
    /** The value stored under `"active_user"` in the settings, when it is a string. */
    var storedActiveUser: Option<string>
    /** `_users`: key to account record. */
    var users: map<nat, User>
    /** `_activeUser`: the active identifier, `""` until `load` resolves it. */
    var activeUser: string

    /** Every record sits under the key of its own identifier, with the directory and a valid name a scan gives it. */
    ghost predicate Valid()
      reads this
    {
      WellFormedUsers(hdd0, users)
    }

    /** The map is what a scan of the disk yields now. */
    ghost predicate Synced()
      reads this
    {
      users == Scan(hdd0, home)
    }

    constructor (hdd0: string, home: Home, storedActiveUser: Option<string>)
      ensures Valid()
      ensures this.hdd0 == hdd0 && this.home == home && this.storedActiveUser == storedActiveUser
      ensures users == map[] && activeUser == ""
    {
      this.hdd0 := hdd0;
      this.home := home;
      this.storedActiveUser := storedActiveUser;
      users := map[];
      activeUser := "";
    }

    /** `getUsername`: the name of the account with identifier `userId`, if there is one. */
    function GetUsername(userId: string): (name: Option<string>)
      reads this
      requires Valid()
      ensures name.Some? <==> exists k :: k in users && users[k].userId == userId
      ensures forall k :: k in users && users[k].userId == userId ==> name == Some(users[k].username)
    {
      var key := KeyOrZero(userId);
      if key in users && users[key].userId == userId then Some(users[key].username) else None
    }

    /**
     * `getUserAccounts`: one pass over the entries of `home/`, keeping the
     * directories whose name has a nonzero key.
     */
    method GetUserAccounts() returns (userList: map<nat, User>)
      ensures userList == Scan(hdd0, home)
    {
      userList := map[];
      if home.None? {
        return;
      }
      var dirs := home.value;
      var rest := dirs.Keys;
      while rest != {}
        invariant rest <= dirs.Keys
        invariant userList == ScanNames(hdd0, dirs, dirs.Keys - rest)
        decreases rest
      {
        var name :| name in rest;
        ghost var done := dirs.Keys - rest;
        rest := rest - {name};
        assert dirs.Keys - rest == done + {name};
        if !dirs[name].Directory? {
          ScanNamesSkip(hdd0, dirs, done, name);
          continue;
        }
        var key := KeyOrZero(name);
        if key == 0 {
          ScanNamesSkip(hdd0, dirs, done, name);
          continue;
        }
        ScanNamesAdd(hdd0, dirs, done, name);
        userList := userList[key := ToUser(hdd0, name, dirs[name].localUsername)];
      }
    }

    /** `refreshUsersList`: the map is replaced wholesale by a fresh scan; nothing of the old map survives. */
    method RefreshUsersList()
      modifies this
      ensures Valid() && Synced()
      ensures home == old(home) && activeUser == old(activeUser) && storedActiveUser == old(storedActiveUser)
    {
      var scanned := GetUserAccounts();
      ScanWellFormed(hdd0, home);
      users := scanned;
    }

    /**
     * `findNextFreeUserId`: walks the keys in ascending order looking for the
     * first gap; the zero-padded first free key, or nothing when that key
     * does not fit in eight digits.
     */
    method FindNextFreeUserId() returns (id: Option<string>)
      ensures id.Some? <==> FirstFree(users.Keys) < IdLimit
      ensures id.Some? ==> id.value == Format8(FirstFree(users.Keys))
    {
      var taken := users.Keys;
      ghost var seen: set<nat> := {};
      var candidate := 1;
      while taken != {}
        invariant taken + seen == users.Keys && taken !! seen
        invariant candidate >= 1
        invariant forall p, j :: p in seen && j in taken ==> p < j
        invariant forall p :: p in seen ==> p < candidate
        invariant forall j :: 1 <= j < candidate ==> j in users.Keys
        decreases taken
      {
        ghost var least := MinKey(taken);
        var k: nat :| IsLeast(taken, k);
        assert IsLeast(taken, k);
        if k == candidate {
          candidate := candidate + 1;
        } else if k > candidate {
          break;
        }
        taken := taken - {k};
        seen := seen + {k};
      }
      FirstFreeUnique(users.Keys, candidate);
      id := if candidate < IdLimit then Some(Format8(candidate)) else None;
    }

    /**
     * `generateUser`: creates `home/<userId>`, its three sub-directories and
     * its `localusername`. When a plain file already sits at `home/<userId>`
     * the write throws and the disk is left as it was (`ok` is false).
     */
    method GenerateUser(userId: string, userName: string) returns (ok: bool)
      requires IsValidUserId(userId)
      modifies this
      ensures ok == !HasFile(old(home), userId)
      ensures home == if ok then Some(CreatedHome(old(home), userId, userName)) else old(home)
      ensures users == old(users) && activeUser == old(activeUser) && storedActiveUser == old(storedActiveUser)
    {
      if HasFile(home, userId) {
        return false;
      }
      home := Some(CreatedHome(home, userId, userName));
      return true;
    }

    /**
     * `createUser`: with a valid name and a free identifier, creates the
     * account under the first free key and refreshes; an invalid name, an
     * exhausted identifier space or a failed creation change nothing.
     */
    method CreateUser(username: string)
      requires Valid()
      modifies this
      ensures Valid()
      ensures activeUser == old(activeUser) && storedActiveUser == old(storedActiveUser)
      ensures var f := FirstFree(old(users).Keys);
              if !ValidUsername(username) || f >= IdLimit || HasFile(old(home), Format8(f)) then
                users == old(users) && home == old(home)
              else
                home == Some(CreatedHome(old(home), Format8(f), username)) && Synced()
      ensures var f := FirstFree(old(users).Keys);
              old(Synced()) && ValidUsername(username) && f < IdLimit && !HasFile(old(home), Format8(f)) ==>
                users == old(users)[f := User(Format8(f), UserDir(hdd0, Format8(f)), username)]
    {
      if !ValidUsername(username) {
        return;
      }
      var nextId := FindNextFreeUserId();
      if nextId.None? {
        return;
      }
      ghost var oldHome := home;
      ghost var synced := Synced();
      var ok := GenerateUser(nextId.value, username);
      if !ok {
        return;
      }
      RefreshUsersList();
      if synced {
        CreateAddsFirstFree(hdd0, oldHome, username);
      }
    }

    /**
     * `removeUser`: an invalid identifier or the active one changes nothing;
     * otherwise the account's directory is deleted when the map holds it and
     * the deletion succeeds, and the map is refreshed.
     */
    method RemoveUser(userId: string, deleteSucceeds: bool)
      requires Valid()
      modifies this
      ensures Valid()
      ensures activeUser == old(activeUser) && storedActiveUser == old(storedActiveUser)
      ensures !IsValidUserId(userId) || userId == old(activeUser) ==>
                users == old(users) && home == old(home)
      ensures IsValidUserId(userId) && userId != old(activeUser) ==>
                && Synced()
                && home == if KeyOrZero(userId) in old(users) && deleteSucceeds && old(home).Some?
                           then Some(old(home).value - {userId}) else old(home)
      ensures IsValidUserId(userId) && userId != old(activeUser) && old(Synced()) ==>
                users == if deleteSucceeds then old(users) - {KeyOrZero(userId)} else old(users)
    {
      if !IsValidUserId(userId) || activeUser == userId {
        return;
      }
      var key := KeyOrZero(userId);
      if key in users && deleteSucceeds && home.Some? {
        ParseRoundTrip(userId);
        assert users[key].userId == userId;
        ScanRemove(hdd0, home.value, userId);
        home := Some(home.value - {userId});
      }
      RefreshUsersList();
    }

    /**
     * `renameUser`: an invalid identifier or name changes nothing; otherwise
     * the name is written into `home/<userId>/localusername` when that
     * directory exists and the write succeeds (a failed write is swallowed),
     * and the map is refreshed.
     */
    method RenameUser(userId: string, username: string, writeSucceeds: bool)
      requires Valid()
      modifies this
      ensures Valid()
      ensures activeUser == old(activeUser) && storedActiveUser == old(storedActiveUser)
      ensures !IsValidUserId(userId) || !ValidUsername(username) ==>
                users == old(users) && home == old(home)
      ensures IsValidUserId(userId) && ValidUsername(username) ==>
                && Synced()
                && home == if writeSucceeds && old(home).Some? && IsUserDir(old(home).value, userId)
                           then Some(old(home).value[userId := old(home).value[userId].(localUsername := Some(username))])
                           else old(home)
      ensures var key := KeyOrZero(userId);
              IsValidUserId(userId) && ValidUsername(username) && old(Synced()) ==>
                users == if writeSucceeds && key in old(users)
                         then old(users)[key := old(users)[key].(username := username)]
                         else old(users)
    {
      if !IsValidUserId(userId) || !ValidUsername(username) {
        return;
      }
      var key := KeyOrZero(userId);
      ghost var synced := Synced();
      if synced && key in users {
        ParseRoundTrip(userId);
        assert IsUserDir(home.value, userId);
      }
      if writeSucceeds && home.Some? && IsUserDir(home.value, userId) {
        ghost var dirs := home.value;
        if key != 0 {
          RenameChangesOnlyName(hdd0, dirs, userId, username);
        } else {
          ScanPut(hdd0, dirs, userId, dirs[userId].(localUsername := Some(username)));
        }
        home := Some(home.value[userId := home.value[userId].(localUsername := Some(username))]);
      }
      RefreshUsersList();
    }

    /**
     * `loginUser`: a valid identifier becomes the active one and is stored
     * under `"active_user"`, whether or not an account has it; an invalid one
     * changes nothing.
     */
    method LoginUser(userId: string)
      modifies this
      ensures users == old(users) && home == old(home)
      ensures IsValidUserId(userId) ==> activeUser == userId && storedActiveUser == Some(userId)
      ensures !IsValidUserId(userId) ==>
                activeUser == old(activeUser) && storedActiveUser == old(storedActiveUser)
    {
      if !IsValidUserId(userId) {
        return;
      }
      activeUser := userId;
      storedActiveUser := Some(userId);
    }

    /**
     * `load`: refreshes the map, then settles the active identifier by the
     * rule of `ResolveActive`, given what the emulator reports (`None` when it
     * reports nothing or the call fails).
     */
    method Load(fromEmu: Option<string>)
      requires Valid()
      modifies this
      ensures Valid() && Synced()
      ensures home == old(home) && storedActiveUser == old(storedActiveUser)
      ensures KeysInRange(users.Keys)
      ensures activeUser == ResolveActive(users.Keys, fromEmu, storedActiveUser)
      ensures IsValidUserId(activeUser)
      ensures users == map[] ==> activeUser == "00000001"
      ensures users != map[] ==> KeyOrZero(activeUser) in users && activeUser == users[KeyOrZero(activeUser)].userId
    {
      RefreshUsersList();
      var keys := users.Keys;
      assert KeysInRange(keys);
      var fromSettings := GetUserFromSettings(storedActiveUser);
      var resolved := if fromEmu.Some? && IsValidUserId(fromEmu.value) then fromEmu.value else fromSettings;
      if KeyOrZero(resolved) !in keys {
        if keys == {} {
          resolved := "00000001";
        } else {
          ghost var least := MinKey(keys);
          var m: nat :| IsLeast(keys, m);
          assert IsLeast(keys, m);
          assert m == least;
          resolved := Format8(m);
        }
      }
      assert resolved == ResolveActive(keys, fromEmu, storedActiveUser);
      ResolveActiveIsPresent(keys, fromEmu, storedActiveUser);
      activeUser := resolved;
      assert users == map[] <==> keys == {};
    }
  }
}
