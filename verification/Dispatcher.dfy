/** The requests, written as the server carries them out: record by record through the data layer. */
module Dispatchers {
  import opened Basics
  import opened Text
  import opened Keys
  import opened Records
  import opened DataHandlers
  import opened Drive
  import opened Tree
  import opened Invariants
  import opened KeepBasics
  import opened KeepMany
  import opened Runs
  import opened History
  import opened Refinement
  import opened Teardown
  import opened Search

  class RequestDispatcher {
    const dh: DataHandler
    const maxUserQuota: nat

    ghost predicate Valid()
      reads this, dh, dh.dbh
    {
      dh.Valid()
    }

    constructor (maxUserQuota: nat)
      ensures Valid() && dh.st == EMPTY_STORE && this.maxUserQuota == maxUserQuota
    {
      dh := new DataHandler();
      this.maxUserQuota := maxUserQuota;
    }

    // A restart of the server goes on with the store as it was.
    constructor Reopen(before: RequestDispatcher)
      requires before.Valid()
      ensures Valid() && dh.st == before.dh.st && maxUserQuota == before.maxUserQuota
    {
      dh := new DataHandler.Reopen(before.dh);
      maxUserQuota := before.maxUserQuota;
    }

    // ---------- recursions up to the root ----------

    method IncreaseDirSizeRecursive(dirId: Id, sizeIncreased: string) returns (r: Outcome)
      requires Valid() && Ascends(dh.st.dirs, dirId) && IsNum(sizeIncreased)
      modifies dh`st, dh.dbh
      ensures Valid()
      ensures dh.st == old(dh.st).(dirs := AddSizes(old(dh.st).dirs, dirId, Val(sizeIncreased)))
      ensures r == if dirId in old(dh.st).dirs then Done else Failed(STATUS_KEY_NOT_FOUND)
      decreases Val(dirId)
    {
      var found, info := dh.GetDirectoryInfo(dirId);
      if !found {
        NothingAbove(dh.st.dirs, dirId, Val(sizeIncreased), "");
        return Failed(STATUS_KEY_NOT_FOUND);
      }
      ghost var s := dh.st;
      if info.parent != NO_PARENT {
        AscendsUp(dh.st.dirs, dirId);
        r := IncreaseDirSizeRecursive(info.parent, sizeIncreased);
      }
      var newSize := Plus(info.size, sizeIncreased);
      GrowSelf(s, dh.st, dirId, Val(sizeIncreased), info, newSize);
      dh.ModifyDirectoryInfo(dirId, info.name, info.date, info.tags, newSize);
      r := Done;
    }

    method DecreaseDirSizeRecursive(dirId: Id, sizeDecreased: string) returns (r: Outcome)
      requires Valid() && Ascends(dh.st.dirs, dirId) && IsNum(sizeDecreased)
      modifies dh`st, dh.dbh
      ensures Valid()
      ensures dh.st == Shrunk(old(dh.st), dirId, Val(sizeDecreased))
      ensures r == if dirId in old(dh.st).dirs then Done else Failed(STATUS_KEY_NOT_FOUND)
      decreases Val(dirId)
    {
      var found, info := dh.GetDirectoryInfo(dirId);
      if !found {
        NothingShrunk(dh.st, dirId, Val(sizeDecreased));
        return Failed(STATUS_KEY_NOT_FOUND);
      }
      ghost var s := dh.st;
      if info.parent != NO_PARENT {
        AscendsUp(dh.st.dirs, dirId);
        r := DecreaseDirSizeRecursive(info.parent, sizeDecreased);
      }
      var newSize := Minus(info.size, sizeDecreased);
      ShrinkSelf(s, dh.st, dirId, info, sizeDecreased);
      dh.ModifyDirectoryInfo(dirId, info.name, info.date, info.tags, newSize);
      r := Done;
    }

    method ChangeDirDateRecursive(dirId: Id, newDate: string) returns (r: Outcome)
      requires Valid() && Ascends(dh.st.dirs, dirId)
      modifies dh`st, dh.dbh
      ensures Valid()
      ensures dh.st == old(dh.st).(dirs := SetDates(old(dh.st).dirs, dirId, newDate))
      ensures r == if dirId in old(dh.st).dirs then Done else Failed(STATUS_KEY_NOT_FOUND)
      decreases Val(dirId)
    {
      var found, info := dh.GetDirectoryInfo(dirId);
      if !found {
        NothingAbove(dh.st.dirs, dirId, 0, newDate);
        return Failed(STATUS_KEY_NOT_FOUND);
      }
      SetDatesClimb(dh.st.dirs, dirId, newDate);
      if info.parent != NO_PARENT {
        AscendsUp(dh.st.dirs, dirId);
        r := ChangeDirDateRecursive(info.parent, newDate);
      }
      dh.ModifyDirectoryInfo(dirId, info.name, newDate, info.tags, info.size);
      r := Done;
    }

    // ---------- quota and revision ----------

    method IncreaseUserQuotaUsed(userId: Id, quotaIncreased: string) returns (r: Outcome)
      requires Valid() && IsNum(quotaIncreased)
      modifies dh`st, dh.dbh
      ensures Valid()
      ensures userId !in old(dh.st).users ==> dh.st == old(dh.st) && r == Failed(STATUS_KEY_NOT_FOUND)
      ensures userId in old(dh.st).users ==> dh.st == WithQuota(old(dh.st), userId, Val(quotaIncreased)) && r == Done
    {
      var found, info := dh.GetUserInfo(userId);
      if !found { return Failed(STATUS_KEY_NOT_FOUND); }
      var _ := dh.ModifyUserInfo(userId, info.email, info.name, info.location, info.shared,
                                 Plus(info.quota, quotaIncreased),
                                 info.deleted);
      r := Done;
    }

    method DecreaseUserQuotaUsed(userId: Id, quotaDecreased: string) returns (r: Outcome)
      requires Valid() && IsNum(quotaDecreased)
      modifies dh`st, dh.dbh
      ensures Valid()
      ensures userId !in old(dh.st).users ==> dh.st == old(dh.st) && r == Failed(STATUS_KEY_NOT_FOUND)
      ensures userId in old(dh.st).users ==>
                dh.st == Repaid(old(dh.st), userId, quotaDecreased) && r == Done
    {
      var found, info := dh.GetUserInfo(userId);
      if !found { return Failed(STATUS_KEY_NOT_FOUND); }
      RepaidAs(dh.st, userId, info, quotaDecreased);
      var _ := dh.ModifyUserInfo(userId, info.email, info.name, info.location, info.shared,
                                 Minus(info.quota, quotaDecreased),
                                 info.deleted);
      r := Done;
    }

    method IncreaseFileRevision(fileId: Id) returns (r: Outcome)
      requires Valid()
      modifies dh`st, dh.dbh
      ensures Valid()
      ensures fileId !in old(dh.st).files ==> dh.st == old(dh.st) && r == Failed(STATUS_KEY_NOT_FOUND)
      ensures fileId in old(dh.st).files ==> dh.st == WithRevision(old(dh.st), fileId) && r == Done
    {
      var found, info := dh.GetFileInfo(fileId);
      if !found { return Failed(STATUS_KEY_NOT_FOUND); }
      dh.ModifyFileRevision(fileId, Plus(info.revision, "1"));
      r := Done;
    }

    // ---------- signing up and adding directories ----------

    method SignUp(email: string, password: string, firstName: string, lastName: string, gpsLat: string, gpsLon: string,
                  newToken: string, date: string) returns (userId: Id, r: Outcome)
      requires Valid()
      modifies dh`st, dh.dbh
      ensures Valid()
      ensures (dh.st, r) == UserAdded(old(dh.st), email, Pair(firstName, lastName), Pair(gpsLat, gpsLon), date)
      ensures r == Done ==> userId == NextId(old(dh.st), UserTicket)
    {
      var name := firstName + [DELIMITER] + lastName;
      var location := gpsLat + [DELIMITER] + gpsLon;
      userId, r := dh.AddUser(email, password, name, location, newToken, date);
    }

    method GetRootDirId(userId: Id) returns (r: Outcome, root: Id)
      requires Valid()
      ensures r == if userId in dh.st.users then Done else Failed(STATUS_KEY_NOT_FOUND)
      ensures r == Done ==> root == dh.st.users[userId].root
    {
      var found, info := dh.GetUserInfo(userId);
      if !found { return Failed(STATUS_KEY_NOT_FOUND), ""; }
      return Done, info.root;
    }

    method NewDirectory(userId: Id, name: string, date: string, parentDirId: Id) returns (dirId: Id, r: Outcome)
      requires Valid() && Rooted(Par(dh.st.dirs)) && NextId(dh.st, DirTicket) !in dh.st.dirs
      modifies dh`st, dh.dbh
      ensures Valid()
      ensures (dh.st, r) == DoNewDirectory(old(dh.st), userId, name, date, parentDirId)
      ensures r == Done ==> dirId == NextId(old(dh.st), DirTicket)
    {
      dirId := "";
      var parent := parentDirId;
      if parentDirId == LABEL_ZERO {
        var found, root := GetRootDirId(userId);
        if found != Done { return dirId, found; }
        parent := root;
      }
      ghost var s := dh.st;
      dirId, r := dh.AddDirectory(userId, name, date, parent);
      if r != Done { return dirId, r; }
      AddedAscends(s, userId, name, date, parent);
      if parent !in dh.st.dirs {
        NothingAbove(dh.st.dirs, parent, 0, date);
      }
      r := ChangeDirDateRecursive(parent, date);
    }

    // ---------- uploads ----------

    method SearchRevisionFile(parentDirId: Id, name: string, extension: string)
      returns (ok: bool, revisionFound: bool, revisionFileId: Id, revisionFileInfo: FileInfo)
      requires Valid()
      ensures ok == (parentDirId in dh.st.dirs
                     && FindRevision(dh.st, dh.st.dirs[parentDirId].files, name, extension) != MissingFile)
      ensures ok ==>
                FindRevision(dh.st, dh.st.dirs[parentDirId].files, name, extension)
                  == if revisionFound then Revision(revisionFileId) else NewName
      ensures ok && revisionFound ==> revisionFileId in dh.st.files && IsNum(revisionFileInfo.size)
                                      && ReadFile(revisionFileInfo) == dh.st.files[revisionFileId]
    {
      revisionFound, revisionFileId := false, "0";
      revisionFileInfo := FileInfo("", "", "", "", "", "", "", "", "", "");
      var found, parentInfo := dh.GetDirectoryInfo(parentDirId);
      if !found { return false, revisionFound, revisionFileId, revisionFileInfo; }
      var existentFiles := SplitString(parentInfo.files);
      ghost var all := existentFiles;
      while existentFiles != [] && !revisionFound
        invariant FindRevision(dh.st, all, name, extension)
               == if revisionFound then Revision(revisionFileId)
                 else FindRevision(dh.st, existentFiles, name, extension)
        invariant revisionFound ==> revisionFileId in dh.st.files && IsNum(revisionFileInfo.size)
                                    && ReadFile(revisionFileInfo) == dh.st.files[revisionFileId]
        decreases |existentFiles|
      {
        revisionFileId := existentFiles[0];
        found, revisionFileInfo := dh.GetFileInfo(revisionFileId);
        if !found { return false, revisionFound, revisionFileId, revisionFileInfo; }
        if revisionFileInfo.name == name && revisionFileInfo.extension == extension {
          revisionFound := true;
        }
        existentFiles := existentFiles[1..];
      }
      ok := true;
    }

    // room is the number of bytes that the disk takes.
    method NewFile(userId: Id, name: string, extension: string, date: string, size: string, parentDirId: Id, room: nat)
      returns (fileId: Id, r: Outcome)
      requires Valid() && Rooted(Par(dh.st.dirs)) && IsNum(size)
      modifies dh`st, dh.dbh
      ensures Valid()
      ensures (dh.st, r)
           == DoNewFile(old(dh.st), maxUserQuota, userId, name, extension, date, Val(size), parentDirId, room)
      ensures r == Done ==>
                fileId == if Target(old(dh.st), userId, parentDirId, name, extension) == NewName
                          then NextId(old(dh.st), FileTicket) else ""
    {
      fileId := "";
      var known, user := dh.GetUserInfo(userId);
      if !known { return fileId, Failed(STATUS_KEY_NOT_FOUND); }
      if (Val(user.quota) + Val(size)) % WORD > maxUserQuota {
        return fileId, Failed(STATUS_MAX_QUOTA_EXCEEDED);
      }
      var parent := parentDirId;
      if parentDirId == LABEL_ZERO {
        var found, root := GetRootDirId(userId);
        if found != Done { return fileId, found; }
        parent := root;
      }
      var ok, revisionFound, revisionFileId, revisionFileInfo := SearchRevisionFile(parent, name, extension);
      if !ok { return fileId, Failed(STATUS_UNSET); }
      if revisionFound {
        r := AddRevision(userId, revisionFileId, revisionFileInfo, date, size, parent, room);
      } else {
        fileId, r := AddNewFile(userId, name, extension, date, size, parent, room);
      }
    }

    // An upload of an existing name.
    method AddRevision(userId: Id, fileId: Id, info: FileInfo, date: string, size: string, parent: Id, room: nat)
      returns (r: Outcome)
      requires Valid() && userId in dh.st.users && parent in dh.st.dirs && Rooted(Par(dh.st.dirs)) && IsNum(size)
      requires fileId in dh.st.files && IsNum(info.size) && ReadFile(info) == dh.st.files[fileId]
      modifies dh`st, dh.dbh
      ensures Valid()
      ensures (dh.st, r)
           == if Written(Val(size), room) == 0 then (old(dh.st), Failed(STATUS_FAIL_SAVING_FILE))
              else (Revised(old(dh.st), userId, fileId, date, Val(size), parent), Done)
    {
      if Written(Val(size), room) == 0 { return Failed(STATUS_FAIL_SAVING_FILE); }
      RootedAscends(dh.st.dirs, parent);
      var _ := IncreaseFileRevision(fileId);
      r := AccountUpload(userId, parent, date, size, true, info.size);
    }

    // An upload under a new name into a directory that exists.
    method AddNewFile(userId: Id, name: string, extension: string, date: string, size: string, parent: Id, room: nat)
      returns (fileId: Id, r: Outcome)
      requires Valid() && userId in dh.st.users && parent in dh.st.dirs && Rooted(Par(dh.st.dirs)) && IsNum(size)
      modifies dh`st, dh.dbh
      ensures Valid()
      ensures (dh.st, r)
           == if Written(Val(size), room) == 0 then
                (FailedUpload(old(dh.st), userId, name, extension, date, Val(size), parent),
                 Failed(STATUS_FAIL_SAVING_FILE))
              else (Uploaded(old(dh.st), userId, name, extension, date, Val(size), parent), Done)
      ensures fileId == NextId(old(dh.st), FileTicket)
    {
      ghost var s := dh.st;
      RootedAscends(s.dirs, parent);
      fileId, r := dh.AddFile(userId, name, extension, date, size, LABEL_REVISION_1, parent);
      if Written(Val(size), room) == 0 {
        dh.DeleteFile(fileId);
        return fileId, Failed(STATUS_FAIL_SAVING_FILE);
      }
      FileAddedAscends(s, userId, name, extension, date, Val(size), parent);
      r := AccountUpload(userId, parent, date, size, false, "");
    }

    // The user's quota, and the dates and sizes on the way up from the directory of an upload.
    method AccountUpload(userId: Id, parent: Id, date: string, size: string, revisionFound: bool, oldSize: string)
      returns (r: Outcome)
      requires Valid() && userId in dh.st.users && parent in dh.st.dirs && Ascends(dh.st.dirs, parent)
      requires IsNum(size) && (revisionFound ==> IsNum(oldSize))
      modifies dh`st, dh.dbh
      ensures Valid() && r == Done
      ensures dh.st == Accounted(old(dh.st), userId, parent, date, Val(size), revisionFound,
                                  if revisionFound then Val(oldSize) else 0)
    {
      ghost var dirs := dh.st.dirs;
      r := IncreaseUserQuotaUsed(userId, size);
      r := ChangeDirDateRecursive(parent, date);
      DatedAscends(dirs, parent, date);
      r := ReplaceSize(parent, size, revisionFound, oldSize);
    }

    method ReplaceSize(parent: Id, size: string, revisionFound: bool, oldSize: string) returns (r: Outcome)
      requires Valid() && parent in dh.st.dirs && Ascends(dh.st.dirs, parent)
      requires IsNum(size) && (revisionFound ==> IsNum(oldSize))
      modifies dh`st, dh.dbh
      ensures Valid() && r == Done
      ensures dh.st == old(dh.st).(dirs := Replaced(old(dh.st).dirs, parent, Val(size), revisionFound,
                                                     if revisionFound then Val(oldSize) else 0))
    {
      ghost var s, before := dh.st, if revisionFound then Val(oldSize) else 0;
      if revisionFound {
        GiveBack(parent, oldSize);
      }
      ghost var t := dh.st;
      r := IncreaseDirSizeRecursive(parent, size);
      ReplacedInSteps(s, t, dh.st, parent, Val(size), revisionFound, before);
    }

    // The recorded size of the old revision leaves the directories.
    method GiveBack(parent: Id, oldSize: string)
      requires Valid() && parent in dh.st.dirs && Ascends(dh.st.dirs, parent) && IsNum(oldSize)
      modifies dh`st, dh.dbh
      ensures Valid() && parent in dh.st.dirs && Ascends(dh.st.dirs, parent)
      ensures dh.st == Shrunk(old(dh.st), parent, Val(oldSize))
    {
      GrownAscends(dh.st.dirs, parent, 0 - Val(oldSize) as int);
      var _ := DecreaseDirSizeRecursive(parent, oldSize);
    }

    // ---------- sharing ----------

    method SetFileShare(userOwnerId: Id, fileId: Id, userSharedId: Id, date: string) returns (r: Outcome)
      requires Valid() && (fileId in dh.st.files ==> IsKey(fileId))
               && (userSharedId in dh.st.users ==> IsKey(userSharedId))
      modifies dh`st, dh.dbh
      ensures Valid() && (dh.st, r) == DoSetShare(old(dh.st), userOwnerId, fileId, userSharedId, date)
    {
      var found, file := dh.GetFileInfo(fileId);
      if !found { return Failed(STATUS_KEY_NOT_FOUND); }
      if file.owner != userOwnerId { return Failed(STATUS_USER_FORBIDDEN); }
      var known, user := dh.GetUserInfo(userSharedId);
      if !known { return Failed(STATUS_KEY_NOT_FOUND); }
      InsertTextKey(Split(user.shared), fileId);
      InsertTextKey(Split(file.users), userSharedId);
      var shared := AddKeyToStringList(user.shared, fileId);
      var _ := dh.ModifyUserInfo(userSharedId, user.email, user.name, user.location, shared, user.quota, user.deleted);
      var users := AddKeyToStringList(file.users, userSharedId);
      dh.ModifyFileInfo(fileId, file.name, file.extension, date, file.tags, users, userOwnerId, file.parent);
      r := Done;
    }

    method UnsetFileShare(userOwnerId: Id, fileId: Id, userSharedId: Id, date: string) returns (r: Outcome)
      requires Valid()
      modifies dh`st, dh.dbh
      ensures Valid() && (dh.st, r) == DoUnsetShare(old(dh.st), userOwnerId, fileId, userSharedId, date)
    {
      var found, file := dh.GetFileInfo(fileId);
      if !found { return Failed(STATUS_KEY_NOT_FOUND); }
      if file.owner != userOwnerId { return Failed(STATUS_USER_FORBIDDEN); }
      var known, user := dh.GetUserInfo(userSharedId);
      if !known { return Failed(STATUS_KEY_NOT_FOUND); }
      var shared := RemoveKeyFromStringList(user.shared, fileId);
      var _ := dh.ModifyUserInfo(userSharedId, user.email, user.name, user.location, shared, user.quota, user.deleted);
      var users := RemoveKeyFromStringList(file.users, userSharedId);
      dh.ModifyFileInfo(fileId, file.name, file.extension, date, file.tags, users, userOwnerId, file.parent);
      r := Done;
    }

    // The source falls off the end without a result; Done stands for that.
    method OverwriteFileSharingByList(userOwnerId: Id, fileId: Id, newUserSharedIds: seq<Id>, date: string)
      returns (r: Outcome)
      requires Valid() && (fileId in dh.st.files ==> IsKey(fileId)) && forall u :: u in dh.st.users ==> IsKey(u)
      modifies dh`st, dh.dbh
      ensures Valid() && (dh.st, r) == DoOverwrite(old(dh.st), userOwnerId, fileId, newUserSharedIds, date)
    {
      ghost var s := dh.st;
      var found, file := dh.GetFileInfo(fileId);
      if !found { return Failed(STATUS_KEY_NOT_FOUND); }
      if file.owner != userOwnerId { return Failed(STATUS_USER_FORBIDDEN); }

      r := UnsetAll(userOwnerId, fileId, file.users, file.date);
      if r != Done { return r; }
      UnshareEachPlaces(s, userOwnerId, fileId, Split(file.users), file.date);
      r := SetAll(userOwnerId, fileId, newUserSharedIds, date);
    }

    // The first loop: all previous shares are taken back.
    method UnsetAll(userOwnerId: Id, fileId: Id, usersShared: string, date: string) returns (r: Outcome)
      requires Valid()
      modifies dh`st, dh.dbh
      ensures Valid() && (dh.st, r) == UnshareEach(old(dh.st), userOwnerId, fileId, Split(usersShared), date)
    {
      ghost var s := dh.st;
      var it := SplitString(usersShared);
      while it != []
        invariant Valid()
        invariant UnshareEach(dh.st, userOwnerId, fileId, it, date)
               == UnshareEach(s, userOwnerId, fileId, Split(usersShared), date)
        decreases |it|
      {
        r := UnsetFileShare(userOwnerId, fileId, it[0], date);
        if r != Done { return r; }
        it := it[1..];
      }
      r := Done;
    }

    // The second loop: the new users are set.
    method SetAll(userOwnerId: Id, fileId: Id, users: seq<Id>, date: string) returns (r: Outcome)
      requires Valid() && (fileId in dh.st.files ==> IsKey(fileId)) && forall u :: u in dh.st.users ==> IsKey(u)
      modifies dh`st, dh.dbh
      ensures Valid() && (dh.st, r) == ShareEach(old(dh.st), userOwnerId, fileId, users, date)
    {
      ghost var s := dh.st;
      var it := users;
      while it != []
        invariant Valid() && dh.st.users.Keys == s.users.Keys && dh.st.files.Keys == s.files.Keys
        invariant ShareEach(dh.st, userOwnerId, fileId, it, date) == ShareEach(s, userOwnerId, fileId, users, date)
        decreases |it|
      {
        r := SetFileShare(userOwnerId, fileId, it[0], date);
        if r != Done { return r; }
        it := it[1..];
      }
      r := Done;
    }

    // ---------- deletion ----------

    method DeleteFile(userId: Id, fileId: Id) returns (r: Outcome)
      requires Valid() && Deletable(dh.st, fileId)
      modifies dh`st, dh.dbh
      ensures Valid() && (dh.st, r) == DoDeleteFile(old(dh.st), userId, fileId)
    {
      var found, file := dh.GetFileInfo(fileId);
      if !found { return Failed(STATUS_KEY_NOT_FOUND); }
      var isOwner, isShared := file.owner == userId, false;
      if !isOwner {
        isShared := IsListed(file.users, userId);
      }
      if !isOwner && !isShared { return Failed(STATUS_USER_FORBIDDEN); }
      if isOwner {
        r := MoveToTrash(userId, fileId, file);
        if r != Done { return r; }
      }
      if isShared {
        r := UnsetFileShare(file.owner, fileId, userId, file.date);
      }
    }

    // The owner's deletion: the file goes to the trash, out of its directory and away from everyone it was shared with.
    method MoveToTrash(userId: Id, fileId: Id, file: FileInfo) returns (r: Outcome)
      requires Valid() && Deletable(dh.st, fileId) && fileId in dh.st.files && file.owner == userId
      requires ReadFile(file) == dh.st.files[fileId] && IsNum(file.size)
      modifies dh`st, dh.dbh
      ensures Valid() && (dh.st, r) == DoDeleteFile(old(dh.st), userId, fileId)
    {
      ghost var s := dh.st;
      r := AddToTrash(userId, fileId);
      if r != Done { return r; }
      r := RemoveFromDirectory(file.parent, fileId);
      if r != Done { return r; }
      TrashedInSteps(s, fileId);
      UnshareFromAll(userId, fileId, file.users, file.date);
      r := DecreaseDirSizeRecursive(file.parent, file.size);
    }

    method RemoveFromDirectory(dirId: Id, fileId: Id) returns (r: Outcome)
      requires Valid()
      modifies dh`st, dh.dbh
      ensures Valid()
      ensures dirId !in old(dh.st).dirs ==> dh.st == old(dh.st) && r == Failed(STATUS_KEY_NOT_FOUND)
      ensures dirId in old(dh.st).dirs ==> dh.st == Delisted(old(dh.st), dirId, fileId) && r == Done
    {
      var found, dir := dh.GetDirectoryInfo(dirId);
      if !found { return Failed(STATUS_KEY_NOT_FOUND); }
      var filesContained := RemoveKeyFromStringList(dir.files, fileId);
      dh.ModifyDirectoryFilesContained(dirId, filesContained);
      r := Done;
    }

    method AddToTrash(userId: Id, fileId: Id) returns (r: Outcome)
      requires Valid() && IsKey(fileId)
      modifies dh`st, dh.dbh
      ensures Valid()
      ensures userId !in old(dh.st).users ==> dh.st == old(dh.st) && r == Failed(STATUS_KEY_NOT_FOUND)
      ensures userId in old(dh.st).users ==>
                dh.st == WithTrash(old(dh.st), userId, old(dh.st).users[userId].deleted + [fileId]) && r == Done
    {
      var known, owner := dh.GetUserInfo(userId);
      if !known { return Failed(STATUS_KEY_NOT_FOUND); }
      SplitKeys(owner.deleted);
      InsertTextDelimited(Split(owner.deleted), fileId);
      var deleted := AddKeyToStringList(owner.deleted, [DELIMITER] + fileId);
      var _ := dh.ModifyUserInfo(userId, owner.email, owner.name, owner.location, owner.shared, owner.quota, deleted);
      r := Done;
    }

    method UnshareFromAll(userId: Id, fileId: Id, usersShared: string, date: string)
      requires Valid() && fileId in dh.st.files && dh.st.files[fileId].owner == userId
      requires forall u :: u in Split(usersShared) ==> u in dh.st.users
      modifies dh`st, dh.dbh
      ensures Valid() && dh.st == Cleared(old(dh.st), fileId, Split(usersShared), date)
    {
      ghost var t := Cleared(dh.st, fileId, Split(usersShared), date);
      UnshareEachClears(dh.st, userId, fileId, Split(usersShared), date);
      var it := SplitString(usersShared);
      while it != []
        invariant Valid() && UnshareEach(dh.st, userId, fileId, it, date) == (t, Done)
        decreases |it|
      {
        var _ := UnsetFileShare(userId, fileId, it[0], date);
        it := it[1..];
      }
    }

    // d is deleted after the directories done were, in the store s.
    method DeleteDirRecursive(d: Id, ghost s: Store, ghost done: seq<Id>) returns (r: Outcome)
      requires Valid() && Ready(s, maxUserQuota, done, d) && dh.st == Deleted(s, done)
      modifies dh`st, dh.dbh
      ensures Valid() && dh.st == Deleted(s, done + Walk(s, false, d)) && r == Done
      decreases Room(s, d), 1
    {
      DirThere(s, maxUserQuota, done, d);
      var _, info := dh.GetDirectoryInfo(d);
      DeleteSubdirs(d, info.dirs, s, done);
      DeleteFilesContained(d, info.files, s, done);
      dh.DeleteDirectory(d);
      EraseLast(s, done, d);
      r := Done;
    }

    // The first loop: the children in turn.
    method DeleteSubdirs(d: Id, directoriesContained: string, ghost s: Store, ghost done: seq<Id>)
      requires Valid() && Ready(s, maxUserQuota, done, d) && dh.st == Deleted(s, done)
      requires Split(directoriesContained) == s.dirs[d].dirs
      modifies dh`st, dh.dbh
      ensures Valid() && dh.st == Deleted(s, DoneKids(s, done, d, s.dirs[d].dirs))
      decreases Room(s, d), 0
    {
      var subdirs := SplitString(directoriesContained);
      var i := 0;
      KidsStart(s, done, d);
      while i < |subdirs|
        invariant 0 <= i <= |subdirs| && Valid() && dh.st == DeletedKids(s, done, d, i)
      {
        KidReady(s, maxUserQuota, done, d, i);
        KidDone(s, done, d, i);
        var _ := DeleteDirRecursive(subdirs[i], s, DoneKids(s, done, d, s.dirs[d].dirs[..i]));
        i := i + 1;
      }
      KidsEnd(s, done, d);
    }

    // The second loop: each file is deleted on behalf of its owner.
    method DeleteFilesContained(d: Id, filesContained: string, ghost s: Store, ghost done: seq<Id>)
      requires Valid() && Ready(s, maxUserQuota, done, d) && dh.st == Deleted(s, DoneKids(s, done, d, s.dirs[d].dirs))
      requires Split(filesContained) == s.dirs[d].files
      modifies dh`st, dh.dbh
      ensures Valid() && dh.st == Halfway(s, DoneKids(s, done, d, s.dirs[d].dirs), s.dirs[d].files)
    {
      var files := SplitString(filesContained);
      var j := 0;
      HalfwayNone(s, DoneKids(s, done, d, s.dirs[d].dirs));
      while j < |files|
        invariant 0 <= j <= |files| && Valid()
        invariant dh.st == Halfway(s, DoneKids(s, done, d, s.dirs[d].dirs), files[..j])
      {
        DeleteNextFile(s, maxUserQuota, done, d, j);
        var _, file := dh.GetFileInfo(files[j]);
        var _ := DeleteFile(file.owner, files[j]);
        j := j + 1;
      }
      assert files[..j] == s.dirs[d].files;
    }

    method DeleteDirectory(userId: Id, dirId: Id) returns (r: Outcome)
      requires Valid() && Inv(dh.st, maxUserQuota)
      modifies dh`st, dh.dbh
      ensures Valid() && (dh.st, r) == DoDeleteDirectory(old(dh.st), userId, dirId)
    {
      if dirId == LABEL_ZERO { return Failed(STATUS_DELETE_ROOT_DIR_FORBIDDEN); }
      var found, info := dh.GetDirectoryInfo(dirId);
      if !found { return Failed(STATUS_KEY_NOT_FOUND); }
      if userId != info.owner { return Failed(STATUS_USER_FORBIDDEN); }
      ghost var s := dh.st;
      NothingDeleted(s);
      StartReady(s, maxUserQuota, dirId);
      r := DeleteDirRecursive(dirId, s, []);
      r := RemoveFromParent(info.parent, dirId);
    }

    method RemoveFromParent(parent: Id, dirId: Id) returns (r: Outcome)
      requires Valid()
      modifies dh`st, dh.dbh
      ensures Valid() && (dh.st, r) == Unlinked(old(dh.st), parent, dirId)
    {
      var kept, info := dh.GetDirectoryInfo(parent);
      if !kept { return Failed(STATUS_KEY_NOT_FOUND); }
      var directoriesContained := RemoveKeyFromStringList(info.dirs, dirId);
      dh.ModifyDirectoryDirsContained(parent, directoriesContained);
      r := Done;
    }

    // ---------- the trash ----------

    method PurgeDeletedFilesFromUserInfo(filesDeleted: string)
      requires Valid() && Purgeable(dh.st, Split(filesDeleted))
      modifies dh`st, dh.dbh
      ensures Valid() && dh.st == PurgeAll(old(dh.st), Split(filesDeleted))
    {
      ghost var s := dh.st;
      var ids := SplitString(filesDeleted);
      var i := 0;
      while i < |ids|
        invariant 0 <= i <= |ids| && Valid()
        invariant dh.st == PurgeAll(s, ids[..i])
      {
        PurgeNext(s, ids, i);
        PurgeFile(ids[i]);
        i := i + 1;
      }
      assert ids[..i] == ids;
    }

    method PurgeFile(fileId: Id)
      requires Valid() && fileId in dh.st.files && dh.st.files[fileId].owner in dh.st.users
      modifies dh`st, dh.dbh
      ensures Valid() && dh.st == Purged(old(dh.st), fileId)
    {
      ghost var s := dh.st;
      var _, file := dh.GetFileInfo(fileId);
      dh.DeleteFile(fileId);
      PurgedInSteps(s, dh.st, fileId, file);
      var _ := DecreaseUserQuotaUsed(file.owner, file.size);
    }

    method PurgeDeletedFiles(userId: Id) returns (r: Outcome)
      requires Valid() && Purgeable(dh.st, TrashOf(dh.st, userId))
      modifies dh`st, dh.dbh
      ensures Valid() && (dh.st, r) == DoPurge(old(dh.st), userId, TrashOf(old(dh.st), userId), [])
    {
      var found, owner := dh.GetUserInfo(userId);
      if !found { return Failed(STATUS_KEY_NOT_FOUND); }
      PurgeAllRest(dh.st, Split(owner.deleted));
      PurgeDeletedFilesFromUserInfo(owner.deleted);
      r := WriteTrash(userId, "");
    }

    method PurgeSelectedFiles(userId: Id, selected: seq<Id>) returns (r: Outcome)
      requires Valid() && Inv(dh.st, maxUserQuota)
      modifies dh`st, dh.dbh
      ensures Valid()
      ensures (dh.st, r) == DoPurge(old(dh.st), userId, Select(TrashOf(old(dh.st), userId), selected, true),
                                    Select(TrashOf(old(dh.st), userId), selected, false))
    {
      var found, owner := dh.GetUserInfo(userId);
      if !found { return Failed(STATUS_KEY_NOT_FOUND); }
      var toPurge, untouched := DivideSelectedIds(owner.deleted, selected);
      SelectedTrash(dh.st, userId, selected);
      TrashReady(dh.st, maxUserQuota, userId, Split(toPurge));
      PurgeAllRest(dh.st, Split(toPurge));
      PurgeDeletedFilesFromUserInfo(toPurge);
      r := WriteTrash(userId, untouched);
    }

    // Reads the record afresh and writes it back with another trash list.
    method WriteTrash(userId: Id, filesDeleted: string) returns (r: Outcome)
      requires Valid()
      modifies dh`st, dh.dbh
      ensures Valid()
      ensures userId !in old(dh.st).users ==> dh.st == old(dh.st) && r == Failed(STATUS_KEY_NOT_FOUND)
      ensures userId in old(dh.st).users ==> dh.st == WithTrash(old(dh.st), userId, Split(filesDeleted)) && r == Done
    {
      var found, owner := dh.GetUserInfo(userId);
      if !found { return Failed(STATUS_KEY_NOT_FOUND); }
      var _ := dh.ModifyUserInfo(userId, owner.email, owner.name, owner.location, owner.shared, owner.quota,
                                 filesDeleted);
      r := Done;
    }

    method RecoverDeletedFilesFromUserInfo(dirRoot: Id, filesDeleted: string)
      requires Valid() && Restorable(dh.st, dirRoot, Split(filesDeleted))
      modifies dh`st, dh.dbh
      ensures Valid() && dh.st == RestoreAll(old(dh.st), dirRoot, Split(filesDeleted))
    {
      ghost var s := dh.st;
      var ids := SplitString(filesDeleted);
      var i := 0;
      while i < |ids|
        invariant 0 <= i <= |ids| && Valid()
        invariant dh.st == RestoreAll(s, dirRoot, ids[..i])
      {
        RestoreNext(s, dirRoot, ids, i);
        RecoverFile(dirRoot, ids[i]);
        i := i + 1;
      }
      assert ids[..i] == ids;
    }

    method RecoverFile(dirRoot: Id, fileId: Id)
      requires Valid() && fileId in dh.st.files && IsKey(fileId) && dirRoot in dh.st.dirs && Rooted(Par(dh.st.dirs))
      modifies dh`st, dh.dbh
      ensures Valid() && dh.st == Restored(old(dh.st), dirRoot, fileId)
    {
      ghost var s := dh.st;
      var _, file := dh.GetFileInfo(fileId);
      var home := file.parent;
      var found, dir := dh.GetDirectoryInfo(file.parent);
      if !found {
        home := dirRoot;
        dh.ModifyFileInfo(fileId, file.name, file.extension, file.date, file.tags, file.users, file.owner, dirRoot);
        var _, root := dh.GetDirectoryInfo(dirRoot);
        dir := root;
      }
      InsertTextKey(Split(dir.files), fileId);
      var filesContained := AddKeyToStringList(dir.files, fileId);
      dh.ModifyDirectoryFilesContained(home, filesContained);
      assert dh.st == PutBack(s, dirRoot, fileId);
      PutBackAscends(s, dirRoot, fileId);
      var _ := IncreaseDirSizeRecursive(home, file.size);
    }

    method RecoverDeletedFiles(userId: Id) returns (r: Outcome)
      requires Valid() && Inv(dh.st, maxUserQuota)
      modifies dh`st, dh.dbh
      ensures Valid() && (dh.st, r) == DoRecover(old(dh.st), userId, TrashOf(old(dh.st), userId), [])
    {
      var found, owner := dh.GetUserInfo(userId);
      if !found { return Failed(STATUS_KEY_NOT_FOUND); }
      ghost var s := dh.st;
      WholeTrash(s, userId);
      TrashReady(s, maxUserQuota, userId, Split(owner.deleted));
      RestoreAllRest(s, owner.root, Split(owner.deleted));
      RecoverDeletedFilesFromUserInfo(owner.root, owner.deleted);
      var _ := dh.ModifyUserInfo(userId, owner.email, owner.name, owner.location, owner.shared, owner.quota, "");
      r := Done;
    }

    method RecoverSelectedFiles(userId: Id, selected: seq<Id>) returns (r: Outcome)
      requires Valid() && Inv(dh.st, maxUserQuota)
      modifies dh`st, dh.dbh
      ensures Valid()
      ensures (dh.st, r) == DoRecover(old(dh.st), userId, Select(TrashOf(old(dh.st), userId), selected, true),
                                      Select(TrashOf(old(dh.st), userId), selected, false))
    {
      var found, owner := dh.GetUserInfo(userId);
      if !found { return Failed(STATUS_KEY_NOT_FOUND); }
      ghost var s := dh.st;
      var toRecover, untouched := DivideSelectedIds(owner.deleted, selected);
      SelectedTrash(s, userId, selected);
      TrashReady(s, maxUserQuota, userId, Split(toRecover));
      RestoreAllRest(s, owner.root, Split(toRecover));
      RecoverDeletedFilesFromUserInfo(owner.root, toRecover);
      var _ := dh.ModifyUserInfo(userId, owner.email, owner.name, owner.location, owner.shared, owner.quota, untouched);
      r := Done;
    }

    // ---------- deleting a user ----------

    method DeleteUser(userId: Id) returns (r: Outcome)
      requires Valid() && Inv(dh.st, maxUserQuota) && maxUserQuota < WORD
      modifies dh`st, dh.dbh
      ensures Valid() && (dh.st, r) == DoDeleteUser(old(dh.st), userId)
    {
      var found, user := dh.GetUserInfo(userId);
      if !found { return Failed(STATUS_KEY_NOT_FOUND); }
      ghost var s := dh.st;
      assert RootThere(s, userId);
      NothingDeleted(s);
      StartReady(s, maxUserQuota, user.root);
      r := DeleteDirRecursive(user.root, s, []);
      LeavePurgeable(s, maxUserQuota, userId);
      r := PurgeDeletedFiles(userId);
      if r != Done { return r; }
      r := dh.DeleteUser(userId);
    }

    // ---------- changing what is shown ----------

    method ModifyUserInfo(userId: Id, email: string, firstName: string, lastName: string, gpsLat: string,
                          gpsLon: string)
      returns (r: Outcome)
      requires Valid()
      modifies dh`st, dh.dbh
      ensures Valid()
      ensures (dh.st, r) == DoModifyUser(old(dh.st), userId, email, Pair(firstName, lastName), Pair(gpsLat, gpsLon))
    {
      var found, user := dh.GetUserInfo(userId);
      if !found { return Failed(STATUS_KEY_NOT_FOUND); }
      var name := firstName + [DELIMITER] + lastName;
      var location := gpsLat + [DELIMITER] + gpsLon;
      var _ := dh.ModifyUserInfo(userId, email, name, location, user.shared, user.quota, user.deleted);
      r := Done;
    }

    method ModifyDirectoryInfo(userId: Id, dirId: Id, name: string, date: string, tags: string) returns (r: Outcome)
      requires Valid()
      modifies dh`st, dh.dbh
      ensures Valid() && (dh.st, r) == DoModifyDirectory(old(dh.st), userId, dirId, name, date, tags)
    {
      if dirId == LABEL_ZERO { return Failed(STATUS_DELETE_ROOT_DIR_FORBIDDEN); }
      var found, info := dh.GetDirectoryInfo(dirId);
      if !found { return Failed(STATUS_KEY_NOT_FOUND); }
      if userId != info.owner { return Failed(STATUS_USER_FORBIDDEN); }
      dh.ModifyDirectoryInfo(dirId, name, date, tags, info.size);
      r := Done;
    }

    method ModifyFileInfo(userId: Id, fileId: Id, name: string, extension: string, date: string, tags: string)
      returns (r: Outcome)
      requires Valid()
      modifies dh`st, dh.dbh
      ensures Valid() && (dh.st, r) == DoModifyFile(old(dh.st), userId, fileId, name, extension, date, tags)
    {
      var found, file := dh.GetFileInfo(fileId);
      if !found { return Failed(STATUS_KEY_NOT_FOUND); }
      var authorized := file.owner == userId;
      if !authorized {
        authorized := IsListed(file.users, userId);
      }
      if !authorized { return Failed(STATUS_USER_FORBIDDEN); }
      dh.ModifyFileInfo(fileId, name, extension, date, tags, file.users, userId, file.parent);
      r := Done;
    }

    // The search for a user among those a file is shared with.
    method IsListed(list: string, userId: Id) returns (found: bool)
      ensures found <==> userId in Split(list)
    {
      var ids := SplitString(list);
      found := false;
      while ids != [] && !found
        invariant userId in Split(list) <==> found || userId in ids
        decreases |ids|
      {
        assert ids == [ids[0]] + ids[1..];
        if ids[0] == userId { found := true; }
        ids := ids[1..];
      }
    }

    // ---------- searching ----------

    method AddInfoFilesFromIdList(fileIdList: string, mode: Mode, text: string, files: seq<Element>)
      returns (ok: bool, found: seq<Element>)
      requires Valid()
      ensures ok == Present(dh.st, Split(fileIdList))
      ensures ok ==> found == files + FilesFound(dh.st, mode, text, Split(fileIdList))
    {
      var it := SplitString(fileIdList);
      ghost var ids := it;
      found := files;
      while it != []
        invariant Gathered(dh.st, mode, text, ids, files, it, found)
        decreases |it|
      {
        var known, file := dh.GetFileInfo(it[0]);
        if !known { return false, found; }
        GatherNext(dh.st, mode, text, ids, files, it, found);
        found := found + FileFound(mode, text, it[0], ReadFile(file));
        it := it[1..];
      }
      ok := true;
    }

    method SearchByModeRecursive(dirId: Id, mode: Mode, text: string, elements: seq<Element>)
      returns (ok: bool, found: seq<Element>)
      requires Valid() && Searchable(dh.st) && dirId in dh.st.dirs
      ensures ok && found == elements + SearchedTree(dh.st, mode, text, dirId)
      decreases Room(dh.st, dirId)
    {
      var _, dir := dh.GetDirectoryInfo(dirId);
      found := elements + DirFound(mode, text, dirId, ReadDir(dir));
      assert FilesPresent(dh.st, dirId);
      ok, found := AddInfoFilesFromIdList(dir.files, mode, text, found);
      SearchedSelf(dh.st, mode, text, dirId, elements);
      var subdirs := SplitString(dir.dirs);
      var i := 0;
      while i < |subdirs|
        invariant 0 <= i <= |subdirs| && ok
        invariant found == elements + SearchedPart(dh.st, mode, text, dirId, i)
      {
        SearchedKid(dh.st, mode, text, dirId, i, elements);
        ok, found := SearchByModeRecursive(subdirs[i], mode, text, found);
        i := i + 1;
      }
    }

    // The three searches by name, by extension and by tag.
    method SearchOwnedAndShared(userId: Id, mode: Mode, text: string) returns (r: Outcome, found: seq<Element>)
      requires Valid() && Inv(dh.st, maxUserQuota)
      ensures r == if userId in dh.st.users then Done else Failed(STATUS_KEY_NOT_FOUND)
      ensures r == Done ==>
                found == SearchedTree(dh.st, mode, text, dh.st.users[userId].root)
                         + FilesFound(dh.st, mode, text, dh.st.users[userId].shared)
    {
      InvSearchable(dh.st, maxUserQuota);
      var known, user := dh.GetUserInfo(userId);
      if !known { return Failed(STATUS_KEY_NOT_FOUND), []; }
      var ok, owned := SearchByModeRecursive(user.root, mode, text, []);
      assert owned == SearchedTree(dh.st, mode, text, dh.st.users[userId].root);
      ok, found := AddInfoFilesFromIdList(user.shared, mode, text, owned);
      assert found == owned + FilesFound(dh.st, mode, text, Split(user.shared));
      r := Done;
    }

    // ---------- the server's loop ----------

    // Serves one request; passwords and tokens are not part of the model.
    method Serve(q: Request) returns (r: Outcome)
      requires Valid() && Inv(dh.st, maxUserQuota) && maxUserQuota < WORD && (q.NewFile? ==> q.size < WORD)
      modifies dh`st, dh.dbh
      ensures Valid() && (dh.st, r) == Step(old(dh.st), maxUserQuota, q)
    {
      InvServes(dh.st, maxUserQuota);
      match q {
        case SignUp(email, firstName, lastName, gpsLat, gpsLon, date) =>
          var _, o := SignUp(email, "", firstName, lastName, gpsLat, gpsLon, "", date);
          r := o;
        case NewDirectory(user, name, date, parent) =>
          var _, o := NewDirectory(user, name, date, parent);
          r := o;
        case NewFile(user, name, extension, date, size, parent, room) =>
          SizeText(size);
          var _, o := NewFile(user, name, extension, date, ToStr(size), parent, room);
          r := o;
        case DeleteDirectory(user, d) => r := DeleteDirectory(user, d);
        case DeleteFile(user, f) => r := DeleteFile(user, f);
        case DeleteUser(user) => r := DeleteUser(user);
        case ModifyUserInfo(_, _, _, _, _, _) => r := ServeLabels(q);
        case ModifyDirectoryInfo(_, _, _, _, _) => r := ServeLabels(q);
        case ModifyFileInfo(_, _, _, _, _, _) => r := ServeLabels(q);
        case SetFileShare(_, _, _, _) => r := ServeSharing(q);
        case UnsetFileShare(_, _, _, _) => r := ServeSharing(q);
        case OverwriteSharing(_, _, _, _) => r := ServeSharing(q);
        case PurgeTrash(_) => r := ServeTrash(q);
        case PurgeSelected(_, _) => r := ServeTrash(q);
        case RecoverTrash(_) => r := ServeTrash(q);
        case RecoverSelected(_, _) => r := ServeTrash(q);
      }
    }

    method ServeLabels(q: Request) returns (r: Outcome)
      requires Valid() && (q.ModifyUserInfo? || q.ModifyDirectoryInfo? || q.ModifyFileInfo?)
      modifies dh`st, dh.dbh
      ensures Valid() && (dh.st, r) == Step(old(dh.st), maxUserQuota, q)
    {
      if q.ModifyUserInfo? {
        r := ModifyUserInfo(q.user, q.email, q.firstName, q.lastName, q.gpsLat, q.gpsLon);
      } else if q.ModifyDirectoryInfo? {
        r := ModifyDirectoryInfo(q.user, q.dir, q.name, q.date, q.tags);
      } else {
        r := ModifyFileInfo(q.user, q.file, q.name, q.extension, q.date, q.tags);
      }
    }

    method ServeSharing(q: Request) returns (r: Outcome)
      requires Valid() && Inv(dh.st, maxUserQuota) && (q.SetFileShare? || q.UnsetFileShare? || q.OverwriteSharing?)
      modifies dh`st, dh.dbh
      ensures Valid() && (dh.st, r) == Step(old(dh.st), maxUserQuota, q)
    {
      InvServes(dh.st, maxUserQuota);
      if q.SetFileShare? {
        r := SetFileShare(q.user, q.file, q.other, q.date);
      } else if q.UnsetFileShare? {
        r := UnsetFileShare(q.user, q.file, q.other, q.date);
      } else {
        r := OverwriteFileSharingByList(q.user, q.file, q.others, q.date);
      }
    }

    method ServeTrash(q: Request) returns (r: Outcome)
      requires Valid() && Inv(dh.st, maxUserQuota)
      requires q.PurgeTrash? || q.PurgeSelected? || q.RecoverTrash? || q.RecoverSelected?
      modifies dh`st, dh.dbh
      ensures Valid() && (dh.st, r) == Step(old(dh.st), maxUserQuota, q)
    {
      if q.PurgeTrash? {
        TrashPurgeable(dh.st, maxUserQuota, q.user);
        r := PurgeDeletedFiles(q.user);
      } else if q.PurgeSelected? {
        r := PurgeSelectedFiles(q.user, q.selected);
      } else if q.RecoverTrash? {
        r := RecoverDeletedFiles(q.user);
      } else {
        r := RecoverSelectedFiles(q.user, q.selected);
      }
    }

    // Whatever admissible requests arrive, the database holds the store of the run, and that store keeps the
    // invariants.
    method ServeAll(qs: seq<Request>)
      requires Valid() && Inv(dh.st, maxUserQuota) && AdmissibleRun(dh.st, maxUserQuota, qs)
      modifies dh`st, dh.dbh
      ensures Valid() && dh.st == Run(old(dh.st), maxUserQuota, qs) && Inv(dh.st, maxUserQuota)
      ensures ExactRun(old(dh.st), maxUserQuota, qs)
    {
      ghost var s := dh.st;
      RunKeeps(s, maxUserQuota, qs);
      var i := 0;
      while i < |qs|
        invariant 0 <= i <= |qs| && Valid() && dh.st == Run(s, maxUserQuota, qs[..i])
      {
        RunPrefix(s, maxUserQuota, qs, i);
        var _ := Serve(qs[i]);
        i := i + 1;
      }
      assert qs[..i] == qs;
    }
  }

  lemma SizeText(n: nat)
    requires n < WORD
    ensures IsNum(ToStr(n)) && Val(ToStr(n)) == n
  {
    ToStrRoundTrip(n);
  }

  lemma TrashPurgeable(s: Store, max: nat, user: Id)
    requires Inv(s, max)
    ensures Purgeable(s, TrashOf(s, user))
  {
    if user in s.users {
      WholeTrash(s, user);
      TrashReady(s, max, user, s.users[user].deleted);
    }
  }

  // What the requests rely on follows from the invariants.
  lemma InvServes(s: Store, max: nat)
    requires Inv(s, max)
    ensures Rooted(Par(s.dirs)) && NextId(s, DirTicket) !in s.dirs
    ensures (forall u :: u in s.users ==> IsKey(u)) && forall f :: f in s.files ==> IsKey(f)
    ensures forall f :: Deletable(s, f)
  {
    FreshIds(s, DirTicket);
    forall u | u in s.users ensures IsKey(u) {
      assert IsNumbered(u, s.nextUser);
      NumberIsKey(u);
    }
    forall f | f in s.files ensures IsKey(f) && Deletable(s, f) {
      assert IsNumbered(f, s.nextFile) && FileShares(s, f);
      NumberIsKey(f);
      RootedAscends(s.dirs, s.files[f].parent);
    }
  }

  lemma {:induction false} RunPrefix(s: Store, max: nat, qs: seq<Request>, i: nat)
    requires Inv(s, max) && AdmissibleRun(s, max, qs) && i < |qs|
    ensures Inv(Run(s, max, qs[..i]), max) && Admissible(Run(s, max, qs[..i]), max, qs[i])
    ensures Run(s, max, qs[..i + 1]) == Step(Run(s, max, qs[..i]), max, qs[i]).0
  {
    var init := qs[..i];
    forall j | 0 <= j < |init| ensures init[..j] == qs[..j] && init[j] == qs[j] {
    }
    RunKeeps(s, max, init);
    assert qs[..i + 1][..i] == init;
  }
}
