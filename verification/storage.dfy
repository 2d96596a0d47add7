/**
 `FileStorageManager`: the catalog of stored files, the share grants, the append-only access
 log and the known users, with the current user whose identity every operation acts under.

 Each operation is a pure function from the store to its result and the next store. The clock
 (`new Date()`) is a `now` parameter, the random ids are a caller-supplied fresh id, and the
 `localStorage` saves after each mutation are no-ops.
 */
module Storage {
  import opened Optional
  import opened JsMap
  import JsArray
  import Crypto

  type Id = string

  /** A `Date`, as its millisecond count. */
  type Time = int

  datatype User = User(id: Id, email: string, displayName: string)

  /** An encrypted file as stored: the encryption record plus catalog fields. */
  datatype StoredFile = StoredFile(
    content: Crypto.EncryptedFile,
    id: Id,
    ownerId: Id,
    ownerName: string,
    createdAt: Time,
    sharedWith: seq<Id>)

  /** A share grant: `sharedWith` may read `fileId` until `expiresAt`, if it is set. */
  datatype FileShare = FileShare(
    fileId: Id,
    sharedBy: Id,
    sharedWith: Id,
    canReshare: bool,
    expiresAt: Option<Time>,
    createdAt: Time,
    encryptedKey: Option<string>)

  datatype Action = Upload | View | Download | Decrypt | Share

  datatype AccessLog = AccessLog(fileId: Id, userId: Id, action: Action, timestamp: Time)

  datatype Store = Store(
    files: OrderedMap<Id, StoredFile>,
    shares: seq<FileShare>,
    accessLogs: seq<AccessLog>,
    users: OrderedMap<Id, User>,
    currentUser: Option<User>)

  /** An operation's return value together with the store it leaves behind. */
  datatype Step<T> = Step(result: T, next: Store)

  const DefaultUser: User := User("user-1", "demo@example.com", "Demo User")

  /** The fields before anything is loaded: every collection empty, no current user. */
  function EmptyStore(): Store {
    Store(Empty(), [], [], Empty(), None)
  }

  /** The id of the current user, which every operation but user selection dereferences. */
  function Me(s: Store): Id
    requires s.currentUser.Some?
  {
    s.currentUser.value.id
  }

  // ---------------------------------------------------------------------------
  // Grants

  predicate IsGrant(g: FileShare, fileId: Id, userId: Id) {
    g.fileId == fileId && g.sharedWith == userId
  }

  /** Expiry is evaluated lazily: a grant without `expiresAt`, or with one after `now`, is live. */
  predicate Unexpired(g: FileShare, now: Time) {
    g.expiresAt.None? || g.expiresAt.value > now
  }

  ghost predicate HasGrant(shares: seq<FileShare>, fileId: Id, userId: Id) {
    exists g :: g in shares && IsGrant(g, fileId, userId)
  }

  ghost predicate HasLiveGrant(shares: seq<FileShare>, fileId: Id, userId: Id, now: Time) {
    exists g :: g in shares && IsGrant(g, fileId, userId) && Unexpired(g, now)
  }

  /** A grant that lets its holder share further; its expiry is not looked at. */
  ghost predicate HasReshareGrant(shares: seq<FileShare>, fileId: Id, userId: Id) {
    exists g :: g in shares && IsGrant(g, fileId, userId) && g.canReshare
  }

  ghost predicate IsOwner(s: Store, fileId: Id, userId: Id) {
    fileId in s.files.entries && s.files.entries[fileId].ownerId == userId
  }

  // ---------------------------------------------------------------------------
  // Users

  /**
   `initDefaultUser`: with no users, the demo user is created and selected; otherwise the
   first user in insertion order becomes the current user.
   */
  function InitDefaultUser(s: Store): (r: Store)
    ensures r.users.entries != map[]
    ensures r.currentUser.Some? && r.currentUser.value in r.users.entries.Values
    ensures s.users.entries != map[] ==> r.users == s.users
    ensures |s.users.order| > 0 ==> r.currentUser == Some(s.users.entries[s.users.order[0]])
    ensures s.users.entries == map[] ==> r.users.entries == map[DefaultUser.id := DefaultUser]
    ensures r.files == s.files && r.shares == s.shares && r.accessLogs == s.accessLogs
  {
    if |s.users.order| == 0 then
      s.(users := Set(s.users, DefaultUser.id, DefaultUser), currentUser := Some(DefaultUser))
    else
      s.(currentUser := Some(Values(s.users)[0]))
  }

  /** `setCurrentUser`: selects a known user; an unknown id changes nothing. */
  function SetCurrentUser(s: Store, userId: Id): (r: Step<bool>)
    ensures r.result <==> userId in s.users.entries
    ensures !r.result ==> r.next == s
    ensures r.result ==> r.next.currentUser.Some? && r.next.currentUser.value == s.users.entries[userId]
    ensures r.next.users == s.users && r.next.files == s.files
    ensures r.next.shares == s.shares && r.next.accessLogs == s.accessLogs
  {
    if userId !in s.users.entries then Step(false, s)
    else Step(true, s.(currentUser := Some(s.users.entries[userId])))
  }

  /** `addUser`: registers a new user under a fresh id, after all existing users. */
  function AddUser(s: Store, freshId: Id, email: string, displayName: string): (r: Step<User>)
    requires freshId !in s.users.entries
    ensures r.result.id == freshId && r.result.email == email && r.result.displayName == displayName
    ensures r.next.users.entries == s.users.entries[freshId := r.result]
    ensures r.next.users.order == s.users.order + [freshId]
    ensures r.next.currentUser == s.currentUser && r.next.files == s.files
    ensures r.next.shares == s.shares && r.next.accessLogs == s.accessLogs
  {
    var user := User(freshId, email, displayName);
    Step(user, s.(users := Set(s.users, freshId, user)))
  }

  // ---------------------------------------------------------------------------
  // Access log

  /** `logAccess`: appends one entry; the log is append-only. */
  function LogAccess(s: Store, fileId: Id, userId: Id, action: Action, now: Time): (r: Store)
    ensures |r.accessLogs| == |s.accessLogs| + 1
    ensures r.accessLogs[..|s.accessLogs|] == s.accessLogs
    ensures r.accessLogs[|s.accessLogs|] == AccessLog(fileId, userId, action, now)
    ensures r.files == s.files && r.shares == s.shares
    ensures r.users == s.users && r.currentUser == s.currentUser
  {
    s.(accessLogs := s.accessLogs + [AccessLog(fileId, userId, action, now)])
  }

  /**
   `getAccessLogs`: only the owner sees a file's log, most recent first; anyone else, or a
   missing file, gets nothing.
   */
  function GetAccessLogs(s: Store, fileId: Id): (r: seq<AccessLog>)
    requires s.currentUser.Some?
    ensures !IsOwner(s, fileId, Me(s)) ==> r == []
    ensures IsOwner(s, fileId, Me(s)) ==>
      forall l :: multiset(r)[l] == if l.fileId == fileId then multiset(s.accessLogs)[l] else 0
    ensures JsArray.SortedDesc(r, (l: AccessLog) => l.timestamp)
  {
    if fileId !in s.files.entries || s.files.entries[fileId].ownerId != Me(s) then []
    else
      JsArray.SortDesc(JsArray.Filter(s.accessLogs, (l: AccessLog) => l.fileId == fileId),
                       (l: AccessLog) => l.timestamp)
  }

  // ---------------------------------------------------------------------------
  // Files

  /** `canAccessFile`: the owner always may; anyone else needs a live grant. */
  function CanAccessFile(s: Store, fileId: Id, userId: Id, now: Time): (r: bool)
    ensures fileId !in s.files.entries ==> !r
    ensures IsOwner(s, fileId, userId) ==> r
    ensures fileId in s.files.entries && !IsOwner(s, fileId, userId) ==>
      (r <==> HasLiveGrant(s.shares, fileId, userId, now))
  {
    if fileId !in s.files.entries then false
    else if s.files.entries[fileId].ownerId == userId then true
    else JsArray.Find(s.shares, g => IsGrant(g, fileId, userId) && Unexpired(g, now)).Some?
  }

  /** `getFileShare`: the first live grant of `fileId` to `userId`, if any. */
  function GetFileShare(s: Store, fileId: Id, userId: Id, now: Time): (r: Option<FileShare>)
    ensures r.None? <==> !HasLiveGrant(s.shares, fileId, userId, now)
    ensures r.Some? ==> r.value in s.shares && IsGrant(r.value, fileId, userId) && Unexpired(r.value, now)
  {
    JsArray.Find(s.shares, g => IsGrant(g, fileId, userId) && Unexpired(g, now))
  }

  /**
   `storeFile`: the record is filed under the fresh id, owned by the current user and shared
   with nobody, and one upload entry is logged; no other file changes.
   */
  function StoreFile(s: Store, encrypted: Crypto.EncryptedFile, fileId: Id, now: Time): (r: Step<Id>)
    requires s.currentUser.Some?
    requires fileId !in s.files.entries
    ensures r.result == fileId
    ensures fileId in r.next.files.entries
    ensures var f := r.next.files.entries[fileId];
      && f.content == encrypted && f.id == fileId && f.createdAt == now
      && f.ownerId == Me(s) && f.ownerName == s.currentUser.value.displayName
      && f.sharedWith == []
    ensures forall id :: id != fileId ==>
      (id in r.next.files.entries <==> id in s.files.entries)
    ensures forall id :: id != fileId && id in s.files.entries ==>
      r.next.files.entries[id] == s.files.entries[id]
    ensures r.next.accessLogs == s.accessLogs + [AccessLog(fileId, Me(s), Upload, now)]
    ensures r.next.shares == s.shares && r.next.users == s.users && r.next.currentUser == s.currentUser
  {
    var me := s.currentUser.value;
    var file := StoredFile(encrypted, fileId, me.id, me.displayName, now, []);
    var s' := s.(files := Set(s.files, fileId, file));
    Step(fileId, LogAccess(s', fileId, me.id, Upload, now))
  }

  /**
   `getFile`: the file and one view entry when the current user may access it; otherwise
   nothing, and the store is untouched (a missing file and a forbidden one look alike).
   */
  function GetFile(s: Store, fileId: Id, now: Time): (r: Step<Option<StoredFile>>)
    requires s.currentUser.Some?
    ensures r.result.Some? <==> CanAccessFile(s, fileId, Me(s), now)
    ensures r.result.None? ==> r.next == s
    ensures r.result.Some? ==>
      && r.result.value == s.files.entries[fileId]
      && r.next == s.(accessLogs := s.accessLogs + [AccessLog(fileId, Me(s), View, now)])
  {
    if fileId !in s.files.entries then Step(None, s)
    else if !CanAccessFile(s, fileId, Me(s), now) then Step(None, s)
    else Step(Some(s.files.entries[fileId]), LogAccess(s, fileId, Me(s), View, now))
  }

  /** `getUserFiles`: the files the current user owns. */
  function GetUserFiles(s: Store): (r: seq<StoredFile>)
    requires s.currentUser.Some?
    ensures forall f :: f in r <==> f in s.files.entries.Values && f.ownerId == Me(s)
  {
    JsArray.Filter(Values(s.files), (f: StoredFile) => f.ownerId == Me(s))
  }

  /** `getSharedWithMeFiles`: the files others own that the current user may access now. */
  function GetSharedWithMeFiles(s: Store, now: Time): (r: seq<StoredFile>)
    requires s.currentUser.Some?
    ensures forall f :: f in r <==>
      f in s.files.entries.Values && f.ownerId != Me(s) && CanAccessFile(s, f.id, Me(s), now)
  {
    JsArray.Filter(Values(s.files),
                   (f: StoredFile) => CanAccessFile(s, f.id, Me(s), now) && f.ownerId != Me(s))
  }

  /** `getFileShares`: the owner sees every grant of the file; anyone else sees none. */
  function GetFileShares(s: Store, fileId: Id): (r: seq<FileShare>)
    requires s.currentUser.Some?
    ensures !IsOwner(s, fileId, Me(s)) ==> r == []
    ensures IsOwner(s, fileId, Me(s)) ==>
      forall g :: multiset(r)[g] == if g.fileId == fileId then multiset(s.shares)[g] else 0
  {
    if fileId !in s.files.entries || s.files.entries[fileId].ownerId != Me(s) then []
    else JsArray.Filter(s.shares, (g: FileShare) => g.fileId == fileId)
  }

  /** The in-place update of an existing grant: the key is replaced only by a non-empty one. */
  function UpdateGrant(g: FileShare, canReshare: bool, expiresAt: Option<Time>, encryptedKey: Option<string>): FileShare {
    g.(canReshare := canReshare,
       expiresAt := expiresAt,
       encryptedKey := if encryptedKey.Some? && encryptedKey.value != "" then encryptedKey else g.encryptedKey)
  }

  /** The caller may share: the owner, or a holder of a reshare grant, expired or not. */
  ghost predicate MayShare(s: Store, fileId: Id, userId: Id) {
    fileId in s.files.entries &&
    (s.files.entries[fileId].ownerId == userId || HasReshareGrant(s.shares, fileId, userId))
  }

  /**
   `shareFile`: after the permission check, an existing grant for the pair is updated in
   place, or else a new grant is appended and the recipient is listed on the file once;
   either way one share entry is logged.
   */
  function ShareFile(
    s: Store, fileId: Id, recipient: Id, canReshare: bool,
    expiresAt: Option<Time>, encryptedKey: Option<string>, now: Time): (r: Step<bool>)
    requires s.currentUser.Some?
    ensures r.result <==> MayShare(s, fileId, Me(s))
    ensures !r.result ==> r.next == s
    ensures r.result ==> r.next.accessLogs == s.accessLogs + [AccessLog(fileId, Me(s), Share, now)]
    ensures r.result ==> r.next.users == s.users && r.next.currentUser == s.currentUser
    ensures r.result ==> r.next.files.order == s.files.order
    ensures r.result && HasGrant(s.shares, fileId, recipient) ==>
      && r.next.files == s.files
      && |r.next.shares| == |s.shares|
      && exists i :: 0 <= i < |s.shares| && IsGrant(s.shares[i], fileId, recipient) &&
           r.next.shares == s.shares[i := UpdateGrant(s.shares[i], canReshare, expiresAt, encryptedKey)]
    ensures r.result && !HasGrant(s.shares, fileId, recipient) ==>
      && r.next.shares == s.shares + [FileShare(fileId, Me(s), recipient, canReshare, expiresAt, now, encryptedKey)]
      && r.next.files.entries.Keys == s.files.entries.Keys
      && (forall id :: id in s.files.entries && id != fileId ==>
            r.next.files.entries[id] == s.files.entries[id])
      && var before := s.files.entries[fileId]; var after := r.next.files.entries[fileId];
         && after == before.(sharedWith := after.sharedWith)
         && (forall u :: u in after.sharedWith <==> u in before.sharedWith || u == recipient)
         && (JsArray.NoDup(before.sharedWith) ==> JsArray.NoDup(after.sharedWith))
  {
    var me := Me(s);
    if fileId !in s.files.entries then Step(false, s)
    else
      var file := s.files.entries[fileId];
      if file.ownerId != me &&
         JsArray.Find(s.shares, g => IsGrant(g, fileId, me) && g.canReshare).None? then
        Step(false, s)
      else
        var s' :=
          match JsArray.FindIndex(s.shares, g => IsGrant(g, fileId, recipient))
          case Some(i) =>
            s.(shares := s.shares[i := UpdateGrant(s.shares[i], canReshare, expiresAt, encryptedKey)])
          case None =>
            var grant := FileShare(fileId, me, recipient, canReshare, expiresAt, now, encryptedKey);
            var file' :=
              if recipient in file.sharedWith then file
              else file.(sharedWith := file.sharedWith + [recipient]);
            s.(shares := s.shares + [grant], files := Set(s.files, fileId, file'));
        Step(true, LogAccess(s', fileId, me, Share, now))
  }

  /**
   `revokeShare`: only the owner may revoke, and only an existing grant; the grant is removed
   and the recipient's first listing on the file with it. The log is untouched.
   */
  function RevokeShare(s: Store, fileId: Id, recipient: Id): (r: Step<bool>)
    requires s.currentUser.Some?
    ensures r.result <==> IsOwner(s, fileId, Me(s)) && HasGrant(s.shares, fileId, recipient)
    ensures !r.result ==> r.next == s
    ensures r.next.accessLogs == s.accessLogs && r.next.users == s.users
    ensures r.next.currentUser == s.currentUser && r.next.files.order == s.files.order
    ensures r.result ==>
      && |r.next.shares| == |s.shares| - 1
      && exists i :: 0 <= i < |s.shares| && IsGrant(s.shares[i], fileId, recipient) &&
           multiset(r.next.shares) == multiset(s.shares) - multiset{s.shares[i]}
    ensures r.result ==>
      && r.next.files.entries.Keys == s.files.entries.Keys
      && (forall id :: id in s.files.entries && id != fileId ==>
            r.next.files.entries[id] == s.files.entries[id])
      && var before := s.files.entries[fileId]; var after := r.next.files.entries[fileId];
         && after == before.(sharedWith := after.sharedWith)
         && multiset(after.sharedWith) ==
              if recipient in before.sharedWith then multiset(before.sharedWith) - multiset{recipient}
              else multiset(before.sharedWith)
  {
    if fileId !in s.files.entries || s.files.entries[fileId].ownerId != Me(s) then Step(false, s)
    else
      match JsArray.FindIndex(s.shares, g => IsGrant(g, fileId, recipient))
      case None => Step(false, s)
      case Some(i) =>
        var file := s.files.entries[fileId];
        var sharedWith :=
          match JsArray.FindIndex(file.sharedWith, u => u == recipient)
          case None => file.sharedWith
          case Some(j) => JsArray.RemoveAt(file.sharedWith, j);
        Step(true, s.(shares := JsArray.RemoveAt(s.shares, i),
                      files := Set(s.files, fileId, file.(sharedWith := sharedWith))))
  }

  /**
   `deleteFile`: only the owner may delete; the file goes, and with it every grant and every
   log entry of that file. Everything else is kept.
   */
  function DeleteFile(s: Store, fileId: Id): (r: Step<bool>)
    requires s.currentUser.Some?
    ensures r.result <==> IsOwner(s, fileId, Me(s))
    ensures !r.result ==> r.next == s
    ensures r.result ==> r.next.files.entries == s.files.entries - {fileId}
    ensures r.result ==> forall g ::
      multiset(r.next.shares)[g] == if g.fileId == fileId then 0 else multiset(s.shares)[g]
    ensures r.result ==> forall l ::
      multiset(r.next.accessLogs)[l] == if l.fileId == fileId then 0 else multiset(s.accessLogs)[l]
    ensures r.next.users == s.users && r.next.currentUser == s.currentUser
  {
    if fileId !in s.files.entries || s.files.entries[fileId].ownerId != Me(s) then Step(false, s)
    else
      Step(true, s.(files := Delete(s.files, fileId),
                    shares := JsArray.Filter(s.shares, (g: FileShare) => g.fileId != fileId),
                    accessLogs := JsArray.Filter(s.accessLogs, (l: AccessLog) => l.fileId != fileId)))
  }

  /** `clearAllData`: every collection emptied, then the default user set up again. */
  function ClearAllData(s: Store): (r: Store)
    ensures r.files.entries == map[] && r.shares == [] && r.accessLogs == []
    ensures r.users.entries == map[DefaultUser.id := DefaultUser]
    ensures r.currentUser == Some(DefaultUser)
  {
    InitDefaultUser(EmptyStore())
  }
}
