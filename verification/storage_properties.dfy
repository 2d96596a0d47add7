/**
 Properties that relate several operations of the storage manager: granting, expiring,
 revoking and deleting as seen by `canAccessFile`, and the reshare permission check.
 */
module StorageProperties {
  import opened Optional
  import JsArray
  import Crypto
  import opened Storage
  import opened StorageInvariant

  /** With one grant per pair, a non-owner's access is decided by that one grant. */
  lemma AccessDecidedByTheGrant(s: Store, g: FileShare, now: Time)
    requires Wf(s)
    requires g in s.shares && !IsOwner(s, g.fileId, g.sharedWith)
    ensures CanAccessFile(s, g.fileId, g.sharedWith, now) <==> Unexpired(g, now)
  {
    assert g.fileId in s.files.entries;
    if CanAccessFile(s, g.fileId, g.sharedWith, now) {
      var h :| h in s.shares && IsGrant(h, g.fileId, g.sharedWith) && Unexpired(h, now);
      assert h == g;
    }
  }

  /** An expired grant stays in the ledger but no longer gives access. */
  lemma ExpiredGrantGivesNoAccess(s: Store, g: FileShare, now: Time)
    requires Wf(s)
    requires g in s.shares && !IsOwner(s, g.fileId, g.sharedWith)
    requires g.expiresAt.Some? && g.expiresAt.value <= now
    ensures !CanAccessFile(s, g.fileId, g.sharedWith, now)
  {
    AccessDecidedByTheGrant(s, g, now);
  }

  /** A live grant found by `getFileShare` means `canAccessFile` holds too. */
  lemma FileShareImpliesAccess(s: Store, fileId: Id, userId: Id, now: Time)
    requires Wf(s)
    requires GetFileShare(s, fileId, userId, now).Some?
    ensures CanAccessFile(s, fileId, userId, now)
  {
    var g := GetFileShare(s, fileId, userId, now).value;
    assert g.fileId in s.files.entries;
  }

  /**
   After a successful share, the recipient may access the file at every moment before the
   expiry given (at every moment, when none is given).
   */
  lemma ShareGrantsAccess(
    s: Store, fileId: Id, recipient: Id, canReshare: bool,
    expiresAt: Option<Time>, encryptedKey: Option<string>, now: Time, later: Time)
    requires s.currentUser.Some?
    requires ShareFile(s, fileId, recipient, canReshare, expiresAt, encryptedKey, now).result
    requires expiresAt.None? || expiresAt.value > later
    ensures CanAccessFile(ShareFile(s, fileId, recipient, canReshare, expiresAt, encryptedKey, now).next,
                          fileId, recipient, later)
  {
    var t := ShareFile(s, fileId, recipient, canReshare, expiresAt, encryptedKey, now).next;
    if HasGrant(s.shares, fileId, recipient) {
      var i :| 0 <= i < |s.shares| && IsGrant(s.shares[i], fileId, recipient) &&
        t.shares == s.shares[i := UpdateGrant(s.shares[i], canReshare, expiresAt, encryptedKey)];
      assert t.shares[i] in t.shares;
    } else {
      assert t.shares[|s.shares|] in t.shares;
    }
  }

  /** After a successful revocation, only ownership still gives the recipient access. */
  lemma RevokeEndsAccess(s: Store, fileId: Id, recipient: Id, later: Time)
    requires Wf(s)
    requires RevokeShare(s, fileId, recipient).result
    ensures CanAccessFile(RevokeShare(s, fileId, recipient).next, fileId, recipient, later)
        <==> IsOwner(s, fileId, recipient)
  {
    var t := RevokeShare(s, fileId, recipient).next;
    var i :| 0 <= i < |s.shares| && IsGrant(s.shares[i], fileId, recipient) &&
      multiset(t.shares) == multiset(s.shares) - multiset{s.shares[i]};
    RemoveGrantKeepsPairs(s.shares, t.shares, i);
    assert !HasGrant(t.shares, fileId, recipient);
  }

  /**
   After a successful deletion nobody may access the file, no grant or log entry of it is
   left, and the owner's file list no longer holds it.
   */
  lemma DeleteEndsAccess(s: Store, fileId: Id, userId: Id, later: Time)
    requires Wf(s)
    requires DeleteFile(s, fileId).result
    ensures !CanAccessFile(DeleteFile(s, fileId).next, fileId, userId, later)
    ensures forall g :: g in DeleteFile(s, fileId).next.shares ==> g.fileId != fileId
    ensures forall l :: l in DeleteFile(s, fileId).next.accessLogs ==> l.fileId != fileId
    ensures forall f :: f in GetUserFiles(DeleteFile(s, fileId).next) ==> f.id != fileId
  {
    var t := DeleteFile(s, fileId).next;
    forall g | g in t.shares
      ensures g.fileId != fileId
    {
      assert multiset(t.shares)[g] > 0;
    }
    forall l | l in t.accessLogs
      ensures l.fileId != fileId
    {
      assert multiset(t.accessLogs)[l] > 0;
    }
    forall f | f in GetUserFiles(t)
      ensures f.id != fileId
    {
      var id :| id in t.files.entries && t.files.entries[id] == f;
      assert s.files.entries[id] == f;
    }
  }

  /**
   A newly stored file belongs to the uploader's list and to nobody else: no other user
   may access it, so it is in no one else's shared-with-me list.
   */
  lemma StoredFileIsPrivate(
    s: Store, encrypted: Crypto.EncryptedFile, fileId: Id, now: Time, other: Id, later: Time)
    requires Wf(s)
    requires fileId !in s.files.entries
    requires other != Me(s)
    ensures var t := StoreFile(s, encrypted, fileId, now).next;
      && (exists f :: f in GetUserFiles(t) && f.id == fileId)
      && !CanAccessFile(t, fileId, other, later)
  {
    var t := StoreFile(s, encrypted, fileId, now).next;
    assert t.files.entries[fileId] in t.files.entries.Values;
    assert t.files.entries[fileId] in GetUserFiles(t);
  }

  /** A grantee whose grant does not allow resharing cannot share the file on. */
  lemma PlainGranteeCannotShare(
    s: Store, g: FileShare, recipient: Id, canReshare: bool,
    expiresAt: Option<Time>, encryptedKey: Option<string>, now: Time)
    requires Wf(s)
    requires g in s.shares && g.sharedWith == Me(s) && !g.canReshare
    requires !IsOwner(s, g.fileId, Me(s))
    ensures ShareFile(s, g.fileId, recipient, canReshare, expiresAt, encryptedKey, now) == Step(false, s)
  {
  }

  // ---------------------------------------------------------------------------
  // The reshare check ignores expiry

  /**
   As written, `shareFile` accepts a reshare grant whether or not it has expired. A grantee
   whose reshare grant has expired can therefore share the file with themselves, which
   overwrites their own grant's expiry and gives them back access they had lost.
   */
  lemma ExpiredDelegateRenewsOwnAccess(s: Store, g: FileShare, now: Time)
    requires Wf(s)
    requires g in s.shares && g.sharedWith == Me(s) && g.canReshare
    requires !IsOwner(s, g.fileId, Me(s))
    requires g.expiresAt.Some? && g.expiresAt.value <= now
    ensures !CanAccessFile(s, g.fileId, Me(s), now)
    ensures var r := ShareFile(s, g.fileId, Me(s), true, None, None, now);
      r.result && CanAccessFile(r.next, g.fileId, Me(s), now)
  {
    AccessDecidedByTheGrant(s, g, now);
    assert g.fileId in s.files.entries;
    assert IsGrant(g, g.fileId, Me(s));
    ShareGrantsAccess(s, g.fileId, Me(s), true, None, None, now, now);
  }

  /** A reshare grant that is still live. */
  ghost predicate HasLiveReshareGrant(shares: seq<FileShare>, fileId: Id, userId: Id, now: Time) {
    exists g :: g in shares && IsGrant(g, fileId, userId) && g.canReshare && Unexpired(g, now)
  }

  /**
   `shareFile` with the reshare check evaluated against `now`, as for every other use of a
   grant: the owner, or the holder of a live reshare grant, may share.
   */
  function ShareFileUnexpired(
    s: Store, fileId: Id, recipient: Id, canReshare: bool,
    expiresAt: Option<Time>, encryptedKey: Option<string>, now: Time): (r: Step<bool>)
    requires s.currentUser.Some?
    ensures r.result <==> (fileId in s.files.entries &&
      (s.files.entries[fileId].ownerId == Me(s) || HasLiveReshareGrant(s.shares, fileId, Me(s), now)))
    ensures !r.result ==> r.next == s
    ensures r.result ==> r == ShareFile(s, fileId, recipient, canReshare, expiresAt, encryptedKey, now)
  {
    var me := Me(s);
    if fileId in s.files.entries && s.files.entries[fileId].ownerId != me &&
       JsArray.Find(s.shares, g => IsGrant(g, fileId, me) && g.canReshare && Unexpired(g, now)).None? then
      Step(false, s)
    else
      ShareFile(s, fileId, recipient, canReshare, expiresAt, encryptedKey, now)
  }

  /** With the corrected check, a caller who may not access the file now cannot change anything. */
  lemma UnexpiredCheckNeedsAccess(
    s: Store, fileId: Id, recipient: Id, canReshare: bool,
    expiresAt: Option<Time>, encryptedKey: Option<string>, now: Time)
    requires s.currentUser.Some?
    requires !CanAccessFile(s, fileId, Me(s), now)
    ensures ShareFileUnexpired(s, fileId, recipient, canReshare, expiresAt, encryptedKey, now) == Step(false, s)
  {
  }

  // ---------------------------------------------------------------------------
  // A delegate can rewrite any grant of the file

  /**
   As written, the reshare check only asks whether the caller may share at all, and an
   existing grant for the pair is then overwritten in place, whoever issued it. A delegate
   holding any reshare grant can therefore end another grantee's live access, even one the
   owner granted, by sharing with that grantee again with an expiry of `now` -- the effect of
   a revocation, which only the owner may perform.
   */
  lemma DelegateCanEndOthersAccess(s: Store, g: FileShare, h: FileShare, now: Time)
    requires Wf(s)
    requires g in s.shares && g.sharedWith == Me(s) && g.canReshare
    requires !IsOwner(s, g.fileId, Me(s))
    requires h in s.shares && h.fileId == g.fileId && !IsOwner(s, h.fileId, h.sharedWith)
    requires Unexpired(h, now)
    ensures CanAccessFile(s, h.fileId, h.sharedWith, now)
    ensures var r := ShareFile(s, g.fileId, h.sharedWith, false, Some(now), None, now);
      r.result && !CanAccessFile(r.next, h.fileId, h.sharedWith, now)
  {
    AccessDecidedByTheGrant(s, h, now);
    assert g.fileId in s.files.entries;
    assert IsGrant(g, g.fileId, Me(s));
    var r := ShareFile(s, g.fileId, h.sharedWith, false, Some(now), None, now);
    assert IsGrant(h, g.fileId, h.sharedWith);
    var i :| 0 <= i < |s.shares| && IsGrant(s.shares[i], g.fileId, h.sharedWith) &&
      r.next.shares == s.shares[i := UpdateGrant(s.shares[i], false, Some(now), None)];
    ShareFilePreservesWf(s, g.fileId, h.sharedWith, false, Some(now), None, now);
    assert r.next.shares[i] in r.next.shares;
    ExpiredGrantGivesNoAccess(r.next, r.next.shares[i], now);
  }

  /**
   `shareFile` with both checks a grant's issuer would expect: the caller needs ownership or
   a live reshare grant, and only the owner may change a grant that already exists, so a
   delegate can add recipients but not alter anyone's access.
   */
  function ShareFileDelegatesAddOnly(
    s: Store, fileId: Id, recipient: Id, canReshare: bool,
    expiresAt: Option<Time>, encryptedKey: Option<string>, now: Time): (r: Step<bool>)
    requires s.currentUser.Some?
    ensures r.result <==> (fileId in s.files.entries &&
      (s.files.entries[fileId].ownerId == Me(s) ||
       (HasLiveReshareGrant(s.shares, fileId, Me(s), now) && !HasGrant(s.shares, fileId, recipient))))
    ensures !r.result ==> r.next == s
    ensures r.result ==> r == ShareFile(s, fileId, recipient, canReshare, expiresAt, encryptedKey, now)
  {
    if fileId in s.files.entries && s.files.entries[fileId].ownerId != Me(s) &&
       JsArray.FindIndex(s.shares, g => IsGrant(g, fileId, recipient)).Some? then
      Step(false, s)
    else
      ShareFileUnexpired(s, fileId, recipient, canReshare, expiresAt, encryptedKey, now)
  }

  /**
   With the corrected check, sharing by anyone but the owner never takes access away: whoever
   could open any file at any moment still can afterwards.
   */
  lemma DelegateShareKeepsAccess(
    s: Store, fileId: Id, recipient: Id, canReshare: bool,
    expiresAt: Option<Time>, encryptedKey: Option<string>, now: Time,
    otherFile: Id, user: Id, later: Time)
    requires s.currentUser.Some?
    requires !IsOwner(s, fileId, Me(s))
    requires CanAccessFile(s, otherFile, user, later)
    ensures CanAccessFile(
      ShareFileDelegatesAddOnly(s, fileId, recipient, canReshare, expiresAt, encryptedKey, now).next,
      otherFile, user, later)
  {
    var r := ShareFileDelegatesAddOnly(s, fileId, recipient, canReshare, expiresAt, encryptedKey, now);
    if r.result {
      assert r.next.files.entries[otherFile].ownerId == s.files.entries[otherFile].ownerId;
      if !IsOwner(s, otherFile, user) {
        var k :| k in s.shares && IsGrant(k, otherFile, user) && Unexpired(k, later);
        assert k in r.next.shares;
      }
    }
  }
}
