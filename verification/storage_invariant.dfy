/**
 The invariant the storage manager keeps: files are filed under their own id, every grant
 names a stored file, each (file, recipient) pair has at most one grant, each file's
 `sharedWith` list names exactly its grantees once each, and the current user is a known user.
 Every operation that changes the store preserves it.
 */
module StorageInvariant {
  import opened Optional
  import JsArray
  import Crypto
  import opened Storage

  /** One grant per (file, recipient) pair, and no grant listed twice. */
  ghost predicate OneGrantPerPair(shares: seq<FileShare>) {
    && JsArray.NoDup(shares)
    && forall g, h :: g in shares && h in shares && g.fileId == h.fileId && g.sharedWith == h.sharedWith ==> g == h
  }

  /** The denormalized `sharedWith` list names each grantee of the file, expired or not, once. */
  ghost predicate SharedWithInSync(f: StoredFile, shares: seq<FileShare>) {
    && JsArray.NoDup(f.sharedWith)
    && forall u :: u in f.sharedWith <==> HasGrant(shares, f.id, u)
  }

  ghost predicate FilesKeyedById(files: map<Id, StoredFile>) {
    forall id :: id in files ==> files[id].id == id
  }

  ghost predicate GrantsNameFiles(shares: seq<FileShare>, files: map<Id, StoredFile>) {
    forall g :: g in shares ==> g.fileId in files
  }

  ghost predicate AllSharedWithInSync(files: map<Id, StoredFile>, shares: seq<FileShare>) {
    forall id :: id in files ==> SharedWithInSync(files[id], shares)
  }

  ghost predicate UsersKnown(s: Store) {
    && (forall id :: id in s.users.entries ==> s.users.entries[id].id == id)
    && s.currentUser.Some?
    && s.currentUser.value.id in s.users.entries
    && s.users.entries[s.currentUser.value.id] == s.currentUser.value
  }

  ghost predicate Wf(s: Store) {
    && FilesKeyedById(s.files.entries)
    && GrantsNameFiles(s.shares, s.files.entries)
    && OneGrantPerPair(s.shares)
    && AllSharedWithInSync(s.files.entries, s.shares)
    && UsersKnown(s)
  }

  /** The store the constructor builds when nothing was saved, and the one `clearAllData` leaves. */
  lemma InitialStoreIsWf(s: Store)
    ensures Wf(InitDefaultUser(EmptyStore()))
    ensures Wf(ClearAllData(s))
  {
  }

  lemma LogAccessPreservesWf(s: Store, fileId: Id, userId: Id, action: Action, now: Time)
    requires Wf(s)
    ensures Wf(LogAccess(s, fileId, userId, action, now))
  {
  }

  lemma SetCurrentUserPreservesWf(s: Store, userId: Id)
    requires Wf(s)
    ensures Wf(SetCurrentUser(s, userId).next)
  {
  }

  lemma AddUserPreservesWf(s: Store, freshId: Id, email: string, displayName: string)
    requires Wf(s)
    requires freshId !in s.users.entries
    ensures Wf(AddUser(s, freshId, email, displayName).next)
  {
  }

  lemma GetFilePreservesWf(s: Store, fileId: Id, now: Time)
    requires Wf(s)
    ensures Wf(GetFile(s, fileId, now).next)
  {
  }

  lemma StoreFilePreservesWf(s: Store, encrypted: Crypto.EncryptedFile, fileId: Id, now: Time)
    requires Wf(s)
    requires fileId !in s.files.entries
    ensures Wf(StoreFile(s, encrypted, fileId, now).next)
  {
    var t := StoreFile(s, encrypted, fileId, now).next;
    assert SharedWithInSync(t.files.entries[fileId], t.shares);
  }

  /** After replacing the grant at `i` by `g'`, every grant is `g'` or an old one, and `g'` is there. */
  lemma UpdateInPlaceMembers(shares: seq<FileShare>, i: nat, g': FileShare)
    requires i < |shares|
    ensures g' in shares[i := g']
    ensures forall g :: g in shares[i := g'] ==> g == g' || g in shares
    ensures forall g :: g in shares && g != shares[i] ==> g in shares[i := g']
  {
    var t := shares[i := g'];
    assert t[i] == g';
    forall g | g in t
      ensures g == g' || g in shares
    {
      var k :| 0 <= k < |t| && t[k] == g;
      if k != i {
        assert shares[k] == g;
      }
    }
    forall g | g in shares && g != shares[i]
      ensures g in t
    {
      var k :| 0 <= k < |shares| && shares[k] == g;
      assert t[k] == g;
    }
  }

  /** Replacing a grant by one for the same pair keeps the pair relation and its uniqueness. */
  lemma UpdateInPlaceKeepsPairs(shares: seq<FileShare>, i: nat, g': FileShare)
    requires i < |shares|
    requires OneGrantPerPair(shares)
    requires IsGrant(g', shares[i].fileId, shares[i].sharedWith)
    ensures forall f, u :: HasGrant(shares[i := g'], f, u) <==> HasGrant(shares, f, u)
    ensures OneGrantPerPair(shares[i := g'])
    ensures forall g :: g in shares[i := g'] ==> g == g' || g in shares
  {
    var t := shares[i := g'];
    UpdateInPlaceMembers(shares, i, g');
    forall f, u | HasGrant(shares, f, u)
      ensures HasGrant(t, f, u)
    {
      var g :| g in shares && IsGrant(g, f, u);
      if g == shares[i] {
        assert IsGrant(g', f, u);
      }
    }
    forall f, u | HasGrant(t, f, u)
      ensures HasGrant(shares, f, u)
    {
      var g :| g in t && IsGrant(g, f, u);
      if g == g' {
        assert shares[i] in shares;
        assert IsGrant(shares[i], f, u);
      }
    }
    assert multiset(t) == multiset(shares) - multiset{shares[i]} + multiset{g'};
    assert shares[i] in shares;
    assert shares[i] != g' ==> shares[i] !in t by {
      assert multiset(t)[shares[i]] == 0 || shares[i] == g';
    }
    forall x
      ensures multiset(t)[x] <= 1
    {
      if x == g' && x != shares[i] && x in shares {
        assert shares[i] in shares;
      }
    }
  }

  lemma ShareFilePreservesWf(
    s: Store, fileId: Id, recipient: Id, canReshare: bool,
    expiresAt: Option<Time>, encryptedKey: Option<string>, now: Time)
    requires Wf(s)
    ensures Wf(ShareFile(s, fileId, recipient, canReshare, expiresAt, encryptedKey, now).next)
  {
    var r := ShareFile(s, fileId, recipient, canReshare, expiresAt, encryptedKey, now);
    if r.result {
      if HasGrant(s.shares, fileId, recipient) {
        var i :| 0 <= i < |s.shares| && IsGrant(s.shares[i], fileId, recipient) &&
          r.next.shares == s.shares[i := UpdateGrant(s.shares[i], canReshare, expiresAt, encryptedKey)];
        ShareUpdateKeepsWf(s, r.next, i, UpdateGrant(s.shares[i], canReshare, expiresAt, encryptedKey));
      } else {
        var grant := FileShare(fileId, Me(s), recipient, canReshare, expiresAt, now, encryptedKey);
        ShareAppendKeepsWf(s, r.next, grant);
      }
    }
  }

  /** The update branch of `shareFile`: only one grant's mutable fields change. */
  lemma ShareUpdateKeepsWf(s: Store, t: Store, i: nat, g': FileShare)
    requires Wf(s)
    requires i < |s.shares| && IsGrant(g', s.shares[i].fileId, s.shares[i].sharedWith)
    requires t.shares == s.shares[i := g'] && t.files == s.files
    requires t.users == s.users && t.currentUser == s.currentUser
    ensures Wf(t)
  {
    UpdateInPlaceKeepsPairs(s.shares, i, g');
    assert s.shares[i] in s.shares;
    forall id | id in t.files.entries
      ensures SharedWithInSync(t.files.entries[id], t.shares)
    {
      assert SharedWithInSync(s.files.entries[id], s.shares);
    }
  }

  /** The append branch of `shareFile`: a grant for a new pair, and its recipient listed on the file. */
  lemma ShareAppendKeepsWf(s: Store, t: Store, grant: FileShare)
    requires Wf(s)
    requires grant.fileId in s.files.entries && !HasGrant(s.shares, grant.fileId, grant.sharedWith)
    requires t.shares == s.shares + [grant]
    requires t.files.entries.Keys == s.files.entries.Keys
    requires forall id :: id in s.files.entries && id != grant.fileId ==>
      t.files.entries[id] == s.files.entries[id]
    requires var before := s.files.entries[grant.fileId]; var after := t.files.entries[grant.fileId];
      && after == before.(sharedWith := after.sharedWith)
      && (forall u :: u in after.sharedWith <==> u in before.sharedWith || u == grant.sharedWith)
      && (JsArray.NoDup(before.sharedWith) ==> JsArray.NoDup(after.sharedWith))
    requires t.users == s.users && t.currentUser == s.currentUser
    ensures Wf(t)
  {
    var fileId, recipient := grant.fileId, grant.sharedWith;
    forall f, u
      ensures HasGrant(t.shares, f, u) <==> HasGrant(s.shares, f, u) || (f == fileId && u == recipient)
    {
      if HasGrant(t.shares, f, u) && !HasGrant(s.shares, f, u) {
        var g :| g in t.shares && IsGrant(g, f, u);
        assert g == grant;
      }
      if f == fileId && u == recipient {
        assert grant in t.shares;
      }
    }
    forall id | id in t.files.entries
      ensures SharedWithInSync(t.files.entries[id], t.shares)
    {
      assert SharedWithInSync(s.files.entries[id], s.shares);
    }
    assert grant !in s.shares;
    assert multiset(t.shares) == multiset(s.shares) + multiset{grant};
    forall g, h | g in t.shares && h in t.shares && g.fileId == h.fileId && g.sharedWith == h.sharedWith
      ensures g == h
    {
      if g == grant && h != grant {
        assert IsGrant(h, fileId, recipient);
      }
    }
  }

  lemma RevokeSharePreservesWf(s: Store, fileId: Id, recipient: Id)
    requires Wf(s)
    ensures Wf(RevokeShare(s, fileId, recipient).next)
  {
    var r := RevokeShare(s, fileId, recipient);
    if r.result {
      var i :| 0 <= i < |s.shares| && IsGrant(s.shares[i], fileId, recipient) &&
        multiset(r.next.shares) == multiset(s.shares) - multiset{s.shares[i]};
      RevokeKeepsWf(s, r.next, i);
    }
  }

  /** Removing the one grant of a pair: the pair loses its grant and nothing else changes. */
  lemma RemoveGrantKeepsPairs(shares: seq<FileShare>, rest: seq<FileShare>, i: nat)
    requires i < |shares| && OneGrantPerPair(shares)
    requires multiset(rest) == multiset(shares) - multiset{shares[i]}
    ensures OneGrantPerPair(rest)
    ensures forall g :: g in rest ==> g in shares
    ensures forall f, u :: HasGrant(rest, f, u) <==>
      HasGrant(shares, f, u) && !IsGrant(shares[i], f, u)
  {
    var removed := shares[i];
    assert removed in shares;
    assert forall g :: g in rest <==> multiset(rest)[g] > 0;
    assert removed !in rest;
    forall f, u | HasGrant(shares, f, u) && !IsGrant(removed, f, u)
      ensures HasGrant(rest, f, u)
    {
      var g :| g in shares && IsGrant(g, f, u);
      assert g != removed;
      assert multiset(rest)[g] > 0;
    }
  }

  /** The success branch of `revokeShare`. */
  lemma RevokeKeepsWf(s: Store, t: Store, i: nat)
    requires Wf(s)
    requires i < |s.shares|
    requires multiset(t.shares) == multiset(s.shares) - multiset{s.shares[i]}
    requires t.files.entries.Keys == s.files.entries.Keys
    requires var fileId := s.shares[i].fileId;
      && (forall id :: id in s.files.entries && id != fileId ==>
            t.files.entries[id] == s.files.entries[id])
      && var before := s.files.entries[fileId]; var after := t.files.entries[fileId];
         && after == before.(sharedWith := after.sharedWith)
         && multiset(after.sharedWith) ==
              if s.shares[i].sharedWith in before.sharedWith then multiset(before.sharedWith) - multiset{s.shares[i].sharedWith}
              else multiset(before.sharedWith)
    requires t.users == s.users && t.currentUser == s.currentUser
    ensures Wf(t)
  {
    var fileId, recipient := s.shares[i].fileId, s.shares[i].sharedWith;
    assert s.shares[i] in s.shares;
    RemoveGrantKeepsPairs(s.shares, t.shares, i);
    var before := s.files.entries[fileId];
    assert SharedWithInSync(before, s.shares);
    assert recipient in before.sharedWith;
    forall id | id in t.files.entries
      ensures SharedWithInSync(t.files.entries[id], t.shares)
    {
      assert SharedWithInSync(s.files.entries[id], s.shares);
      if id == fileId {
        var after := t.files.entries[id];
        forall u
          ensures u in after.sharedWith <==> u in before.sharedWith && u != recipient
        {
          assert u in after.sharedWith <==> multiset(after.sharedWith)[u] > 0;
        }
      }
    }
  }

  lemma DeleteFilePreservesWf(s: Store, fileId: Id)
    requires Wf(s)
    ensures Wf(DeleteFile(s, fileId).next)
  {
    var r := DeleteFile(s, fileId);
    var t := r.next;
    if !r.result {
      return;
    }
    assert forall g :: g in t.shares <==> g in s.shares && g.fileId != fileId by {
      forall g
        ensures g in t.shares <==> g in s.shares && g.fileId != fileId
      {
        assert g in t.shares <==> multiset(t.shares)[g] > 0;
        assert g in s.shares <==> multiset(s.shares)[g] > 0;
      }
    }
    forall id | id in t.files.entries
      ensures SharedWithInSync(t.files.entries[id], t.shares)
    {
      assert SharedWithInSync(s.files.entries[id], s.shares);
      forall u
        ensures HasGrant(t.shares, id, u) <==> HasGrant(s.shares, id, u)
      {
        if HasGrant(s.shares, id, u) {
          var g :| g in s.shares && IsGrant(g, id, u);
          assert g in t.shares;
        }
      }
    }
  }
}
