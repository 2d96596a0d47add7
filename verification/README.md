# Secure file sharing: access ledger and cipher glue in Dafny

This project models the two parts of the secure file-sharing app that hold its invariants.

**The storage manager (`FileStorageManager`).** It keeps four collections and a current user:

- a catalog of encrypted files;
- a list of share grants;
- an append-only access log;
- the known users.

It decides who may read a file. The owner may always read it. Anyone else needs a grant that has not expired. Expiry is checked against the current time whenever a grant is used for access (`canAccessFile`, `getFileShare`); the reshare check ignores it (see "## Findings"). Nothing removes expired grants. Only the owner may revoke a grant, delete the file or read its log. Deleting a file also deletes its grants and log entries. A grantee whose grant has `canReshare`, expired or not, may share the file further.

**The glue around the cipher in the encryption module.** This covers:

- the key fingerprint;
- the loops that turn bytes into a binary string and back around Base64;
- the metadata record written on encryption;
- the fingerprint check that runs before decryption;
- the trimming of trailing zero bytes after decryption;
- the random key generator.

The state is an immutable `Storage.Store` value. Every operation is a pure function that returns its result and the next store, as a `Step`. The clock (`new Date()`) is a `now` parameter. Timestamps are millisecond counts (`int`). Random ids are supplied by the caller and must not be in use yet. The `localStorage` saves are no-ops. JavaScript's `Map` keeps keys in insertion order, and the code depends on that: `initDefaultUser` selects the first user, and file lists come out in insertion order. `JsMap.OrderedMap` models this. `JsArray` models the array methods the code uses: `find`, `findIndex`, `filter`, `splice(i, 1)` and the stable `sort`.

SHA-256, the IDEA cipher, `btoa` and `atob` are foreign code. They are the fields of a `Crypto.Primitives` value, and every crypto operation takes that value as a parameter. So each property holds for any choice of those functions. The round-trip lemma adds two assumptions about them as explicit `requires`:

- `atob` undoes `btoa`;
- IDEA decryption returns the plaintext followed by zero padding.

`StorageInvariant.Wf` is the invariant the store keeps. Its parts:

- files are keyed by their own id;
- every grant names a stored file;
- each (file, recipient) pair has at most one grant;
- each file's `sharedWith` list names each of its grantees exactly once;
- the current user is a known user.

Every mutating operation preserves `Wf`.

Some behaviour of the code is easy to misread. The model follows the code:

- **Encryption with an empty key.** `encryptFile` adds no check of its own on the key. The minimum key length of 7 is enforced only by the UI. Whether the IDEA constructor accepts an empty key is up to the cipher.
- **Ciphertext length.** Decryption does not check that the ciphertext length is a multiple of the block size. The only decoding failure modelled is `atob` rejecting malformed Base64 (`InvalidBase64`).
- **What `sharedWith` lists.** A file's `sharedWith` lists every grantee, expired or not, and `SharedWithInSync` states it that way.
- **Updating an existing grant.** `encryptedKey` is overwritten only when a non-empty one is supplied (`UpdateGrant`).

## Model

| member | source | states |
|---|---|---|
| Storage.InitDefaultUser | src/utils/storage.ts:46-59 | afterwards at least one user exists and the current user is one of them; with no users the demo user `user-1` is the only one; otherwise the users are unchanged and the first user in insertion order becomes the current user |
| Storage.SetCurrentUser | src/utils/storage.ts:120-125 | succeeds exactly for a known id and selects that user; an unknown id returns false and changes nothing |
| Storage.AddUser | src/utils/storage.ts:131-140 | the new user carries the given fresh id, email and name, is registered last, and nothing else changes |
| Storage.StoreFile | src/utils/storage.ts:142-159 | the file is filed under the new id, owned by the current user, shared with nobody; exactly one upload entry is logged; no other file, grant or user changes |
| Storage.GetFile | src/utils/storage.ts:161-171 | returns the file exactly when the current user may access it, then logs one view entry; otherwise returns nothing and leaves the store untouched |
| Storage.GetUserFiles | src/utils/storage.ts:173-177 | a file is listed exactly when it is stored and the current user owns it |
| Storage.GetSharedWithMeFiles | src/utils/storage.ts:179-183 | a file is listed exactly when it is stored, someone else owns it and the current user may access it now |
| Storage.CanAccessFile | src/utils/storage.ts:185-199 | false for a missing file; true for the owner; otherwise true exactly when a grant of the file to the user has no expiry or expires after now |
| Storage.ShareFile | src/utils/storage.ts:201-251 | succeeds exactly for the owner or the holder of a reshare grant, whose expiry is ignored, and otherwise changes nothing; an existing grant for the pair is updated in place and the grant count stays the same; otherwise exactly one grant is appended and the recipient is listed on the file without a duplicate; one share entry is logged |
| Storage.GetFileShares | src/utils/storage.ts:253-258 | the owner gets exactly the file's grants, with multiplicity; anyone else, or a missing file, gets none |
| Storage.RevokeShare | src/utils/storage.ts:260-281 | succeeds exactly when the caller owns the file and a grant for the pair exists; that one grant and one listing of the recipient are removed; the log is untouched; on failure nothing changes |
| Storage.DeleteFile | src/utils/storage.ts:283-293 | succeeds exactly for the owner; removes the file and every grant and log entry of it, and keeps every other file, grant and entry |
| Storage.LogAccess | src/utils/storage.ts:295-308 | appends exactly one entry and keeps every earlier entry in place |
| Storage.GetAccessLogs | src/utils/storage.ts:310-317 | a non-owner or a missing file gets nothing; the owner gets exactly the file's entries as a permutation, ordered by non-increasing timestamp |
| Storage.GetFileShare | src/utils/storage.ts:319-326 | returns a grant exactly when a live grant of the file to the user exists, and the grant returned is one |
| Storage.ClearAllData | src/utils/storage.ts:328-339 | leaves no files, grants or log entries and only the demo user, who is current |
| JsArray.SortDesc | src/utils/storage.ts:314-316 | the sort yields a permutation of its input ordered by non-increasing key |
| StorageInvariant.InitialStoreIsWf | src/utils/storage.ts:41-59 | a store built from no saved data, or cleared, satisfies the invariant |
| StorageInvariant.StoreFilePreservesWf | src/utils/storage.ts:142-159 | storing under a fresh id preserves the invariant |
| StorageInvariant.GetFilePreservesWf | src/utils/storage.ts:161-171 | reading a file preserves the invariant |
| StorageInvariant.LogAccessPreservesWf | src/utils/storage.ts:295-308 | logging preserves the invariant |
| StorageInvariant.SetCurrentUserPreservesWf | src/utils/storage.ts:120-125 | switching user preserves the invariant |
| StorageInvariant.AddUserPreservesWf | src/utils/storage.ts:131-140 | adding a user under a fresh id preserves the invariant |
| StorageInvariant.ShareFilePreservesWf | src/utils/storage.ts:221-246 | sharing keeps one grant per pair and keeps `sharedWith` equal to the file's grantees, each listed once |
| StorageInvariant.UpdateInPlaceKeepsPairs | src/utils/storage.ts:225-230 | updating a grant in place keeps the set of (file, recipient) pairs with a grant and their uniqueness |
| StorageInvariant.RevokeSharePreservesWf | src/utils/storage.ts:260-281 | revoking keeps one grant per pair and keeps `sharedWith` in step with the grants |
| StorageInvariant.RemoveGrantKeepsPairs | src/utils/storage.ts:264-269 | removing the one grant of a pair takes away exactly that pair's grant |
| StorageInvariant.DeleteFilePreservesWf | src/utils/storage.ts:283-293 | the cascade leaves no grant naming a deleted file and preserves the invariant |
| StorageProperties.AccessDecidedByTheGrant | src/utils/storage.ts:185-199 | for a non-owner holding a grant, access holds exactly while that grant has not expired |
| StorageProperties.ExpiredGrantGivesNoAccess | src/utils/storage.ts:191-198 | a grant whose expiry is at or before now gives no access, although it is still stored |
| StorageProperties.FileShareImpliesAccess | src/utils/storage.ts:319-326 | a grant found by `getFileShare` means `canAccessFile` holds |
| StorageProperties.ShareGrantsAccess | src/utils/storage.ts:201-251 | after a successful share the recipient may access the file at every time before the given expiry |
| StorageProperties.RevokeEndsAccess | src/utils/storage.ts:260-281 | after a successful revocation the recipient keeps access only if they own the file |
| StorageProperties.DeleteEndsAccess | src/utils/storage.ts:283-293 | after deletion nobody may access the file, no grant or log entry of it remains, and the owner's list no longer holds it |
| StorageProperties.StoredFileIsPrivate | src/utils/storage.ts:142-159 | a newly stored file is in the uploader's list and no other user may access it |
| StorageProperties.PlainGranteeCannotShare | src/utils/storage.ts:211-219 | a non-owner whose grant lacks `canReshare` cannot share, and nothing changes |
| StorageProperties.ExpiredDelegateRenewsOwnAccess | src/utils/storage.ts:211-230 | a grantee whose reshare grant has expired has no access, yet can share the file with themselves and regain access |
| StorageProperties.ShareFileUnexpired | src/utils/storage.ts:208-219 | corrected permission check: succeeds exactly for the owner or the holder of a live reshare grant, and otherwise behaves as `shareFile` |
| StorageProperties.UnexpiredCheckNeedsAccess | src/utils/storage.ts:208-219 | with the corrected check, a caller who may not access the file now cannot change anything |
| StorageProperties.DelegateCanEndOthersAccess | src/utils/storage.ts:211-230 | a non-owner holding a reshare grant can share again with any other grantee of the file, with an expiry of now, and that grantee's live access ends |
| StorageProperties.ShareFileDelegatesAddOnly | src/utils/storage.ts:208-230 | corrected check: succeeds exactly for the owner, or for the holder of a live reshare grant when the recipient has no grant yet; otherwise changes nothing, and when it succeeds behaves as `shareFile` |
| StorageProperties.DelegateShareKeepsAccess | src/utils/storage.ts:208-246 | with the corrected check, a share by anyone but the file's owner leaves every user's access to every file, at every moment, in place |
| Crypto.BytesToBinary | src/utils/crypto.ts:11-18 | one character per byte: character i has the code of byte i, so every code is at most 255 |
| Crypto.BinaryToBytes | src/utils/crypto.ts:20-27 | one byte per character: byte i is the code of character i modulo 256 |
| Crypto.BytesBinaryRoundTrip | src/utils/crypto.ts:11-27 | bytes turned into a binary string and back are unchanged |
| Crypto.BinaryBytesRoundTrip | src/utils/crypto.ts:11-27 | a binary string, with every code below 256, turned into bytes and back is unchanged |
| Crypto.HashKeyEncodesDigest | src/utils/crypto.ts:34-38 | the fingerprint is `btoa` of the byte loop applied to the SHA-256 digest: `btoa` of the binary string whose character codes are the digest's bytes, a function of the key alone |
| Crypto.EncryptFile | src/utils/crypto.ts:40-57 | the record keeps the file name and byte size and stores the key's fingerprint; the MIME type is `application/octet-stream` when the input type is empty and the input type otherwise |
| Crypto.TrimTrailingZeros | src/utils/crypto.ts:74-79 | the result is a prefix of the decrypted bytes, empty or ending in a non-zero byte, and every removed byte is zero |
| Crypto.TrimPadding | src/utils/crypto.ts:74-79 | the `actualSize` loop stays within `0..length` and yields the trimmed prefix |
| Crypto.ZeroTrimUnique | src/utils/crypto.ts:74-79 | the trimmed prefix is determined uniquely by those three conditions |
| Crypto.TrimFixedPoints | src/utils/crypto.ts:74-79 | trimming is the identity exactly on sequences that are empty or end in a non-zero byte |
| Crypto.TrimIdempotent | src/utils/crypto.ts:74-79 | trimming twice equals trimming once |
| Crypto.TrimRemovesPadding | src/utils/crypto.ts:74-79 | zero padding after a payload that does not end in zero is removed exactly |
| Crypto.DecryptFile | src/utils/crypto.ts:59-82 | fails with the invalid-key error exactly when the fingerprint differs; fails on malformed Base64 only after a fingerprint match; a successful result is the trimmed decryption and carries the stored MIME type |
| Crypto.WrongKeyNeverReachesCipher | src/utils/crypto.ts:63-67 | with a wrong key, the outcome does not depend on the cipher or on `atob` |
| Crypto.WrongKeyRejected | src/utils/crypto.ts:40-67 | decrypting with a key whose fingerprint differs from the encrypting key's fails |
| Crypto.EncryptDecryptRoundTrip | src/utils/crypto.ts:40-82 | if `atob` undoes `btoa` and IDEA decryption yields the plaintext plus zero padding, a plaintext not ending in zero comes back unchanged |
| Crypto.TrailingZerosAreLost | src/utils/crypto.ts:74-79 | under the same assumptions, a plaintext ending in a zero byte comes back shorter |
| Crypto.GenerateRandomKey | src/utils/crypto.ts:84-95 | fails exactly when the length exceeds the 65536 bytes `crypto.getRandomValues` fills in one call; otherwise the key has the requested length, and character i is the alphabet entry at the i-th random byte modulo 70 |

## Findings

| source | as written | input that shows it | evidently intended | confidence | as-written member | corrected member |
|---|---|---|---|---|---|---|
| src/utils/storage.ts:211-219 | the reshare permission accepts any grant with `canReshare`, and does not look at `expiresAt` | user B holds a grant on file f with `canReshare = true` and `expiresAt = 10`. At now = 20, B has no access. B calls `shareFile(f, B, true)` with no expiry. The call is accepted, B's own grant loses its expiry, and `canAccessFile(f, B)` becomes true | resharing needs a live grant, as every other use of a grant does | medium, not executed | StorageProperties.ExpiredDelegateRenewsOwnAccess | StorageProperties.ShareFileUnexpired |
| src/utils/storage.ts:211-230 | once the caller passes the reshare check, an existing grant for the recipient is overwritten in place, whoever issued it | the owner grants user C access to f with no expiry, and user B a grant with `canReshare = true`. At now = 20, B calls `shareFile(f, C, false, 20)`. The call is accepted, C's grant now expires at 20, and `canAccessFile(f, C)` is false from then on | only the owner may narrow a grant, as only the owner may revoke; a delegate may add recipients but not alter an existing grant | medium, not executed | StorageProperties.DelegateCanEndOthersAccess | StorageProperties.ShareFileDelegatesAddOnly |

`Storage.ShareFile` models the code as written. `StorageProperties.ShareFileUnexpired` adds the expiry test to the permission check. When that check passes, it behaves as `Storage.ShareFile`, so the other sharing properties carry over to it. `StorageProperties.ShareFileDelegatesAddOnly` adds both corrections: it also refuses a delegate's share when the recipient already holds a grant. With it, only the owner can take access away, by updating or revoking a grant.

## Left out

- SHA-256, the IDEA cipher, `btoa`/`atob` and `TextEncoder` are foreign code. They are function-valued parameters (`Crypto.Primitives`), not definitions.
- `crypto.getRandomValues` and the `Date.now()`/`Math.random()` ids are randomness. The random bytes and fresh ids are parameters.
- `loadFromLocalStorage`, `saveToLocalStorage`, the `localStorage` calls of `clearAllData` and JSON date revival are persistence I/O. Saves are no-ops. The constructor's load is represented by `InitDefaultUser` accepting any store.
- `getCurrentUser` and `getAllUsers` are plain accessors. `Storage.Me` and `JsMap.Values` play their part.
- `downloadBlob`, `Blob` construction and all React components are UI and DOM code. The decrypt-then-download pair of log entries is written by the UI, not by the storage manager.
- The async/Promise structure is left out. Every operation is synchronous.
- The source calls `new Date()` several times within one operation. The model uses one `now` per operation.
- Storage.StoreFile, Storage.AddUser: a collision of the generated id with an existing one is excluded by a precondition instead of being modelled as an overwrite.
- Storage.GetUserFiles, Storage.GetSharedWithMeFiles: the contracts state which files are listed. They do not state the insertion order the model keeps.
- Storage.GetFileShare: the contract does not state that the grant returned is the first live one in the list. Under the invariant there is at most one.
- JsArray.SortDesc: stability is not stated. Entries with equal timestamps keep log order by construction, but no lemma says so.
- Crypto.EncryptFile: the code Base64-encodes `encryptedBytes.buffer`, the whole buffer behind the cipher's output array. The model's `ideaEncrypt` stands for the bytes of that buffer, so whether the array covers the whole buffer is left to that parameter and is not modelled.
- Crypto.EncryptFile: the IDEA constructor and `encrypt` are total in the model. Any exception either might raise, for an empty key or otherwise, is not modelled, so the model's encryption never fails.
- Crypto.DecryptFile: the IDEA decryption is total in the model. Any exception the cipher might raise on bad input is not modelled.
- Crypto.GenerateRandomKey: `length` is a natural number. Only integer lengths are modelled. A negative length, for which `new Uint8Array` throws, is not modelled. Neither is a fractional or `NaN` length, which the source accepts without an exception: `new Uint8Array` truncates the length, the loop `i < length` still runs up to the next integer, and a read past the array's end appends the text "undefined" (so `2.5` gives 11 characters and `NaN` gives the empty key). The default of 16 is left to the caller. A length above 65536 is modelled as a failure (`None`) rather than as an exception.
