# Udrive server: the drive store and the byte algorithms below it

A model in Dafny of two parts of the Udrive server, with proofs.

**The drive store.** A small file system kept in one key-value map: a tree of directories with cached sizes, files with
revisions, a trash for each user, sharing lists on both sides, a used quota, and an index of e-mails. Every record is
spread over string keys, and every set is a `;`-separated string.

- `Text`, `Keys`, `DbHandler`, `Records`, `DataHandler`: numerals and token lists, generated keys, the database with its
  pending batch, and the data layer. A class invariant ties the flat string map to a `Store` of records, and each
  operation of the data layer is proved to change exactly the record it names.
- `Drive`: what each request does to a store, as functions; `Step` serves one request and `Run` a sequence.
- `Dispatcher`: the requests as the server carries them out, record by record, with its loops and recursions. Each method is
  proved to bring about exactly the store and the outcome that `Drive` names. `Refinement` and `Teardown` hold the lemmas on
  the steps, among them the states inside a directory deletion in which erased children are still listed.
- `Answers`, `Uploads`, `TrashAnswers`: for each request, who is refused and with which status, and every field that changes
  otherwise, stated on the records and without the functions of `Drive`. `Rights`: who may change what, over all requests.
- `Tree`, `Invariants`, `Keep*`, `Runs`, `History`, `Totals`, `Search`: what holds in every run.
- `Failures`: runs that break what the code does not keep.

`Inv` is kept by every admissible request: ids are canonical numerals below the counters (so "0" is never one), the
directories form a forest in which parent and child links agree, each user has a root of their own, every file is in exactly
one place, once, sharing is symmetric and for live files only, the used quota covers the recorded sizes of the user's files
and is at most the maximum, and the e-mail index is the inverse of the stored e-mails. Accounting is exact over every run: a
new upload of an existing name changes sizes and quotas but not the record of the file, and a ledger of these uploads makes
up the difference. Each directory size is, as a word, the sum of the recorded sizes below it and its entry in the ledger, and
each used quota the sum of what the user owns and the user's entry.

`Admissible` lists what the server relies on. Where the code does not meet a property without such a condition, a lemma gives
the exact condition, and `Failures` gives requests from the empty store that break it:

| the code | the property holds if and only if | broken in |
|---|---|---|
| a re-upload changes no recorded size (of the uploads whose checked sum does not wrap around) | sizes: the new size is the recorded one, or nothing is written; quota: the size is 0 or the disk takes nothing | `UploadedAgain` |
| a save of nothing leaves the id in the list of the directory | the file is not empty and the disk takes some of it | `EmptyUpload`, `DiskFull` |
| the quota check adds two words, for a new name | the sum does not wrap around | `QuotaWraps` |
| the same for an existing name | nothing is written, or the sum does not wrap around, or it wraps to a quota that still covers the recorded sizes of what the user owns (as in `QuotaWrapsUnnoticed`) | `QuotaWrapsAgain` |
| a file id is appended to the trash with a leading `;` | the file is not in the trash already | `DeletedTwice` |
| a share is set on a file in the trash | the file is live | `SharedFromTrash` |
| the shares of a file in the trash are overwritten | the file is live, or the new list is empty, or its first user does not exist | `OverwrittenInTrash` |
| a root directory is deleted by its own id | the directory is no user's root | `RootDeleted` |
| deleting a user does not clean up after the user in other trees and lists | no file outside the tree of the user is shared with the user, or owned by the user and not in the trash | `SharingUserDeleted` |
| a sign-up is not checked for an e-mail the list cannot hold | the e-mail is not empty and without `;` | `SignedUpUnlisted` |
| an e-mail is changed to a registered one, or to one the list cannot hold | it is neither | `EmailTaken`, `EmailUnlisted` |

Some of these are inputs of the dispatcher's interface only, for the server's own callers do not pass them. Its upload handler
refuses empty files (`server/src/rest/receive_file_node.cc:62`, for `EmptyUpload`), and the size it passes is that of a string
in memory, with which no sum wraps (`QuotaWraps`, `QuotaWrapsAgain`, `QuotaWrapsUnnoticed`). No handler calls `set_file_share`,
`unset_file_share` or `delete_user` (`SharedFromTrash`, `SharingUserDeleted`): the share request that is served is the overwrite
(`server/src/rest/update_collaborators_node.cc:71`). The profile handlers pass the stored e-mail back
(`server/src/rest/update_userfullname_node.cc:53`, `server/src/rest/update_location_node.cc:50`, for `EmailTaken` and
`EmailUnlisted`). The sign-up handler refuses an empty e-mail (`server/src/rest/signup_node.cc:30`), but not one with `;`.

Where code and documentation differ the model follows the code: status codes that a callee receives by value do not reach the
caller (`STATUS_UNSET` in the model), and a failed request may have changed part of the store.

**The byte algorithms** of the bundled mongoose library: the WebSocket frame writer and reader over a growable buffer
(`Frames`, `Chunks`, `WebSocket`; sections 5.2 and 5.3 of RFC 6455), streaming SHA-1 and MD5 (`Digest`, `Sha1`, `Md5`; RFC 3174
and RFC 1321), the glob matcher (`Glob`), percent-encoding (`Url`; section 2.1 of RFC 3986) and the in-place path normaliser
(`Path`).

Verify with `dafny verify dfyconfig.toml`.

## Model

| member | source | states |
|---|---|---|
| `Text.SplitJoin` | server/src/request_dispatcher.cc:787-795 | splitting the string that appends of `;` and a token build gives the list of tokens back, for every list of keys |
| `Text.SplitString` | server/src/request_dispatcher.cc:787-795 | the `getline` loop returns exactly the non-empty pieces between delimiters |
| `Text.AddKeyToStringList` | server/src/request_dispatcher.cc:945-959 | the string is kept if the key is among its tokens, else `;` and the key are appended; the tokens of the result follow |
| `Text.RemoveKeyFromStringList` | server/src/request_dispatcher.cc:961-970 | the tokens of the result are the tokens of the list without the key, in order |
| `Text.DivideSelectedIds` | server/src/request_dispatcher.cc:1126-1139 | the two strings hold the selected and the unselected tokens in their original order |
| `Text.SelectPartition` | server/src/request_dispatcher.cc:1126-1139 | the two halves of a division together are the original tokens, with nothing lost and nothing duplicated |
| `Text.InsertTextDelimited` | server/src/request_dispatcher.cc:615 | a key passed with a leading `;` is never found, so it is always appended: the de-duplicating insert does not de-duplicate here |
| `Text.ToStrRoundTrip` | server/src/request_dispatcher.cc:940-942 | reading back a written number gives the number, and what is written is digits only |
| `Text.ValConcat` | server/src/request_dispatcher.cc:940-942 | numerals are positional, the highest digit first |
| `Text.ToStrCanonical` | server/src/request_dispatcher.cc:940-942 | a written number has no leading zero |
| `Keys.EncodeInjective` | server/src/data_handler.cc:386-403 | different typed keys have different strings, across all families and fields and for all ids and e-mails |
| `Keys.TypedPut` | server/src/data_handler.cc:468-471 | a write under a generated key changes exactly that typed key of the map |
| `Keys.TypedErase` | server/src/data_handler.cc:234-297 | erasing a generated key removes exactly that typed key of the map |
| `Db.DirectPutCommutes` | server/src/db_handler.cc:29-33 | a direct write to a key that the pending batch does not touch commutes with writing the batch |
| `Db.DbHandler.PutBatch` | server/src/db_handler.cc:71-74 | a staged write changes the pending database at that key only, and the database itself not at all |
| `Db.DbHandler.EraseBatch` | server/src/db_handler.cc:65-68 | a staged deletion takes the key out of the pending database |
| `Db.DbHandler.WriteBatch` | server/src/db_handler.cc:82-85 | writing makes the pending database the database |
| `DataHandlers.DataHandler.constructor` | server/src/data_handler.cc:14-33 | a new database represents the store without records, with all counters at one |
| `DataHandlers.DataHandler.Reopen` | server/src/data_handler.cc:14-33 | opening a database that holds records, as at every restart, changes nothing: the records and the counters are as they were |
| `DataHandlers.DataHandler.CreateId` | server/src/data_handler.cc:406-415 | hands out the counter as a numeral and advances it by one, as a word |
| `DataHandlers.DataHandler.GetUserInfo` | server/src/data_handler.cc:178-189 | finds exactly the users of the store, and the strings read as the record |
| `DataHandlers.DataHandler.GetDirectoryInfo` | server/src/data_handler.cc:192-204 | finds exactly the directories of the store, and the strings read as the record |
| `DataHandlers.DataHandler.GetFileInfo` | server/src/data_handler.cc:207-221 | finds exactly the files of the store, and the strings read as the record |
| `DataHandlers.DataHandler.AddDirectory` | server/src/data_handler.cc:93-125 | adds the record under a new id and appends the id to the list of the parent; a missing parent costs an id and adds nothing |
| `DataHandlers.DataHandler.AddFile` | server/src/data_handler.cc:128-159 | adds the record under a new id and appends the id to the list of its directory; a missing directory leaves the store as it is |
| `DataHandlers.DataHandler.DeleteDirectory` | server/src/data_handler.cc:259-275 | removes exactly that directory record |
| `DataHandlers.DataHandler.DeleteFile` | server/src/data_handler.cc:278-297 | removes exactly that file record |
| `DataHandlers.DataHandler.ModifyDirectoryInfo` | server/src/data_handler.cc:332-343 | changes exactly the name, date, tags and size of that directory, whatever the batch held before |
| `DataHandlers.DataHandler.ModifyDirectoryFilesContained` | server/src/data_handler.cc:346-348 | changes exactly the list of files of that directory |
| `DataHandlers.DataHandler.ModifyDirectoryDirsContained` | server/src/data_handler.cc:351-353 | changes exactly the list of children of that directory |
| `DataHandlers.DataHandler.ModifyFileInfo` | server/src/data_handler.cc:356-371 | changes exactly the modifiable fields of that file, whatever the batch held before |
| `DataHandlers.DataHandler.ModifyFileRevision` | server/src/data_handler.cc:374-383 | changes exactly the revision of that file |
| `DataHandlers.DataHandler.AddUser` | server/src/data_handler.cc:36-80 | refuses a registered e-mail; else adds user, root, shared-files directory, index entry and list entry |
| `DataHandlers.DataHandler.ModifyUserInfo` | server/src/data_handler.cc:305-329 | refuses an unknown id; else changes exactly that user; a new e-mail also moves the index entry and the entry of the list, part in the batch and part outside it |
| `DataHandlers.DataHandler.DeleteUser` | server/src/data_handler.cc:234-256 | removes exactly the record, the index entry and the list entry of that user |
| `DataHandlers.DataHandler.AddEmailToList` | server/src/data_handler.cc:474-490 | inserts the e-mail into the list once |
| `DataHandlers.DataHandler.RemoveEmailFromList` | server/src/data_handler.cc:493-506 | removes the e-mail from the list |
| `Dispatchers.RequestDispatcher.SignUp` | server/src/request_dispatcher.cc:26-31 | the store and the outcome are those of adding a user, and the id handed out is that of the record |
| `Dispatchers.RequestDispatcher.NewDirectory` | server/src/request_dispatcher.cc:63-75 | the store and the outcome that `NewDirectoryAnswers` describes, and the id handed out is that of the record |
| `Dispatchers.RequestDispatcher.SearchRevisionFile` | server/src/request_dispatcher.cc:1015-1027 | finds the first listed file of that name and extension; fails at a missing record |
| `Dispatchers.RequestDispatcher.NewFile` | server/src/request_dispatcher.cc:78-134 | quota check as a word, new file or new revision, a save of nothing (an empty file, or no room on the disk), quota, dates and sizes: the store and the outcome in every branch, and the id of a new record |
| `Dispatchers.RequestDispatcher.IncreaseDirSizeRecursive` | server/src/request_dispatcher.cc:841-852 | the recursion ends and adds the size, as a word, to the directory and all its ancestors and to no other |
| `Dispatchers.RequestDispatcher.DecreaseDirSizeRecursive` | server/src/request_dispatcher.cc:855-866 | the recursion ends and subtracts the size, as a word, from the directory and all its ancestors and from no other |
| `Dispatchers.RequestDispatcher.ChangeDirDateRecursive` | server/src/request_dispatcher.cc:828-838 | the recursion ends and sets the date of the directory and of all its ancestors and of no other |
| `Dispatchers.RequestDispatcher.IncreaseUserQuotaUsed` | server/src/request_dispatcher.cc:806-814 | adds to the used quota of that user, as a word |
| `Dispatchers.RequestDispatcher.DecreaseUserQuotaUsed` | server/src/request_dispatcher.cc:817-825 | subtracts from the used quota of that user, as a word |
| `Dispatchers.RequestDispatcher.IncreaseFileRevision` | server/src/request_dispatcher.cc:1030-1037 | adds one to the revision of that file |
| `Dispatchers.RequestDispatcher.SetFileShare` | server/src/request_dispatcher.cc:406-431 | records the share on both sides once; refuses strangers and missing records |
| `Dispatchers.RequestDispatcher.UnsetFileShare` | server/src/request_dispatcher.cc:434-459 | removes the share on both sides; refuses strangers and missing records |
| `Dispatchers.RequestDispatcher.OverwriteFileSharingByList` | server/src/request_dispatcher.cc:462-485 | takes back every share and then sets the new ones, up to the first failure |
| `Dispatchers.RequestDispatcher.DeleteFile` | server/src/request_dispatcher.cc:592-643 | the owner moves the file to the trash and unshares it from everyone; a sharing user only unshares it from themselves; others are refused |
| `Dispatchers.RequestDispatcher.DeleteDirRecursive` | server/src/request_dispatcher.cc:986-1012 | from a store in which the directories done are gone, the recursion ends in the one where the subtree is gone too, visited children first, with its files in the trash |
| `Dispatchers.RequestDispatcher.DeleteDirectory` | server/src/request_dispatcher.cc:567-589 | the store and the outcome of the request, in every branch |
| `Dispatchers.RequestDispatcher.PurgeDeletedFiles` | server/src/request_dispatcher.cc:646-661 | every trashed file is erased, its size leaves the quota, and the trash list is empty |
| `Dispatchers.RequestDispatcher.PurgeSelectedFiles` | server/src/request_dispatcher.cc:664-686 | the same for the selected files; the others stay in order |
| `Dispatchers.RequestDispatcher.RecoverDeletedFiles` | server/src/request_dispatcher.cc:689-703 | every trashed file returns to its directory or to the root, sizes follow, and the trash list is empty |
| `Dispatchers.RequestDispatcher.RecoverSelectedFiles` | server/src/request_dispatcher.cc:706-726 | the same for the selected files; the others stay in order |
| `Dispatchers.RequestDispatcher.RecoverFile` | server/src/request_dispatcher.cc:1095-1123 | one file goes back to its directory, or to the root if that is gone |
| `Dispatchers.RequestDispatcher.DeleteUser` | server/src/request_dispatcher.cc:549-564 | the tree of the user is deleted, the trash purged and the record removed: the store and the outcome |
| `Dispatchers.RequestDispatcher.ModifyUserInfo` | server/src/request_dispatcher.cc:488-501 | changes the profile, and index and list with a new e-mail |
| `Dispatchers.RequestDispatcher.ModifyDirectoryInfo` | server/src/request_dispatcher.cc:509-524 | changes name, date and tags for the owner only, and never of "0" |
| `Dispatchers.RequestDispatcher.ModifyFileInfo` | server/src/request_dispatcher.cc:527-546 | changes name, extension, date and tags for the owner and the users the file is shared with |
| `Dispatchers.RequestDispatcher.AddInfoFilesFromIdList` | server/src/request_dispatcher.cc:1040-1077 | appends the matching files of the list in order; fails exactly if a record is missing |
| `Dispatchers.RequestDispatcher.SearchByModeRecursive` | server/src/request_dispatcher.cc:1205-1238 | appends exactly the matches of the listing of the subtree, in the order of the walk |
| `Dispatchers.RequestDispatcher.SearchOwnedAndShared` | server/src/request_dispatcher.cc:729-771 | the matches of the tree of the user, then those of the files shared with the user |
| `Dispatchers.RequestDispatcher.Serve` | server/src/request_dispatcher.cc:26-726 | each request takes the database from a store that keeps the invariants to exactly the store of the specification |
| `Dispatchers.RequestDispatcher.ServeAll` | server/src/request_dispatcher.cc:26-726 | after every admissible run from a good store the database holds the store of the run, the invariants hold, and all sizes and quotas are accounted for by the records and the ledger of re-uploads |
| `Tree.ChainRank` | server/src/data_handler.cc:406-435 | the directories met on the way up exist, and none but the first has an id as large as the first |
| `Tree.ChainClosed` | server/src/data_handler.cc:406-435 | in a forest the way up ends at a root only: each directory on it has its parent on it as well, with a smaller id |
| `Tree.ChainIsPath` | server/src/data_handler.cc:406-435 | the directories on the way up are exactly those that a path of parents reaches |
| `Tree.SiblingsApart` | server/src/request_dispatcher.cc:986-1012 | subtrees of siblings are disjoint |
| `Tree.WalkMembers` | server/src/request_dispatcher.cc:986-1012 | a walk visits exactly the subtree |
| `Tree.WalkNoDup` | server/src/request_dispatcher.cc:986-1012 | a walk visits no directory twice |
| `Answers.SignUpAnswers` | server/src/request_dispatcher.cc:26-31 | exactly new e-mails are accepted, and then every field of the user, the root and the directory of shared files; the parts of name and place in order |
| `Answers.ModifyUserAnswers` | server/src/request_dispatcher.cc:488-501 | an unknown user is refused; else profile, index and list change, and root, lists and quota stay |
| `Answers.ModifyDirectoryAnswers` | server/src/request_dispatcher.cc:509-524 | "0", missing directories and strangers are refused, each with its status and without a change; the owner changes name, date and tags and nothing else |
| `Answers.ModifyFileAnswers` | server/src/request_dispatcher.cc:527-546 | missing files and strangers are refused without a change; the owner and the users it is shared with change name, extension, date and tags, become the modifier, and change nothing else |
| `Answers.NewDirectoryAnswers` | server/src/request_dispatcher.cc:63-75 | the new directory is in the named directory, or in the root of the user for "0": listed last, empty, with every field; exactly that directory and all above it get the date; the status and the store of each failure |
| `Answers.DeleteDirectoryAnswers` | server/src/request_dispatcher.cc:567-589 | "0", missing directories and strangers are refused, each with its status and without a change; a granted request succeeds if and only if the directory has a parent |
| `Answers.DeleteFileAnswers` | server/src/request_dispatcher.cc:592-643 | a missing file, and a caller who neither owns nor shares the file, are refused without a change |
| `Answers.DeleteFileByOwner` | server/src/request_dispatcher.cc:609-635 | the owner moves the file to the trash: every field that changes, on all sides; with its directory gone it is only listed once more, and the request fails |
| `Answers.DeleteFileBySharing` | server/src/request_dispatcher.cc:638-640 | a user with whom a file is shared leaves it: both lists lose the other side, the file stays live, and nothing else changes but its modifier |
| `Answers.SetFileShareAnswers` | server/src/request_dispatcher.cc:406-431 | who is refused, in the order of the tests and without a change; else each list holds the other side once, at its old place or last |
| `Answers.UnsetFileShareAnswers` | server/src/request_dispatcher.cc:434-459 | who is refused, in the order of the tests and without a change; else each list is the old one without the other side |
| `Answers.OverwriteAnswers` | server/src/request_dispatcher.cc:462-485 | all shares go and the new users get theirs, in order, up to the first who is not known: every field, and success exactly if all are known |
| `Uploads.UploadRefused` | server/src/request_dispatcher.cc:78-99 | what is refused before anything is written, with its status and without a change |
| `Uploads.NewNameAnswers` | server/src/request_dispatcher.cc:114-131 | a file of a new name: the record, its place last in the list, the quota, and date and size of the place and all above it and of no other; or the id left in the list when nothing is written |
| `Uploads.SameNameAnswers` | server/src/request_dispatcher.cc:103-131 | of the files of the name the first listed one gets the new revision; the place and all above it trade the recorded size for the new one; or nothing changes when nothing is written |
| `TrashAnswers.PurgeTrashAnswers` | server/src/request_dispatcher.cc:646-661 | exactly the trashed files of the user are erased and their sizes leave the quota |
| `TrashAnswers.PurgeSelectedAnswers` | server/src/request_dispatcher.cc:664-686 | exactly the selected files of the trash are erased and their sizes leave the quota; the others stay in order |
| `TrashAnswers.RecoverTrashAnswers` | server/src/request_dispatcher.cc:689-703 | every trashed file is back, last in the list of its directory or, if that is gone, of the root; each directory grows by what came back below it |
| `TrashAnswers.RecoverSelectedAnswers` | server/src/request_dispatcher.cc:706-726 | the same for exactly the selected files; the others stay in the trash, in order |
| `TrashAnswers.DeleteUserAnswers` | server/src/request_dispatcher.cc:549-564 | the user's record and entries, tree, and files in tree or trash are gone; files of others in the tree are in their owners' trash; nothing else changes |
| `Rights.FilesByRight` | server/src/request_dispatcher.cc:26-726 | over all requests, a file is changed or erased only by its owner, a user it is shared with, or the owner of a directory above it; but an upload of its name counts its revision on without a test |
| `Rights.DirsByRight` | server/src/request_dispatcher.cc:26-726 | over all requests, a directory is erased or renamed only by its owner or the owner of a directory above it, and its owner and parent never change |
| `Rights.UsersByRight` | server/src/request_dispatcher.cc:26-726 | over all requests, a user's profile, root and quota change, and the record goes, only at the user's own request |
| `Rights.RefusedLeaves` | server/src/request_dispatcher.cc:26-726 | a request that is refused for want of a right leaves any store as it was |
| `KeepBasics.DoNewDirectoryKeeps` | server/src/request_dispatcher.cc:63-75 | a new directory keeps all invariants and the exact sizes |
| `KeepFiles.UploadKeeps` | server/src/request_dispatcher.cc:120-131 | an upload under a new name keeps all invariants and the accounts of sizes and quotas, if quota and size fit in a word |
| `KeepFiles.RevisedKeeps` | server/src/request_dispatcher.cc:103-131 | a re-upload keeps the invariants if and only if the checked sum does not wrap around, or wraps to a quota that still covers what the user owns; without a wrap-around, with its size entered in the ledger all sizes and quotas are right again, and with the ledger as it was the sizes are right if and only if the new size is the recorded one, the quotas if and only if it is 0 |
| `KeepTrash.TrashKeeps` | server/src/request_dispatcher.cc:609-635 | moving a live file to the trash keeps all invariants and exact sizes |
| `KeepRecover.RecoverKeeps` | server/src/request_dispatcher.cc:1095-1123 | recovering a trashed file keeps all invariants and exact sizes |
| `KeepRecover.DiscardCovered` | server/src/request_dispatcher.cc:1161 | the used quota never goes below zero when a file is purged, because it covers the file's size |
| `KeepRecover.DiscardKeeps` | server/src/request_dispatcher.cc:1142-1165 | purging a trashed file keeps all invariants and exact sizes |
| `KeepShare.SharedKeeps` | server/src/request_dispatcher.cc:406-431 | setting a share keeps the invariants if and only if the file is live |
| `KeepShare.UnsharedKeeps` | server/src/request_dispatcher.cc:434-459 | taking a share back keeps the invariants |
| `KeepShare.OverwriteKeeps` | server/src/request_dispatcher.cc:462-485 | overwriting, when granted, keeps the invariants if and only if the file is live or nothing is added (the new list is empty, or its first user does not exist); it succeeds exactly if all new users exist, and then leaves exactly the new list as a set |
| `KeepUsers.RegisteredKeeps` | server/src/data_handler.cc:36-80 | registering a new e-mail keeps the invariants if and only if the list can hold it: not empty and without `;` |
| `KeepUsers.SignUpGives` | server/src/data_handler.cc:36-80 | signing up with a new e-mail adds exactly a user, a root owned by the user, the directory of shared files below it, and the entries of index and list |
| `KeepUsers.SignUpKeeps` | server/src/data_handler.cc:36-80 | signing up succeeds exactly for a new e-mail, and keeps the invariants if and only if the e-mail is refused or the list can hold it |
| `KeepUsers.ModifyUserKeeps` | server/src/data_handler.cc:305-329 | a change of profile keeps the invariants if and only if the e-mail stays, or is not registered and the list can hold it |
| `KeepUsers.DropUserIndexed` | server/src/data_handler.cc:234-256 | deleting a user keeps the index the exact inverse of the e-mails and the list free of duplicates |
| `KeepDelete.TrashAllMoves` | server/src/request_dispatcher.cc:999-1006 | moving many live files moves exactly these, in order, each to its owner, without shares, and keeps the invariants |
| `KeepDelete.DeleteDirectoryKeeps` | server/src/request_dispatcher.cc:567-589 | deleting a directory keeps the invariants if and only if it is no user's root |
| `KeepDelete.DeleteDirectoryExactly` | server/src/request_dispatcher.cc:567-589 | exactly the subtree is erased, exactly its live files go to their owners' trash, and nothing else changes but the parent's list and the sizes of ancestors, by the sum of what has left |
| `KeepDelete.FilesOfTree` | server/src/request_dispatcher.cc:986-1012 | files move to the trash child by child, those of the directory itself last |
| `KeepLeave.DeleteUserKeeps` | server/src/request_dispatcher.cc:549-564 | deleting a user keeps the invariants if and only if no file outside the tree of the user is shared with the user, or owned by the user and not in the trash |
| `KeepLeave.DeleteUserIsLeft` | server/src/request_dispatcher.cc:549-564 | the three steps leave exactly the store in which the emptied tree, the trash and the record are gone |
| `KeepMany.RestoreIsRecover` | server/src/request_dispatcher.cc:689-726 | recovering several files and then writing the rest of the list is recovering one by one |
| `KeepMany.PurgeIsDiscard` | server/src/request_dispatcher.cc:646-686 | purging several files and then writing the rest of the list is discarding one by one |
| `Runs.FoundRevision` | server/src/request_dispatcher.cc:1015-1027 | with all listed files present, the search finds a file of that name and extension if and only if there is one |
| `Runs.NewNameKeeps` | server/src/request_dispatcher.cc:78-134 | an upload under a new name keeps the invariants if and only if the file is not empty, the disk takes some of it, and the checked sum does not wrap around |
| `Runs.SameNameKeeps` | server/src/request_dispatcher.cc:103-131 | an upload under an existing name succeeds exactly if something of it is written; it then keeps the invariants if and only if the checked sum does not wrap around, or wraps to a quota that still covers what the user owns; without a wrap-around its effect is what the ledger says, and without an entry the quotas are wrong afterwards |
| `Runs.DeleteFileKeeps` | server/src/request_dispatcher.cc:592-643 | deleting a file keeps the invariants if and only if the file is live or the caller is not its owner |
| `Runs.StepKeeps` | server/src/request_dispatcher.cc:26-726 | every admissible request keeps all invariants, and changes sizes and quotas only as the files do and as its entry in the ledger says |
| `Runs.RunKeeps` | server/src/request_dispatcher.cc:26-726 | after every admissible run the invariants hold, and each size and each used quota is the sum of the recorded sizes and the entries for the re-uploads of the run |
| `Runs.MeteredExactly` | server/src/request_dispatcher.cc:806-814 | after a run the used quota of a user is the sum of the recorded sizes of the user's files if and only if the user never uploaded an existing name again |
| `Runs.CleanRun` | server/src/request_dispatcher.cc:103-131 | a run without re-uploads makes no entries, so all sizes and quotas are sums of recorded sizes |
| `Runs.EmptyStoreKeeps` | server/src/data_handler.cc:14-33 | the empty store has the invariants |
| `History.StepEvolves` | server/src/data_handler.cc:406-415 | in a request no id comes back, users keep their roots, files keep owner and size, and a file changes directory only if its own is gone |
| `History.GoneForEver` | server/src/data_handler.cc:406-415 | an id of a deleted user, directory or file is never used again in any run |
| `History.LandsInRoot` | server/src/request_dispatcher.cc:1106-1112 | a file whose directory is gone is recovered, however late, into the root of its owner |
| `Failures.EmptyUpload` | server/src/file_handler.cc:38-52 | a run from the empty store keeps the invariants, and then they are broken by uploading an empty file, which counts as a failed save |
| `Failures.DiskFull` | server/src/request_dispatcher.cc:114-118 | a run from the empty store keeps the invariants, and then they are broken by uploading a file of which the disk takes nothing |
| `Failures.QuotaWraps` | server/src/request_dispatcher.cc:83 | a run from the empty store keeps the invariants, and then they are broken by uploading a file whose size makes the sum with the used quota wrap around |
| `Failures.QuotaWrapsAgain` | server/src/request_dispatcher.cc:83 | a run from the empty store keeps the invariants, and then they are broken by uploading a name again with a size that makes the sum wrap around to a quota below what is recorded |
| `Failures.DeletedTwice` | server/src/request_dispatcher.cc:609-615 | a run from the empty store keeps the invariants, and then they are broken by deleting a file that is in the trash |
| `Failures.SharedFromTrash` | server/src/request_dispatcher.cc:406-431 | a run from the empty store keeps the invariants, and then they are broken by sharing a file that is in the trash |
| `Failures.OverwrittenInTrash` | server/src/request_dispatcher.cc:462-485 | a run from the empty store keeps the invariants, and then they are broken by overwriting the shares of a file that is in the trash |
| `Failures.RootDeleted` | server/src/request_dispatcher.cc:567-589 | a run from the empty store keeps the invariants, and then they are broken by deleting a root directory by its own id |
| `Failures.SignedUpUnlisted` | server/src/data_handler.cc:36-80 | a run from the empty store keeps the invariants, and then they are broken by signing up with an e-mail that contains `;` |
| `Failures.EmailUnlisted` | server/src/data_handler.cc:305-329 | a run from the empty store keeps the invariants, and then they are broken by changing an e-mail to the empty one |
| `Failures.EmailTaken` | server/src/data_handler.cc:305-329 | a run from the empty store keeps the invariants, and then they are broken by changing an e-mail to that of another user |
| `Failures.SharingUserDeleted` | server/src/request_dispatcher.cc:549-564 | a run from the empty store keeps the invariants, and then they are broken by deleting a user with whom a file is shared |
| `Failures.QuotaWrapsUnnoticed` | server/src/request_dispatcher.cc:83 | a run from the empty store after which a re-upload with a sum that wraps around, from 11 used bytes to 6, keeps the invariants |
| `Failures.UploadedAgain` | server/src/request_dispatcher.cc:103-131 | a run from the empty store in which uploading a name again, with another size, leaves sizes and quotas wrong |
| `Totals.TotalBound` | server/src/request_dispatcher.cc:83 | the recorded sizes of all files of any set of users are at most their number times the maximal quota |
| `Totals.SizesExact` | server/src/request_dispatcher.cc:841-866 | when the quotas of all users together fit in a word, each stored directory size is exactly the sum of the recorded sizes below it |
| `Totals.ExactInEveryRun` | server/src/request_dispatcher.cc:841-866 | in every run from the empty store without re-uploads, as long as all quotas together fit in a word, each stored directory size and each used quota is exactly the sum of the recorded sizes |
| `Totals.DecreaseFits` | server/src/request_dispatcher.cc:855-866 | then no decrease of a directory size for a live file goes below zero |
| `Totals.DecreasesFit` | server/src/request_dispatcher.cc:999-1006 | nor does any of the many decreases of a directory deletion |
| `Totals.WordedRun` | server/src/request_dispatcher.cc:841-866 | stored sizes stay below 2^64 in every run |
| `Totals.DeleteThenRecover` | server/src/request_dispatcher.cc:592-726 | deleting an unshared live file and recovering it gives the same store back, with the file last in the list of its directory |
| `Refinement.AddSizesClimb` | server/src/request_dispatcher.cc:841-866 | a change on the whole way up is the change above the parent followed by the change of the directory itself |
| `Refinement.UnshareEachClears` | server/src/request_dispatcher.cc:626-630 | unsharing from each user of a list in turn clears the file from all of them and from no other |
| `Refinement.TrashedInSteps` | server/src/request_dispatcher.cc:609-635 | listing in the trash, delisting, unsharing and subtracting the size in turn is moving the file to the trash |
| `Teardown.KidReady` | server/src/request_dispatcher.cc:992-997 | when a child is deleted, no directory deleted so far lies above, below or beside it on its way to the root |
| `Teardown.TrashedErased` | server/src/request_dispatcher.cc:999-1006 | deleting a file commutes with the erasure of directories that do not lie on its way to the root |
| `Teardown.DeleteNextFile` | server/src/request_dispatcher.cc:999-1006 | in the states in between, in which parents list erased children, the owner's deletion of the next file succeeds and does what it does in an intact tree |
| `Search.ListingExactly` | server/src/request_dispatcher.cc:1205-1238 | the listing holds every directory and every live file of the tree exactly once and nothing else |
| `Search.PickExactly` | server/src/request_dispatcher.cc:1205-1238 | a search finds exactly the elements of the matching entries |
| `Search.IncludedIff` | server/src/request_dispatcher.cc:1278-1282 | a text is included if and only if it stands somewhere in the other but for the case of the letters A to Z |
| `Search.EntryFound` | server/src/request_dispatcher.cc:1168-1204 | in which searches a directory or file is found, by the texts it is compared with, and every field of what is shown |
| `Search.SearchedExactly` | server/src/request_dispatcher.cc:729-785 | found are exactly the matching directories and live files of the user's tree, and the matching files shared with the user |
| `Search.FoundOnce` | server/src/request_dispatcher.cc:1205-1238 | in a tree everything is found once |
| `Search.SearchedSelf` | server/src/request_dispatcher.cc:1205-1221 | the search of a directory begins with what its own entry and those of its files give, in this order, and with all its children it is complete |
| `Search.SearchedNext` | server/src/request_dispatcher.cc:1222-1229 | each child in turn adds the search of its own tree, behind those of the directory and the children before it |
| `Search.ContainsAt` | server/src/request_dispatcher.cc:1278-1282 | the substring test holds if and only if the text occurs at some position |
| `Search.IncludedAnyCase` | server/src/request_dispatcher.cc:1278-1282 | case makes no difference to either text |
| `Frames.MaskTwice` | server/lib/mongoose/mongoose.c:3033-3037 | masking twice with the same key gives the payload back |
| `Frames.MaskedAt` | server/lib/mongoose/mongoose.c:3033-3037 | each byte is combined, bit by bit, with the byte of the key at its place modulo four |
| `Frames.NextOfFrame` | server/lib/mongoose/mongoose.c:3004-3048 | the reader reads a complete frame of any length form, masked or not, as its message, whatever follows it |
| `Frames.NextOfPrefix` | server/lib/mongoose/mongoose.c:3004-3026 | the reader reads no message from a strict prefix of a frame |
| `Frames.NextExtends` | server/lib/mongoose/mongoose.c:3004-3048 | a message that can be read stays the same when more bytes arrive |
| `Chunks.ChunksDoNotMatter` | server/lib/mongoose/mongoose.c:3408-3412 | what is handed over, and what remains, does not depend on how the bytes are cut into chunks |
| `Chunks.ReceivedBy` | server/lib/mongoose/mongoose.c:3408-3412 | of a prefix of a stream of frames exactly the messages of its whole frames are handed over, in order, and exactly the bytes behind them remain, a strict prefix of the next frame |
| `Chunks.AllHandedOver` | server/lib/mongoose/mongoose.c:3408-3412 | at the end of the stream all its messages were handed over and nothing remains |
| `Chunks.StreamFits` | server/lib/mongoose/mongoose.c:3024 | on a stream of frames the test on header length plus data length is never fooled by a wrap-around |
| `Frames.FitsExactly` | server/lib/mongoose/mongoose.c:3024-3025 | the accepted frame lies inside the buffer if and only if the sum of the lengths fits in a word, or wraps to a value that is not accepted |
| `Frames.WrappingLength` | server/lib/mongoose/mongoose.c:3019-3025 | ten bytes announcing 2^64 - 1 bytes of data are accepted although the data is not there |
| `WebSocket.Iobuf.Append` | server/lib/mongoose/mongoose.c:365-390 | the bytes are appended and counted, in place if there is room, else in a buffer grown to what is needed |
| `WebSocket.Iobuf.Remove` | server/lib/mongoose/mongoose.c:392-397 | the first n bytes are dropped and the others moved down |
| `WebSocket.Connection.Unmask` | server/lib/mongoose/mongoose.c:3033-3037 | the key is taken off the payload in place and nothing else changes |
| `WebSocket.Connection.DeliverWebsocketFrame` | server/lib/mongoose/mongoose.c:3004-3050 | hands over exactly the next message and removes exactly its frame, or does nothing |
| `WebSocket.Connection.DeliverAll` | server/lib/mongoose/mongoose.c:3408-3412 | hands over all messages that are there, and marks the connection for closing exactly if one of them asks for it |
| `WebSocket.Connection.ReceiveChunks` | server/lib/mongoose/mongoose.c:3408-3412 | from any point of a stream on, frames arriving in arbitrary chunks are handed over as exactly their messages, exactly the bytes behind them stay buffered, and the connection is marked for closing exactly if a message asks for it |
| `WebSocket.Connection.WebsocketWrite` | server/lib/mongoose/mongoose.c:3052-3106 | appends a well-formed unmasked frame with the shortest length field, or refuses data whose frame length does not fit |
| `WebSocket.WrittenShortest` | server/lib/mongoose/mongoose.c:3052-3106 | the frame is final and has the opcode, and no other unmasked frame of the data is shorter |
| `Digest.CountMore` | server/lib/mongoose/mongoose.c:2918-2921 | the two 32-bit words with the carry from the comparison are the 64-bit count of bits |
| `Digest.FoldBlock` | server/lib/mongoose/mongoose.c:2923-2931 | compressing one more block is folding one block further |
| `Digest.PaddedWhole` | server/lib/mongoose/mongoose.c:2935-2947 | a padded message fills whole blocks |
| `Digest.PaddedParts` | server/lib/mongoose/mongoose.c:2935-2947 | a padding is the message, the byte 128, fewer than 64 zeros and the length in bits as a word, highest or lowest byte first |
| `Sha1.Sha1Context.Update` | server/lib/mongoose/mongoose.c:2914-2933 | after any sequence of updates the context holds the fold over the whole blocks of the concatenated message, and the rest in the buffer |
| `Sha1.Sha1Context.Final` | server/lib/mongoose/mongoose.c:2935-2956 | the digest is the fold over the message padded as in section 4 of RFC 3174, whatever the pieces were |
| `Sha1.CountBytes` | server/lib/mongoose/mongoose.c:2939-2942 | the final bytes are the bit count in network byte order |
| `Sha1.InitialBytes` | server/lib/mongoose/mongoose.c:2905-2912 | the initial words, byte by byte |
| `Md5.Md5Context.Update` | server/lib/mongoose/mongoose.c:4047-4081 | the same invariant for MD5, with its 32-bit lengths |
| `Md5.Md5Context.Final` | server/lib/mongoose/mongoose.c:4083-4111 | the digest is the fold over the message padded as in sections 3.1 and 3.2 of RFC 1321 |
| `Md5.LittleCount` | server/lib/mongoose/mongoose.c:4103-4105 | the two words of the count are the bit count, lowest byte first |
| `Md5.InitialBytes` | server/lib/mongoose/mongoose.c:3955-3963 | the initial words, byte by byte |
| `Md5.Bin2Str` | server/lib/mongoose/mongoose.c:4118-4126 | writes two hexadecimal digits for each byte and the terminator |
| `Bytes.HexInjective` | server/lib/mongoose/mongoose.c:4118-4126 | different bytes have different hexadecimal texts |
| `Bytes.HexAt` | server/lib/mongoose/mongoose.c:4118-4126 | the digits of byte i, by the table of digits, stand at 2i and 2i + 1 |
| `Md5.MgMd5` | server/lib/mongoose/mongoose.c:4129-4143 | writes the hexadecimal text of the digest of the concatenation of the strings |
| `Glob.MgMatchPrefix` | server/lib/mongoose/mongoose.c:2579-2614 | terminates; the result is positive exactly if some alternative matches a non-empty prefix, and is then the length of the greedy match of the first that does; else it is 0 or -1 as the last alternative matches the empty prefix or not |
| `Glob.MatchStar` | server/lib/mongoose/mongoose.c:2592-2607 | the loop over shorter and shorter takes finds a match if there is one |
| `Glob.MatchIsCut` | server/lib/mongoose/mongoose.c:2579-2614 | a match cuts the prefix into pieces, one for each element of the pattern, that fit `?`, `*`, `**`, `$` and letters without case |
| `Glob.CutIsMatch` | server/lib/mongoose/mongoose.c:2579-2614 | every such cut is a match |
| `Glob.GreedyIsGreatest` | server/lib/mongoose/mongoose.c:2592-2607 | of all ways to cut the text the greedy match has the longest pieces, the first piece counting most |
| `Glob.OneTakesIff` | server/lib/mongoose/mongoose.c:2542-2544 | letters match in either case, `?` matches any byte, and other bytes only themselves |
| `Glob.MatchesAnyCase` | server/lib/mongoose/mongoose.c:2608 | a match stays one when letters of pattern or text change case |
| `Glob.ElementsOfWritten` | server/lib/mongoose/mongoose.c:2586-2600 | a written pattern is read as the elements it was written from |
| `Url.RoundTrip` | server/lib/mongoose/mongoose.c:2457-2481 | decoding what was encoded gives every byte string back, in both form modes |
| `Url.EncodedIsPlain` | server/lib/mongoose/mongoose.c:3548-3567 | the encoding holds only letters, digits, the exempt characters, a zero byte and percent signs |
| `Url.DecodedFirst` | server/lib/mongoose/mongoose.c:2463-2476 | what stands first is decoded by itself: an escape of digits of either case to its byte, `+` to a space in forms, and anything else to itself |
| `Url.EncodedFirst` | server/lib/mongoose/mongoose.c:3548-3567 | letters, digits and the exempt bytes are kept, and any other byte becomes an escape of lower-case digits |
| `Url.MgUrlDecode` | server/lib/mongoose/mongoose.c:2457-2481 | writes the decoding, as far as there is room, in another buffer or over the source, and reports -1 exactly if the room did not suffice |
| `Url.MgUrlEncode` | server/lib/mongoose/mongoose.c:3548-3567 | writes the encoding of the longest part of the source for which the guard leaves room |
| `Url.RoomEnough` | server/lib/mongoose/mongoose.c:3553 | three bytes more than the encoding is room enough for all of it |
| `Path.RemoveDoubleDotsAndDoubleSlashes` | server/lib/mongoose/mongoose.c:2438-2455 | terminates and leaves the cleaned string in place, never longer than before |
| `Path.CleanIsNormal` | server/lib/mongoose/mongoose.c:2438-2455 | in the result no separator is followed by another, by `./` or `../`, or by `..` at the end |
| `Path.NormalIsFixed` | server/lib/mongoose/mongoose.c:2438-2455 | the strings in that normal form are exactly those that do not change |
| `Path.CleanTwice` | server/lib/mongoose/mongoose.c:2438-2455 | a second pass changes nothing |
| `Path.CleanKeepsNames` | server/lib/mongoose/mongoose.c:2438-2455 | nothing but empty components, `.` and `..` is taken out, and nothing is added |
| `Path.CleanSteps` | server/lib/mongoose/mongoose.c:2438-2455 | the text up to a separator and the separator are kept, and exactly the longest run of separators, `./`, `../` and a final `..` behind it is taken out |

## Left out

- HTTP routing, signals and connection handling (`server/src/web_server.cc`, `server/src/main.cc`, `server/src/mg_connection_w.cc`).
- Stored bytes: blobs, zip files and user images. How many bytes the disk takes is a parameter; blob names are not modelled.
- Failures of the database, logging, and opening it on disk; the map is total and never fails.
- Passwords and tokens: they are written but are no part of the records, so logging in is not modelled.
- Requests that only report: user, directory and file info, tags, e-mail lists, owners of shared files, and the percentage of the quota.
- NewFile: the size is a numeral below 2^64; for other strings `stoul` throws or reads a part, which is not modelled.
- OverwriteFileSharingByList: the source falls off the end without a result when it succeeds; the model returns Done there.
- DeleteDirectory: states what happens in stores that keep the invariants; in others the recursion may stop half-way.
- PurgeDeletedFiles: the trash lists existing files of existing users, each once, which the invariants imply; otherwise it may stop at the first missing record.
- DeleteUser: states what happens in stores that keep the invariants, as for directories.
- PurgeSelectedFiles: states what happens in stores that keep the invariants; in others it may stop at the first missing record.
- RecoverDeletedFiles: states what happens in stores that keep the invariants; in others it may stop at the first missing record.
- RecoverSelectedFiles: states what happens in stores that keep the invariants; in others it may stop at the first missing record.
- SearchByModeRecursive: the directories form a tree and list existing files, which the invariants imply; in other stores the search may fail.
- IncreaseDirSizeRecursive (and its two siblings for decreases and dates): ids grow on the way down to the directory, which the invariants imply; otherwise the recursion might not end.
- NewDirectory: the next id of the counter is not in use, which holds until the counter wraps around.
- AddFile: the size is a numeral below 2^64 and the revision the label 1, as its caller passes them.
- DeleteFile: the users with whom the file is shared exist, which the invariants imply; otherwise it stops half-way.
- DeleteDirRecursive: states what happens in stores that keep the invariants; in others the recursion may stop half-way.
- RecoverFile: the file and the root have records, which the invariants imply; otherwise the source reports a failure.
- ModifyDirectoryInfo: in the data layer the id has a record, as for all its callers; else the source writes some fields of one.
- ModifyDirectoryFilesContained: the id has a record, as for all its callers; else the source writes the list alone.
- ModifyDirectoryDirsContained: the id has a record, as for all its callers; else the source writes the list alone.
- ModifyFileInfo: in the data layer the id has a record, as for all its callers; else the source writes some fields of one.
- ModifyFileRevision: the id has a record, as for its caller; else the source writes the revision alone.
- ModifyUserInfo: in the data layer the quota is a numeral, as all its callers pass it; the source stores any text as given.
- PurgeFile: erasing the blobs of all revisions is left out, with the other disk accesses.
- SearchOwnedAndShared: covers the searches by name, extension and tag; the search by user is its second half alone.
- IncludedAnyCase: lower case is that of the C locale, for letters A to Z.
- GetUserInfo: the record is read field by field; password and token are not among the fields.
- Append: the overflow test on addresses and a failing `realloc` are left out.
- DeliverWebsocketFrame: leaves out exactly the bytes for which the sum of the lengths wraps to an accepted value (`FitsExactly`, `WrappingLength`); of a masked frame the source then unmasks bytes beyond the buffer; for an unmasked one, as `WRAPPING`, it tells the handler a length of 2^64 - 1 and removes nine bytes. The handler is a function of the message.
- DeliverAll: leaves out the same bytes for each frame of the buffered bytes; all frames the standard allows are covered.
- WebsocketWrite: a failing allocation is left out.
- Update: the data of one SHA-1 call is shorter than 2^64 bytes, that of one MD5 call shorter than 2^32.
- Final: the rounds of SHA-1 and MD5 are not modelled, the compression function is arbitrary; nor is the wiping of the context.
- MgMatchPrefix: patterns and strings are C strings, without zero bytes, and the byte behind the pattern is no star; the code looks at it after a final star.
- MgUrlDecode: the room is at least one byte; with none the source subtracts one from it as a word and writes without a bound.
- MgUrlEncode: the destination has room for the terminator, which the code writes whatever the length it is given; so does the destination of the decoder.
- Sockets, the select loop, SSL, CGI, SSI, WebDAV, proxying, directory listings and header formatting in mongoose.
