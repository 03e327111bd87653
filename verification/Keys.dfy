/** The string keys of the key-value map, and the typed keys they stand for. */
module Keys {
  import opened Text

  datatype UserField =
    | UEmail | UPassword | UToken | UName | ULocation | UQuotaUsed | UDirRoot | USharedFiles | UFilesDeleted

  datatype DirField =
    | DName | DDate | DTags | DOwner | DParent | DFiles | DDirs | DSize

  datatype FileField =
    | FName | FExtension | FDate | FModifier | FTags | FOwner | FSize | FUsersShared | FRevision | FParent
    | FFilesContained

  datatype TicketKind = UserTicket | DirTicket | FileTicket

  datatype Key =
    | UserKey(id: Id, uf: UserField)
    | DirKey(id: Id, df: DirField)
    | FileKey(id: Id, ff: FileField)
    | IndexKey(email: string)
    | TicketKey(kind: TicketKind)
    | EmailListKey

  function UserSuffix(f: UserField): string {
    match f
    case UEmail => "_email"
    case UPassword => "_password"
    case UToken => "_token"
    case UName => "_name"
    case ULocation => "_location"
    case UQuotaUsed => "_quota_used"
    case UDirRoot => "_dir_root"
    case USharedFiles => "_shared_files"
    case UFilesDeleted => "_files_deleted"
  }

  function DirSuffix(f: DirField): string {
    match f
    case DName => "_name"
    case DDate => "_date_last_mod"
    case DTags => "_tags"
    case DOwner => "_owner"
    case DParent => "_parent_directory"
    case DFiles => "_files_contained"
    case DDirs => "_directories_contained"
    case DSize => "_size"
  }

  function FileSuffix(f: FileField): string {
    match f
    case FName => "_name"
    case FExtension => "_extension"
    case FDate => "_date_last_mod"
    case FModifier => "_user_last_mod"
    case FTags => "_tags"
    case FOwner => "_owner"
    case FSize => "_size"
    case FUsersShared => "_users_shared"
    case FRevision => "_file_revision"
    case FParent => "_parent_directory"
    case FFilesContained => "_files_contained"
  }

  function TicketName(k: TicketKind): string {
    match k
    case UserTicket => "user_id"
    case DirTicket => "dir_id"
    case FileTicket => "file_id"
  }

  // The string under which a typed key is stored.
  function Encode(k: Key): string {
    match k
    case UserKey(id, f) => "user_" + id + UserSuffix(f)
    case DirKey(id, f) => "dir_" + id + DirSuffix(f)
    case FileKey(id, f) => "file_" + id + FileSuffix(f)
    case IndexKey(email) => "index_user_id_from_user_email_" + email
    case TicketKey(t) => "ticket_last_" + TicketName(t)
    case EmailListKey => "user_email_list_"
  }

  // ---------- distinctness ----------

  // The n-th character of s, counted from its end.
  predicate DifferAt(s: string, t: string, n: nat) {
    1 <= n <= |s| && n <= |t| && s[|s| - n] != t[|t| - n]
  }

  // Texts that are equal end alike, and two of their suffixes of equal length leave the same rest.
  lemma SameTail(a: string, t: string, b: string, u: string, n: nat)
    requires a + t == b + u
    ensures !DifferAt(t, u, n)
    ensures |t| == |u| ==> a == b
  {
    var s := a + t;
    if 1 <= n <= |t| && n <= |u| {
      assert s[|s| - n] == t[|t| - n] && (b + u)[|s| - n] == u[|u| - n];
    }
    if |t| == |u| {
      assert a == s[..|a|] && b == (b + u)[..|b|];
    }
  }

  // No suffix of a family ends another suffix of the family.
  lemma DirSuffixes(f: DirField, g: DirField) returns (n: nat)
    requires f != g
    ensures DifferAt(DirSuffix(f), DirSuffix(g), n)
  {
    var s, t := DirSuffix(f), DirSuffix(g);
    n := if DifferAt(s, t, 1) then 1 else if DifferAt(s, t, 2) then 2 else 13;
  }

  lemma UserSuffixes(f: UserField, g: UserField) returns (n: nat)
    requires f != g
    ensures DifferAt(UserSuffix(f), UserSuffix(g), n)
  {
    var s, t := UserSuffix(f), UserSuffix(g);
    n := if DifferAt(s, t, 1) then 1 else if DifferAt(s, t, 2) then 2 else 3;
  }

  lemma FileSuffixes(f: FileField, g: FileField) returns (n: nat)
    requires f != g
    ensures DifferAt(FileSuffix(f), FileSuffix(g), n)
  {
    var s, t := FileSuffix(f), FileSuffix(g);
    n := if DifferAt(s, t, 1) then 1 else if DifferAt(s, t, 2) then 2
         else if DifferAt(s, t, 3) then 3 else if DifferAt(s, t, 5) then 5 else 10;
  }

  // The part of a stored key after its family's prefix.
  lemma Tails(p: string, a: string, b: string)
    requires p + a == p + b
    ensures a == b
  {
    assert a == (p + a)[|p|..] && b == (p + b)[|p|..];
  }

  lemma Regroup(p: string, i: string, x: string)
    ensures p + i + x == p + (i + x)
  {
  }

  lemma DirKeysDistinct(i: Id, f: DirField, j: Id, g: DirField)
    requires Encode(DirKey(i, f)) == Encode(DirKey(j, g))
    ensures i == j && f == g
  {
    Regroup("dir_", i, DirSuffix(f));
    Regroup("dir_", j, DirSuffix(g));
    Tails("dir_", i + DirSuffix(f), j + DirSuffix(g));
    if f != g {
      var n := DirSuffixes(f, g);
      SameTail(i, DirSuffix(f), j, DirSuffix(g), n);
    } else {
      SameTail(i, DirSuffix(f), j, DirSuffix(g), 0);
    }
  }

  lemma UserKeysDistinct(i: Id, f: UserField, j: Id, g: UserField)
    requires Encode(UserKey(i, f)) == Encode(UserKey(j, g))
    ensures i == j && f == g
  {
    Regroup("user_", i, UserSuffix(f));
    Regroup("user_", j, UserSuffix(g));
    Tails("user_", i + UserSuffix(f), j + UserSuffix(g));
    if f != g {
      var n := UserSuffixes(f, g);
      SameTail(i, UserSuffix(f), j, UserSuffix(g), n);
    } else {
      SameTail(i, UserSuffix(f), j, UserSuffix(g), 0);
    }
  }

  lemma FileKeysDistinct(i: Id, f: FileField, j: Id, g: FileField)
    requires Encode(FileKey(i, f)) == Encode(FileKey(j, g))
    ensures i == j && f == g
  {
    Regroup("file_", i, FileSuffix(f));
    Regroup("file_", j, FileSuffix(g));
    Tails("file_", i + FileSuffix(f), j + FileSuffix(g));
    if f != g {
      var n := FileSuffixes(f, g);
      SameTail(i, FileSuffix(f), j, FileSuffix(g), n);
    } else {
      SameTail(i, FileSuffix(f), j, FileSuffix(g), 0);
    }
  }

  // The one key of a user that could be taken for the key of the e-mail list is not: it ends otherwise.
  lemma UserKeyEnding(i: Id, f: UserField)
    ensures Encode(UserKey(i, f)) != Encode(EmailListKey)
  {
    var k := Encode(UserKey(i, f));
    assert k[|k| - 1] == UserSuffix(f)[|UserSuffix(f)| - 1] != '_';
  }

  // Main result of this module: for all ids and e-mails whatsoever, no two typed keys share a string.
  lemma EncodeInjective(a: Key, b: Key)
    requires Encode(a) == Encode(b)
    ensures a == b
  {
    assert Encode(a)[0] == Encode(b)[0];
    match (a, b) {
      case (UserKey(i, f), UserKey(j, g)) => UserKeysDistinct(i, f, j, g);
      case (DirKey(i, f), DirKey(j, g)) => DirKeysDistinct(i, f, j, g);
      case (FileKey(i, f), FileKey(j, g)) => FileKeysDistinct(i, f, j, g);
      case (IndexKey(e), IndexKey(g)) => Tails("index_user_id_from_user_email_", e, g);
      case (TicketKey(t), TicketKey(u)) =>
        assert TicketName(t)[0] == Encode(a)[12] == Encode(b)[12] == TicketName(u)[0];
      case (UserKey(i, f), EmailListKey) => UserKeyEnding(i, f);
      case (EmailListKey, UserKey(i, f)) => UserKeyEnding(i, f);
      case _ =>
    }
  }

  // ---------- the typed reading of a string map ----------

  ghost predicate IsEncoded(s: string) {
    exists k :: Encode(k) == s
  }

  ghost function Decode(s: string): Key
    requires IsEncoded(s)
    ensures Encode(Decode(s)) == s
  {
    var k :| Encode(k) == s;
    k
  }

  lemma DecodeEncode(k: Key)
    ensures IsEncoded(Encode(k)) && Decode(Encode(k)) == k
  {
    EncodeInjective(k, Decode(Encode(k)));
  }

  // The entries of db that are stored under some typed key, under that key.
  ghost function Typed(db: map<string, string>): map<Key, string> {
    map s | s in db && IsEncoded(s) :: Decode(s) := db[s]
  }

  lemma TypedGet(db: map<string, string>, k: Key)
    ensures k in Typed(db) <==> Encode(k) in db
    ensures k in Typed(db) ==> Typed(db)[k] == db[Encode(k)]
  {
    DecodeEncode(k);
  }

  lemma TypedPut(db: map<string, string>, k: Key, v: string)
    ensures Typed(db[Encode(k) := v]) == Typed(db)[k := v]
  {
    var d := db[Encode(k) := v];
    forall j ensures j in Typed(d) <==> j in Typed(db)[k := v]
      ensures j in Typed(d) ==> Typed(d)[j] == Typed(db)[k := v][j]
    {
      TypedGet(db, j);
      TypedGet(d, j);
      if Encode(j) == Encode(k) {
        EncodeInjective(j, k);
      }
    }
  }

  lemma TypedErase(db: map<string, string>, k: Key)
    ensures Typed(db - {Encode(k)}) == Typed(db) - {k}
  {
    var d := db - {Encode(k)};
    forall j ensures j in Typed(d) <==> j in Typed(db) - {k}
      ensures j in Typed(d) ==> Typed(d)[j] == Typed(db)[j]
    {
      TypedGet(db, j);
      TypedGet(d, j);
      if Encode(j) == Encode(k) {
        EncodeInjective(j, k);
      }
    }
  }

  lemma TypedEmpty()
    ensures Typed(map[]) == map[]
  {
  }
}
