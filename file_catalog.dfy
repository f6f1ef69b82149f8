/** The files table and its repository: the owner-scoped listing and the insert that records
    the owner. */
module FileCatalog {
  import opened Entities

  predicate IsAdmin(user: User) {
    user.role == ADMIN
  }

  /** The single authorization rule of the file component: the owner or an ADMIN. */
  predicate CanAccess(file: File, user: User) {
    file.userId == user.id || IsAdmin(user)
  }

  /** The rows a `where userId = :userId` condition selects, in table order. */
  function OwnedBy(files: seq<File>, userId: nat): (r: seq<File>)
    ensures forall f :: f in r <==> f in files && f.userId == userId
    ensures forall f :: multiset(r)[f] == if f.userId == userId then multiset(files)[f] else 0
    ensures |r| <= |files|
  {
    if files == [] then []
    else
      assert files == [files[0]] + files[1..];
      (if files[0].userId == userId then [files[0]] else []) + OwnedBy(files[1..], userId)
  }

  /** The selection keeps table order: selecting from two stretches of the table, one after
      the other, gives the selections of each in that order. */
  lemma {:induction false} OwnedByKeepsOrder(a: seq<File>, b: seq<File>, userId: nat)
    ensures OwnedBy(a + b, userId) == OwnedBy(a, userId) + OwnedBy(b, userId)
  {
    if a == [] {
      assert a + b == b;
    } else {
      assert (a + b)[1..] == a[1..] + b;
      OwnedByKeepsOrder(a[1..], b, userId);
    }
  }

  /** The rows the listing query returns: every row for an ADMIN, the user's own otherwise.
      These are exactly the rows the user is authorized to open by id. */
  function FilesFor(files: seq<File>, user: User): (r: seq<File>)
    ensures IsAdmin(user) ==> r == files
    ensures !IsAdmin(user) ==> forall f :: f in r <==> f in files && f.userId == user.id
    ensures !IsAdmin(user) ==>
      forall f :: multiset(r)[f] == if f.userId == user.id then multiset(files)[f] else 0
    ensures forall f :: f in r <==> f in files && CanAccess(f, user)
  {
    if IsAdmin(user) then files else OwnedBy(files, user.id)
  }

  /** Where the row with primary key `id` is. */
  function IndexOfId(files: seq<File>, id: nat): (i: Option<nat>)
    ensures i.None? <==> forall k :: 0 <= k < |files| ==> files[k].id != id
    ensures i.Some? ==> i.value < |files| && files[i.value].id == id
  {
    FirstIndex(files, (f: File) => f.id == id)
  }

  /** Primary keys are distinct and below the next generated key; rows read back from the
      table do not carry the owner relation. */
  ghost predicate CatalogValid(files: seq<File>, nextId: nat) {
    && (forall k :: 0 <= k < |files| ==> files[k].id < nextId && files[k].user.None?)
    && (forall j, k :: 0 <= j < k < |files| ==> files[j].id != files[k].id)
  }

  class FileRepository {
    var files: seq<File>
    var nextId: nat

    ghost predicate Valid()
      reads this
    {
      CatalogValid(files, nextId)
    }

    constructor ()
      ensures Valid() && files == []
    {
      files := [];
      nextId := 1;
    }

    /** Lists the files `user` may see. `queryFails` stands for an error of the query, which
        is logged and rethrown as InternalServerError. */
    method GetFiles(user: User, queryFails: bool) returns (r: Result<seq<File>>)
      ensures queryFails <==> r == Err(InternalServerError)
      ensures r.Err? ==> queryFails
      ensures r.Ok? && IsAdmin(user) ==> r.value == files
      ensures r.Ok? && !IsAdmin(user) ==> forall f :: f in r.value <==> f in files && f.userId == user.id
      ensures r.Ok? && !IsAdmin(user) ==>
        forall f :: multiset(r.value)[f] == if f.userId == user.id then multiset(files)[f] else 0
      ensures r.Ok? ==> forall f :: f in r.value ==> f in files
    {
      var rows := FilesFor(files, user);
      if queryFails {
        return Err(InternalServerError);
      }
      r := Ok(rows);
    }

    /** Inserts `draft` as a new row owned by `draft.user`, with a fresh primary key, and
        answers the row as stored, without the owner relation. */
    method Insert(draft: File) returns (saved: File)
      requires Valid() && draft.user.Some?
      modifies this
      ensures Valid()
      ensures saved == draft.(id := old(nextId), userId := draft.user.value.id, user := None)
      ensures files == old(files) + [saved]
    {
      saved := draft.(id := nextId, userId := draft.user.value.id, user := None);
      files := files + [saved];
      nextId := nextId + 1;
    }

    /** Creates a file record holding only a name and its owner; the path, media type and
        URL columns are left unset, shown here as empty strings. `saveFails` stands for an
        error of the insert, which is logged and rethrown as InternalServerError. */
    method CreateFile(name: string, user: User, saveFails: bool) returns (r: Result<File>)
      requires Valid()
      modifies this
      ensures Valid()
      ensures saveFails ==> r == Err(InternalServerError) && files == old(files) && nextId == old(nextId)
      ensures !saveFails ==> r.Ok? && files == old(files) + [r.value]
      ensures !saveFails ==> r.value == File(old(nextId), name, "", "", "", user.id, None)
    {
      if saveFails {
        return Err(InternalServerError);
      }
      var saved := Insert(File(0, name, "", "", "", 0, Some(user)));
      r := Ok(saved);
    }

    /** Writes back a row that was read from the table, matched by primary key. */
    method Save(file: File, i: nat)
      requires Valid() && i < |files| && files[i].id == file.id && file.user.None?
      modifies this
      ensures Valid()
      ensures files == old(files)[i := file] && nextId == old(nextId)
    {
      files := files[i := file];
    }

    /** Removes the row at position `i`; the other rows keep their order. */
    method Delete(i: nat)
      requires Valid() && i < |files|
      modifies this
      ensures Valid()
      ensures files == old(files)[..i] + old(files)[i + 1..] && nextId == old(nextId)
    {
      files := files[..i] + files[i + 1..];
    }
  }
}
