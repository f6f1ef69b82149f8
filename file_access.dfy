/** The file service: uploads a data-URL payload to the object store and records it, and opens,
    downloads, renames and deletes records for their owner or an ADMIN. */
module FileAccess {
  import opened Entities
  import opened Base64
  import opened Payload
  import opened ObjectStore
  import opened FileCatalog

  /** A row of a valid table is the only one with its primary key. */
  lemma RowOfId(files: seq<File>, nextId: nat, i: nat, f: File)
    requires CatalogValid(files, nextId)
    requires i < |files| && f in files && f.id == files[i].id
    ensures f == files[i]
  {
    var k :| 0 <= k < |files| && files[k] == f;
    assert k == i;
  }

  class FilesService {
    const fileRepository: FileRepository
    const bucket: Bucket

    /** The folder every upload goes to. */
    const folder: string

    constructor (fileRepository: FileRepository, bucket: Bucket)
      requires fileRepository.Valid()
      ensures this.fileRepository == fileRepository && this.bucket == bucket && folder == FOLDER
      ensures Valid()
    {
      this.fileRepository := fileRepository;
      this.bucket := bucket;
      folder := FOLDER;
    }

    ghost predicate Valid()
      reads fileRepository
    {
      fileRepository.Valid()
    }

    /** Uploads the decoded payload under `folder/token.extension` with its media type, public
        read access and its byte count, then records the file for its owner and answers the
        record without the owner relation. A payload naming no media type throws before
        anything is stored; an upload error escapes before anything is recorded. */
    method CreateFile(name: string, content: string, user: User, token: string,
                      lenient: string -> seq<byte>, uploadFails: bool) returns (r: Result<File>)
      requires Valid()
      modifies fileRepository, bucket
      ensures Valid()
      ensures FileExtension(content).None? ==>
        r == Err(Uncaught(NoMimetypeMatch)) && unchanged(fileRepository) && unchanged(bucket)
      ensures FileExtension(content).Some? && uploadFails ==>
        r == Err(Uncaught(ObjectStoreError)) && unchanged(fileRepository) && unchanged(bucket)
      ensures FileExtension(content).Some? && !uploadFails ==>
        var key := GenerateFilePath(folder, token, FileExtension(content).value);
        var mimetype := MimetypeFromBase64(content).value;
        var upload := ConvertBase64FileToReadableStream(content, lenient);
        && bucket.objects == old(bucket.objects)[key := StoredObject(upload.bytes, mimetype, upload.bufferSize, true)]
        && r == Ok(File(old(fileRepository.nextId), name, key, mimetype, bucket.locationOf(key), user.id, None))
        && fileRepository.files == old(fileRepository.files) + [r.value]
    {
      var extension := FileExtension(content);
      if extension.None? {
        return Err(Uncaught(NoMimetypeMatch));
      }
      var path := GenerateFilePath(folder, token, extension.value);
      var mimetype := MimetypeFromBase64(content).value;
      var upload := ConvertBase64FileToReadableStream(content, lenient);
      var request := PutObjectRequest(path, upload.bytes, mimetype, upload.bufferSize, true);
      var response := bucket.Upload(request, uploadFails);
      if response.None? {
        return Err(Uncaught(ObjectStoreError));
      }
      var location := response.value.location;
      assert response.value.key == path && location == bucket.locationOf(path);
      var saved := fileRepository.Insert(File(0, name, path, mimetype, location, 0, Some(user)));
      r := Ok(saved);
    }

    /** The record with primary key `id`: NotFound when there is none, Forbidden when `user`
        neither owns it nor is an ADMIN. */
    method GetFileById(id: nat, user: User) returns (r: Result<File>)
      requires Valid()
      ensures r == Err(NotFound) <==> forall f :: f in fileRepository.files ==> f.id != id
      ensures r == Err(Forbidden) <==> exists f :: f in fileRepository.files && f.id == id && !CanAccess(f, user)
      ensures r.Ok? <==> exists f :: f in fileRepository.files && f.id == id && CanAccess(f, user)
      ensures r.Ok? ==> r.value in fileRepository.files && r.value.id == id
    {
      var files := fileRepository.files;
      var found := IndexOfId(files, id);
      if found.None? {
        return Err(NotFound);
      }
      var row := files[found.value];
      forall f | f in files && f.id == id
        ensures f == row
      {
        RowOfId(files, fileRepository.nextId, found.value, f);
      }
      if !CanAccess(row, user) {
        return Err(Forbidden);
      }
      r := Ok(row);
    }

    /** The stored object of an accessible record; a missing object is the store's error. */
    method DownloadFile(id: nat, user: User) returns (r: Result<StoredObject>)
      requires Valid()
      ensures r == Err(NotFound) <==> forall f :: f in fileRepository.files ==> f.id != id
      ensures r == Err(Forbidden) <==> exists f :: f in fileRepository.files && f.id == id && !CanAccess(f, user)
      ensures r == Err(Uncaught(ObjectStoreError)) <==>
        exists f :: f in fileRepository.files && f.id == id && CanAccess(f, user) && f.path !in bucket.objects
      ensures r.Ok? <==>
        exists f :: f in fileRepository.files && f.id == id && CanAccess(f, user) && f.path in bucket.objects
      ensures r.Ok? ==> exists f :: f in fileRepository.files && f.id == id && r.value == bucket.objects[f.path]
    {
      var file := GetFileById(id, user);
      if file.Err? {
        return Err(file.failure);
      }
      var stored := bucket.GetObject(file.value.path);
      if stored.None? {
        return Err(Uncaught(ObjectStoreError));
      }
      r := Ok(stored.value);
    }

    /** Renames an accessible record and writes it back; nothing else about it changes. */
    method UpdateFile(id: nat, name: string, user: User) returns (r: Result<File>)
      requires Valid()
      modifies fileRepository
      ensures Valid()
      ensures r == Err(NotFound) <==> forall f :: f in old(fileRepository.files) ==> f.id != id
      ensures r == Err(Forbidden) <==>
        exists f :: f in old(fileRepository.files) && f.id == id && !CanAccess(f, user)
      ensures r.Err? ==> fileRepository.files == old(fileRepository.files)
      ensures r.Ok? ==> exists i :: (0 <= i < |old(fileRepository.files)|
        && old(fileRepository.files)[i].id == id && CanAccess(old(fileRepository.files)[i], user)
        && r.value == old(fileRepository.files)[i].(name := name)
        && fileRepository.files == old(fileRepository.files)[i := r.value])
      ensures r.Ok? <==> exists f :: f in old(fileRepository.files) && f.id == id && CanAccess(f, user)
      ensures fileRepository.nextId == old(fileRepository.nextId)
    {
      var found := GetFileById(id, user);
      if found.Err? {
        return found;
      }
      var files := fileRepository.files;
      var i := IndexOfId(files, id).value;
      RowOfId(files, fileRepository.nextId, i, found.value);
      var file := found.value.(name := name);
      fileRepository.Save(file, i);
      r := Ok(file);
    }

    /** Deletes an accessible record; the stored object is left in place. */
    method DeleteFile(id: nat, user: User) returns (r: Result<()>)
      requires Valid()
      modifies fileRepository
      ensures Valid()
      ensures r == Err(NotFound) <==> forall f :: f in old(fileRepository.files) ==> f.id != id
      ensures r == Err(Forbidden) <==>
        exists f :: f in old(fileRepository.files) && f.id == id && !CanAccess(f, user)
      ensures r.Err? ==> fileRepository.files == old(fileRepository.files)
      ensures r.Ok? ==> exists i :: (0 <= i < |old(fileRepository.files)|
        && old(fileRepository.files)[i].id == id && CanAccess(old(fileRepository.files)[i], user)
        && fileRepository.files == old(fileRepository.files)[..i] + old(fileRepository.files)[i + 1..])
      ensures r.Ok? <==> exists f :: f in old(fileRepository.files) && f.id == id && CanAccess(f, user)
      ensures r.Ok? ==> forall f :: f in fileRepository.files ==> f.id != id
      ensures fileRepository.nextId == old(fileRepository.nextId)
    {
      var found := GetFileById(id, user);
      if found.Err? {
        return Err(found.failure);
      }
      var files := fileRepository.files;
      var i := IndexOfId(files, id).value;
      fileRepository.Delete(i);
      forall f | f in fileRepository.files
        ensures f.id != id
      {
        var k :| 0 <= k < |fileRepository.files| && fileRepository.files[k] == f;
        if k < i {
          assert f == files[k];
        } else {
          assert f == files[k + 1];
        }
      }
      r := Ok(());
    }
  }
}
