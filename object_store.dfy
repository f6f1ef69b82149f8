/** The remote object store the file service uploads to, reduced to the two calls the service
    makes: a put that answers with the key and public location of the object, and a get. */
module ObjectStore {
  import opened Entities
  import opened Base64

  /** The parameters of an upload; the ACL is public-read or not. */
  datatype PutObjectRequest = PutObjectRequest(
    key: string,
    body: seq<byte>,
    contentType: string,
    contentLength: nat,
    publicRead: bool)

  datatype StoredObject = StoredObject(
    body: seq<byte>,
    contentType: string,
    contentLength: nat,
    publicRead: bool)

  /** What a successful upload answers: the key (`Key`) and the public URL (`Location`). */
  datatype UploadResponse = UploadResponse(key: string, location: string)

  class Bucket {
    var objects: map<string, StoredObject>

    /** How the store turns a key into the object's public URL. */
    const locationOf: string -> string

    constructor (locationOf: string -> string)
      ensures objects == map[] && this.locationOf == locationOf
    {
      objects := map[];
      this.locationOf := locationOf;
    }

    /** Stores the object under its key, replacing any object already there. `fails` stands
        for a transport or service error, after which nothing is stored. */
    method Upload(request: PutObjectRequest, fails: bool) returns (r: Option<UploadResponse>)
      modifies this
      ensures fails ==> r.None? && unchanged(this)
      ensures !fails ==> r == Some(UploadResponse(request.key, locationOf(request.key)))
      ensures !fails ==> objects == old(objects)[request.key :=
        StoredObject(request.body, request.contentType, request.contentLength, request.publicRead)]
    {
      if fails {
        return None;
      }
      objects := objects[request.key :=
        StoredObject(request.body, request.contentType, request.contentLength, request.publicRead)];
      r := Some(UploadResponse(request.key, locationOf(request.key)));
    }

    /** The object under `key`; `None` where the store answers NoSuchKey. */
    function GetObject(key: string): (r: Option<StoredObject>)
      reads this
      ensures r.Some? <==> key in objects
      ensures r.Some? ==> r.value == objects[key]
    {
      if key in objects then Some(objects[key]) else None
    }
  }
}
