/** In-memory stand-ins for what the workflow reaches through Laravel
    facades: the S3 disk, and the outcomes the environment decides. */
module Fakes {
  import opened Wrappers
  import opened Text

  /** The separator the public URL scheme puts between the bucket's host and
      an object's key. */
  const Marker := ".com/"

  /** PHP truthiness of a string: `""` and `"0"` are false. */
  predicate Falsy(s: string)
  {
    s == "" || s == "0"
  }

  /** Laravel's `putFileAs`: the key an upload is stored under, the
      directory and the file name joined by `/` and trimmed of `/`. */
  function StoredKey(directory: string, name: string): string
  {
    Trim(directory + "/" + name, '/')
  }

  /** With a directory already trimmed of `/` and a name that neither starts
      nor ends with `/`, the key is exactly `directory/name`. */
  lemma StoredKeyUnderDirectory(directory: string, name: string)
    requires directory != [] && directory == Trim(directory, '/')
    requires name != [] && name[0] != '/' && name[|name| - 1] != '/'
    ensures StoredKey(directory, name) == directory + "/" + name
  {
    var s := directory + "/" + name;
    assert s[0] == directory[0] && s[|s| - 1] == name[|name| - 1];
    TrimNoOp(s, '/');
  }

  /** The S3 disk: the set of keys stored in the bucket, and the host part
      of its public URLs (everything before `.com/`). */
  class Disk {
    var objects: set<string>
    const host: string

    constructor (host: string, objects: set<string>)
      ensures this.host == host && this.objects == objects
    {
      this.host := host;
      this.objects := objects;
    }

    /** `Storage::url`: the public URL of a key. */
    function Url(key: string): string
    {
      host + Marker + key
    }

    /** `$file->store($directory, 's3')` under the random name `hashName`;
        `ok` says whether the disk accepted the write. Returns the key, or
        `""` (PHP `false`) when the write was refused. */
    method Store(directory: string, hashName: string, ok: bool) returns (path: string)
      modifies this
      ensures ok ==> path == StoredKey(directory, hashName) && objects == old(objects) + {path}
      ensures !ok ==> path == "" && objects == old(objects)
    {
      if ok {
        path := StoredKey(directory, hashName);
        objects := objects + {path};
      } else {
        path := "";
      }
    }

    /** `Storage::disk('s3')->delete($key)`: returns whether the disk
        reported success; deleting an absent key is a success that changes
        nothing, as on S3. */
    method Delete(key: string, ok: bool) returns (deleted: bool)
      modifies this
      ensures deleted == ok
      ensures objects == if ok then old(objects) - {key} else old(objects)
      ensures key !in old(objects) ==> objects == old(objects)
    {
      deleted := ok;
      if ok {
        objects := objects - {key};
      }
    }
  }

  /** What the environment decides during one request: the value `uniqid()`
      returns, whether the disk accepts a write and a delete, and whether the
      database accepts the row write (`Some(message)` is the exception it
      throws). */
  datatype Oracle = Oracle(
    uniqid: string,
    storeOk: bool,
    deleteOk: bool,
    dbError: Option<string>)
}
