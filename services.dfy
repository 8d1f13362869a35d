/** The S3 storage helper (`App\Services\S3Services`): uploads a file to the
    S3 disk and returns its public URL, deletes an object given its URL, and
    replaces one object by another. */
module Services {
  import opened Wrappers
  import opened Text
  import opened Fakes

  /** The message of the exception PHP raises (through Laravel's error
      handler) when `explode(...)[1]` does not exist. */
  const MissingKeyMessage := "Undefined array key 1"
  const InvalidFileMessage := "Invalid file upload."
  const EmptyPathMessage := "File upload failed or returned an empty path."

  /** An uploaded file as the helper and the validator see it. */
  datatype UploadedFile = UploadedFile(
    clientName: string,       // getClientOriginalName()
    clientExtension: string,  // getClientOriginalExtension()
    extension: string,        // the extension guessed from the content
    sizeBytes: nat,
    isValid: bool,            // isValid(): the upload arrived intact
    hashName: string)         // the random name `store` gives the object

  /** `sliceOldPath`: the storage key of a public URL, the text after its
      first `.com/` and up to the next one (or the end). Fails when the URL
      holds no `.com/`, since the second element of the split does not
      exist. */
  function SliceOldPath(path: string): (r: Result<string>)
    ensures r.Ok? <==> Contains(path, Marker)
    ensures r.Ok? ==> !Contains(r.value, Marker)
    ensures r.Ok? ==> FindFrom(path, Marker, 0).Some?
    ensures r.Ok? ==>
      var rest := path[FindFrom(path, Marker, 0).value + |Marker|..];
      |r.value| <= |rest| && r.value == rest[..|r.value|] &&
      (|r.value| == |rest| || FindFrom(rest, Marker, 0) == Some(|r.value|))
    ensures r.Err? ==> r.error == MissingKeyMessage
  {
    var parts := Explode(Marker, path);
    if |parts| > 1 then
      var i := |parts[0]|;
      assert parts[1..] == Explode(Marker, path[i + |Marker|..]);
      Ok(parts[1])
    else
      Err(MissingKeyMessage)
  }

  /** Slicing inverts the URL scheme: the key of `host + ".com/" + key` is
      `key`, provided neither part holds `.com/` itself. */
  lemma {:induction false} SliceOldPathInvertsUrl(host: string, key: string)
    requires !Contains(host, Marker) && !Contains(key, Marker)
    ensures SliceOldPath(host + Marker + key) == Ok(key)
  {
    var s := host + Marker + key;
    var n := |host|;
    assert OccursAt(s, Marker, n) by { assert s[n..n + |Marker|] == Marker; }
    forall j: nat | j < n ensures !OccursAt(s, Marker, j) {
      if j + |Marker| <= n {
        assert !OccursAt(host, Marker, j);
        assert s[j..j + |Marker|] == host[j..j + |Marker|];
      } else {
        // `.com/` has no proper suffix that is also a prefix of it, so an
        // occurrence starting inside `host` cannot run into the one at `n`
        assert s[j..j + |Marker|][n - j] == s[n] == '.';
      }
    }
    var first := FindFrom(s, Marker, 0);
    assert first == Some(n);
    var rest := s[n + |Marker|..];
    assert rest == key;
    var tail := Explode(Marker, rest);
    assert |tail| == 1;
    assert tail == [key];
    assert Explode(Marker, s) == [s[..n]] + tail;
  }

  /** The part of a client file name before its first `.`. */
  function Stem(name: string): (r: string)
    ensures |r| <= |name| && r == name[..|r|]
    ensures forall k :: 0 <= k < |r| ==> r[k] != '.'
    ensures |r| < |name| ==> name[|r|] == '.'
  {
    var r := Explode(".", name)[0];
    forall k | 0 <= k < |r| ensures r[k] != '.' {
      assert !OccursAt(r, ".", k);
      assert r[k..k + 1] == [r[k]];
    }
    r
  }

  /** The file name `upload` composes: the caller's name verbatim, or the
      client name's stem, `-`, the `uniqid()` value, `.` and the client
      extension. `upload` never passes it on, so it decides nothing. */
  function ComposeFilename(file: UploadedFile, filename: Option<string>, uniqid: string): (r: string)
    ensures filename.Some? ==> r == filename.value
    ensures filename.None? ==> |r| == |Stem(file.clientName)| + 1 + |uniqid| + 1 + |file.clientExtension|
    ensures filename.None? ==> r[..|Stem(file.clientName)| + 1] == Stem(file.clientName) + "-"
    ensures filename.None? ==> r[|r| - |file.clientExtension| - 1..] == "." + file.clientExtension
    ensures filename.None? ==> r[|Stem(file.clientName)| + 1..|r| - |file.clientExtension| - 1] == uniqid
  {
    match filename
    case Some(f) => f
    case None => Stem(file.clientName) + "-" + uniqid + "." + file.clientExtension
  }

  /** The key an upload of `file` into `directory` is stored under. */
  function UploadKey(file: UploadedFile, directory: string): string
  {
    StoredKey(Trim(directory, '/'), file.hashName)
  }

  /** The keys an upload adds to the bucket. */
  function UploadWrites(file: UploadedFile, directory: string, oracle: Oracle): set<string>
  {
    if file.isValid && oracle.storeOk then {UploadKey(file, directory)} else {}
  }

  /** Whether `upload` returns a URL rather than throwing. */
  predicate UploadSucceeds(file: UploadedFile, directory: string, oracle: Oracle)
  {
    file.isValid && oracle.storeOk && !Falsy(UploadKey(file, directory))
  }

  /** The message of the exception a failing `upload` throws. */
  function UploadFailure(file: UploadedFile): string
  {
    if file.isValid then EmptyPathMessage else InvalidFileMessage
  }

  class S3Services {
    const disk: Disk

    constructor (disk: Disk)
      ensures this.disk == disk
    {
      this.disk := disk;
    }

    /** `upload`: rejects an invalid file before touching the disk, stores
        the file under the trimmed directory with the disk's own random name,
        and returns its URL; an empty path from the disk is an exception. */
    method Upload(file: UploadedFile, directory: string, filename: Option<string>, oracle: Oracle)
      returns (r: Result<string>)
      modifies disk
      ensures disk.objects == old(disk.objects) + UploadWrites(file, directory, oracle)
      ensures r.Ok? <==> UploadSucceeds(file, directory, oracle)
      ensures r.Ok? ==> r.value == disk.Url(UploadKey(file, directory))
      ensures r.Err? ==> r.error == UploadFailure(file)
    {
      if !file.isValid {
        return Err(InvalidFileMessage);
      }
      var name := ComposeFilename(file, filename, oracle.uniqid);
      var dir := Trim(directory, '/');
      var path := disk.Store(dir, file.hashName, oracle.storeOk);
      if Falsy(path) {
        return Err(EmptyPathMessage);
      }
      return Ok(disk.Url(path));
    }

    /** `delete`: removes the object whose key the URL holds and returns
        what the disk reports; a URL without `.com/` throws before the disk
        is reached. */
    method Delete(path: string, oracle: Oracle) returns (r: Result<bool>)
      modifies disk
      ensures SliceOldPath(path).Err? ==> r == Err(MissingKeyMessage) && disk.objects == old(disk.objects)
      ensures SliceOldPath(path).Ok? ==> r == Ok(oracle.deleteOk)
      ensures SliceOldPath(path).Ok? ==>
        disk.objects == if oracle.deleteOk then old(disk.objects) - {SliceOldPath(path).value} else old(disk.objects)
    {
      var key := SliceOldPath(path);
      if key.Err? {
        return Err(key.error);
      }
      var deleted := disk.Delete(key.value, oracle.deleteOk);
      return Ok(deleted);
    }

    /** `update`: deletes the old object, ignores whether that succeeded, then
        uploads; when the upload fails the old object is already gone. */
    method Update(file: UploadedFile, oldPath: string, directory: string, filename: Option<string>, oracle: Oracle)
      returns (r: Result<string>)
      modifies disk
      ensures SliceOldPath(oldPath).Err? ==> r == Err(MissingKeyMessage) && disk.objects == old(disk.objects)
      ensures SliceOldPath(oldPath).Ok? ==>
        disk.objects == (if oracle.deleteOk then old(disk.objects) - {SliceOldPath(oldPath).value} else old(disk.objects))
                        + UploadWrites(file, directory, oracle)
      ensures SliceOldPath(oldPath).Ok? ==> (r.Ok? <==> UploadSucceeds(file, directory, oracle))
      ensures r.Ok? ==> r.value == disk.Url(UploadKey(file, directory))
      ensures SliceOldPath(oldPath).Ok? && r.Err? ==> r.error == UploadFailure(file)
    {
      var deleted := Delete(oldPath, oracle);
      if deleted.Err? {
        return Err(deleted.error);
      }
      r := Upload(file, directory, filename, oracle);
    }
  }
}
