/** `App\Http\Controllers\CustomerController`: the customer CRUD endpoints.
    The `customers` table is a map from id to row that the controller
    updates in place, and the S3 disk is reached through `S3Services`. Each
    mutating request checks existence, then ownership, then its input, and
    only then writes, inside a database transaction that an exception rolls
    back; the bucket is not part of that transaction. */
module Controllers {
  import opened Wrappers
  import opened Models
  import opened Fakes
  import opened Services
  import CustomerPolicy

  /** The directory customer images are uploaded into. */
  const Directory := "customers"
  /** `max:255` on the text fields. */
  const MaxLength := 255
  /** `max:2048` on the image: 2048 kilobytes. */
  const MaxImageBytes := 2048 * 1024
  /** `image|mimes:jpeg,png,jpg,gif`: the extensions both rules accept. */
  const ImageExtensions: set<string> := {"jpeg", "png", "jpg", "gif"}
  /** The characters PHP's `trim` removes by default. */
  const Whitespace: set<char> := {' ', '\t', '\n', '\r', '\0', '\U{0B}'}

  /** The request input the endpoints read; a missing key is `None`. */
  datatype Request = Request(name: Option<string>, email: Option<string>, image: Option<UploadedFile>)

  /** What an endpoint answers, without the JSON envelope. */
  datatype Outcome =
    | Listed(customers: set<Customer>)      // 200 from index
    | Found(customer: Customer)             // 200 from show
    | Created(customer: Customer)           // 201 from store
    | Updated(customer: Customer)           // 200 from update
    | Deleted                               // 204 from destroy
    | ValidationError(fields: set<string>)  // 422, the fields that failed
    | NotFound                              // 404 from findOrFail
    | Forbidden(message: string)            // 403 from Gate::authorize
    | ServerError(error: string)            // 500, the exception's message

  predicate Blank(s: string)
  {
    forall k :: 0 <= k < |s| ==> s[k] in Whitespace
  }

  /** `required|string|max:255`: present, not blank, at most 255 characters. */
  predicate TextOk(v: Option<string>)
  {
    v.Some? && !Blank(v.value) && |v.value| <= MaxLength
  }

  /** `unique:customers,email[,ignore]`: some row other than `ignore` has
      this email. */
  predicate EmailTaken(rows: map<int, Customer>, email: string, ignore: Option<int>)
  {
    exists id | id in rows :: rows[id].email == email && ignore != Some(id)
  }

  /** The email rules: the text rules, the `email` syntax rule (decided by
      `isEmail`) and uniqueness. */
  predicate EmailOk(v: Option<string>, rows: map<int, Customer>, ignore: Option<int>, isEmail: string -> bool)
  {
    TextOk(v) && isEmail(v.value) && !EmailTaken(rows, v.value, ignore)
  }

  /** `required|image|mimes:jpeg,png,jpg,gif|max:2048`. */
  predicate ImageOk(f: Option<UploadedFile>)
  {
    f.Some? && f.value.isValid && f.value.extension in ImageExtensions && f.value.sizeBytes <= MaxImageBytes
  }

  /** The fields `store`'s validator rejects; there are none exactly when
      every rule holds. */
  function StoreErrors(req: Request, rows: map<int, Customer>, isEmail: string -> bool): (errors: set<string>)
    ensures errors <= {"name", "email", "image"}
    ensures errors == {} <==> TextOk(req.name) && EmailOk(req.email, rows, None, isEmail) && ImageOk(req.image)
  {
    (if TextOk(req.name) then {} else {"name"}) +
    (if EmailOk(req.email, rows, None, isEmail) then {} else {"email"}) +
    (if ImageOk(req.image) then {} else {"image"})
  }

  /** The fields `update`'s validator rejects: the same rules applied only
      to the keys present (`sometimes`), with the record's own row ignored
      by the uniqueness check. */
  function UpdateErrors(req: Request, rows: map<int, Customer>, id: int, isEmail: string -> bool): (errors: set<string>)
    ensures errors <= {"name", "email", "image"}
    ensures errors == {} <==>
      (req.name.Some? ==> TextOk(req.name)) &&
      (req.email.Some? ==> EmailOk(req.email, rows, Some(id), isEmail)) &&
      (req.image.Some? ==> ImageOk(req.image))
  {
    (if req.name.None? || TextOk(req.name) then {} else {"name"}) +
    (if req.email.None? || EmailOk(req.email, rows, Some(id), isEmail) then {} else {"email"}) +
    (if req.image.None? || ImageOk(req.image) then {} else {"image"})
  }

  /** PHP truthiness of the nullable `imageUrl` column. */
  predicate HasImage(url: Option<string>)
  {
    url.Some? && !Falsy(url.value)
  }

  /** `$customer->fill($request->only(['name', 'email']))`: only the name and
      email present in the request change. */
  function Fill(c: Customer, req: Request): (r: Customer)
    ensures r.id == c.id && r.ownerId == c.ownerId && r.imageUrl == c.imageUrl
  {
    c.(name := if req.name.Some? then req.name.value else c.name,
       email := if req.email.Some? then req.email.value else c.email)
  }

  /** Every row sits under its own id, and every id is below `nextId`. */
  predicate WellKeyed(rows: map<int, Customer>, nextId: int)
  {
    forall id | id in rows :: rows[id].id == id && id < nextId
  }

  /** Inserting a row under the next auto-increment id: that id was free,
      and the table stays well keyed once the counter moves on. */
  lemma InsertKeepsWellKeyed(rows: map<int, Customer>, nextId: int, c: Customer)
    requires WellKeyed(rows, nextId) && c.id == nextId
    ensures nextId !in rows && WellKeyed(rows[nextId := c], nextId + 1)
  {
  }

  /** Rewriting an existing row under its own id keeps the table well keyed. */
  lemma ReplaceKeepsWellKeyed(rows: map<int, Customer>, nextId: int, c: Customer)
    requires WellKeyed(rows, nextId) && c.id in rows
    ensures WellKeyed(rows[c.id := c], nextId)
  {
  }

  /** No two rows share an email. */
  predicate EmailsUnique(rows: map<int, Customer>)
  {
    forall a, b | a in rows && b in rows && a != b :: rows[a].email != rows[b].email
  }

  /** Writing row `c` under `id` keeps emails unique when no other row has
      its email: what the `unique` rule checks before `create` and `save`. */
  lemma WriteKeepsEmailsUnique(rows: map<int, Customer>, id: int, c: Customer)
    requires EmailsUnique(rows) && !EmailTaken(rows, c.email, Some(id))
    ensures EmailsUnique(rows[id := c])
  {
    var rows' := rows[id := c];
    forall a, b | a in rows' && b in rows' && a != b ensures rows'[a].email != rows'[b].email {
      if a == id {
        assert b in rows && rows[b].email == rows'[b].email;
      } else if b == id {
        assert a in rows && rows[a].email == rows'[a].email;
      }
    }
  }

  class CustomerController {
    /** The `customers` table. */
    var rows: map<int, Customer>
    /** The table's next auto-increment id. */
    var nextId: int
    const s3: S3Services
    /** The validator's `email` syntax rule. */
    const isEmail: string -> bool

    /** Every row sits under its own id, below the next auto-increment id,
        and emails are unique. */
    ghost predicate Valid()
      reads this
    {
      WellKeyed(rows, nextId) && EmailsUnique(rows)
    }

    constructor (s3: S3Services, isEmail: string -> bool)
      ensures Valid() && rows == map[] && this.s3 == s3 && this.isEmail == isEmail
    {
      rows := map[];
      nextId := 1;
      this.s3 := s3;
      this.isEmail := isEmail;
    }

    /** `index`: every customer, whoever owns it. */
    method Index() returns (r: Outcome)
      ensures r.Listed?
      ensures forall c :: c in r.customers <==> exists id | id in rows :: rows[id] == c
    {
      return Listed(set id | id in rows :: rows[id]);
    }

    /** `show`: the customer with this id, or not found. */
    method Show(id: int) returns (r: Outcome)
      ensures id in rows ==> r == Found(rows[id])
      ensures id !in rows ==> r == NotFound
    {
      if id !in rows {
        return NotFound;
      }
      return Found(rows[id]);
    }

    /** `store`: validate, upload the image, then create the row owned by the
        acting user. Validation failures touch nothing; an exception after
        validation rolls the table back but leaves an uploaded object in the
        bucket. */
    method Store(user: User, req: Request, oracle: Oracle) returns (r: Outcome)
      requires Valid()
      modifies this, s3.disk
      ensures Valid()
      ensures r.Created? || r.ValidationError? || r.ServerError?
      ensures r.ValidationError? <==> StoreErrors(req, old(rows), isEmail) != {}
      ensures r.ValidationError? ==> r.fields == StoreErrors(req, old(rows), isEmail)
      ensures r.ValidationError? ==>
        rows == old(rows) && nextId == old(nextId) && s3.disk.objects == old(s3.disk.objects)
      ensures !r.ValidationError? ==>
        s3.disk.objects == old(s3.disk.objects) + UploadWrites(req.image.value, Directory, oracle)
      ensures r.Created? <==>
        !r.ValidationError? && UploadSucceeds(req.image.value, Directory, oracle) && oracle.dbError.None?
      ensures r.Created? ==>
        r.customer == Customer(old(nextId), user.id, req.name.value, req.email.value,
                               Some(s3.disk.Url(UploadKey(req.image.value, Directory))))
      ensures r.Created? ==> old(nextId) !in old(rows) && rows == old(rows)[old(nextId) := r.customer]
      ensures r.Created? ==> nextId == old(nextId) + 1
      ensures r.ServerError? ==> rows == old(rows) && nextId == old(nextId)
      ensures r.ServerError? ==>
        r.error == if UploadSucceeds(req.image.value, Directory, oracle) then oracle.dbError.value
                   else UploadFailure(req.image.value)
    {
      var errors := StoreErrors(req, rows, isEmail);
      if errors != {} {
        return ValidationError(errors);
      }
      var snapshot := rows;  // DB::beginTransaction()
      var uploaded := s3.Upload(req.image.value, Directory, None, oracle);
      if uploaded.Err? {
        rows := snapshot;  // DB::rollBack()
        return ServerError(uploaded.error);
      }
      var customer := Customer(nextId, user.id, req.name.value, req.email.value, Some(uploaded.value));
      if oracle.dbError.Some? {
        rows := snapshot;
        return ServerError(oracle.dbError.value);
      }
      WriteKeepsEmailsUnique(rows, nextId, customer);
      InsertKeepsWellKeyed(rows, nextId, customer);
      rows := rows[nextId := customer];
      nextId := nextId + 1;
      return Created(customer);  // DB::commit()
    }

    /** `update`: not found, then ownership, then validation, each before any
        write. With an image, the old object (if the row has one) is deleted
        and the new one uploaded; then the present name and email are filled
        in and the row saved. An exception rolls the table back, but not the
        bucket. */
    method Update(user: User, id: int, req: Request, oracle: Oracle) returns (r: Outcome)
      requires Valid()
      modifies this, s3.disk
      ensures Valid() && nextId == old(nextId)
      ensures r.Updated? || r.NotFound? || r.Forbidden? || r.ValidationError? || r.ServerError?
      ensures r.NotFound? <==> id !in old(rows)
      ensures r.Forbidden? <==> id in old(rows) && CustomerPolicy.Modify(user, old(rows)[id]).Deny?
      ensures r.Forbidden? ==> r.message == CustomerPolicy.NotOwnerMessage
      ensures r.ValidationError? <==>
        id in old(rows) && CustomerPolicy.Modify(user, old(rows)[id]).Allow? &&
        UpdateErrors(req, old(rows), id, isEmail) != {}
      ensures r.ValidationError? ==> r.fields == UpdateErrors(req, old(rows), id, isEmail)
      ensures r.NotFound? || r.Forbidden? || r.ValidationError? ==>
        rows == old(rows) && s3.disk.objects == old(s3.disk.objects)
      // the bucket, once the request is admitted
      ensures (r.Updated? || r.ServerError?) && req.image.None? ==>
        s3.disk.objects == old(s3.disk.objects)
      ensures (r.Updated? || r.ServerError?) && req.image.Some? && !HasImage(old(rows)[id].imageUrl) ==>
        s3.disk.objects == old(s3.disk.objects) + UploadWrites(req.image.value, Directory, oracle)
      ensures (r.Updated? || r.ServerError?) && req.image.Some? && HasImage(old(rows)[id].imageUrl) ==>
        var oldKey := SliceOldPath(old(rows)[id].imageUrl.value);
        if oldKey.Err? then
          r == ServerError(MissingKeyMessage) && s3.disk.objects == old(s3.disk.objects)
        else
          s3.disk.objects ==
            (if oracle.deleteOk then old(s3.disk.objects) - {oldKey.value} else old(s3.disk.objects))
            + UploadWrites(req.image.value, Directory, oracle)
      // the table
      ensures r.Updated? <==>
        (id in old(rows) && CustomerPolicy.Modify(user, old(rows)[id]).Allow? &&
         UpdateErrors(req, old(rows), id, isEmail) == {} &&
         (req.image.Some? ==>
            (!HasImage(old(rows)[id].imageUrl) || SliceOldPath(old(rows)[id].imageUrl.value).Ok?) &&
            UploadSucceeds(req.image.value, Directory, oracle)) &&
         oracle.dbError.None?)
      ensures r.Updated? ==> rows == old(rows)[id := r.customer]
      ensures r.Updated? ==>
        r.customer.id == id && r.customer.ownerId == old(rows)[id].ownerId &&
        r.customer.name == (if req.name.Some? then req.name.value else old(rows)[id].name) &&
        r.customer.email == (if req.email.Some? then req.email.value else old(rows)[id].email) &&
        r.customer.imageUrl == if req.image.Some? then Some(s3.disk.Url(UploadKey(req.image.value, Directory)))
                               else old(rows)[id].imageUrl
      ensures r.ServerError? ==> rows == old(rows)
      ensures r.ServerError? ==>
        if req.image.Some? && HasImage(old(rows)[id].imageUrl) && SliceOldPath(old(rows)[id].imageUrl.value).Err? then
          r.error == MissingKeyMessage
        else if req.image.Some? && !UploadSucceeds(req.image.value, Directory, oracle) then
          r.error == UploadFailure(req.image.value)
        else
          oracle.dbError == Some(r.error)
    {
      if id !in rows {
        return NotFound;
      }
      var customer := rows[id];
      var decision := CustomerPolicy.Modify(user, customer);
      if decision.Deny? {
        return Forbidden(decision.message);
      }
      var errors := UpdateErrors(req, rows, id, isEmail);
      if errors != {} {
        return ValidationError(errors);
      }
      var snapshot := rows;  // DB::beginTransaction()
      if req.image.Some? {
        var uploaded;
        if HasImage(customer.imageUrl) {
          uploaded := s3.Update(req.image.value, customer.imageUrl.value, Directory, None, oracle);
        } else {
          uploaded := s3.Upload(req.image.value, Directory, None, oracle);
        }
        if uploaded.Err? {
          rows := snapshot;  // DB::rollBack()
          return ServerError(uploaded.error);
        }
        customer := customer.(imageUrl := Some(uploaded.value));
      }
      customer := Fill(customer, req);
      if oracle.dbError.Some? {
        rows := snapshot;
        return ServerError(oracle.dbError.value);
      }
      WriteKeepsEmailsUnique(rows, id, customer);
      ReplaceKeepsWellKeyed(rows, nextId, customer);
      rows := rows[id := customer];  // $customer->save()
      return Updated(customer);  // DB::commit()
    }

    /** `destroy`: not found, then ownership; then the image object is
        deleted (when the row has one) before the row. An exception rolls
        the table back, but a deleted object stays deleted. */
    method Destroy(user: User, id: int, oracle: Oracle) returns (r: Outcome)
      requires Valid()
      modifies this, s3.disk
      ensures Valid() && nextId == old(nextId)
      ensures r.Deleted? || r.NotFound? || r.Forbidden? || r.ServerError?
      ensures r.NotFound? <==> id !in old(rows)
      ensures r.Forbidden? <==> id in old(rows) && CustomerPolicy.Modify(user, old(rows)[id]).Deny?
      ensures r.Forbidden? ==> r.message == CustomerPolicy.NotOwnerMessage
      ensures r.NotFound? || r.Forbidden? ==> rows == old(rows) && s3.disk.objects == old(s3.disk.objects)
      ensures (r.Deleted? || r.ServerError?) && !HasImage(old(rows)[id].imageUrl) ==>
        s3.disk.objects == old(s3.disk.objects)
      ensures (r.Deleted? || r.ServerError?) && HasImage(old(rows)[id].imageUrl) ==>
        var oldKey := SliceOldPath(old(rows)[id].imageUrl.value);
        if oldKey.Err? then
          r == ServerError(MissingKeyMessage) && s3.disk.objects == old(s3.disk.objects)
        else
          s3.disk.objects == if oracle.deleteOk then old(s3.disk.objects) - {oldKey.value} else old(s3.disk.objects)
      ensures r.Deleted? <==>
        (id in old(rows) && CustomerPolicy.Modify(user, old(rows)[id]).Allow? &&
         (!HasImage(old(rows)[id].imageUrl) || SliceOldPath(old(rows)[id].imageUrl.value).Ok?) &&
         oracle.dbError.None?)
      ensures r.Deleted? ==> rows == old(rows) - {id} && id !in rows
      ensures r.ServerError? ==> rows == old(rows)
      ensures r.ServerError? ==>
        if HasImage(old(rows)[id].imageUrl) && SliceOldPath(old(rows)[id].imageUrl.value).Err? then
          r.error == MissingKeyMessage
        else
          oracle.dbError == Some(r.error)
    {
      if id !in rows {
        return NotFound;
      }
      var customer := rows[id];
      var decision := CustomerPolicy.Modify(user, customer);
      if decision.Deny? {
        return Forbidden(decision.message);
      }
      var snapshot := rows;  // DB::beginTransaction()
      if HasImage(customer.imageUrl) {
        var deleted := s3.Delete(customer.imageUrl.value, oracle);
        if deleted.Err? {
          rows := snapshot;  // DB::rollBack()
          return ServerError(deleted.error);
        }
      }
      if oracle.dbError.Some? {
        rows := snapshot;
        return ServerError(oracle.dbError.value);
      }
      rows := rows - {id};  // $customer->delete()
      return Deleted;  // DB::commit()
    }
  }
}
