/** A client of the controller: what a caller can conclude from the
    endpoints' contracts alone. */
module Scenarios {
  import opened Wrappers
  import opened Text
  import opened Models
  import opened Fakes
  import opened Services
  import opened Controllers

  /** A valid create is answered with the new row, which `show` then
      returns; its image is the one object the request added. */
  method CreateThenShow(
    c: CustomerController, owner: User, name: string, email: string, image: UploadedFile, oracle: Oracle)
    returns (id: int)
    requires c.Valid()
    requires TextOk(Some(name)) && TextOk(Some(email)) && c.isEmail(email) && !EmailTaken(c.rows, email, None)
    requires ImageOk(Some(image)) && oracle.storeOk && oracle.dbError.None?
    requires !Falsy(UploadKey(image, Directory))
    modifies c, c.s3.disk
    ensures c.Valid() && id !in old(c.rows)
    ensures c.rows == old(c.rows)[id := Customer(id, owner.id, name, email, Some(c.s3.disk.Url(UploadKey(image, Directory))))]
    ensures c.s3.disk.objects == old(c.s3.disk.objects) + {UploadKey(image, Directory)}
  {
    var req := Request(Some(name), Some(email), Some(image));
    assert StoreErrors(req, c.rows, c.isEmail) == {};
    var created := c.Store(owner, req, oracle);
    assert created.Created?;
    id := created.customer.id;
    var shown := c.Show(id);
    assert shown == Found(created.customer);
  }

  /** The owner renames a customer while resending its own email: the
      request passes the uniqueness rule, only the name changes, and the
      image and the bucket are untouched. */
  method RenameThenShow(c: CustomerController, owner: User, id: int, email: string, newName: string, oracle: Oracle)
    requires c.Valid() && id in c.rows && c.rows[id].ownerId == owner.id && c.rows[id].email == email
    requires TextOk(Some(newName)) && TextOk(Some(email)) && c.isEmail(email)
    requires oracle.dbError.None?
    modifies c, c.s3.disk
    ensures c.Valid()
    ensures c.rows == old(c.rows)[id := old(c.rows)[id].(name := newName)]
    ensures c.s3.disk.objects == old(c.s3.disk.objects)
  {
    var rename := Request(Some(newName), Some(email), None);
    assert !EmailTaken(c.rows, email, Some(id));
    assert UpdateErrors(rename, c.rows, id, c.isEmail) == {};
    var updated := c.Update(owner, id, rename, oracle);
    assert updated.Updated?;
    var shown := c.Show(id);
    assert shown == Found(updated.customer);
  }

  /** The owner deletes a customer whose image URL follows the bucket's URL
      scheme: the object under that key and the row both go, and the id is
      then not found. */
  method DestroyThenShow(c: CustomerController, owner: User, id: int, key: string, oracle: Oracle)
    requires c.Valid() && id in c.rows && c.rows[id].ownerId == owner.id
    requires c.rows[id].imageUrl == Some(c.s3.disk.Url(key))
    requires !Contains(c.s3.disk.host, Marker) && !Contains(key, Marker)
    requires oracle.deleteOk && oracle.dbError.None?
    modifies c, c.s3.disk
    ensures c.Valid()
    ensures c.rows == old(c.rows) - {id}
    ensures c.s3.disk.objects == old(c.s3.disk.objects) - {key}
  {
    SliceOldPathInvertsUrl(c.s3.disk.host, key);
    assert |c.s3.disk.Url(key)| >= |Marker|;
    var deleted := c.Destroy(owner, id, oracle);
    assert deleted == Deleted;
    var shown := c.Show(id);
    assert shown == NotFound;
  }

  /** Create, rename and delete by the owner, with a fresh image key: the
      table and the bucket end where they started. */
  method CreateRenameDestroy(
    c: CustomerController, owner: User,
    name: string, email: string, image: UploadedFile, newName: string, oracle: Oracle)
    requires c.Valid()
    requires TextOk(Some(name)) && TextOk(Some(newName))
    requires TextOk(Some(email)) && c.isEmail(email) && !EmailTaken(c.rows, email, None)
    requires ImageOk(Some(image))
    requires oracle.storeOk && oracle.deleteOk && oracle.dbError.None?
    requires !Falsy(UploadKey(image, Directory)) && UploadKey(image, Directory) !in c.s3.disk.objects
    requires !Contains(c.s3.disk.host, Marker) && !Contains(UploadKey(image, Directory), Marker)
    modifies c, c.s3.disk
    ensures c.Valid()
    ensures c.rows == old(c.rows) && c.s3.disk.objects == old(c.s3.disk.objects)
  {
    var key := UploadKey(image, Directory);
    ghost var rows0, objects0 := c.rows, c.s3.disk.objects;
    var id := CreateThenShow(c, owner, name, email, image, oracle);
    ghost var url := c.s3.disk.Url(key);
    ghost var created := Customer(id, owner.id, name, email, Some(url));
    assert c.rows == rows0[id := created];
    RenameThenShow(c, owner, id, email, newName, oracle);
    assert c.rows == rows0[id := created][id := created.(name := newName)];
    DestroyThenShow(c, owner, id, key, oracle);
    RemoveFreshRow(rows0, id, created, created.(name := newName));
    RemoveFreshKey(objects0, key);
  }

  /** Writing a row under a fresh id, rewriting it, and deleting it leaves
      the table as it was. */
  lemma RemoveFreshRow(rows: map<int, Customer>, id: int, x: Customer, y: Customer)
    requires id !in rows
    ensures rows[id := x][id := y] - {id} == rows
  {
    assert rows[id := x][id := y] == rows[id := y];
  }

  /** Adding a fresh key and removing it leaves the bucket as it was. */
  lemma RemoveFreshKey(objects: set<string>, key: string)
    requires key !in objects
    ensures objects + {key} - {key} == objects
  {
  }
}
