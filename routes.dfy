/**
  The REST handlers' decisions: the admin gate in front of every document
  and access-key operation, the mapping from an upload to a document row,
  the generated-key default and validation of a new access key, the
  two-step access-key gate of the public list, and the seed administrator.
  `req.isAuthenticated()` is an input; the store is the one shared
  `storage` object.
*/
module Routes {
  import opened Wrappers
  import opened Text
  import opened Schema
  import opened Storage

  datatype Payload =
    | DocumentList(documents: seq<Document>)
    | AccessKeyList(accessKeys: seq<AccessKey>)
    | CreatedDocument(document: Document)
    | CreatedAccessKey(accessKey: AccessKey)
    | Message(text: string)
    | ValidationErrors(issues: seq<Issue>)

  /** What a handler answers. */
  datatype Response =
    | SendStatus(code: int)              // `res.sendStatus(code)`
    | Json(code: int, payload: Payload)  // `res.status(code).json(payload)`, 200 when no status is set
    | Threw(error: StoreError)           // an error the handler rethrows to the framework

  const Unauthorized: Response := SendStatus(401)
  const NoContent: Response := SendStatus(204)
  const NoFileUploaded: Response := Json(400, Message("No file uploaded"))
  const AccessKeyRequired: Response := Json(401, Message("Access key required"))
  const InvalidAccessKey: Response := Json(401, Message("Invalid or expired access key"))

  const UploadsPrefix: string := "/uploads/"

  /** The file the multipart parser stored: the client's name, its MIME type, and the name it was stored under. */
  datatype UploadedFile = UploadedFile(originalname: string, mimetype: string, filename: string)

  /** Every document is a pdf or an image. */
  ghost predicate FileTypesValid(docs: seq<Document>)
  {
    forall d :: d in docs ==> IsFileType(d.fileType)
  }

  /**
    The row an upload becomes: the form's title unless it is missing or
    empty, then the original file name; an image iff the MIME type starts
    with `image/`, a pdf for everything else; the url under `/uploads/`.
  */
  function DocumentFromUpload(title: Option<string>, file: UploadedFile): (d: InsertDocument)
    ensures d.title == (if title.Some? && title.value != "" then title.value else file.originalname)
    ensures d.filename == file.originalname
    ensures IsFileType(d.fileType)
    ensures d.fileType == ImageType <==> StartsWith(file.mimetype, "image/")
    ensures StartsWith(d.url, UploadsPrefix) && d.url[|UploadsPrefix|..] == file.filename
    ensures file.originalname != "" ==> d.title != ""
  {
    InsertDocument(
      if title.Some? && title.value != "" then title.value else file.originalname,
      file.originalname,
      if StartsWith(file.mimetype, "image/") then ImageType else PdfType,
      UploadsPrefix + file.filename)
  }

  /** JavaScript truthiness of a body field (`undefined` when it is missing). */
  predicate FieldTruthy(body: Body, name: string)
  {
    name in body &&
    match body[name]
    case JString(s) => s != ""
    case JNumber(n) => n != 0
    case JBool(b) => b
    case JNull => false
    case JComposite => true
  }

  /** `if (!keyData.key) keyData.key = generated`: validation always sees a `key` field. */
  function WithGeneratedKey(body: Body, generated: string): (b: Body)
    ensures "key" in b && b.Keys == body.Keys + {"key"}
    ensures FieldTruthy(body, "key") ==> b == body
    ensures !FieldTruthy(body, "key") ==> b["key"] == JString(generated)
    ensures forall f :: f in body && f != "key" ==> b[f] == body[f]
  {
    if FieldTruthy(body, "key") then body else body["key" := JString(generated)]
  }

  /**
    What a new access key is made of: a body without a usable key gets the
    generated one, a truthy key that is not a string is rejected, and so is
    a label that is not a string or null.
  */
  function AccessKeyInput(body: Body, generated: string): (r: Result<InsertAccessKey, seq<Issue>>)
    ensures r.Success? <==> LabelAcceptable(body) && (!FieldTruthy(body, "key") || body["key"].JString?)
    ensures r.Success? ==> r.value.key == (if FieldTruthy(body, "key") then body["key"].s else generated)
    ensures r.Success? && FieldTruthy(body, "key") ==> r.value.key != ""
    ensures r.Success? ==> (r.value.keyLabel.Some? <==> "label" in body && body["label"].JString?)
  {
    ParseInsertAccessKey(WithGeneratedKey(body, generated))
  }

  /** Some stored key equals `key` exactly and is active. */
  ghost predicate ActiveKeyExists(keys: seq<AccessKey>, key: string)
  {
    exists i :: 0 <= i < |keys| && keys[i].key == key && keys[i].isActive == Some(true)
  }

  // ---- Documents ----

  /** `GET /api/documents`: 401 for a caller without a session, else every document, newest first. */
  function ListDocuments(st: Store, authenticated: bool): (r: Response)
    reads st
    requires st.Valid()
    ensures !authenticated ==> r == Unauthorized
    ensures authenticated ==> r.Json? && r.code == 200 && r.payload.DocumentList?
    ensures authenticated ==> multiset(r.payload.documents) == multiset(st.documents)
    ensures authenticated ==> NewestFirst(r.payload.documents, DocumentCreatedAt)
  {
    if !authenticated then Unauthorized else Json(200, DocumentList(st.Documents()))
  }

  /**
    `POST /api/documents`: 401 without a session and 400 without a file,
    both leaving the store alone; otherwise one row built from the upload is
    inserted and answered with 201.
  */
  method CreateDocument(st: Store, authenticated: bool, title: Option<string>, file: Option<UploadedFile>, elapsed: nat)
    returns (r: Response)
    requires st.Valid()
    modifies st
    ensures st.Valid()
    ensures !authenticated ==> r == Unauthorized && unchanged(st)
    ensures authenticated && file.None? ==> r == NoFileUploaded && unchanged(st)
    ensures authenticated && file.Some? ==>
      var d := DocumentFromUpload(title, file.value);
      && r.Json? && r.code == 201 && r.payload.CreatedDocument?
      && r.payload.document.title == d.title && r.payload.document.filename == d.filename
      && r.payload.document.fileType == d.fileType && r.payload.document.url == d.url
      && r.payload.document.id == old(st.nextDocumentId) && r.payload.document.createdAt == old(st.clock) + elapsed
      && st.documents == old(st.documents) + [r.payload.document]
      && st.nextDocumentId == old(st.nextDocumentId) + 1 && st.clock == old(st.clock) + elapsed
    ensures st.users == old(st.users) && st.accessKeys == old(st.accessKeys)
    ensures st.nextUserId == old(st.nextUserId) && st.nextAccessKeyId == old(st.nextAccessKeyId)
    ensures FileTypesValid(old(st.documents)) ==> FileTypesValid(st.documents)
  {
    if !authenticated {
      return Unauthorized;
    }
    if file.None? {
      return NoFileUploaded;
    }
    var row := st.CreateDocument(DocumentFromUpload(title, file.value), elapsed);
    r := Json(201, CreatedDocument(row));
  }

  /** `DELETE /api/documents/:id`: 401 without a session; otherwise the delete, answered 204 whether or not the id existed. */
  method DeleteDocument(st: Store, authenticated: bool, id: int) returns (r: Response)
    requires st.Valid()
    modifies st
    ensures st.Valid()
    ensures !authenticated ==> r == Unauthorized && unchanged(st)
    ensures authenticated ==> r == NoContent
    ensures authenticated ==> st.documents == RemoveBy(old(st.documents), DocumentId, id) && st.GetDocument(id).None?
    ensures st.users == old(st.users) && st.accessKeys == old(st.accessKeys)
    ensures st.nextUserId == old(st.nextUserId) && st.nextDocumentId == old(st.nextDocumentId)
    ensures st.nextAccessKeyId == old(st.nextAccessKeyId) && st.clock == old(st.clock)
  {
    if !authenticated {
      return Unauthorized;
    }
    st.DeleteDocument(id);
    r := NoContent;
  }

  // ---- Access keys ----

  /** `GET /api/access-keys`: 401 for a caller without a session, else every key, newest first. */
  function ListAccessKeys(st: Store, authenticated: bool): (r: Response)
    reads st
    requires st.Valid()
    ensures !authenticated ==> r == Unauthorized
    ensures authenticated ==> r.Json? && r.code == 200 && r.payload.AccessKeyList?
    ensures authenticated ==> multiset(r.payload.accessKeys) == multiset(st.accessKeys)
    ensures authenticated ==> NewestFirst(r.payload.accessKeys, AccessKeyCreatedAt)
  {
    if !authenticated then Unauthorized else Json(200, AccessKeyList(st.AccessKeys()))
  }

  /**
    `POST /api/access-keys`: 401 without a session; 400 with the schema's
    issues for a body it rejects; a key already stored makes the insert
    throw, which the handler does not catch; otherwise one active key is
    inserted and answered with 201. Only the last case changes the store.
  */
  method CreateAccessKey(st: Store, authenticated: bool, body: Body, generated: string, elapsed: nat)
    returns (r: Response)
    requires st.Valid()
    modifies st
    ensures st.Valid()
    ensures !authenticated ==> r == Unauthorized && unchanged(st)
    ensures authenticated && AccessKeyInput(body, generated).Failure? ==>
      r == Json(400, ValidationErrors(AccessKeyInput(body, generated).error)) && unchanged(st)
    ensures authenticated && AccessKeyInput(body, generated).Success? ==>
      var input := AccessKeyInput(body, generated).value;
      if old(st.GetAccessKey(input.key)).Some? then
        r == Threw(DuplicateAccessKey) && unchanged(st)
      else
        && r.Json? && r.code == 201 && r.payload.CreatedAccessKey?
        && r.payload.accessKey.key == input.key && r.payload.accessKey.keyLabel == input.keyLabel
        && r.payload.accessKey.isActive == Some(true)
        && r.payload.accessKey.id == old(st.nextAccessKeyId) && r.payload.accessKey.createdAt == old(st.clock) + elapsed
        && st.accessKeys == old(st.accessKeys) + [r.payload.accessKey]
        && st.nextAccessKeyId == old(st.nextAccessKeyId) + 1 && st.clock == old(st.clock) + elapsed
    ensures st.users == old(st.users) && st.documents == old(st.documents)
    ensures st.nextUserId == old(st.nextUserId) && st.nextDocumentId == old(st.nextDocumentId)
  {
    if !authenticated {
      return Unauthorized;
    }
    var parsed := AccessKeyInput(body, generated);
    if parsed.Failure? {
      return Json(400, ValidationErrors(parsed.error));
    }
    var created := st.CreateAccessKey(parsed.value, elapsed);
    match created
    case Failure(e) => r := Threw(e);
    case Success(k) => r := Json(201, CreatedAccessKey(k));
  }

  /**
    `DELETE /api/access-keys/:id`: 401 without a session; otherwise the
    delete, answered 204 whether or not the id existed; the deleted key's
    token stops opening the public list at once.
  */
  method DeleteAccessKey(st: Store, authenticated: bool, id: int) returns (r: Response)
    requires st.Valid()
    modifies st
    ensures st.Valid()
    ensures !authenticated ==> r == Unauthorized && unchanged(st)
    ensures authenticated ==> r == NoContent && st.accessKeys == RemoveBy(old(st.accessKeys), AccessKeyId, id)
    ensures authenticated ==> forall k :: k in old(st.accessKeys) && k.id == id && k.key != "" ==>
      PublicListDocuments(st, Some(k.key)) == InvalidAccessKey
    ensures st.users == old(st.users) && st.documents == old(st.documents)
    ensures st.nextUserId == old(st.nextUserId) && st.nextDocumentId == old(st.nextDocumentId)
    ensures st.nextAccessKeyId == old(st.nextAccessKeyId) && st.clock == old(st.clock)
  {
    if !authenticated {
      return Unauthorized;
    }
    st.DeleteAccessKey(id);
    r := NoContent;
  }

  // ---- Public access ----

  /**
    `GET /api/public/documents?key=…`: a missing or empty key is refused
    without looking at the store; a key that matches no row, or a row that
    is not active, gets one and the same refusal; a key that matches an
    active row exactly gets every document, newest first, the same list for
    every such key.
  */
  function PublicListDocuments(st: Store, key: Option<string>): (r: Response)
    reads st
    requires st.Valid()
    ensures r == AccessKeyRequired <==> key.None? || key == Some("")
    ensures key.Some? && key.value != "" && !ActiveKeyExists(st.accessKeys, key.value) ==> r == InvalidAccessKey
    ensures r == Json(200, DocumentList(st.Documents())) <==>
      key.Some? && key.value != "" && ActiveKeyExists(st.accessKeys, key.value)
    ensures r == AccessKeyRequired || r == InvalidAccessKey || r == Json(200, DocumentList(st.Documents()))
  {
    if key.None? || key.value == "" then AccessKeyRequired
    else
      match st.GetAccessKey(key.value)
      case None => InvalidAccessKey
      case Some(found) =>
        if found.isActive != Some(true) then
          assert !ActiveKeyExists(st.accessKeys, key.value) by {
            forall i | 0 <= i < |st.accessKeys| && st.accessKeys[i].key == key.value
              ensures st.accessKeys[i] == found
            {
              assert st.accessKeys[i] in st.accessKeys;
            }
          }
          InvalidAccessKey
        else
          Json(200, DocumentList(st.Documents()))
  }

  // ---- Seed ----

  const AdminUsername: string := "admin"
  const AdminPassword: string := "password123"

  /**
    The seed step: creates the `admin` user only when no user has that
    name, so after it exactly one `admin` exists and a second run changes
    nothing.
  */
  method SeedAdmin(st: Store, salt: seq<byte>, kdf: KeyDerivation)
    requires st.Valid() && |salt| == 16
    modifies st
    ensures st.Valid()
    ensures CountBy(st.users, Username, AdminUsername) == 1
    ensures old(st.GetUserByUsername(AdminUsername)).Some? ==> unchanged(st)
    ensures old(st.GetUserByUsername(AdminUsername)).None? ==>
      st.users == old(st.users) + [User(old(st.nextUserId), AdminUsername, HashPassword(AdminPassword, salt, kdf))]
    ensures st.documents == old(st.documents) && st.accessKeys == old(st.accessKeys)
    ensures st.nextDocumentId == old(st.nextDocumentId) && st.nextAccessKeyId == old(st.nextAccessKeyId)
    ensures st.clock == old(st.clock)
  {
    var existing := st.GetUserByUsername(AdminUsername);
    if existing.None? {
      var created := st.CreateUser(InsertUser(AdminUsername, AdminPassword), salt, kdf);
    }
    UniqueCount(st.users, Username, AdminUsername);
    assert st.GetUserByUsername(AdminUsername).Some?;
  }
}
