/**
  The three tables' row shapes, what a caller may supply when inserting into
  each, and the validation the access-key insert schema applies to a request
  body.
*/
module Schema {
  import opened Wrappers

  /** A reading of the database clock (`defaultNow()`). */
  type Timestamp = nat

  /** A row of `users`; `username` is unique, `password` holds the salted hash. */
  datatype User = User(id: int, username: string, password: string)

  /** A row of `documents`; `fileType` is `"pdf"` or `"image"` as the handlers write it. */
  datatype Document = Document(
    id: int, title: string, filename: string, fileType: string, url: string, createdAt: Timestamp)

  /** A row of `access_keys`; `key` is unique, `isActive` and the `label` column (`keyLabel`) are nullable. */
  datatype AccessKey = AccessKey(
    id: int, key: string, keyLabel: Option<string>, createdAt: Timestamp, isActive: Option<bool>)

  /** The fields a caller supplies on insert; `id`, `createdAt` and `isActive` are not among them. */
  datatype InsertUser = InsertUser(username: string, password: string)
  datatype InsertDocument = InsertDocument(title: string, filename: string, fileType: string, url: string)
  datatype InsertAccessKey = InsertAccessKey(key: string, keyLabel: Option<string>)

  const PdfType: string := "pdf"
  const ImageType: string := "image"

  predicate IsFileType(t: string)
  {
    t == PdfType || t == ImageType
  }

  // Column projections, for the tables' uniqueness and ordering constraints.
  function UserId(u: User): int { u.id }
  function Username(u: User): string { u.username }
  function DocumentId(d: Document): int { d.id }
  function DocumentCreatedAt(d: Document): Timestamp { d.createdAt }
  function AccessKeyId(k: AccessKey): int { k.id }
  function AccessKeyValue(k: AccessKey): string { k.key }
  function AccessKeyCreatedAt(k: AccessKey): Timestamp { k.createdAt }

  /** A JSON value of a request body; arrays and objects are not inspected. */
  datatype JsonValue = JString(s: string) | JNumber(n: int) | JBool(b: bool) | JNull | JComposite

  /** A parsed JSON request body; a field the caller did not send is not in the map. */
  type Body = map<string, JsonValue>

  /** What the insert schema reports on a body it rejects. */
  datatype Issue = KeyNotAString | LabelNotAString

  predicate KeyAcceptable(body: Body)
  {
    "key" in body && body["key"].JString?
  }

  /** `label` may be missing, `null` or a string. */
  predicate LabelAcceptable(body: Body)
  {
    "label" !in body || body["label"].JNull? || body["label"].JString?
  }

  /**
    The access-key insert schema's `parse`: `key` must be a string, `label`
    may be missing, `null` or a string (both of the former store no label),
    and every other field is dropped, so a caller cannot set `id`,
    `createdAt` or `isActive`.
  */
  function ParseInsertAccessKey(body: Body): (r: Result<InsertAccessKey, seq<Issue>>)
    ensures r.Success? <==> KeyAcceptable(body) && LabelAcceptable(body)
    ensures r.Success? ==> r.value.key == body["key"].s
    ensures r.Success? ==> (r.value.keyLabel.Some? <==> "label" in body && body["label"].JString?)
    ensures r.Success? && r.value.keyLabel.Some? ==> r.value.keyLabel.value == body["label"].s
    ensures r.Failure? ==> (KeyNotAString in r.error <==> !KeyAcceptable(body))
    ensures r.Failure? ==> (LabelNotAString in r.error <==> !LabelAcceptable(body))
  {
    var issues :=
      (if KeyAcceptable(body) then [] else [KeyNotAString]) +
      (if LabelAcceptable(body) then [] else [LabelNotAString]);
    if issues != [] then Failure(issues)
    else
      var keyLabel := if "label" in body && body["label"].JString? then Some(body["label"].s) else None;
      Success(InsertAccessKey(body["key"].s, keyLabel))
  }

  /** Only `key` and `label` of a body decide what the schema makes of it. */
  lemma ParseReadsOnlyKeyAndLabel(b1: Body, b2: Body)
    requires ("key" in b1 <==> "key" in b2) && ("key" in b1 ==> b1["key"] == b2["key"])
    requires ("label" in b1 <==> "label" in b2) && ("label" in b1 ==> b1["label"] == b2["label"])
    ensures ParseInsertAccessKey(b1) == ParseInsertAccessKey(b2)
  {
  }

  /** The body a caller sends for an insert. */
  function BodyOf(k: InsertAccessKey): Body
  {
    match k.keyLabel
    case None => map["key" := JString(k.key)]
    case Some(l) => map["key" := JString(k.key), "label" := JString(l)]
  }

  /** Sending an insert as a body and parsing it back gives the insert. */
  lemma ParseBodyOf(k: InsertAccessKey)
    ensures ParseInsertAccessKey(BodyOf(k)) == Success(k)
  {
  }
}
