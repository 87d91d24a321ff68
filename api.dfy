/** The endpoint table shared by client and server, and `buildUrl`, which fills a path template's `:name` placeholders. */
module Api {
  import opened Wrappers
  import opened Text

  datatype HttpMethod = Get | Post | Delete

  datatype Endpoint = Endpoint(verb: HttpMethod, path: string)

  const Login: Endpoint := Endpoint(Post, "/api/login")
  const Logout: Endpoint := Endpoint(Post, "/api/logout")
  const Me: Endpoint := Endpoint(Get, "/api/user")
  const ListDocuments: Endpoint := Endpoint(Get, "/api/documents")
  const CreateDocument: Endpoint := Endpoint(Post, "/api/documents")
  const DeleteDocument: Endpoint := Endpoint(Delete, "/api/documents/:id")
  const PublicListDocuments: Endpoint := Endpoint(Get, "/api/public/documents")
  const ListAccessKeys: Endpoint := Endpoint(Get, "/api/access-keys")
  const CreateAccessKey: Endpoint := Endpoint(Post, "/api/access-keys")
  const DeleteAccessKey: Endpoint := Endpoint(Delete, "/api/access-keys/:id")

  /** The table's endpoints that take no parameter. */
  const FixedEndpoints: seq<Endpoint> :=
    [Login, Logout, Me, ListDocuments, CreateDocument, PublicListDocuments, ListAccessKeys, CreateAccessKey]

  /** A parameter value: `string | number` (integers only). */
  datatype ParamValue = Str(s: string) | Num(n: int)

  /** `String(value)` */
  function ParamString(v: ParamValue): string
  {
    match v
    case Str(s) => s
    case Num(n) => NumberToString(n)
  }

  /** One entry of `Object.entries(params)`. */
  type Param = (string, ParamValue)

  /** The body of the `forEach`: replace the first `:name` if the url includes it. */
  function Substitute(url: string, p: Param): string
  {
    var placeholder := ":" + p.0;
    if Includes(url, placeholder) then ReplaceFirst(url, placeholder, ParamString(p.1)) else url
  }

  /** The parameters applied one after another to the progressively rewritten url. */
  function ApplyParams(url: string, params: seq<Param>): string
    decreases |params|
  {
    if params == [] then url else ApplyParams(Substitute(url, params[0]), params[1..])
  }

  /** `buildUrl(path, params)`: without params the path comes back unchanged. */
  method BuildUrl(path: string, params: Option<seq<Param>>) returns (url: string)
    ensures params.None? ==> url == path
    ensures params.Some? ==> url == ApplyParams(path, params.value)
  {
    url := path;
    if params.Some? {
      var entries := params.value;
      var i := 0;
      while i < |entries|
        invariant 0 <= i <= |entries|
        invariant ApplyParams(url, entries[i..]) == ApplyParams(path, entries)
      {
        var (key, value) := entries[i];
        if Includes(url, ":" + key) {
          url := ReplaceFirst(url, ":" + key, ParamString(value));
        }
        assert entries[i..][1..] == entries[i + 1..];
        i := i + 1;
      }
    }
  }

  /**
    One step with a `$`-free value: a url without the placeholder is left
    as it is; otherwise its first occurrence, and only that one, becomes the
    value.
  */
  lemma SubstituteFirstOccurrence(url: string, p: Param)
    requires '$' !in ParamString(p.1)
    ensures !Includes(url, ":" + p.0) ==> Substitute(url, p) == url
    ensures Includes(url, ":" + p.0) ==>
      var i := IndexOf(url, ":" + p.0).value;
      && url[i..i + |p.0| + 1] == ":" + p.0
      && (forall j :: 0 <= j < i ==> !OccursAt(url, ":" + p.0, j))
      && Substitute(url, p) == url[..i] + ParamString(p.1) + url[i + |p.0| + 1..]
  {
    ReplaceFirstVerbatim(url, ":" + p.0, ParamString(p.1));
  }

  /** A url holding no `:` has no placeholder, so every parameter list leaves it as it is. */
  lemma {:induction false} NoPlaceholderFixedPoint(url: string, params: seq<Param>)
    requires ':' !in url
    ensures ApplyParams(url, params) == url
    decreases |params|
  {
    if params != [] {
      var placeholder := ":" + params[0].0;
      if Includes(url, placeholder) {
        IncludesFirstChar(url, placeholder);
      }
      NoPlaceholderFixedPoint(url, params[1..]);
    }
  }

  /** Filling `:name` at the end of a `:`-free prefix with a `$`-free value. */
  lemma FillTrailingPlaceholder(prefix: string, name: string, v: ParamValue)
    requires ':' !in prefix && '$' !in ParamString(v)
    ensures ApplyParams(prefix + ":" + name, [(name, v)]) == prefix + ParamString(v)
  {
    var placeholder := ":" + name;
    var url := prefix + ":" + name;
    assert url == prefix + placeholder + [];
    FirstOccurrenceAfter(prefix, placeholder, []);
    ReplaceFirstVerbatim(url, placeholder, ParamString(v));
    assert url[..|prefix|] == prefix && url[|prefix| + |placeholder|..] == [];
    assert Substitute(url, (name, v)) == prefix + ParamString(v);
    assert [(name, v)][1..] == [];
  }

  /** `buildUrl(api.documents.delete.path, { id })` is the documents path, a slash and the id in decimal. */
  lemma DeleteDocumentUrl(id: int)
    ensures ApplyParams(DeleteDocument.path, [("id", Num(id))]) == "/api/documents/" + NumberToString(id)
  {
    assert DeleteDocument.path == "/api/documents/" + ":" + "id";
    FillTrailingPlaceholder("/api/documents/", "id", Num(id));
  }

  /** `buildUrl(api.accessKeys.delete.path, { id })` is the access-keys path, a slash and the id in decimal. */
  lemma DeleteAccessKeyUrl(id: int)
    ensures ApplyParams(DeleteAccessKey.path, [("id", Num(id))]) == "/api/access-keys/" + NumberToString(id)
  {
    assert DeleteAccessKey.path == "/api/access-keys/" + ":" + "id";
    FillTrailingPlaceholder("/api/access-keys/", "id", Num(id));
  }

  /** A placeholder that occurs twice keeps its second occurrence: `replace` with a string pattern replaces the first only. */
  lemma RepeatedPlaceholderKeepsSecond(prefix: string, middle: string, name: string, v: ParamValue)
    requires ':' !in prefix && '$' !in ParamString(v)
    ensures ApplyParams(prefix + ":" + name + middle + ":" + name, [(name, v)])
         == prefix + ParamString(v) + middle + ":" + name
  {
    var placeholder := ":" + name;
    var rest := middle + placeholder;
    var url := prefix + placeholder + rest;
    assert prefix + ":" + name + middle + ":" + name == url;
    FirstOccurrenceAfter(prefix, placeholder, rest);
    ReplaceFirstVerbatim(url, placeholder, ParamString(v));
    assert url[..|prefix|] == prefix && url[|prefix| + |placeholder|..] == rest;
    assert Substitute(url, (name, v)) == prefix + ParamString(v) + rest;
    assert [(name, v)][1..] == [];
  }

  /** Every endpoint of the table without an `:id` is its own url, whatever parameters are passed. */
  lemma FixedEndpointsIgnoreParams(params: seq<Param>)
    ensures forall e :: e in FixedEndpoints ==> ApplyParams(e.path, params) == e.path
  {
    forall e | e in FixedEndpoints
      ensures ApplyParams(e.path, params) == e.path
    {
      assert e.path in {Login.path, Logout.path, Me.path, ListDocuments.path, PublicListDocuments.path, ListAccessKeys.path};
      assert ':' !in e.path;
      NoPlaceholderFixedPoint(e.path, params);
    }
  }
}
