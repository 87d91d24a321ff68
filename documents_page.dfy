/**
  The admin documents page's two computations: the search box's filter
  over the loaded documents, and the default title an upload is sent with.
*/
module DocumentsPage {
  import opened Wrappers
  import opened Text
  import opened Sequences
  import opened Schema
  import Routes

  /** A document matches when its lower-cased title or file name contains the lower-cased search. */
  predicate Matches(doc: Document, search: string)
  {
    Includes(ToLower(doc.title), ToLower(search)) || Includes(ToLower(doc.filename), ToLower(search))
  }

  /** `filteredDocs`: the documents that match the search, in the order loaded. */
  function FilterDocuments(docs: seq<Document>, search: string): (r: seq<Document>)
    ensures forall d :: d in r <==> d in docs && Matches(d, search)
    ensures |r| <= |docs|
  {
    if docs == [] then []
    else (if Matches(docs[0], search) then [docs[0]] else []) + FilterDocuments(docs[1..], search)
  }

  /** A kept document appears as often as in the loaded list; a dropped one not at all. */
  lemma {:induction false} FilterCounts(docs: seq<Document>, search: string)
    ensures forall d :: multiset(FilterDocuments(docs, search))[d] == (if Matches(d, search) then multiset(docs)[d] else 0)
  {
    if docs != [] {
      FilterCounts(docs[1..], search);
      assert docs == [docs[0]] + docs[1..];
    }
  }

  /** The filter drops documents and never reorders them. */
  lemma {:induction false} FilterKeepsOrder(docs: seq<Document>, search: string)
    ensures Subsequence(FilterDocuments(docs, search), docs)
  {
    if docs != [] {
      FilterKeepsOrder(docs[1..], search);
      var rest := FilterDocuments(docs[1..], search);
      if Matches(docs[0], search) {
        assert FilterDocuments(docs, search) == [docs[0]] + rest;
      } else {
        assert FilterDocuments(docs, search) == rest;
        if rest != [] {
          assert Subsequence(rest, docs[1..]);
        }
      }
    }
  }

  /** An empty search keeps every document. */
  lemma {:induction false} EmptySearchKeepsAll(docs: seq<Document>)
    ensures FilterDocuments(docs, "") == docs
  {
    if docs != [] {
      assert OccursAt(ToLower(docs[0].title), "", 0);
      EmptySearchKeepsAll(docs[1..]);
    }
  }

  /** Searches that differ only in the case of their letters select the same documents. */
  lemma {:induction false} FilterIgnoresCase(docs: seq<Document>, s1: string, s2: string)
    requires ToLower(s1) == ToLower(s2)
    ensures FilterDocuments(docs, s1) == FilterDocuments(docs, s2)
  {
    if docs != [] {
      FilterIgnoresCase(docs[1..], s1, s2);
    }
  }

  /** In particular, searching for the lower-cased text is the same search. */
  lemma FilterOnLowerCase(docs: seq<Document>, search: string)
    ensures FilterDocuments(docs, ToLower(search)) == FilterDocuments(docs, search)
  {
    ToLowerIdempotent(search);
    FilterIgnoresCase(docs, ToLower(search), search);
  }

  /**
    `file.name.split('.')[0]`: the file name up to its first dot, so it
    holds no dot; a name without a dot is its own title, and a name that
    starts with a dot gives an empty title.
  */
  function DefaultTitle(name: string): (t: string)
    ensures '.' !in t
    ensures StartsWith(name, t)
    ensures |t| < |name| ==> name[|t|] == '.'
    ensures '.' !in name ==> t == name
    ensures name != [] && name[0] == '.' ==> t == []
  {
    BeforeFirst(name, '.')
  }

  /**
    The title the server stores for a file uploaded from this page: the
    default title, or the whole file name when that is empty (a name that
    starts with a dot); never empty for a non-empty name.
  */
  lemma UploadedTitle(file: Routes.UploadedFile)
    ensures var t := DefaultTitle(file.originalname);
      Routes.DocumentFromUpload(Some(t), file).title == (if t != "" then t else file.originalname)
    ensures file.originalname != "" ==> Routes.DocumentFromUpload(Some(DefaultTitle(file.originalname)), file).title != ""
    ensures file.originalname != "" && file.originalname[0] == '.' ==>
      Routes.DocumentFromUpload(Some(DefaultTitle(file.originalname)), file).title == file.originalname
  {
  }
}
