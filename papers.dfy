/** The paper and author records of academic_app.py, as decoded from the
    Semantic Scholar JSON: every key the code reads may be absent, null or
    set, which `Field` keeps apart. */
module Papers {
  import opened Values
  import opened Text

  datatype Author = Author(name: Field<string>, authorId: Field<string>)

  /** A paper record. `code` is the lineage code ("A3", "D1") the miner
      writes into the record; `references` and `citations` are only filled
      in for the paper the network is built around. */
  datatype Paper = Paper(
    paperId: Field<string>,
    title: Field<string>,
    year: Field<int>,
    citationCount: Field<int>,
    authors: Field<seq<Author>>,
    code: Field<string>,
    references: Field<seq<Paper>>,
    citations: Field<seq<Paper>>)

  /** `p.get('paperId')` is truthy. */
  predicate HasId(p: Paper)
  {
    Truthy(p.paperId)
  }

  /** `p.get('authors', [])`, which every caller tests for truthiness first:
      an absent key and a null both behave as the empty list. */
  function AuthorsOf(p: Paper): (r: seq<Author>)
    ensures p.authors.Present? ==> r == p.authors.value
    ensures !p.authors.Present? ==> r == []
  {
    ListOrEmpty(p.authors)
  }

  /** `d.get(k, default)` for an integer key, rendered by an f-string. */
  function ShowInt(f: Field<int>, default: string): (r: string)
    ensures f.Missing? ==> r == default
    ensures f.Null? ==> r == "None"
    ensures f.Present? ==> r == IntToString(f.value)
  {
    match f
    case Missing => default
    case Null => "None"
    case Present(n) => IntToString(n)
  }
}
