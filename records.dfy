// Records of the co-authorship data: what one bibliographic entry carries
// and what a graph node accumulates about its author.

module Records {

  /** Author ids are the integer keys of the graph's nodes. */
  type AuthorId = int

  datatype Option<T> = None | Some(value: T)

  datatype Author = Author(name: string, id: AuthorId)

  datatype Publication = Publication(idStr: string, idInt: int, title: string)

  datatype Conference = Conference(idStr: string, idInt: int)

  /** One ingested entry: a publication, the conference it appeared at, and its author list. */
  datatype Entry = Entry(publication: Publication, conference: Conference, authors: seq<Author>)

  /** The data dictionary of a node: its author record and the publications and
      conferences seen for it, keyed by their integer ids. */
  datatype NodeData = NodeData(author: Author,
                               publications: map<int, Publication>,
                               conferences: map<int, Conference>)

  /** The set of ids occurring in an author list. */
  function IdsOf(authors: seq<Author>): set<AuthorId>
    decreases |authors|
  {
    if authors == [] then {} else IdsOf(authors[..|authors| - 1]) + {authors[|authors| - 1].id}
  }

  /** An id is in IdsOf exactly when some position of the list holds it. */
  lemma {:induction false} IdsOfListed(authors: seq<Author>, x: AuthorId)
    ensures x in IdsOf(authors) <==> exists i :: 0 <= i < |authors| && authors[i].id == x
    decreases |authors|
  {
    if authors != [] {
      var n := |authors| - 1;
      IdsOfListed(authors[..n], x);
      if x in IdsOf(authors[..n]) {
        var i :| 0 <= i < n && authors[..n][i].id == x;
        assert authors[i].id == x;
      }
      if exists i :: 0 <= i < |authors| && authors[i].id == x {
        var i :| 0 <= i < |authors| && authors[i].id == x;
        if i < n {
          assert authors[..n][i].id == x;
        }
      }
    }
  }
}
