/** Shared vocabulary of the book front end: the Book record the REST API
    returns, its Genre enumeration, and the two small wrappers the modals
    use for "maybe a book" and "how a request settled". */
module Library {

  datatype Option<+T> = None | Some(value: T)

  /** How an awaited request (or a promise-returning callback) settled:
      `await ...unwrap()` either resolves or throws. */
  datatype Outcome = Resolved | Rejected

  /** A point in time; the model never does calendar arithmetic on it. */
  type Instant = int

  /** The six members of the `Genre` enumeration. */
  datatype Genre = FICTION | NON_FICTION | SCIENCE | HISTORY | BIOGRAPHY | FANTASY

  /** The string value each enumeration member carries at run time. */
  function GenreName(g: Genre): string
  {
    match g
    case FICTION => "FICTION"
    case NON_FICTION => "NON_FICTION"
    case SCIENCE => "SCIENCE"
    case HISTORY => "HISTORY"
    case BIOGRAPHY => "BIOGRAPHY"
    case FANTASY => "FANTASY"
  }

  /** The membership test of `z.nativeEnum(Genre)`: a string is accepted
      exactly when it is the value of one of the members. */
  function ParseGenre(s: string): (r: Option<Genre>)
    ensures r.Some? ==> GenreName(r.value) == s
    ensures r.None? ==> forall g: Genre :: GenreName(g) != s
  {
    if s == "FICTION" then Some(FICTION)
    else if s == "NON_FICTION" then Some(NON_FICTION)
    else if s == "SCIENCE" then Some(SCIENCE)
    else if s == "HISTORY" then Some(HISTORY)
    else if s == "BIOGRAPHY" then Some(BIOGRAPHY)
    else if s == "FANTASY" then Some(FANTASY)
    else None
  }

  lemma ParseGenreName(g: Genre)
    ensures ParseGenre(GenreName(g)) == Some(g)
  {
  }

  /** A book as held by the client: `_id` is `id` here. */
  datatype Book = Book(
    id: string,
    title: string,
    author: string,
    genre: Genre,
    isbn: string,
    description: string,
    copies: int,
    available: bool,
    createdAt: Instant,
    updatedAt: Instant)
}
