/** The records of the recipe service and the outcomes its handlers report. */
module Recipes {

  datatype Option<T> = None | Some(value: T)

  /** One entry of the `recipes` list of the persisted document. Every field
      is supplied by the caller; `imageUrl` is absent unless given. */
  datatype Recipe = Recipe(
    id: int,
    title: string,
    ingredients: seq<string>,
    instructions: string,
    cookingTime: int,   // minutes, no sign enforced
    difficulty: string,
    imageUrl: Option<string> := None)

  /** The client errors a handler can report: NotFound is answered with
      status 404, DuplicateId with status 400. */
  datatype Error = NotFound | DuplicateId

  datatype Result<T> = Ok(value: T) | Err(error: Error)

  /** The HTTP status code that answers an error. */
  function StatusCode(e: Error): (code: int)
    ensures code == 404 <==> e == NotFound
    ensures code == 400 <==> e == DuplicateId
  {
    match e
    case NotFound => 404
    case DuplicateId => 400
  }

  /** The image test of the image page: the record's image URL is present
      and non-empty (an absent value and the empty string are both falsy). */
  predicate HasImage(r: Recipe): (b: bool)
    ensures b <==> r.imageUrl != None && r.imageUrl != Some("")
  {
    match r.imageUrl
    case None => false
    case Some(url) => |url| > 0
  }

  /** Some record of the document carries `id`: the duplicate check of
      the insert handler, which tries the records in order and stops at
      the first hit. */
  predicate HasId(doc: seq<Recipe>, id: int): (b: bool)
    ensures b <==> exists i :: 0 <= i < |doc| && doc[i].id == id
  {
    doc != [] && (doc[0].id == id || HasId(doc[1..], id))
  }

  /** No two records of the document share an id. The insert handler
      enforces this; nothing else in the document does. */
  predicate IdsUnique(doc: seq<Recipe>) {
    forall i, j :: 0 <= i < j < |doc| ==> doc[i].id != doc[j].id
  }
}
