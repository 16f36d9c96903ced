/** The recipe service's handlers over its data file. Every handler loads
    the whole document, scans or changes its copy of the records, and
    writes the whole document back when it changes something. */
module Store {
  import opened Recipes
  import opened Repository

  /** What the data file holds: a document that decodes to a list of
      recipes, or content that cannot be opened or decoded. */
  datatype Disk = Stored(recipes: seq<Recipe>) | Unreadable

  /** The document a load yields: the stored records, or no records when
      the file cannot be read; loading never fails. */
  function Load(d: Disk): seq<Recipe> {
    match d
    case Stored(rs) => rs
    case Unreadable => []
  }

  /** The file after a handler's step: rewritten with the new document, or
      untouched when the handler wrote nothing. */
  function Persist(d: Disk, write: Option<seq<Recipe>>): Disk {
    match write
    case None => d
    case Some(doc) => Stored(doc)
  }

  /** The next load after a handler's step sees the document the step
      leaves behind, so successive handler calls follow `After`. */
  lemma LoadPersist(d: Disk, s: Step)
    ensures Load(Persist(d, s.write)) == After(Load(d), s)
  {
  }

  /** What the load fallback means for the file: an insert into an
      unreadable file replaces it by a document holding just the new
      recipe, while a refused replace or remove leaves it unreadable. */
  lemma UnreadableFile(r: Recipe, id: int)
    ensures Persist(Unreadable, Add(Load(Unreadable), r).write) == Stored([r])
    ensures Persist(Unreadable, Update(Load(Unreadable), id, r).write) == Unreadable
    ensures Persist(Unreadable, Delete(Load(Unreadable), id).write) == Unreadable
  {
    assert !HasId([], r.id);
  }

  class RecipeStore {
    var disk: Disk

    constructor (initial: Disk)
      ensures disk == initial
    {
      disk := initial;
    }

    /** Reads the data file; an unreadable file gives the empty document. */
    method ReadData() returns (doc: seq<Recipe>)
      ensures doc == Load(disk)
    {
      match disk
      case Stored(rs) => doc := rs;
      case Unreadable => doc := [];
    }

    /** Overwrites the data file with the whole document. */
    method WriteData(doc: seq<Recipe>)
      modifies this
      ensures disk == Stored(doc)
    {
      disk := Stored(doc);
    }

    /** All records, in stored order. */
    method ListRecipes() returns (rs: seq<Recipe>)
      ensures rs == Load(disk)
    {
      rs := ReadData();
    }

    /** The first record with the id, or NotFound. */
    method GetRecipe(id: int) returns (res: Result<Recipe>)
      ensures res == Lookup(Load(disk), ById(id))
      ensures res.Err? ==> StatusCode(res.error) == 404
    {
      var doc := ReadData();
      var i := 0;
      while i < |doc|
        invariant 0 <= i <= |doc|
        invariant forall j :: 0 <= j < i ==> !Selects(ById(id), doc[j])
      {
        if doc[i].id == id {
          LookupAt(doc, ById(id), i);
          return Ok(doc[i]);
        }
        i := i + 1;
      }
      return Err(NotFound);
    }

    /** Appends a recipe whose id is not yet taken and returns it; a taken
        id is refused with DuplicateId and the file is not written. */
    method AddRecipe(recipe: Recipe) returns (res: Result<Recipe>)
      modifies this
      ensures res == Add(Load(old(disk)), recipe).reply
      ensures disk == Persist(old(disk), Add(Load(old(disk)), recipe).write)
      ensures res.Err? ==> disk == old(disk) && StatusCode(res.error) == 400
    {
      var doc := ReadData();
      if HasId(doc, recipe.id) {
        return Err(DuplicateId);
      }
      doc := doc + [recipe];
      WriteData(doc);
      return Ok(recipe);
    }

    /** Overwrites the first record with the id by `recipe` and returns
        `recipe`; NotFound, with no write, when no record has the id. */
    method UpdateRecipe(id: int, recipe: Recipe) returns (res: Result<Recipe>)
      modifies this
      ensures res == Update(Load(old(disk)), id, recipe).reply
      ensures disk == Persist(old(disk), Update(Load(old(disk)), id, recipe).write)
      ensures res.Err? ==> disk == old(disk) && StatusCode(res.error) == 404
    {
      var doc := ReadData();
      var idx := 0;
      while idx < |doc|
        invariant 0 <= idx <= |doc|
        invariant forall j :: 0 <= j < idx ==> !Selects(ById(id), doc[j])
        invariant disk == old(disk)
      {
        if doc[idx].id == id {
          LookupAt(doc, ById(id), idx);
          doc := doc[idx := recipe];
          WriteData(doc);
          return Ok(recipe);
        }
        idx := idx + 1;
      }
      return Err(NotFound);
    }

    /** Takes the first record with the id out and returns it; NotFound,
        with no write, when no record has the id. */
    method DeleteRecipe(id: int) returns (res: Result<Recipe>)
      modifies this
      ensures res == Delete(Load(old(disk)), id).reply
      ensures disk == Persist(old(disk), Delete(Load(old(disk)), id).write)
      ensures res.Err? ==> disk == old(disk) && StatusCode(res.error) == 404
    {
      var doc := ReadData();
      var idx := 0;
      while idx < |doc|
        invariant 0 <= idx <= |doc|
        invariant forall j :: 0 <= j < idx ==> !Selects(ById(id), doc[j])
        invariant disk == old(disk)
      {
        if doc[idx].id == id {
          LookupAt(doc, ById(id), idx);
          var deleted := doc[idx];
          doc := doc[..idx] + doc[idx + 1..];
          WriteData(doc);
          return Ok(deleted);
        }
        idx := idx + 1;
      }
      return Err(NotFound);
    }

    /** The record the image page shows: the first with the id and an
        image, or NotFound. */
    method ShowRecipeImage(id: int) returns (res: Result<Recipe>)
      ensures res == Lookup(Load(disk), ImageOf(id))
      ensures res.Err? ==> StatusCode(res.error) == 404
    {
      var doc := ReadData();
      var i := 0;
      while i < |doc|
        invariant 0 <= i <= |doc|
        invariant forall j :: 0 <= j < i ==> !Selects(ImageOf(id), doc[j])
      {
        if doc[i].id == id && HasImage(doc[i]) {
          LookupAt(doc, ImageOf(id), i);
          return Ok(doc[i]);
        }
        i := i + 1;
      }
      return Err(NotFound);
    }
  }
}
