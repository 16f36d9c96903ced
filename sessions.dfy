/** Sequences of mutating requests served one after another, each against
    the document the previous one left behind. */
module Sessions {
  import opened Recipes
  import opened Repository
  import opened Store

  /** A mutating request: POST of a recipe, PUT of a recipe under an id,
      DELETE of an id. */
  datatype Edit = Insert(recipe: Recipe) | Replace(id: int, recipe: Recipe) | Remove(id: int)

  function Apply(doc: seq<Recipe>, e: Edit): Step {
    match e
    case Insert(r) => Add(doc, r)
    case Replace(id, r) => Update(doc, id, r)
    case Remove(id) => Delete(doc, id)
  }

  /** The document after serving the edits in order; a refused edit leaves
      the document as it was. */
  function Replay(doc: seq<Recipe>, es: seq<Edit>): seq<Recipe>
    decreases |es|
  {
    if es == [] then doc else Replay(After(doc, Apply(doc, es[0])), es[1..])
  }

  /** Every edit of the sequence is accepted when served in order. */
  predicate AllAccepted(doc: seq<Recipe>, es: seq<Edit>)
    decreases |es|
  {
    es == [] || (Apply(doc, es[0]).reply.Ok? && AllAccepted(After(doc, Apply(doc, es[0])), es[1..]))
  }

  function Inserts(es: seq<Edit>): nat {
    if es == [] then 0 else (if es[0].Insert? then 1 else 0) + Inserts(es[1..])
  }

  function Removes(es: seq<Edit>): nat {
    if es == [] then 0 else (if es[0].Remove? then 1 else 0) + Removes(es[1..])
  }

  /** When every edit is accepted, the number of records grows by the
      number of inserts and shrinks by the number of removals. */
  lemma {:induction false} ReplayLength(doc: seq<Recipe>, es: seq<Edit>)
    requires AllAccepted(doc, es)
    ensures |Replay(doc, es)| == |doc| + Inserts(es) - Removes(es)
    decreases |es|
  {
    if es != [] {
      ReplayLength(After(doc, Apply(doc, es[0])), es[1..]);
    }
  }

  /** A replacement that keeps the id it is filed under. */
  predicate KeepsId(e: Edit) {
    e.Replace? ==> e.recipe.id == e.id
  }

  /** Ids stay unique across any session whose replacements keep their
      ids, whether or not its edits are accepted. */
  lemma {:induction false} ReplayKeepsIdsUnique(doc: seq<Recipe>, es: seq<Edit>)
    requires IdsUnique(doc)
    requires forall i :: 0 <= i < |es| ==> KeepsId(es[i])
    ensures IdsUnique(Replay(doc, es))
    decreases |es|
  {
    if es != [] {
      match es[0] {
        case Insert(r) => AddKeepsIdsUnique(doc, r);
        case Remove(id) => DeleteKeepsIdsUnique(doc, id);
        case Replace(id, r) =>
          assert KeepsId(es[0]);
          if HasId(doc, id) {
            UpdateKeepsIdsUniqueIff(doc, id, r);
          }
      }
      assert forall i :: 0 <= i < |es[1..]| ==> KeepsId(es[1..][i]) by {
        forall i | 0 <= i < |es[1..]| ensures KeepsId(es[1..][i]) {
          assert es[1..][i] == es[i + 1];
        }
      }
      ReplayKeepsIdsUnique(After(doc, Apply(doc, es[0])), es[1..]);
    }
  }

  /** A client of the store: insert a recipe into an empty file, try to
      insert its id again, replace it, remove it, and look it up. */
  method TeaScenario() returns (final: Result<Recipe>)
    ensures final == Err(NotFound)
  {
    var store := new RecipeStore(Stored([]));
    var tea := Recipe(1, "Tea", ["water", "tea leaf"], "Boil.", 5, "easy");
    var added := store.AddRecipe(tea);
    assert added == Ok(tea);
    var all := store.ListRecipes();
    assert all == [tea];

    var again := store.AddRecipe(tea.(title := "Coffee"));
    assert again == Err(DuplicateId) by { assert all[0].id == 1; }
    all := store.ListRecipes();
    assert |all| == 1;

    var green := tea.(title := "Green Tea");
    var replaced := store.UpdateRecipe(1, green);
    assert replaced == Ok(green) by { assert all[0].id == 1; }
    assert store.disk == Stored([green]) by {
      var w := store.disk.recipes;
      assert |w| == 1 && w[0] == green;
    }
    var got := store.GetRecipe(1);
    assert got.Ok? && got.value.title == "Green Tea" by { LookupAt([green], ById(1), 0); }

    var removed := store.DeleteRecipe(1);
    assert removed == Ok(green);
    final := store.GetRecipe(1);
  }
}
