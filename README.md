# Recipe API: a verified model of its JSON-file repository

The Recipe API is a small FastAPI service that keeps recipes in one JSON
file, `data.json`, as a document `{"recipes": [...]}`. It has no cache:
every handler reads the whole file, works on that copy of the list, and
writes the whole document back when it changes it. This project models
that repository in Dafny:

- `recipes.dfy`, module `Recipes`: the `Recipe` record (id, title,
  ingredients, instructions, cooking time, difficulty, and an optional image
  URL that defaults to none),
  the two client errors (`NotFound` for 404, `DuplicateId` for 400), a
  `Result` type, and the predicates `HasId`, `HasImage` and `IdsUnique`.
- `repository.dfy`, module `Repository`: what each handler computes from
  the document it loaded. `FirstIndex` and `Lookup` are the front-to-back
  scan. `Add`, `Update` and `Delete` each return a `Step`: the reply, plus
  the document written back, or no write at all. The lemmas beside them
  state the repository's guarantees.
- `store.dfy`, module `Store`: the data file as a `Disk` (a stored list of
  recipes, or `Unreadable`) and the class `RecipeStore`. Its one field,
  `disk`, is the file. `ReadData` and `WriteData` mirror `read_data` and
  `write_data`. Every handler method loads the document first.
  `GetRecipe`, `UpdateRecipe`, `DeleteRecipe` and `ShowRecipeImage` then
  scan it with a loop that returns early, as the Python `for` loops do.
  `AddRecipe` tests `HasId`, as the `any(...)` expression does, and has no
  loop. Each of these five is proved equal to its `Repository` function
  (`Lookup`, `Add`, `Update` or `Delete`). `ListRecipes` returns
  `Load(disk)`, the loaded document as it is.
- `sessions.dfy`, module `Sessions`: sequences of inserts, replaces and
  removes served one after another. `Store.LoadPersist` says that the
  next load after a handler call sees the document `After` gives, so
  these lemmas describe successive `RecipeStore` calls. There is also a client of the class
  that walks through the "Tea" scenario: insert, a refused duplicate
  insert, replace, remove, then a failed lookup.

Choices the model makes:

- `read_data` never fails to its caller. A file that cannot be opened or
  decoded loads as the empty document. So an insert into an unreadable
  file overwrites it with a one-record document, and a refused call leaves
  it as it was (`Store.UnreadableFile`).
- The image page looks for the first record that has the id and a truthy
  `image_url`: present and not the empty string. A record with the id but
  no image does not stop the scan.
- The replace handler does not compare the replacement's id with the id
  in the path. The model keeps that behaviour.
  `Repository.UpdateKeepsIdsUniqueIff` states exactly when ids stay unique.
  Remove takes out only the first record with the id. So "remove an id,
  then look it up" reports NotFound exactly when at most one record
  carried the id (`Repository.DeleteThenGet`), and therefore always when
  ids are unique (`Repository.DeleteThenGetUnique`). The lookup finds a
  record only when a second record carries the id, as after a replace
  that reused it (`Repository.DeleteLeavesDuplicate`).
- Both 404 answers (no such recipe, no recipe with an image) are
  `NotFound`. The detail strings are not modelled.

## Model

| member | source | states |
|---|---|---|
| `Recipes.StatusCode` | main.py:60-68 | NotFound is answered with 404 and DuplicateId with 400, and with no other code; the handler methods state their error codes through it |
| `Recipes.HasImage` | main.py:106 | a record has an image exactly when its image URL is neither absent nor the empty string, the two falsy values of `recipe.get("image_url")` |
| `Recipes.HasId` | main.py:67 | the record-by-record duplicate check holds exactly when some record of the document carries the id |
| `Repository.FirstIndex` | main.py:57-59 | the scan stops at a selected record with no selected record before it, and finds nothing exactly when no record is selected |
| `Repository.ScanByIdFails` | main.py:57-60 | a scan by id fails exactly when no record of the document carries the id |
| `Repository.Lookup` | main.py:57-60 | the reply is NotFound exactly when no record is selected; otherwise it is the first selected record in list order |
| `Repository.LookupAt` | main.py:57-59 | a scan returns the record at the position where it stops |
| `Repository.LookupUniqueId` | main.py:57-59 | when ids are unique, looking up a record's id returns that same record |
| `Repository.Add` | main.py:66-71 | a taken id gives DuplicateId and no write; a fresh id appends the recipe at the end, keeps every earlier record in place, grows the list by one and returns the recipe unchanged |
| `Repository.AddThenGet` | main.py:67-69 | right after a successful insert, looking up the new id returns the inserted recipe |
| `Repository.AddKeepsIdsUnique` | main.py:67-69 | an insert, accepted or refused, keeps ids unique |
| `Repository.Update` | main.py:77-83 | no record with the id gives NotFound and no write; otherwise only the first matching slot is overwritten, every other index and the length are unchanged, and the replacement is returned |
| `Repository.UpdateThenGet` | main.py:78-82 | after replacing a record by one with the same id, looking up that id returns the replacement |
| `Repository.UpdateKeepsIdsUniqueIff` | main.py:78-82 | on unique ids, a replace keeps ids unique if and only if the replacement keeps the requested id or carries an id no record has |
| `Repository.Delete` | main.py:89-95 | no record with the id gives NotFound and no write; otherwise the first match is removed and returned, earlier records stay put, later ones move down one place, and the length drops by one |
| `Repository.RemoveFirstClearsId` | main.py:90-92 | taking out the first record with an id leaves no record with that id exactly when at most one record carried it |
| `Repository.DeleteThenGet` | main.py:90-95 | looking up an id after removing it reports NotFound if and only if at most one record carried the id, whether or not the removal found a record |
| `Repository.DeleteThenGetUnique` | main.py:90-95 | on unique ids, looking up an id after removing it always reports NotFound |
| `Repository.DeleteKeepsIdsUnique` | main.py:90-93 | a remove keeps ids unique |
| `Repository.DeleteKeepsRecords` | main.py:92-94 | the records written back plus the record returned are, as a multiset, the records that were loaded |
| `Repository.DeleteLeavesDuplicate` | main.py:90-92 | in a document holding two records with the same id, removing that id and then looking it up returns the second record, not NotFound |
| `Repository.ImageAgreesWithGet` | main.py:105-106 | on unique ids, the image page finds a record exactly when the lookup by id finds it and that record has an image |
| `Repository.ImageScanSkips` | main.py:105-106 | a first record with the id but no image does not end the image scan; the result is that of the scan over the records after it |
| `Store.LoadPersist` | main.py:20-33 | the load after a handler's step yields the document that step leaves behind: the one written, or the one loaded when nothing was written |
| `Store.UnreadableFile` | main.py:20-27 | an insert into an unreadable file leaves a document holding only the new recipe; a refused replace or remove leaves the file unreadable |
| `Store.RecipeStore.ReadData` | main.py:20-27 | a load returns the stored records, or no records when the file cannot be read; it never fails |
| `Store.RecipeStore.WriteData` | main.py:30-33 | the file afterwards holds exactly the document given |
| `Store.RecipeStore.ListRecipes` | main.py:47-50 | returns the loaded records verbatim, in stored order |
| `Store.RecipeStore.GetRecipe` | main.py:54-60 | the loop returns the first record with the id, or NotFound with status 404, as `Repository.Lookup` states |
| `Store.RecipeStore.AddRecipe` | main.py:64-71 | reply and new file are those of `Repository.Add` applied to the loaded document; a refusal has status 400 and leaves the file untouched |
| `Store.RecipeStore.UpdateRecipe` | main.py:75-83 | the loop gives the reply and file of `Repository.Update` on the loaded document; NotFound has status 404 and leaves the file untouched |
| `Store.RecipeStore.DeleteRecipe` | main.py:87-95 | the loop gives the reply and file of `Repository.Delete` on the loaded document; NotFound has status 404 and leaves the file untouched |
| `Store.RecipeStore.ShowRecipeImage` | main.py:99-122 | the loop returns the first record with the id and a non-empty image URL, or NotFound with status 404 |
| `Sessions.ReplayLength` | main.py:63-95 | when every edit of a session is accepted, the final length is the initial length plus the inserts minus the removes |
| `Sessions.ReplayKeepsIdsUnique` | main.py:63-95 | ids stay unique across any session whose replacements keep their ids, accepted or refused |
| `Sessions.TeaScenario` | main.py:53-95 | on an empty file: insert, duplicate insert refused, replace, lookup, then remove the record; a final lookup reports NotFound |

## Left out

- File I/O and JSON: `open`, `json.load` and `json.dump` with indentation are replaced by the `disk` field. The encoding, and any round trip through it, is not modelled.
- A file that decodes but has no `recipes` key, or records of the wrong shape. The handlers would answer 500; the model assumes a decodable file holds a well-formed list of recipes.
- A failing `write_data` (an exception, so a 500, and possibly a truncated file). In the model every write succeeds.
- The diagnostic message `read_data` prints when loading fails.
- FastAPI routing, `HTTPException`, response models and the `{"deleted": ...}` wrapper of the delete reply. Handlers return `Result<Recipe>`.
- Pydantic validation and `.dict()` conversion: requests are taken to be well-typed records, and the stored dictionary is the record itself.
- The HTML page of the image endpoint. Only its choice of record is modelled.
- Concurrency. Two requests that interleave their read-modify-write cycles can lose an update; the model serves one request at a time.
