/** What each handler computes on the document it has loaded: the scans for
    a record, and the reply and the document written back by insert,
    replace and remove. The class in module Store implements these with
    loops and is proved against them. */
module Repository {
  import opened Recipes

  /** What a front-to-back scan over the records looks for: the record
      with a given id, or the record with a given id that has an image. */
  datatype Query = ById(id: int) | ImageOf(id: int)

  predicate Selects(q: Query, r: Recipe) {
    match q
    case ById(id) => r.id == id
    case ImageOf(id) => r.id == id && HasImage(r)
  }

  /** `k` is where a front-to-back scan for `q` stops: a selected record
      with no selected record before it. */
  predicate IsFirst(doc: seq<Recipe>, q: Query, k: int) {
    0 <= k < |doc| && Selects(q, doc[k]) &&
    forall i :: 0 <= i < k ==> !Selects(q, doc[i])
  }

  /** The position of the first selected record, if any. */
  function FirstIndex(doc: seq<Recipe>, q: Query): (k: Option<nat>)
    ensures k.Some? ==> IsFirst(doc, q, k.value)
    ensures k.None? <==> forall i :: 0 <= i < |doc| ==> !Selects(q, doc[i])
  {
    if doc == [] then None
    else if Selects(q, doc[0]) then Some(0)
    else
      match FirstIndex(doc[1..], q)
      case None => None
      case Some(k) => Some(k + 1)
  }

  /** A scan by id fails exactly when no record carries the id. */
  lemma ScanByIdFails(doc: seq<Recipe>, id: int)
    ensures FirstIndex(doc, ById(id)).None? <==> !HasId(doc, id)
  {
    if FirstIndex(doc, ById(id)).Some? {
      var k := FirstIndex(doc, ById(id)).value;
      assert doc[k].id == id;
    }
    if HasId(doc, id) {
      var i :| 0 <= i < |doc| && doc[i].id == id;
      assert Selects(ById(id), doc[i]);
    }
  }

  /** The record found by a scan, or NotFound. */
  function Lookup(doc: seq<Recipe>, q: Query): (res: Result<Recipe>)
    ensures res.Err? <==> forall i :: 0 <= i < |doc| ==> !Selects(q, doc[i])
    ensures res.Err? ==> res.error == NotFound
    ensures res.Ok? ==> exists k :: IsFirst(doc, q, k) && res.value == doc[k]
  {
    match FirstIndex(doc, q)
    case None => Err(NotFound)
    case Some(k) => Ok(doc[k])
  }

  /** What a mutating handler does: the reply it gives and, when it writes,
      the whole document it writes back. */
  datatype Step = Step(reply: Result<Recipe>, write: Option<seq<Recipe>>)

  /** Insert: refused with DuplicateId, and nothing written, when the id is
      taken; otherwise the recipe goes at the end and is returned as given. */
  function Add(doc: seq<Recipe>, r: Recipe): (s: Step)
    ensures s.reply.Err? <==> HasId(doc, r.id)
    ensures s.reply.Err? ==> s.reply.error == DuplicateId && s.write.None?
    ensures s.reply.Ok? ==>
      s.reply.value == r && s.write.Some? &&
      |s.write.value| == |doc| + 1 &&
      s.write.value[..|doc|] == doc && s.write.value[|doc|] == r
  {
    if HasId(doc, r.id) then Step(Err(DuplicateId), None)
    else Step(Ok(r), Some(doc + [r]))
  }

  /** Replace: NotFound, and nothing written, when no record carries `id`;
      otherwise the first such record is overwritten in its slot by `r`,
      whatever the id of `r`, and `r` is returned. */
  function Update(doc: seq<Recipe>, id: int, r: Recipe): (s: Step)
    ensures s.reply.Err? <==> !HasId(doc, id)
    ensures s.reply.Err? ==> s.reply.error == NotFound && s.write.None?
    ensures s.reply.Ok? ==>
      s.reply.value == r && s.write.Some? && |s.write.value| == |doc| &&
      exists k :: IsFirst(doc, ById(id), k) && s.write.value[k] == r &&
        forall i :: 0 <= i < |doc| && i != k ==> s.write.value[i] == doc[i]
  {
    ScanByIdFails(doc, id);
    match FirstIndex(doc, ById(id))
    case None => Step(Err(NotFound), None)
    case Some(k) => Step(Ok(r), Some(doc[k := r]))
  }

  /** Remove: NotFound, and nothing written, when no record carries `id`;
      otherwise the first such record is taken out, the records after it
      move down one place, and the removed record is returned. */
  function Delete(doc: seq<Recipe>, id: int): (s: Step)
    ensures s.reply.Err? <==> !HasId(doc, id)
    ensures s.reply.Err? ==> s.reply.error == NotFound && s.write.None?
    ensures s.reply.Ok? ==>
      s.write.Some? && |s.write.value| == |doc| - 1 &&
      exists k :: IsFirst(doc, ById(id), k) && s.reply.value == doc[k] &&
        s.write.value[..k] == doc[..k] && s.write.value[k..] == doc[k + 1..]
  {
    ScanByIdFails(doc, id);
    match FirstIndex(doc, ById(id))
    case None => Step(Err(NotFound), None)
    case Some(k) => Step(Ok(doc[k]), Some(doc[..k] + doc[k + 1..]))
  }

  /** The document the next load sees after a step: the one written back,
      or the old one when the handler wrote nothing. */
  function After(doc: seq<Recipe>, s: Step): seq<Recipe> {
    if s.write.Some? then s.write.value else doc
  }

  /** A scan returns the record at the place where it stops. */
  lemma LookupAt(doc: seq<Recipe>, q: Query, k: int)
    requires IsFirst(doc, q, k)
    ensures Lookup(doc, q) == Ok(doc[k])
  {
    assert FirstIndex(doc, q).Some? by { assert Selects(q, doc[k]); }
  }

  /** With unique ids, looking a record's id up finds that very record. */
  lemma LookupUniqueId(doc: seq<Recipe>, i: int)
    requires IdsUnique(doc) && 0 <= i < |doc|
    ensures Lookup(doc, ById(doc[i].id)) == Ok(doc[i])
  {
    forall j | 0 <= j < i ensures !Selects(ById(doc[i].id), doc[j]) {
      assert doc[j].id != doc[i].id;
    }
    LookupAt(doc, ById(doc[i].id), i);
  }

  /** After inserting a recipe with a fresh id, looking that id up returns
      the recipe. */
  lemma AddThenGet(doc: seq<Recipe>, r: Recipe)
    requires !HasId(doc, r.id)
    ensures Lookup(After(doc, Add(doc, r)), ById(r.id)) == Ok(r)
  {
    var w := doc + [r];
    forall i | 0 <= i < |doc| ensures !Selects(ById(r.id), w[i]) {
      assert w[i] == doc[i];
    }
    LookupAt(w, ById(r.id), |doc|);
  }

  /** Insert keeps ids unique: it appends only a recipe whose id is absent. */
  lemma AddKeepsIdsUnique(doc: seq<Recipe>, r: Recipe)
    requires IdsUnique(doc)
    ensures IdsUnique(After(doc, Add(doc, r)))
  {
    if !HasId(doc, r.id) {
      var w := doc + [r];
      forall i, j | 0 <= i < j < |w| ensures w[i].id != w[j].id {
        if j == |doc| {
          assert w[i] == doc[i];
        } else {
          assert w[i] == doc[i] && w[j] == doc[j];
        }
      }
    }
  }

  /** After replacing the record with id `id` by one carrying the same id,
      looking `id` up returns the replacement. */
  lemma UpdateThenGet(doc: seq<Recipe>, id: int, r: Recipe)
    requires HasId(doc, id) && r.id == id
    ensures Lookup(After(doc, Update(doc, id, r)), ById(id)) == Ok(r)
  {
    ScanByIdFails(doc, id);
    var k := FirstIndex(doc, ById(id)).value;
    var w := doc[k := r];
    forall i | 0 <= i < k ensures !Selects(ById(id), w[i]) {
      assert w[i] == doc[i];
    }
    LookupAt(w, ById(id), k);
  }

  /** Replace does not compare the id of the replacement with the id it was
      asked for. On a document with unique ids the result still has unique
      ids exactly when the replacement keeps the id or brings one no record
      carries. */
  lemma UpdateKeepsIdsUniqueIff(doc: seq<Recipe>, id: int, r: Recipe)
    requires IdsUnique(doc) && HasId(doc, id)
    ensures IdsUnique(After(doc, Update(doc, id, r))) <==> (r.id == id || !HasId(doc, r.id))
  {
    ScanByIdFails(doc, id);
    var k := FirstIndex(doc, ById(id)).value;
    var w := doc[k := r];
    if r.id == id || !HasId(doc, r.id) {
      forall i, j | 0 <= i < j < |w| ensures w[i].id != w[j].id {
        if i == k {
          assert doc[k].id == id;
          assert w[j] == doc[j];
        } else if j == k {
          assert doc[k].id == id;
          assert w[i] == doc[i];
        } else {
          assert w[i] == doc[i] && w[j] == doc[j];
        }
      }
    } else {
      var j :| 0 <= j < |doc| && doc[j].id == r.id;
      assert j != k by { assert doc[k].id == id; }
      assert w[j] == doc[j] && w[k] == r;
      if j < k {
        assert w[j].id == w[k].id;
      } else {
        assert w[k].id == w[j].id;
      }
    }
  }

  /** At most one record of the document carries `id`. */
  predicate AtMostOneWithId(doc: seq<Recipe>, id: int) {
    forall i, j :: 0 <= i < j < |doc| && doc[i].id == id ==> doc[j].id != id
  }

  /** Taking out the first record with `id` leaves no record with `id`
      exactly when at most one record carried it. */
  lemma RemoveFirstClearsId(doc: seq<Recipe>, id: int, k: int)
    requires IsFirst(doc, ById(id), k)
    ensures !HasId(doc[..k] + doc[k + 1..], id) <==> AtMostOneWithId(doc, id)
  {
    var w := doc[..k] + doc[k + 1..];
    assert forall i :: 0 <= i < k ==> w[i] == doc[i];
    assert forall i :: k <= i < |w| ==> w[i] == doc[i + 1];
    if !AtMostOneWithId(doc, id) {
      var i, j :| 0 <= i < j < |doc| && doc[i].id == id && doc[j].id == id;
      assert k <= i by { assert Selects(ById(id), doc[i]); }
      assert w[j - 1].id == id;
    } else {
      assert doc[k].id == id;
    }
  }

  /** Looking `id` up after removing it fails exactly when at most one
      record carried `id`, whether or not the removal found a record. */
  lemma DeleteThenGet(doc: seq<Recipe>, id: int)
    ensures Lookup(After(doc, Delete(doc, id)), ById(id)) == Err(NotFound)
            <==> AtMostOneWithId(doc, id)
  {
    ScanByIdFails(doc, id);
    if HasId(doc, id) {
      var k := FirstIndex(doc, ById(id)).value;
      var w := doc[..k] + doc[k + 1..];
      assert After(doc, Delete(doc, id)) == w;
      RemoveFirstClearsId(doc, id, k);
      ScanByIdFails(w, id);
    }
  }

  /** With unique ids, looking `id` up after removing it always fails. */
  lemma DeleteThenGetUnique(doc: seq<Recipe>, id: int)
    requires IdsUnique(doc)
    ensures Lookup(After(doc, Delete(doc, id)), ById(id)) == Err(NotFound)
  {
    DeleteThenGet(doc, id);
  }

  /** Remove keeps ids unique: the records left keep their relative order. */
  lemma DeleteKeepsIdsUnique(doc: seq<Recipe>, id: int)
    requires IdsUnique(doc)
    ensures IdsUnique(After(doc, Delete(doc, id)))
  {
    ScanByIdFails(doc, id);
    if HasId(doc, id) {
      var k := FirstIndex(doc, ById(id)).value;
      var w := doc[..k] + doc[k + 1..];
      forall i, j | 0 <= i < j < |w| ensures w[i].id != w[j].id {
        var i' := if i < k then i else i + 1;
        var j' := if j < k then j else j + 1;
        assert w[i] == doc[i'] && w[j] == doc[j'];
      }
    }
  }

  /** Remove loses nothing: the records written back together with the
      record returned are the records loaded. */
  lemma DeleteKeepsRecords(doc: seq<Recipe>, id: int)
    requires HasId(doc, id)
    ensures multiset(After(doc, Delete(doc, id))) + multiset{Delete(doc, id).reply.value} == multiset(doc)
  {
    ScanByIdFails(doc, id);
    var k := FirstIndex(doc, ById(id)).value;
    var s := Delete(doc, id);
    assert s.reply.value == doc[k] && s.write.value == doc[..k] + doc[k + 1..];
    assert doc == doc[..k] + [doc[k]] + doc[k + 1..];
    calc {
      multiset(doc);
      multiset(doc[..k]) + multiset{doc[k]} + multiset(doc[k + 1..]);
      multiset(doc[..k] + doc[k + 1..]) + multiset{doc[k]};
    }
  }

  /** With unique ids, the image page finds a record exactly when looking
      its id up does and that record has an image. */
  lemma ImageAgreesWithGet(doc: seq<Recipe>, id: int)
    requires IdsUnique(doc)
    ensures Lookup(doc, ImageOf(id)) ==
      match Lookup(doc, ById(id))
      case Ok(r) => if HasImage(r) then Ok(r) else Err(NotFound)
      case Err(e) => Err(e)
  {
    ScanByIdFails(doc, id);
    if HasId(doc, id) {
      var k := FirstIndex(doc, ById(id)).value;
      LookupAt(doc, ById(id), k);
      if HasImage(doc[k]) {
        forall i | 0 <= i < k ensures !Selects(ImageOf(id), doc[i]) {
          assert !Selects(ById(id), doc[i]);
        }
        LookupAt(doc, ImageOf(id), k);
      } else {
        forall i | 0 <= i < |doc| ensures !Selects(ImageOf(id), doc[i]) {
          if i != k {
            assert doc[i].id != doc[k].id;
          }
        }
      }
    } else {
      forall i | 0 <= i < |doc| ensures !Selects(ImageOf(id), doc[i]) {
        assert !Selects(ById(id), doc[i]);
      }
    }
  }

  /** A record with the id but without an image does not end the image
      scan: it goes on with the records after it. */
  lemma ImageScanSkips(doc: seq<Recipe>, id: int, k: int)
    requires IsFirst(doc, ById(id), k) && !HasImage(doc[k])
    ensures Lookup(doc, ImageOf(id)) == Lookup(doc[k + 1..], ImageOf(id))
  {
    var rest := doc[k + 1..];
    forall i | 0 <= i <= k ensures !Selects(ImageOf(id), doc[i]) {
      if i < k {
        assert !Selects(ById(id), doc[i]);
      }
    }
    match FirstIndex(rest, ImageOf(id))
    case None =>
      forall i | k < i < |doc| ensures !Selects(ImageOf(id), doc[i]) {
        assert doc[i] == rest[i - k - 1];
      }
    case Some(j) =>
      forall i | k < i < k + 1 + j ensures !Selects(ImageOf(id), doc[i]) {
        assert doc[i] == rest[i - k - 1];
      }
      assert doc[k + 1 + j] == rest[j];
      LookupAt(rest, ImageOf(id), j);
      LookupAt(doc, ImageOf(id), k + 1 + j);
  }

  /** Remove takes out only the first record with the id. Replace can put a
      second record with that id into the document, and a later lookup then
      finds it: two records with id 1, remove 1, and the lookup of 1 returns
      the second. */
  lemma DeleteLeavesDuplicate(a: Recipe, b: Recipe)
    requires a.id == b.id
    ensures Lookup(After([a, b], Delete([a, b], a.id)), ById(a.id)) == Ok(b)
  {
    LookupAt([a, b], ById(a.id), 0);
    assert After([a, b], Delete([a, b], a.id)) == [b];
    LookupAt([b], ById(a.id), 0);
  }
}
