/** The three ways the handlers patch the local list once the remote service
    has answered: append (add), replace by id (edit), remove by id (delete). */
module StudentList {
  import opened Wrappers
  import opened Records
  import Arrays

  /** `student.id === currentStudent.id`; a draft without an id matches nothing. */
  predicate HasId(s: Student, id: Option<Id>)
  {
    id == Some(s.id)
  }

  /** The callback of the delete filter: keep the students without `id`. */
  function Keeps(id: Option<Id>): Student -> bool
  {
    s => !HasId(s, id)
  }

  /** The callback of the edit map: swap in `rec` where the id matches. */
  function Swaps(id: Option<Id>, rec: Student): Student -> Student
  {
    s => if HasId(s, id) then rec else s
  }

  /** No two rows share an id. */
  ghost predicate UniqueIds(xs: seq<Student>)
  {
    forall i, j :: 0 <= i < j < |xs| ==> xs[i].id != xs[j].id
  }

  /** Some row has the id `id`. */
  ghost predicate Listed(xs: seq<Student>, id: Id)
  {
    exists i :: 0 <= i < |xs| && xs[i].id == id
  }

  /** After a create: the response record added once, after every existing row. */
  function Append(xs: seq<Student>, rec: Student): (r: seq<Student>)
    ensures |r| == |xs| + 1
    ensures r[..|xs|] == xs && r[|xs|] == rec
  {
    xs + [rec]
  }

  /** After an update: each row carrying `id` becomes `rec`, position by
      position; every other row stays where it is. */
  function ReplaceById(xs: seq<Student>, id: Option<Id>, rec: Student): (r: seq<Student>)
    ensures |r| == |xs|
    ensures forall i :: 0 <= i < |xs| && HasId(xs[i], id) ==> r[i] == rec
    ensures forall i :: 0 <= i < |xs| && !HasId(xs[i], id) ==> r[i] == xs[i]
  {
    Arrays.Map(xs, Swaps(id, rec))
  }

  /** After a delete: the rows not carrying `id`, every one of them, in their
      original order. */
  function RemoveById(xs: seq<Student>, id: Option<Id>): (r: seq<Student>)
    ensures |r| <= |xs|
    ensures forall k :: 0 <= k < |r| ==> !HasId(r[k], id)
    ensures forall i :: 0 <= i < |xs| && !HasId(xs[i], id) ==> xs[i] in r
    ensures Arrays.IsSubsequence(r, xs)
  {
    Arrays.FilterIsExactSubsequence(xs, Keeps(id));
    Arrays.Filter(xs, Keeps(id))
  }

  /** The rows left are read off the list at exactly the positions whose row
      lacks `id`, in increasing order: each such row is kept, duplicates
      included, and nothing else is. */
  lemma RemoveIsExact(xs: seq<Student>, id: Option<Id>)
    ensures exists idx :: Arrays.Picks(RemoveById(xs, id), xs, idx)
                          && forall i :: 0 <= i < |xs| ==> (i in idx <==> !HasId(xs[i], id))
  {
    var p := Keeps(id);
    Arrays.FilterPicksPositions(xs, p);
    var idx := Arrays.Positions(xs, p);
    forall i | 0 <= i < |xs|
      ensures i in idx <==> !HasId(xs[i], id)
    {
      assert p(xs[i]) == !HasId(xs[i], id);
    }
    assert RemoveById(xs, id) == Arrays.Filter(xs, p);
    assert Arrays.Picks(RemoveById(xs, id), xs, idx);
  }

  /** Removing an id no row carries leaves the list as it was. */
  lemma RemoveAbsent(xs: seq<Student>, id: Id)
    requires !Listed(xs, id)
    ensures RemoveById(xs, Some(id)) == xs
  {
    Arrays.FilterKeepsAll(xs, Keeps(Some(id)));
  }

  /** With unique ids, removing a listed id shortens the list by exactly one. */
  lemma {:induction false} RemoveListedShortensByOne(xs: seq<Student>, id: Id)
    requires UniqueIds(xs)
    requires Listed(xs, id)
    ensures |RemoveById(xs, Some(id))| == |xs| - 1
  {
    var n := |xs| - 1;
    var init := xs[..n];
    assert Arrays.Filter(xs, Keeps(Some(id))) ==
      Arrays.Filter(init, Keeps(Some(id))) + (if Keeps(Some(id))(xs[n]) then [xs[n]] else []);
    if xs[n].id == id {
      assert !Listed(init, id);
      RemoveAbsent(init, id);
    } else {
      assert Listed(init, id);
      RemoveListedShortensByOne(init, id);
    }
  }

  /** Removing the same id twice is the same as removing it once. */
  lemma RemoveIdempotent(xs: seq<Student>, id: Option<Id>)
    ensures RemoveById(RemoveById(xs, id), id) == RemoveById(xs, id)
  {
    Arrays.FilterIdempotent(xs, Keeps(id));
  }

  /** Replacing the same id with the same record twice is the same as once. */
  lemma ReplaceIdempotent(xs: seq<Student>, id: Option<Id>, rec: Student)
    ensures ReplaceById(ReplaceById(xs, id, rec), id, rec) == ReplaceById(xs, id, rec)
  {
  }

  /** Removing the id of a freshly appended record undoes the append. */
  lemma AppendThenRemove(xs: seq<Student>, rec: Student)
    requires !Listed(xs, rec.id)
    ensures RemoveById(Append(xs, rec), Some(rec.id)) == xs
  {
    Arrays.FilterConcat(xs, [rec], Keeps(Some(rec.id)));
    RemoveAbsent(xs, rec.id);
    assert Arrays.Filter([rec], Keeps(Some(rec.id))) == [];
  }

  /** Appending a record whose id is new keeps the ids unique. */
  lemma AppendKeepsUnique(xs: seq<Student>, rec: Student)
    requires UniqueIds(xs)
    requires !Listed(xs, rec.id)
    ensures UniqueIds(Append(xs, rec))
  {
  }

  /** Replacing rows by a record carrying the same id keeps the ids unique. */
  lemma ReplaceKeepsUnique(xs: seq<Student>, rec: Student)
    requires UniqueIds(xs)
    ensures UniqueIds(ReplaceById(xs, Some(rec.id), rec))
  {
  }

  /** Removing rows keeps the ids unique. */
  lemma RemoveKeepsUnique(xs: seq<Student>, id: Option<Id>)
    requires UniqueIds(xs)
    ensures UniqueIds(RemoveById(xs, id))
  {
    var r := RemoveById(xs, id);
    Arrays.FilterPicksPositions(xs, Keeps(id));
    var idx := Arrays.Positions(xs, Keeps(id));
    forall j, k | 0 <= j < k < |r|
      ensures r[j].id != r[k].id
    {
      assert idx[j] < idx[k];
    }
  }
}
