/** Shared vocabulary of the ledger engine: document ids, optional values,
    and the first-match lookup that every `findOne` query of the engine performs. */
module Base {

  /** A document id (an ObjectId). One counter hands them out for every collection. */
  type Id = nat

  datatype Option<+T> = None | Some(value: T)

  datatype Result<+T, +E> = Ok(value: T) | Err(error: E)

  /** `findOne(filter)`: the first document of a collection, in natural
      (insertion) order, that satisfies the filter. */
  function FindOne<T(==)>(docs: seq<T>, filter: T -> bool): (r: Option<T>)
    ensures r.Some? ==> r.value in docs && filter(r.value)
    ensures r.None? <==> forall d :: d in docs ==> !filter(d)
    ensures r.Some? ==> exists i :: 0 <= i < |docs| && docs[i] == r.value &&
                                    forall j :: 0 <= j < i ==> !filter(docs[j])
  {
    if docs == [] then None
    else if filter(docs[0]) then Some(docs[0])
    else
      var r := FindOne(docs[1..], filter);
      assert forall d :: d in docs[1..] ==> d in docs;
      if r.Some? then
        var i :| 0 <= i < |docs[1..]| && docs[1..][i] == r.value &&
                 forall j :: 0 <= j < i ==> !filter(docs[1..][j]);
        assert docs[i + 1] == r.value;
        r
      else r
  }

  /** `find(filter)`: every document satisfying the filter, in natural order. */
  function FindAll<T(==)>(docs: seq<T>, filter: T -> bool): (r: seq<T>)
    ensures forall d :: d in r ==> d in docs && filter(d)
    ensures forall i :: 0 <= i < |docs| && filter(docs[i]) ==> docs[i] in r
    ensures r == [] <==> forall i :: 0 <= i < |docs| ==> !filter(docs[i])
    ensures |r| <= |docs|
  {
    if docs == [] then []
    else
      var rest := FindAll(docs[1..], filter);
      assert forall i :: 1 <= i < |docs| ==> docs[i] == docs[1..][i - 1];
      if filter(docs[0]) then [docs[0]] + rest else rest
  }

  /** Appending one document extends the result of `find` by that document
      exactly when it satisfies the filter. */
  lemma {:induction false} FindAllAppend<T>(docs: seq<T>, d: T, filter: T -> bool)
    ensures FindAll(docs + [d], filter) == FindAll(docs, filter) + (if filter(d) then [d] else [])
  {
    if docs == [] {
      assert docs + [d] == [d];
    } else {
      assert (docs + [d])[1..] == docs[1..] + [d];
      FindAllAppend(docs[1..], d, filter);
    }
  }
}
