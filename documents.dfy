/** A document collection of the store: its documents in natural order,
    each carrying its `_id`. This is all the services ask of Mongoose:
    findById, findOne, saving a new document, findByIdAndUpdate and
    deleteOne. */
module Documents {
  import opened Results
  import Arrays

  type Id = string

  datatype Doc<T> = Doc(id: Id, val: T)

  type Collection<T> = seq<Doc<T>>

  /** The `_id` index is unique. */
  ghost predicate UniqueIds<T>(c: Collection<T>)
  {
    forall i, j :: 0 <= i < |c| && 0 <= j < |c| && c[i].id == c[j].id ==> i == j
  }

  /** findOne: the first document in natural order that satisfies p. */
  function FindOne<T(==)>(c: Collection<T>, p: Doc<T> -> bool): (r: Option<Doc<T>>)
    ensures r.None? <==> forall i :: 0 <= i < |c| ==> !p(c[i])
    ensures r.Some? ==> exists i :: 0 <= i < |c| && c[i] == r.value && p(c[i]) &&
                                    forall j :: 0 <= j < i ==> !p(c[j])
  {
    var i := Arrays.FindIndex(c, p);
    if i < 0 then None else Some(c[i])
  }

  /** findById: the document with that `_id`, or null. */
  function FindById<T(==)>(c: Collection<T>, id: Id): (r: Option<Doc<T>>)
    ensures r.None? <==> forall i :: 0 <= i < |c| ==> c[i].id != id
    ensures r.Some? ==> r.value.id == id && r.value in c
  {
    FindOne(c, (d: Doc<T>) => d.id == id)
  }

  /** Saving a new document appends it in natural order. */
  function Insert<T>(c: Collection<T>, id: Id, v: T): Collection<T>
  {
    c + [Doc(id, v)]
  }

  /** The write of findByIdAndUpdate (or of save() on a fetched document):
      the document with that `_id` takes the value v. */
  function Replace<T>(c: Collection<T>, id: Id, v: T): Collection<T>
  {
    seq(|c|, i requires 0 <= i < |c| => if c[i].id == id then Doc(id, v) else c[i])
  }

  /** deleteOne({ _id: id }). */
  function Remove<T(==)>(c: Collection<T>, id: Id): (r: Collection<T>)
    ensures Arrays.IsSubsequence(r, c)
    ensures forall i :: 0 <= i < |r| ==> r[i] in c && r[i].id != id
    ensures forall i :: 0 <= i < |c| && c[i].id != id ==> c[i] in r
    ensures forall i :: 0 <= i < |c| ==>
              multiset(r)[c[i]] == if c[i].id != id then multiset(c)[c[i]] else 0
  {
    var keep := (d: Doc<T>) => d.id != id;
    Arrays.FilterSpec(c, keep);
    Arrays.Filter(c, keep)
  }

  /** The deletedCount that deleteOne reports. */
  function DeletedCount<T(==)>(c: Collection<T>, id: Id): (n: nat)
    ensures n == 1 <==> exists i :: 0 <= i < |c| && c[i].id == id
    ensures n <= 1
  {
    if FindById(c, id).Some? then 1 else 0
  }

  /** With a unique `_id` index, findById returns exactly the document that
      carries the id. */
  lemma FindByIdUnique<T>(c: Collection<T>, id: Id, d: Doc<T>)
    requires UniqueIds(c)
    ensures FindById(c, id) == Some(d) <==> d in c && d.id == id
  {
  }

  /** Saving a new document under a fresh id: it is found under that id,
      every other lookup is as before and the index stays unique. */
  lemma InsertFind<T>(c: Collection<T>, id: Id, v: T, k: Id)
    requires UniqueIds(c) && FindById(c, id).None?
    ensures UniqueIds(Insert(c, id, v))
    ensures FindById(Insert(c, id, v), k) == if k == id then Some(Doc(id, v)) else FindById(c, k)
  {
    var c' := Insert(c, id, v);
    assert forall i :: 0 <= i < |c| ==> c'[i] == c[i];
    assert UniqueIds(c');
    if k == id {
      FindByIdUnique(c', id, Doc(id, v));
    } else {
      match FindById(c, k)
      case None =>
        assert forall i :: 0 <= i < |c'| ==> c'[i].id != k;
      case Some(d) =>
        FindByIdUnique(c, k, d);
        FindByIdUnique(c', k, d);
    }
  }

  /** Updating the document with id: it is found with its new value, every
      other lookup is as before, the order of ids and their uniqueness are
      kept. Updating an absent id changes nothing. */
  lemma ReplaceFind<T>(c: Collection<T>, id: Id, v: T, k: Id)
    requires UniqueIds(c)
    ensures UniqueIds(Replace(c, id, v))
    ensures |Replace(c, id, v)| == |c|
    ensures forall i :: 0 <= i < |c| ==> Replace(c, id, v)[i].id == c[i].id
    ensures FindById(Replace(c, id, v), k) ==
              if k == id && FindById(c, id).Some? then Some(Doc(id, v)) else FindById(c, k)
    ensures FindById(c, id).None? ==> Replace(c, id, v) == c
  {
  }

  /** Writing a document with an id changes no lookup of another id. */
  lemma ReplaceKeepsOthers<T>(c: Collection<T>, id: Id, v: T)
    requires UniqueIds(c)
    ensures UniqueIds(Replace(c, id, v))
    ensures forall k :: k != id ==> FindById(Replace(c, id, v), k) == FindById(c, k)
  {
    forall k | k != id ensures FindById(Replace(c, id, v), k) == FindById(c, k) {
      ReplaceFind(c, id, v, k);
    }
    ReplaceFind(c, id, v, id);
  }

  /** Saving a document with the value it already has changes nothing. */
  lemma ReplaceSame<T>(c: Collection<T>, id: Id, v: T)
    requires UniqueIds(c) && FindById(c, id) == Some(Doc(id, v))
    ensures Replace(c, id, v) == c
  {
  }

  /** Writing the same value twice is writing it once. */
  lemma ReplaceTwice<T>(c: Collection<T>, id: Id, v: T)
    ensures Replace(Replace(c, id, v), id, v) == Replace(c, id, v)
  {
  }

  /** Filtering commutes with writing a value that the filter treats as it
      treated the old one. */
  lemma {:induction false} FilterReplace<T>(c: Collection<T>, id: Id, v: T, p: Doc<T> -> bool)
    requires forall i :: 0 <= i < |c| && c[i].id == id ==> p(c[i]) == p(Doc(id, v))
    ensures Arrays.Filter(Replace(c, id, v), p) == Replace(Arrays.Filter(c, p), id, v)
  {
    if c != [] {
      assert Replace(c, id, v)[1..] == Replace(c[1..], id, v);
      FilterReplace(c[1..], id, v, p);
      if p(c[0]) {
        var rest := Arrays.Filter(c[1..], p);
        assert Replace([c[0]] + rest, id, v) == [Replace(c, id, v)[0]] + Replace(rest, id, v);
      }
    }
  }

  /** Deleting the document with id: it is no longer found, every other
      lookup is as before and the index stays unique. */
  lemma RemoveFind<T>(c: Collection<T>, id: Id, k: Id)
    requires UniqueIds(c)
    ensures UniqueIds(Remove(c, id))
    ensures FindById(Remove(c, id), k) == if k == id then None else FindById(c, k)
  {
    var c' := Remove(c, id);
    SubsequenceKeepsUnique(c', c);
    if k == id {
      assert forall i :: 0 <= i < |c'| ==> c'[i].id != k;
    } else {
      match FindById(c, k)
      case None =>
        assert forall i :: 0 <= i < |c'| ==> c'[i].id != k;
      case Some(d) =>
        FindByIdUnique(c, k, d);
        FindByIdUnique(c', k, d);
    }
  }

  /** Deleting documents never makes two of the rest share an id. */
  lemma SubsequenceKeepsUnique<T>(r: Collection<T>, c: Collection<T>)
    requires UniqueIds(c) && Arrays.IsSubsequence(r, c)
    ensures UniqueIds(r)
    ensures forall i :: 0 <= i < |r| ==> r[i] in c
  {
  }
}
