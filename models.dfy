/** The two tables the handlers read and write. The ORM classes live in
    models.py, which is not part of this model; only the columns the
    handlers use are kept. */
module Models {
  import opened Wrappers
  import Seqs

  /** A row of the question table; `id` is assigned by the store on insert. */
  datatype Question = Question(id: int, question: string, answer: string, difficulty: int, category: int)

  /** A row of the category table; `kind` is the column the source calls `type`. */
  datatype Category = Category(id: int, kind: string)

  /** `Question.format()`: the JSON record of a question. It renders the
      columns above, so a question stands for its own record. */
  function Format(q: Question): (r: Question)
    ensures r.id == q.id && r.category == q.category
    ensures r.question == q.question && r.answer == q.answer && r.difficulty == q.difficulty
  {
    q
  }

  /** The store keeps its rows in ascending id order, so ids are unique and
      the listing order is the order of `order_by(Question.id)`. */
  predicate IdsIncreasing(qs: seq<Question>)
  {
    forall i, j :: 0 <= i < j < |qs| ==> qs[i].id < qs[j].id
  }

  /** `Question.query.filter_by(id=id).one_or_none()` */
  function Lookup(qs: seq<Question>, id: int): (r: Option<Question>)
    ensures r.Some? ==> r.value in qs && r.value.id == id
    ensures r.None? <==> forall q :: q in qs ==> q.id != id
  {
    if qs == [] then None
    else if qs[0].id == id then Some(qs[0])
    else Lookup(qs[1..], id)
  }

  /** The rows left once the question with id `id` is deleted. */
  function WithoutId(qs: seq<Question>, id: int): (r: seq<Question>)
    ensures forall q :: q in r <==> q in qs && q.id != id
    ensures Lookup(r, id).None?
    ensures Lookup(qs, id).None? ==> r == qs
  {
    Seqs.Filter(qs, (q: Question) => q.id != id)
  }

  /** Putting a question with a smaller id than every row in front keeps the order. */
  lemma PrependKeepsIdsIncreasing(q: Question, rest: seq<Question>)
    requires IdsIncreasing(rest)
    requires forall p :: p in rest ==> q.id < p.id
    ensures IdsIncreasing([q] + rest)
  {
    var r := [q] + rest;
    forall i, j | 0 <= i < j < |r| ensures r[i].id < r[j].id {
      assert r[j] == rest[j - 1];
      if i > 0 {
        assert r[i] == rest[i - 1];
      } else {
        assert rest[j - 1] in rest;
      }
    }
  }

  /** In ascending id order, the first row has the smallest id. */
  lemma HeadBelowTail(qs: seq<Question>)
    requires IdsIncreasing(qs) && qs != []
    ensures forall p :: p in qs[1..] ==> qs[0].id < p.id
  {
    forall p | p in qs[1..] ensures qs[0].id < p.id {
      var k :| 0 <= k < |qs[1..]| && qs[1..][k] == p;
      assert qs[k + 1] == p;
    }
  }

  /** Filtering keeps the rows in ascending id order. */
  lemma {:induction false} FilterKeepsIdsIncreasing(qs: seq<Question>, keep: Question -> bool)
    requires IdsIncreasing(qs)
    ensures IdsIncreasing(Seqs.Filter(qs, keep))
  {
    if qs != [] {
      var tail := qs[1..];
      var rest := Seqs.Filter(tail, keep);
      assert IdsIncreasing(tail);
      FilterKeepsIdsIncreasing(tail, keep);
      if keep(qs[0]) {
        HeadBelowTail(qs);
        PrependKeepsIdsIncreasing(qs[0], rest);
      }
    }
  }

  /** Deleting an existing id removes that question and no other: one row
      fewer, the deleted row gone, every other row kept, order kept. */
  lemma {:induction false} DeleteRemovesExactlyOne(qs: seq<Question>, id: int)
    requires IdsIncreasing(qs)
    requires Lookup(qs, id).Some?
    ensures var r := WithoutId(qs, id);
      && |r| == |qs| - 1
      && Lookup(qs, id).value !in r
      && Lookup(r, id).None?
      && (forall q :: q in qs && q.id != id ==> q in r)
      && IdsIncreasing(r)
  {
    FilterKeepsIdsIncreasing(qs, (q: Question) => q.id != id);
    if qs[0].id == id {
      forall q | q in qs[1..] ensures q.id != id {
        var k :| 0 <= k < |qs[1..]| && qs[1..][k] == q;
        assert qs[k + 1] == q;
      }
      assert WithoutId(qs[1..], id) == qs[1..];
    } else {
      assert IdsIncreasing(qs[1..]);
      DeleteRemovesExactlyOne(qs[1..], id);
    }
  }

  /** Appending a question whose id is above every stored id keeps the order. */
  lemma AppendKeepsIdsIncreasing(qs: seq<Question>, q: Question)
    requires IdsIncreasing(qs)
    requires forall p :: p in qs ==> p.id < q.id
    ensures IdsIncreasing(qs + [q])
  {
    forall i, j | 0 <= i < j < |qs + [q]| ensures (qs + [q])[i].id < (qs + [q])[j].id {
      if j == |qs| { assert qs[i] in qs; }
    }
  }
}
