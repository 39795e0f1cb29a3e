/** The dictionary `{category.id: category.type}` that the `/categories` and
    `/questions` handlers build with a loop over `Category.query.all()`. */
module Categories {
  import opened Models

  /** The dictionary after visiting `cats` in order; a later row with an id
      already seen overwrites the earlier entry, as a dict assignment does. */
  function CategoryMap(cats: seq<Category>): (m: map<int, string>)
    ensures |m| <= |cats|
    ensures cats != [] ==> |m| > 0
  {
    if cats == [] then map[]
    else CategoryMap(cats[..|cats| - 1])[cats[|cats| - 1].id := cats[|cats| - 1].kind]
  }

  /** The ids of the categories. */
  function CategoryIds(cats: seq<Category>): set<int>
  {
    set c | c in cats :: c.id
  }

  /** The loop of lines 52-55 (and 87-90): one dictionary entry per category. */
  method BuildCategoryMap(cats: seq<Category>) returns (m: map<int, string>)
    ensures m == CategoryMap(cats)
    ensures m.Keys == CategoryIds(cats)
    ensures forall i :: 0 <= i < |cats| && (forall j :: i < j < |cats| ==> cats[j].id != cats[i].id)
              ==> m[cats[i].id] == cats[i].kind
  {
    m := map[];
    var i := 0;
    while i < |cats|
      invariant 0 <= i <= |cats|
      invariant m == CategoryMap(cats[..i])
    {
      assert cats[..i + 1][..i] == cats[..i];
      m := m[cats[i].id := cats[i].kind];
      i := i + 1;
    }
    assert cats[..|cats|] == cats;
    CategoryMapKeys(cats);
    CategoryMapLastWins(cats);
  }

  /** The dictionary has exactly one key per category id. */
  lemma {:induction false} CategoryMapKeys(cats: seq<Category>)
    ensures CategoryMap(cats).Keys == CategoryIds(cats)
  {
    if cats != [] {
      var init := cats[..|cats| - 1];
      CategoryMapKeys(init);
      assert cats == init + [cats[|cats| - 1]];
      assert CategoryIds(cats) == CategoryIds(init) + {cats[|cats| - 1].id};
    }
  }

  /** Each id maps to the type of the last category carrying that id. */
  lemma {:induction false} CategoryMapLastWins(cats: seq<Category>)
    ensures forall i :: 0 <= i < |cats| && (forall j :: i < j < |cats| ==> cats[j].id != cats[i].id)
              ==> cats[i].id in CategoryMap(cats) && CategoryMap(cats)[cats[i].id] == cats[i].kind
  {
    if cats != [] {
      var init := cats[..|cats| - 1];
      CategoryMapLastWins(init);
      forall i | 0 <= i < |cats| - 1 && (forall j :: i < j < |cats| ==> cats[j].id != cats[i].id)
        ensures cats[i].id in CategoryMap(cats) && CategoryMap(cats)[cats[i].id] == cats[i].kind
      {
        assert init[i] == cats[i];
        forall j | i < j < |init| ensures init[j].id != init[i].id {
          assert init[j] == cats[j];
        }
      }
    }
  }

  /** The handlers answer 404 exactly when the dictionary is empty, which is
      exactly when there is no category. */
  lemma {:induction false} CategoryMapEmpty(cats: seq<Category>)
    ensures |CategoryMap(cats)| == 0 <==> cats == []
  {
    CategoryMapKeys(cats);
    if cats != [] {
      assert cats[0].id in CategoryIds(cats);
    }
  }
}
