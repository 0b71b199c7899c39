/** GET /api/categories: the distinct category names, in the order in which
    they first occur in the store. */
module Categories {
  import opened Quotes

  /** The category of every quote, in store order (`quotes.map(q => q.category)`). */
  function CategoryNames(s: seq<Quote>): (names: seq<string>)
    ensures |names| == |s|
    ensures forall i :: 0 <= i < |s| ==> names[i] == s[i].category
  {
    seq(|s|, i requires 0 <= i < |s| => s[i].category)
  }

  /** The position of the first occurrence of x. */
  function FirstIndex(names: seq<string>, x: string): (k: nat)
    requires x in names
    ensures k < |names| && names[k] == x
    ensures forall j :: 0 <= j < k ==> names[j] != x
  {
    if names[0] == x then 0 else 1 + FirstIndex(names[1..], x)
  }

  ghost predicate NoDuplicates(names: seq<string>)
  {
    forall i, j :: 0 <= i < j < |names| ==> names[i] != names[j]
  }

  /** A name first seen before the last position keeps its first position
      when one more name is appended. */
  lemma FirstIndexAppend(names: seq<string>, x: string, y: string)
    requires y in names
    ensures FirstIndex(names + [x], y) == FirstIndex(names, y)
  {
    var k := FirstIndex(names, y);
    var k' := FirstIndex(names + [x], y);
    assert (names + [x])[k] == y;
    assert k' <= k;
    assert names[k'] == (names + [x])[k'];
  }

  /** `[...new Set(names)]`: a Set keeps its elements in insertion order and
      ignores an element it already holds, so each name is kept at its first
      occurrence. */
  function Distinct(names: seq<string>): (r: seq<string>)
    ensures NoDuplicates(r)
    ensures forall x :: x in r <==> x in names
    ensures forall i, j :: 0 <= i < j < |r| ==> FirstIndex(names, r[i]) < FirstIndex(names, r[j])
  {
    if names == [] then []
    else
      var init, x := names[..|names| - 1], names[|names| - 1];
      assert names == init + [x];
      var d := Distinct(init);
      forall y | y in init ensures FirstIndex(names, y) == FirstIndex(init, y) {
        FirstIndexAppend(init, x, y);
      }
      if x in d then d
      else
        assert FirstIndex(names, x) == |init|;
        d + [x]
  }

  /** The handler: the distinct names and how many there are. */
  function AllCategories(s: seq<Quote>): (r: Response<CategoriesBody>)
    ensures r.Ok? && r.body.count == |r.body.categories|
    ensures NoDuplicates(r.body.categories)
    ensures forall c :: c in r.body.categories <==> exists i :: 0 <= i < |s| && s[i].category == c
    ensures r.body.categories == Distinct(CategoryNames(s))
  {
    var names := CategoryNames(s);
    var d := Distinct(names);
    assert forall c :: c in names <==> exists i :: 0 <= i < |s| && s[i].category == c by {
      forall c ensures c in names <==> exists i :: 0 <= i < |s| && s[i].category == c {
        if c in names {
          var i :| 0 <= i < |names| && names[i] == c;
          assert s[i].category == c;
        }
      }
    }
    Ok(CategoriesBody(|d|, d))
  }

  /** The number of categories never exceeds the number of quotes. */
  lemma {:induction false} DistinctNoLonger(names: seq<string>)
    ensures |Distinct(names)| <= |names|
  {
    if names != [] {
      DistinctNoLonger(names[..|names| - 1]);
    }
  }

  /** Names that are already distinct come back unchanged. */
  lemma {:induction false} DistinctOfDistinct(names: seq<string>)
    requires NoDuplicates(names)
    ensures Distinct(names) == names
  {
    if names != [] {
      var init, x := names[..|names| - 1], names[|names| - 1];
      assert names == init + [x];
      DistinctOfDistinct(init);
      assert x !in init;
    }
  }
}
