/** The read-only routes that look quotes up: /health, /api/quotes/random,
    /api/quotes/:id and /api/quotes/category/:category. */
module Lookup {
  import opened Wrappers
  import opened Quotes
  import opened Ascii

  /** GET /health, the part that depends on the store: it reports how many
      quotes are loaded. */
  function Health(s: seq<Quote>): (r: Response<HealthBody>)
    ensures r.Ok? && r.body.status == "healthy"
    ensures r.body.quotesLoaded == |s|
  {
    Ok(HealthBody("healthy", |s|))
  }

  /** The index `Math.floor(Math.random() * n)` can produce: below n, and 0
      for an empty store. */
  predicate ValidDraw(n: nat, r: nat)
  {
    if n == 0 then r == 0 else r < n
  }

  /** GET /api/quotes/random for a drawn index r. The response is always a
      200; on an empty store it carries no quote. */
  function RandomQuote(s: seq<Quote>, r: nat): (resp: Response<Option<Quote>>)
    requires ValidDraw(|s|, r)
    ensures resp.Ok?
    ensures resp.body.Some? <==> |s| > 0
    ensures resp.body.Some? ==> resp.body.value == s[r] && resp.body.value in s
  {
    if r < |s| then Ok(Some(s[r])) else Ok(None)
  }

  /** A one-quote store always yields that quote. */
  lemma RandomFromSingleton(q: Quote, r: nat)
    requires ValidDraw(1, r)
    ensures RandomQuote([q], r) == Ok(Some(q))
  {
  }

  /** `s.find(q => q.id === id)`, as the position of the first match. */
  function FindIndex(s: seq<Quote>, id: int): (k: Option<nat>)
    ensures k.Some? ==> k.value < |s| && s[k.value].id == id
    ensures k.Some? ==> forall j :: 0 <= j < k.value ==> s[j].id != id
    ensures k.None? <==> forall j :: 0 <= j < |s| ==> s[j].id != id
  {
    if s == [] then None
    else if s[0].id == id then Some(0)
    else match FindIndex(s[1..], id)
      case None => None
      case Some(k) => Some(k + 1)
  }

  /** GET /api/quotes/:id. `id` is the parsed path segment, None when it is
      not a number (NaN, which equals no id). */
  function ById(s: seq<Quote>, id: Option<int>): (r: Response<Quote>)
    ensures r.Ok? || r.NotFound?
    ensures r.Ok? <==> id.Some? && exists i :: 0 <= i < |s| && s[i].id == id.value
    ensures r.Ok? ==> exists i :: 0 <= i < |s| && s[i] == r.body && s[i].id == id.value
                                  && forall j :: 0 <= j < i ==> s[j].id != id.value
    ensures r.NotFound? ==> r.error == "Quote not found" && r.echo == EchoId(id)
  {
    match id
    case None => NotFound("Quote not found", EchoId(id))
    case Some(v) =>
      match FindIndex(s, v)
      case None => NotFound("Quote not found", EchoId(id))
      case Some(k) => Ok(s[k])
  }

  /** Appending a record never changes what an id already found resolves to. */
  lemma ByIdStableUnderAppend(s: seq<Quote>, q: Quote, id: Option<int>)
    requires ById(s, id).Ok?
    ensures ById(s + [q], id) == ById(s, id)
  {
    var v := id.value;
    var k := FindIndex(s, v).value;
    var k' := FindIndex(s + [q], v);
    assert (s + [q])[k] == s[k];
    assert k'.Some? && k'.value <= k;
    assert (s + [q])[k'.value] == s[k'.value];
  }

  /** The category of q matches the lowercased request parameter `key`. */
  predicate InCategory(q: Quote, key: string)
  {
    Lower(q.category) == key
  }

  /** `s` can be obtained from `t` by deleting elements. */
  ghost predicate IsSubsequence(s: seq<Quote>, t: seq<Quote>)
    decreases |t|
  {
    s == [] || (t != [] && ((s[0] == t[0] && IsSubsequence(s[1..], t[1..])) || IsSubsequence(s, t[1..])))
  }

  /** `s.filter(q => q.category.toLowerCase() === key)`. */
  function FilterCategory(s: seq<Quote>, key: string): (r: seq<Quote>)
    ensures |r| <= |s|
    ensures IsSubsequence(r, s)
    ensures forall q :: q in r ==> InCategory(q, key)
    ensures forall q :: multiset(r)[q] == if InCategory(q, key) then multiset(s)[q] else 0
  {
    if s == [] then []
    else
      var rest := FilterCategory(s[1..], key);
      assert s == [s[0]] + s[1..];
      if InCategory(s[0], key) then [s[0]] + rest else rest
  }

  /** A subsequence holds no element more often than the whole. */
  lemma {:induction false} SubsequenceMultiset(s: seq<Quote>, t: seq<Quote>)
    requires IsSubsequence(s, t)
    ensures multiset(s) <= multiset(t)
    decreases |t|
  {
    if s != [] {
      assert t == [t[0]] + t[1..];
      if s[0] == t[0] && IsSubsequence(s[1..], t[1..]) {
        SubsequenceMultiset(s[1..], t[1..]);
        assert s == [s[0]] + s[1..];
      } else {
        SubsequenceMultiset(s, t[1..]);
      }
    }
  }

  /** The filter is the only subsequence of the store that holds every quote
      of the category as often as the store does and nothing else: it is
      exactly the matching quotes, in store order. */
  lemma {:induction false} FilterCategoryUnique(s: seq<Quote>, key: string, t: seq<Quote>)
    requires IsSubsequence(t, s)
    requires forall q :: multiset(t)[q] == if InCategory(q, key) then multiset(s)[q] else 0
    ensures t == FilterCategory(s, key)
    decreases |s|
  {
    if s == [] {
      assert t == [];
    } else {
      var x, rest := s[0], s[1..];
      assert s == [x] + rest;
      if t != [] {
        assert t == [t[0]] + t[1..];
      }
      if InCategory(x, key) {
        assert multiset(t)[x] == multiset(rest)[x] + 1;
        if t != [] && t[0] == x && IsSubsequence(t[1..], rest) {
          FilterCategoryUnique(rest, key, t[1..]);
        } else {
          assert t != [];
          SubsequenceMultiset(t, rest);
          assert false;
        }
      } else if t == [] {
        FilterCategoryUnique(rest, key, t);
      } else {
        assert t[0] in multiset(t);
        assert t[0] != x;
        FilterCategoryUnique(rest, key, t);
      }
    }
  }

  /** GET /api/quotes/category/:category: every quote whose category equals
      the parameter up to letter case, in store order; a 404 when there is
      none. Both responses echo the lowercased parameter. */
  function ByCategory(s: seq<Quote>, category: string): (r: Response<CategoryBody>)
    ensures r.Ok? || r.NotFound?
    ensures r.Ok? <==> exists i :: 0 <= i < |s| && InCategory(s[i], Lower(category))
    ensures r.Ok? ==> r.body.category == Lower(category) && r.body.count == |r.body.quotes|
                      && r.body.quotes == FilterCategory(s, Lower(category))
    ensures r.NotFound? ==> r.error == "No quotes found for this category"
                            && r.echo == EchoCategory(Lower(category))
  {
    var key := Lower(category);
    var matches := FilterCategory(s, key);
    if |matches| > 0 then
      Ok(CategoryBody(key, |matches|, matches))
    else
      assert forall i :: 0 <= i < |s| ==> !InCategory(s[i], key) by {
        forall i | 0 <= i < |s| ensures !InCategory(s[i], key) {
          assert s[i] in multiset(s);
        }
      }
      NotFound("No quotes found for this category", EchoCategory(key))
  }

  /** The response does not depend on the letter case of the parameter. */
  lemma ByCategoryCaseInsensitive(s: seq<Quote>, c1: string, c2: string)
    requires Lower(c1) == Lower(c2)
    ensures ByCategory(s, c1) == ByCategory(s, c2)
  {
  }

  /** Asking with the lowercased parameter gives the same response. */
  lemma ByCategoryOfLowered(s: seq<Quote>, c: string)
    ensures ByCategory(s, Lower(c)) == ByCategory(s, c)
  {
    LowerIdempotent(c);
  }

  /** "motivation" and "MOTIVATION" are answered alike. */
  lemma MotivationAnyCase(s: seq<Quote>)
    ensures ByCategory(s, "MOTIVATION") == ByCategory(s, "motivation")
  {
    var lowered := "motivation";
    LowerOfLowercase(lowered);
    assert Lower("MOTIVATION") == lowered;
  }

  /** A category no quote has gives a 404 echoing it. */
  lemma UnknownCategory(s: seq<Quote>)
    requires forall i :: 0 <= i < |s| ==> Lower(s[i].category) != "nonexistent"
    ensures ByCategory(s, "nonexistent")
            == NotFound("No quotes found for this category", EchoCategory("nonexistent"))
  {
    LowerOfLowercase("nonexistent");
  }
}
