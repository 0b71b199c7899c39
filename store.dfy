/** The module-level quote array and POST /api/quotes, the one route that
    changes it. */
module QuoteStore {
  import opened Wrappers
  import opened Quotes
  import Lookup

  /** Validate a request body and build the record it describes, for a store
      of `count` quotes: text and author are required, the category falls
      back to "general", and the id is one past the count. */
  function NewQuote(count: nat, text: Option<string>, author: Option<string>, category: Option<string>): (r: Response<Quote>)
    ensures r.Created? || r.BadRequest?
    ensures r.BadRequest? <==> Missing(text) || Missing(author)
    ensures r.BadRequest? ==> r.error == "Text and author are required"
    ensures r.Created? ==> r.body.id == count + 1
                           && r.body.text == text.value && r.body.author == author.value
                           && r.body.text != "" && r.body.author != "" && r.body.category != ""
    ensures r.Created? && Missing(category) ==> r.body.category == "general"
    ensures r.Created? && !Missing(category) ==> r.body.category == category.value
  {
    if Missing(text) || Missing(author) then
      BadRequest("Text and author are required")
    else
      var cat := if Missing(category) then "general" else category.value;
      Created(Quote(count + 1, text.value, author.value, cat))
  }

  /** The ids are exactly 1, 2, ..., n in store order, as `id = length + 1`
      yields when every quote was added through the route. */
  ghost predicate SequentialIds(s: seq<Quote>)
  {
    forall i :: 0 <= i < |s| ==> s[i].id == i + 1
  }

  /** With sequential ids, id k (1 <= k <= n) resolves to the k-th quote and
      every other id is not found. */
  lemma ByIdSequential(s: seq<Quote>, id: int)
    requires SequentialIds(s)
    ensures 1 <= id <= |s| ==> Lookup.ById(s, Some(id)) == Ok(s[id - 1])
    ensures !(1 <= id <= |s|) ==> Lookup.ById(s, Some(id)).NotFound?
  {
    if 1 <= id <= |s| {
      assert s[id - 1].id == id;
    }
  }

  /** Appending the record `NewQuote` builds keeps the ids sequential, and the
      new id then resolves to the new record. */
  lemma AppendKeepsSequential(s: seq<Quote>, q: Quote)
    requires SequentialIds(s) && q.id == |s| + 1
    ensures SequentialIds(s + [q])
    ensures Lookup.ById(s + [q], Some(q.id)) == Ok(q)
  {
    var t := s + [q];
    assert forall i :: 0 <= i < |s| ==> t[i] == s[i];
    ByIdSequential(t, q.id);
  }

  /** The store: the quotes loaded at start-up followed by those added since,
      oldest first. */
  class Store {
    var quotes: seq<Quote>

    constructor (initial: seq<Quote>)
      ensures quotes == initial
    {
      quotes := initial;
    }

    /** POST /api/quotes. A rejected body leaves the store as it was; an
        accepted one appends exactly the returned record. */
    method Add(text: Option<string>, author: Option<string>, category: Option<string>) returns (resp: Response<Quote>)
      modifies this
      ensures resp == NewQuote(|old(quotes)|, text, author, category)
      ensures resp.BadRequest? ==> quotes == old(quotes)
      ensures resp.Created? ==> quotes == old(quotes) + [resp.body]
      ensures resp.Created? ==> quotes[..|old(quotes)|] == old(quotes) && quotes[|quotes| - 1] == resp.body
      ensures Lookup.Health(quotes).body.quotesLoaded
              == Lookup.Health(old(quotes)).body.quotesLoaded + (if resp.Created? then 1 else 0)
      ensures SequentialIds(old(quotes)) ==> SequentialIds(quotes)
      ensures SequentialIds(old(quotes)) && resp.Created? ==> Lookup.ById(quotes, Some(resp.body.id)) == Ok(resp.body)
      ensures forall id :: Lookup.ById(old(quotes), id).Ok? ==> Lookup.ById(quotes, id) == Lookup.ById(old(quotes), id)
    {
      var count := |quotes|;
      resp := NewQuote(count, text, author, category);
      if resp.Created? {
        ghost var before := quotes;
        quotes := quotes + [resp.body];
        assert quotes[..count] == before;
        if SequentialIds(before) {
          AppendKeepsSequential(before, resp.body);
        }
        forall id | Lookup.ById(before, id).Ok? ensures Lookup.ById(quotes, id) == Lookup.ById(before, id) {
          Lookup.ByIdStableUnderAppend(before, resp.body, id);
        }
      }
    }
  }

  /** A store whose ids are 1..n accepts the test body and answers with
      record n+1, which a lookup by that id then returns; a body without text
      or without author is refused and the store keeps its size. */
  method CreateThenFind(initial: seq<Quote>) returns (created: Response<Quote>, found: Response<Quote>, noText: Response<Quote>, noAuthor: Response<Quote>, loaded: nat)
    requires SequentialIds(initial)
    ensures created == Created(Quote(|initial| + 1, "Test quote for testing", "Test Author", "testing"))
    ensures found == Ok(created.body)
    ensures noText == BadRequest("Text and author are required")
    ensures noAuthor == BadRequest("Text and author are required")
    ensures loaded == |initial| + 1
  {
    var store := new Store(initial);
    created := store.Add(Some("Test quote for testing"), Some("Test Author"), Some("testing"));
    found := Lookup.ById(store.quotes, Some(|initial| + 1));
    noText := store.Add(None, Some("Test Author"), None);
    noAuthor := store.Add(Some("Test quote"), None, None);
    loaded := Lookup.Health(store.quotes).body.quotesLoaded;
  }
}
