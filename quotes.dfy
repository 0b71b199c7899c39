/** The records the service stores and the responses its routes send. */
module Quotes {
  import opened Wrappers

  /** One stored quotation, as it is serialised to JSON. */
  datatype Quote = Quote(id: int, text: string, author: string, category: string)

  /** The identifying value a 404 response echoes back: the id that was parsed
      from the path (None for a path segment that is not a number, which
      serialises as null), or the lowercased category. */
  datatype Echo = EchoId(id: Option<int>) | EchoCategory(category: string)

  /** A response, one constructor per status code the routes use:
      200, 201, 400 and 404. */
  datatype Response<T> =
    | Ok(body: T)
    | Created(body: T)
    | BadRequest(error: string)
    | NotFound(error: string, echo: Echo)

  /** Body of GET /api/quotes. */
  datatype PageBody = PageBody(page: int, limit: int, total: nat, totalPages: int, quotes: seq<Quote>)

  /** Body of GET /api/quotes/category/:category when something matched. */
  datatype CategoryBody = CategoryBody(category: string, count: nat, quotes: seq<Quote>)

  /** Body of GET /api/categories. */
  datatype CategoriesBody = CategoriesBody(count: nat, categories: seq<string>)

  /** The part of the GET /health body that depends on the store. */
  datatype HealthBody = HealthBody(status: string, quotesLoaded: nat)

  /** A request-body field counts as absent when it was not sent or is the
      empty string (both are falsy in the handler's tests). */
  predicate Missing(field: Option<string>)
  {
    field.None? || field.value == ""
  }
}
