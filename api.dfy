/**
 * The shapes of the fetched JSON bodies the dashboards accept, and the expressions
 * they use to get a list out of them. The HTTP client itself is not part of this model:
 * a request either resolves with a body or rejects.
 */
module Api {
  import opened Common

  /** The settled promise of one request. */
  datatype Fetched<B> = Rejected | Resolved(body: B)

  /**
   * A body that should hold a list: `null`, a bare array, or an object that may carry
   * the list under the endpoint's key (`users`, `mentors`, `licenses`, `news`).
   */
  datatype ListBody<T> = Null | Array(items: seq<T>) | Object(field: Option<seq<T>>)

  /** A row of `/admin/users` and `/mentor/users`. */
  datatype User = User(email: string, status: string, paymentStatus: string)

  /**
   * `Array.isArray(d) ? d : (d?.key || [])`: a bare array, else the keyed list,
   * else empty. Every shape yields a list.
   */
  function ArrayOrKey<T>(d: ListBody<T>): (xs: seq<T>)
    ensures d.Array? ==> xs == d.items
    ensures d.Object? && d.field.Some? ==> xs == d.field.value
    ensures d.Null? || d == Object(None) ==> xs == []
  {
    match d
    case Array(items) => items
    case Object(Some(items)) => items
    case _ => []
  }

  /**
   * `d?.key || d || []`: the keyed list, else the body itself, else empty. For an
   * object without the key that body is not a list, and the page's next list
   * operation on it throws; that is `None`.
   */
  function KeyOrSelf<T>(d: ListBody<T>): (r: Option<seq<T>>)
    ensures r.None? <==> d == Object(None)
    ensures d.Array? ==> r == Some(d.items)
    ensures d.Object? && d.field.Some? ==> r == Some(d.field.value)
    ensures d.Null? ==> r == Some([])
  {
    match d
    case Object(Some(items)) => Some(items)
    case Object(None) => None
    case Array(items) => Some(items)
    case Null => Some([])
  }

  /**
   * `(d.users || [])` on the mentor page: a plain property read, so a `null` body
   * throws (`None`); an array or an object without the key gives the empty list.
   */
  function KeyOnly<T>(d: ListBody<T>): (r: Option<seq<T>>)
    ensures r.None? <==> d.Null?
    ensures d.Object? && d.field.Some? ==> r == Some(d.field.value)
    ensures d.Array? || d == Object(None) ==> r == Some([])
  {
    match d
    case Null => None
    case Object(Some(items)) => Some(items)
    case _ => Some([])
  }

  /** `promise.catch(() => fallback)`: a rejection becomes the fallback body. */
  function CatchWith<B>(f: Fetched<B>, fallback: B): (b: B)
    ensures f.Rejected? ==> b == fallback
    ensures f.Resolved? ==> b == f.body
  {
    match f
    case Rejected => fallback
    case Resolved(body) => body
  }
}
