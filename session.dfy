/**
 * What the session gates read and do: the three `localStorage` entries the login flow
 * writes, the two roles a dashboard can require, and the router calls they issue.
 */
module Session {
  import opened Common

  /** The `role` prop of a dashboard layout. */
  datatype Role = Admin | Mentor

  /** The string the login flow stores under `role` for each role. */
  function RoleName(r: Role): string
  {
    match r
    case Admin => "admin"
    case Mentor => "mentor"
  }

  /** `localStorage.getItem` for `token`, `role` and `mentor_id`; `None` is `null`. */
  datatype Storage = Storage(token: Option<string>, role: Option<string>, mentorId: Option<string>)

  /** JavaScript truthiness of a string-or-null value: present and not empty. */
  predicate Truthy(v: Option<string>)
  {
    v.Some? && v.value != ""
  }

  /** The rule both layouts implement: a token is present and the stored role is the required one. */
  predicate HasSession(st: Storage, required: Role)
  {
    st.token.Some? && |st.token.value| > 0 && st.role.Some? && st.role.value == RoleName(required)
  }

  /** The application's entry route. */
  const EntryRoute := "/"

  /** A call on the Next.js router. */
  datatype Navigation = Replace(path: string) | Push(path: string)

  /** What a layout renders: the loading spinner, or the sidebar for `role` with the page's children. */
  datatype View = Spinner | Dashboard(role: Role)
}
