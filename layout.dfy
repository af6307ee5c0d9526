/**
 * The session gate of `components/DashboardLayout.tsx`: a three-state `authState`
 * that the mount effect moves from `checking` to `authorized` or to `unauthorized`,
 * the latter with one `router.replace('/')`.
 */
module Layout {
  import opened Common
  import opened Session

  datatype AuthState = Checking | Authorized | Unauthorized

  /** The decision of the mount effect: the condition `token && storedRole === role`. */
  function Decide(st: Storage, role: Role): (s: AuthState)
    ensures s != Checking
    ensures s == Authorized <==> HasSession(st, role)
  {
    if Truthy(st.token) && st.role == Some(RoleName(role)) then Authorized else Unauthorized
  }

  class DashboardLayout {
    const role: Role
    var authState: AuthState
    /** The router calls issued so far. */
    var navigations: seq<Navigation>

    /** A redirect has been issued exactly when the gate refused, and then exactly one. */
    predicate Valid()
      reads this
    {
      (authState == Unauthorized ==> navigations == [Replace(EntryRoute)]) &&
      (authState != Unauthorized ==> navigations == [])
    }

    /** Mounting: `useState('checking')`, nothing rendered but the spinner, no redirect. */
    constructor (role: Role)
      ensures Valid()
      ensures this.role == role && authState == Checking && navigations == []
    {
      this.role := role;
      authState := Checking;
      navigations := [];
    }

    /**
     * The mount effect (empty dependency list, so it runs once, while `authState` is
     * still `checking`): read the storage and settle the gate.
     */
    method CheckOnMount(st: Storage)
      requires Valid() && authState == Checking
      modifies this`authState, this`navigations
      ensures Valid()
      ensures authState == Decide(st, role)
      ensures navigations == if authState == Unauthorized then [Replace(EntryRoute)] else []
    {
      var token := st.token;
      var storedRole := st.role;
      if Truthy(token) && storedRole == Some(RoleName(role)) {
        authState := Authorized;
      } else {
        authState := Unauthorized;
        navigations := navigations + [Replace(EntryRoute)];
      }
    }

    /** The render: the children appear only once authorized; both other states show the spinner. */
    function Render(): (v: View)
      reads this
      ensures v != Spinner <==> authState == Authorized
      ensures v != Spinner ==> v == Dashboard(role)
    {
      match authState
      case Checking => Spinner
      case Unauthorized => Spinner
      case Authorized => Dashboard(role)
    }
  }

  /**
   * One page mount: construct the layout, run its effect against the stored session
   * and render. Children appear iff the session holds the required role; otherwise
   * exactly one `replace('/')` is issued.
   */
  method Mount(role: Role, st: Storage) returns (view: View, navigations: seq<Navigation>)
    ensures view == (if HasSession(st, role) then Dashboard(role) else Spinner)
    ensures navigations == (if HasSession(st, role) then [] else [Replace(EntryRoute)])
  {
    var layout := new DashboardLayout(role);
    layout.CheckOnMount(st);
    view := layout.Render();
    navigations := layout.navigations;
  }

  /** A missing token and a wrong role end in the same state with the same redirect. */
  lemma NoTokenSameAsWrongRole(role: Role, noToken: Storage, wrongRole: Storage)
    requires !Truthy(noToken.token)
    requires Truthy(wrongRole.token) && wrongRole.role != Some(RoleName(role))
    ensures Decide(noToken, role) == Decide(wrongRole, role) == Unauthorized
  {
  }
}
