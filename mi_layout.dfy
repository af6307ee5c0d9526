/**
 * The session gate of `mi-web/components/DashboardLayout.tsx`: a boolean `isLoading`
 * that starts true and is cleared only when the effect gets past both early returns,
 * the token check and then the role check, each of which ends in `router.push('/')`.
 */
module MiLayout {
  import opened Common
  import opened Session

  /** Where the effect leaves off: past both checks, or at one of the two early returns. */
  datatype Outcome = Proceed | NoToken | RoleMismatch

  /** The two checks in source order: `!token` first, then `storedRole !== role`. */
  function Check(st: Storage, role: Role): (o: Outcome)
    ensures o == Proceed <==> HasSession(st, role)
    ensures o == NoToken <==> !Truthy(st.token)
    ensures o == RoleMismatch <==> Truthy(st.token) && st.role != Some(RoleName(role))
  {
    if !Truthy(st.token) then NoToken
    else if st.role != Some(RoleName(role)) then RoleMismatch
    else Proceed
  }

  class DashboardLayout {
    const role: Role
    var isLoading: bool
    /** The router calls issued so far. */
    var navigations: seq<Navigation>

    /** Mounting: `useState(true)`, no redirect yet. */
    constructor (role: Role)
      ensures this.role == role && isLoading && navigations == []
    {
      this.role := role;
      isLoading := true;
      navigations := [];
    }

    /**
     * The effect. It also reads `mentor_id`, which only feeds the diagnostic log.
     * Each run issues at most one redirect, and `isLoading` can only go from true to false.
     */
    method RunEffect(st: Storage)
      modifies this`isLoading, this`navigations
      ensures navigations == old(navigations) + (if Check(st, role) == Proceed then [] else [Push(EntryRoute)])
      ensures isLoading == (old(isLoading) && Check(st, role) != Proceed)
    {
      var token := st.token;
      var storedRole := st.role;
      var mentorId := st.mentorId;
      if !Truthy(token) {
        navigations := navigations + [Push(EntryRoute)];
        return;
      }
      if storedRole != Some(RoleName(role)) {
        navigations := navigations + [Push(EntryRoute)];
        return;
      }
      isLoading := false;
    }

    /** The render: children only once `isLoading` is false. */
    function Render(): (v: View)
      reads this
      ensures v != Spinner <==> !isLoading
      ensures v != Spinner ==> v == Dashboard(role)
    {
      if isLoading then Spinner else Dashboard(role)
    }
  }

  /**
   * One page mount with one run of the effect. Children appear iff the session holds
   * the required role; otherwise exactly one `push('/')` is issued and the spinner stays.
   */
  method Mount(role: Role, st: Storage) returns (view: View, navigations: seq<Navigation>)
    ensures view == (if HasSession(st, role) then Dashboard(role) else Spinner)
    ensures navigations == (if HasSession(st, role) then [] else [Push(EntryRoute)])
  {
    var layout := new DashboardLayout(role);
    layout.RunEffect(st);
    view := layout.Render();
    navigations := layout.navigations;
  }

  /** `mentor_id` never affects the decision. */
  lemma MentorIdIgnored(st: Storage, role: Role, mentorId: Option<string>)
    ensures Check(st.(mentorId := mentorId), role) == Check(st, role)
  {
  }
}
