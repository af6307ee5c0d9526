/**
 * The two layouts are written differently (three states with `replace` against a
 * loading flag with early returns and `push`) but gate on the same rule.
 */
module GateAgreement {
  import opened Session
  import Layout
  import MiLayout

  /** The three-state decision authorizes exactly when the flag variant gets past both checks. */
  lemma DecisionsAgree(st: Storage, role: Role)
    ensures Layout.Decide(st, role) == Layout.Authorized <==> MiLayout.Check(st, role) == MiLayout.Proceed
    ensures Layout.Decide(st, role) == Layout.Unauthorized <==> MiLayout.Check(st, role) != MiLayout.Proceed
  {
  }

  /**
   * Mounting either layout on the same stored session renders the same thing, and
   * both issue one redirect to the entry route when they refuse (only the router
   * method differs).
   */
  method MountBoth(role: Role, st: Storage)
    returns (replacing: View, pushing: View, replaced: seq<Navigation>, pushed: seq<Navigation>)
    ensures replacing == pushing
    ensures replacing.Dashboard? <==> HasSession(st, role)
    ensures |replaced| == |pushed| == if HasSession(st, role) then 0 else 1
    ensures forall i :: 0 <= i < |replaced| ==> replaced[i].path == pushed[i].path == EntryRoute
  {
    replacing, replaced := Layout.Mount(role, st);
    pushing, pushed := MiLayout.Mount(role, st);
  }
}
