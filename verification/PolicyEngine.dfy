/** The policy decision: which roles apply, and what they grant together. */
module PolicyEngine {
  import opened Wrappers
  import opened Octets
  import opened Policy

  datatype Subject = Subject(roles: seq<string>, mfa: bool, managedDevice: bool, ip: Option<string>)

  datatype ActiveSession = ActiveSession(id: string, grantedActions: set<Action>, isActive: bool)

  datatype Resource = Resource(labels: Labels, sessions: seq<ActiveSession>)

  datatype DenialReason =
    | NoMatchingRole
    | ActionNotAllowed
    | DeviceNotMatched
    | MfaRequired
    | ManagedClientDeviceRequired
    | IpAddressNotAllowed
    | ConcurrentControlConflict(session: string)

  datatype Decision = Allowed(grant: Grant, matchedRole: string) | Denied(reason: DenialReason)

  // ---- Which roles apply -------------------------------------------------------------------

  function Filter<T(!new)>(s: seq<T>, p: T -> bool): (r: seq<T>)
    ensures forall x :: x in r <==> x in s && p(x)
  {
    if s == [] then [] else (if p(s[0]) then [s[0]] else []) + Filter(s[1..], p)
  }

  /** The known roles among the assigned names, in order. */
  function Assigned(roles: map<string, Role>, names: seq<string>): (r: seq<Role>)
    ensures forall x :: x in r <==> exists n :: n in names && n in roles && roles[n] == x
  {
    if names == [] then []
    else (if names[0] in roles then [roles[names[0]]] else []) + Assigned(roles, names[1..])
  }

  predicate Controls(s: ActiveSession) {
    s.isActive && DesktopControl in s.grantedActions
  }

  predicate ControlHeld(sessions: seq<ActiveSession>) {
    exists i :: 0 <= i < |sessions| && Controls(sessions[i])
  }

  /** `evaluate_role_abac`, with address matching left to `ipMatches`. */
  function AbacFault(ipMatches: (string, string) -> bool, r: Role, s: Subject): Option<DenialReason> {
    if r.conditions.requireMfa && !s.mfa then Some(MfaRequired)
    else if r.conditions.managedClientDevice && !s.managedDevice then Some(ManagedClientDeviceRequired)
    else if r.conditions.allowedIpRanges == [] then None
    else if s.ip.Some? && exists range :: range in r.conditions.allowedIpRanges && ipMatches(s.ip.value, range)
    then None
    else Some(IpAddressNotAllowed)
  }

  // ---- Merging -----------------------------------------------------------------------------

  function Maximum(xs: seq<int>): (m: int)
    requires xs != []
    ensures m in xs && forall x :: x in xs ==> x <= m
  {
    assert forall x :: x in xs ==> x == xs[0] || x in xs[1..];
    if |xs| == 1 then xs[0] else var rest := Maximum(xs[1..]); if xs[0] > rest then xs[0] else rest
  }

  function Durations(roles: seq<Role>): (ds: seq<u64>)
    ensures |ds| == |roles| && forall i :: 0 <= i < |roles| ==> ds[i] == roles[i].conditions.MaxDuration()
  {
    seq(|roles|, i requires 0 <= i < |roles| => roles[i].conditions.MaxDuration())
  }

  /** `filter_map(|r| r.conditions.max_resolution_width)`, and likewise for the height. */
  function Widths(roles: seq<Role>): (ws: seq<u32>)
    ensures forall w :: w in ws <==> exists r :: r in roles && r.conditions.maxResolutionWidth == Some(w)
  {
    if roles == [] then []
    else
      (if roles[0].conditions.maxResolutionWidth.Some? then [roles[0].conditions.maxResolutionWidth.value] else [])
      + Widths(roles[1..])
  }

  function Heights(roles: seq<Role>): (hs: seq<u32>)
    ensures forall h :: h in hs <==> exists r :: r in roles && r.conditions.maxResolutionHeight == Some(h)
  {
    if roles == [] then []
    else
      (if roles[0].conditions.maxResolutionHeight.Some? then [roles[0].conditions.maxResolutionHeight.value] else [])
      + Heights(roles[1..])
  }

  function MergedResolution(roles: seq<Role>): Option<(u32, u32)> {
    if exists r :: r in roles && r.conditions.MaxResolution().None? then None
    else if Widths(roles) == [] || Heights(roles) == [] then None
    else Some((Maximum(Widths(roles)), Maximum(Heights(roles))))
  }

  /** The restrictions of several matching roles together: the most permissive of each. */
  function MergedRestrictions(roles: seq<Role>): Restrictions
    requires roles != []
  {
    Restrictions(
      exists r :: r in roles && r.conditions.clipboardEnabled,
      exists r :: r in roles && r.conditions.fileTransferEnabled,
      exists r :: r in roles && r.conditions.audioEnabled,
      MergedDuration(roles),
      MergedResolution(roles))
  }

  function MergedDuration(roles: seq<Role>): (d: u64)
    requires roles != []
  {
    Maximum(Durations(roles))
  }

  lemma MergedResolutionBounds(roles: seq<Role>)
    requires roles != []
    ensures var m := MergedResolution(roles);
            && (m.None? <==> exists r :: r in roles && r.conditions.MaxResolution().None?)
            && (m.Some? ==>
                  && (forall r :: r in roles ==> Within(r.conditions.MaxResolution(), m))
                  && (exists r :: r in roles && r.conditions.MaxResolution().value.0 == m.value.0)
                  && (exists r :: r in roles && r.conditions.MaxResolution().value.1 == m.value.1))
  {
    if !exists r :: r in roles && r.conditions.MaxResolution().None? {
      var r0 := roles[0];
      assert r0 in roles;
      assert r0.conditions.maxResolutionWidth.value in Widths(roles);
      assert r0.conditions.maxResolutionHeight.value in Heights(roles);
      forall r | r in roles ensures Within(r.conditions.MaxResolution(), MergedResolution(roles)) {
        assert r.conditions.maxResolutionWidth.value in Widths(roles);
        assert r.conditions.maxResolutionHeight.value in Heights(roles);
      }
    }
  }

  /** The merge of the matching roles is their join in the narrowing order. */
  lemma MergeIsJoin(actions: set<Action>, roles: seq<Role>)
    requires roles != [] && actions == set r, a | r in roles && a in r.allowedActions :: a
    ensures IsJoin(Grant(actions, MergedRestrictions(roles)), roles)
  {
    var g := Grant(actions, MergedRestrictions(roles));
    MergedResolutionBounds(roles);
    forall r | r in roles ensures Below(GrantOf(r), g) {
      var i :| 0 <= i < |roles| && roles[i] == r;
      assert Durations(roles)[i] in Durations(roles);
    }
    forall u: Grant | forall r :: r in roles ==> Below(GrantOf(r), u) ensures Below(g, u) {
      var i :| 0 <= i < |roles| && Durations(roles)[i] == MergedDuration(roles);
      assert Below(GrantOf(roles[i]), u);
      forall r | r in roles ensures Below(GrantOf(r), u) {}
    }
  }

  // ---- The decision ------------------------------------------------------------------------

  /** A policy and an environment: the configured roles, and how addresses match ranges. */
  datatype Rules = Rules(roles: map<string, Role>, ipMatches: (string, string) -> bool)

  function Permitting(e: Rules, s: Subject, action: Action): seq<Role> {
    Filter(Assigned(e.roles, s.roles), (r: Role) => action in r.allowedActions)
  }

  function Covering(e: Rules, s: Subject, res: Resource, action: Action): seq<Role> {
    Filter(Permitting(e, s, action), (r: Role) => r.MatchesDevice(res.labels))
  }

  /** The roles that authorise the request. */
  function Matching(e: Rules, s: Subject, res: Resource, action: Action): seq<Role> {
    Filter(Covering(e, s, res, action), (r: Role) => AbacFault(e.ipMatches, r, s).None?)
  }

  /** The first active session that holds control. */
  function FirstController(sessions: seq<ActiveSession>): (id: Option<string>)
    ensures id.Some? <==> ControlHeld(sessions)
  {
    if sessions == [] then None
    else
      assert forall i :: 1 <= i < |sessions| ==> sessions[i] == sessions[1..][i - 1];
      if Controls(sessions[0]) then Some(sessions[0].id) else FirstController(sessions[1..])
  }

  /** Why a request is refused, most general reason first; nothing if it is allowed. */
  function Denial(e: Rules, s: Subject, res: Resource, action: Action): Option<DenialReason> {
    if action == DesktopControl && ControlHeld(res.sessions) then
      Some(ConcurrentControlConflict(FirstController(res.sessions).value))
    else if Assigned(e.roles, s.roles) == [] then Some(NoMatchingRole)
    else if Permitting(e, s, action) == [] then Some(ActionNotAllowed)
    else if Covering(e, s, res, action) == [] then Some(DeviceNotMatched)
    else if Matching(e, s, res, action) == [] then AbacFault(e.ipMatches, Covering(e, s, res, action)[0], s)
    else None
  }

  function JoinNames(roles: seq<Role>): string {
    if roles == [] then "" else if |roles| == 1 then roles[0].name else roles[0].name + "," + JoinNames(roles[1..])
  }

  lemma {:induction false} FilterSnoc<T(!new)>(s: seq<T>, x: T, p: T -> bool)
    ensures Filter(s + [x], p) == Filter(s, p) + (if p(x) then [x] else [])
  {
    if s != [] {
      assert (s + [x])[1..] == s[1..] + [x];
      FilterSnoc(s[1..], x, p);
    }
  }

  class PolicyEngine {
    var roles: map<string, Role>
    const ipMatches: (string, string) -> bool

    function Current(): Rules
      reads this
    {
      Rules(roles, ipMatches)
    }

    constructor (ipMatches: (string, string) -> bool)
      ensures roles == map[] && this.ipMatches == ipMatches
    {
      this.roles := map[];
      this.ipMatches := ipMatches;
    }

    /** Adds a role, or replaces the one with its name. */
    method AddRole(role: Role)
      modifies this
      ensures roles == old(roles)[role.name := role]
    {
      roles := roles[role.name := role];
    }

    /** The exclusivity loop: the first active session that holds desktop control. */
    method FindConflict(sessions: seq<ActiveSession>) returns (conflict: Option<string>)
      ensures conflict == FirstController(sessions)
    {
      for i := 0 to |sessions|
        invariant FirstController(sessions) == FirstController(sessions[i..])
      {
        if Controls(sessions[i]) {
          return Some(sessions[i].id);
        }
        assert sessions[i..][1..] == sessions[i + 1..];
      }
      conflict := None;
    }

    /** The ABAC loop: the roles that pass, and the first failure met on the way. */
    method SplitByAbac(covering: seq<Role>, s: Subject)
      returns (matching: seq<Role>, firstFailure: Option<DenialReason>)
      ensures matching == Filter(covering, (r: Role) => AbacFault(ipMatches, r, s).None?)
      ensures covering != [] && matching == [] ==> firstFailure == AbacFault(ipMatches, covering[0], s)
      ensures covering != [] && matching == [] ==> firstFailure.Some?
    {
      matching, firstFailure := [], None;
      var passes := (r: Role) => AbacFault(ipMatches, r, s).None?;
      for i := 0 to |covering|
        invariant matching == Filter(covering[..i], passes)
        invariant i == 0 ==> firstFailure.None?
        invariant i > 0 && matching == [] ==> firstFailure == AbacFault(ipMatches, covering[0], s) && firstFailure.Some?
      {
        FilterSnoc(covering[..i], covering[i], passes);
        assert covering[..i + 1] == covering[..i] + [covering[i]];
        var fault := AbacFault(ipMatches, covering[i], s);
        if fault.None? {
          matching := matching + [covering[i]];
        } else if firstFailure.None? {
          firstFailure := fault;
        }
      }
      assert covering[..|covering|] == covering;
    }

    method UnionOfActions(roles: seq<Role>) returns (actions: set<Action>)
      ensures actions == set r, a | r in roles && a in r.allowedActions :: a
    {
      actions := {};
      for i := 0 to |roles|
        invariant actions == set r, a | r in roles[..i] && a in r.allowedActions :: a
      {
        assert forall r :: r in roles[..i + 1] <==> r in roles[..i] || r == roles[i];
        actions := actions + roles[i].allowedActions;
      }
      assert roles[..|roles|] == roles;
    }

    /** `evaluate`: denied with exactly the reason that applies, or allowed with the join of the grants of
        all matching roles in the narrowing order. */
    method Evaluate(s: Subject, res: Resource, action: Action) returns (d: Decision)
      ensures d.Denied? ==> Denial(Current(), s, res, action) == Some(d.reason)
      ensures d.Allowed? ==>
                && Denial(Current(), s, res, action).None?
                && IsJoin(d.grant, Matching(Current(), s, res, action))
                && d.matchedRole == JoinNames(Matching(Current(), s, res, action))
    {
      if action == DesktopControl {
        var conflict := FindConflict(res.sessions);
        if conflict.Some? {
          return Denied(ConcurrentControlConflict(conflict.value));
        }
      }
      if Assigned(roles, s.roles) == [] {
        return Denied(NoMatchingRole);
      }
      var permitting := Permitting(Current(), s, action);
      if permitting == [] {
        return Denied(ActionNotAllowed);
      }
      var covering := Covering(Current(), s, res, action);
      if covering == [] {
        return Denied(DeviceNotMatched);
      }
      var matching, firstFailure := SplitByAbac(covering, s);
      if matching == [] {
        return Denied(firstFailure.value);
      }
      if |matching| == 1 {
        SingleGrantIsJoin(matching);
        return Allowed(GrantOf(matching[0]), matching[0].name);
      }
      var actions := UnionOfActions(matching);
      MergeIsJoin(actions, matching);
      d := Allowed(Grant(actions, MergedRestrictions(matching)), JoinNames(matching));
    }
  }

  lemma SingleGrantIsJoin(roles: seq<Role>)
    requires |roles| == 1
    ensures IsJoin(GrantOf(roles[0]), roles)
  {
    assert roles[0] in roles;
    BelowIsPartialOrder(GrantOf(roles[0]), GrantOf(roles[0]), GrantOf(roles[0]));
  }

  // ---- What decisions promise --------------------------------------------------------------

  /** Every matching role's own grant is an accepted narrowing of what was granted. */
  lemma SingleRoleGrantsAreNarrowings(g: Grant, roles: seq<Role>, r: Role)
    requires IsJoin(g, roles) && r in roles
    ensures ValidateNarrowing(g, GrantOf(r)) == Ok(GrantOf(r).restrictions)
  {
    ValidatorDecidesOrder(g, GrantOf(r));
  }

  lemma MatchingMembers(e: Rules, s: Subject, res: Resource, action: Action, r: Role)
    ensures r in Matching(e, s, res, action) <==>
              && (exists n :: n in s.roles && n in e.roles && e.roles[n] == r)
              && action in r.allowedActions && r.MatchesDevice(res.labels) && AbacFault(e.ipMatches, r, s).None?
  {
    assert r in Assigned(e.roles, s.roles) <==> exists n :: n in s.roles && n in e.roles && e.roles[n] == r;
    assert r in Permitting(e, s, action) <==> r in Assigned(e.roles, s.roles) && action in r.allowedActions;
    assert r in Covering(e, s, res, action) <==> r in Permitting(e, s, action) && r.MatchesDevice(res.labels);
  }

  /** A request is allowed exactly when control is not taken and some role matches. */
  lemma AllowedIffSomeRoleMatches(e: Rules, s: Subject, res: Resource, action: Action)
    ensures Denial(e, s, res, action).None? <==>
              !(action == DesktopControl && ControlHeld(res.sessions)) && Matching(e, s, res, action) != []
  {
    if Matching(e, s, res, action) != [] {
      var r := Matching(e, s, res, action)[0];
      assert r in Matching(e, s, res, action);
      assert r in Covering(e, s, res, action);
      assert r in Permitting(e, s, action);
      assert r in Assigned(e.roles, s.roles);
    } else if Covering(e, s, res, action) != [] {
      var r := Covering(e, s, res, action)[0];
      assert r !in Matching(e, s, res, action);
    }
  }

  /** More role names for the policy or the subject: every known assigned role stays. */
  ghost predicate MoreRoles(e: Rules, s: Subject, e': Rules, s': Subject) {
    && e'.ipMatches == e.ipMatches && (forall n :: n in e.roles ==> n in e'.roles && e'.roles[n] == e.roles[n])
    && s' == s.(roles := s'.roles) && forall n :: n in s.roles ==> n in s'.roles
  }

  lemma MoreRolesKeepMatch(e: Rules, s: Subject, e': Rules, s': Subject, res: Resource, action: Action, r: Role)
    requires MoreRoles(e, s, e', s') && r in Matching(e, s, res, action)
    ensures r in Matching(e', s', res, action)
  {
    MatchingMembers(e, s, res, action, r);
    MatchingMembers(e', s', res, action, r);
    var n :| n in s.roles && n in e.roles && e.roles[n] == r;
    assert n in s'.roles && n in e'.roles && e'.roles[n] == r;
  }

  /** Giving a subject more roles, or the policy more role names, never removes access: the request stays
      allowed and the grant only grows. */
  lemma MoreRolesNeverRemoveAccess(e: Rules, s: Subject, e': Rules, s': Subject, res: Resource, action: Action)
    requires MoreRoles(e, s, e', s') && Denial(e, s, res, action).None?
    ensures Denial(e', s', res, action).None?
    ensures forall g, g' ::
              IsJoin(g, Matching(e, s, res, action)) && IsJoin(g', Matching(e', s', res, action)) ==> Below(g, g')
  {
    AllowedIffSomeRoleMatches(e, s, res, action);
    AllowedIffSomeRoleMatches(e', s', res, action);
    var roles, roles' := Matching(e, s, res, action), Matching(e', s', res, action);
    forall r | r in roles ensures r in roles' {
      MoreRolesKeepMatch(e, s, e', s', res, action, r);
    }
    assert roles[0] in roles';
    forall g, g' | IsJoin(g, roles) && IsJoin(g', roles') ensures Below(g, g') {
      JoinIsMonotone(g, roles, g', roles');
    }
  }

  /** Exclusivity guards requests for control, not every grant that includes it: beside a session that holds
      control, an allowed request is granted control exactly when it asked for something else and a matching
      role includes control. */
  lemma ControlBesideAController(e: Rules, s: Subject, res: Resource, action: Action, g: Grant)
    requires ControlHeld(res.sessions) && Denial(e, s, res, action).None?
    requires IsJoin(g, Matching(e, s, res, action))
    ensures action != DesktopControl
    ensures DesktopControl in g.actions <==>
              exists r :: r in Matching(e, s, res, action) && DesktopControl in r.allowedActions
  {
    var roles := Matching(e, s, res, action);
    if !exists r :: r in roles && DesktopControl in r.allowedActions {
      var smaller := g.(actions := g.actions - {DesktopControl});
      forall r | r in roles ensures Below(GrantOf(r), smaller) {
        assert Below(GrantOf(r), g);
      }
      assert Below(g, smaller);
    } else {
      var r :| r in roles && DesktopControl in r.allowedActions;
      assert Below(GrantOf(r), g);
    }
  }

  lemma FilterOne<T(!new)>(x: T, p: T -> bool)
    requires p(x)
    ensures Filter([x], p) == [x]
  {
  }

  /** A role that allows viewing and controlling anything, without conditions. */
  const OPERATOR := Role("operator", {DesktopView, DesktopControl}, [],
                         Conditions(false, false, false, false, false, None, None, None, []))

  /** It happens: beside an active controller, an operator who asks for control is refused, and one who asks to
      view is granted control as well. */
  lemma ViewerIsGrantedControl(e: Rules, s: Subject, res: Resource)
    requires e.roles == map["operator" := OPERATOR] && s == Subject(["operator"], false, false, None)
    requires res == Resource(map[], [ActiveSession("first", {DesktopControl}, true)])
    ensures ControlHeld(res.sessions)
    ensures Denial(e, s, res, DesktopControl) == Some(ConcurrentControlConflict("first"))
    ensures Denial(e, s, res, DesktopView).None?
    ensures IsJoin(GrantOf(OPERATOR), Matching(e, s, res, DesktopView)) && DesktopControl in GrantOf(OPERATOR).actions
  {
    assert Controls(res.sessions[0]);
    assert Assigned(e.roles, ["operator"]) == [OPERATOR] by {
      assert ["operator"][1..] == [];
    }
    FilterOne(OPERATOR, (r: Role) => DesktopView in r.allowedActions);
    assert Permitting(e, s, DesktopView) == [OPERATOR];
    FilterOne(OPERATOR, (r: Role) => r.MatchesDevice(res.labels));
    assert Covering(e, s, res, DesktopView) == [OPERATOR];
    FilterOne(OPERATOR, (r: Role) => AbacFault(e.ipMatches, r, s).None?);
    assert Matching(e, s, res, DesktopView) == [OPERATOR];
    SingleGrantIsJoin([OPERATOR]);
  }
}
