/** What a policy decision depends on: every reason for a denial, and which changes of a policy keep access. */
module PolicyDecisions {
  import opened Wrappers
  import opened Octets
  import opened Policy
  import opened PolicyEngine

  // ---- Conditions of a role ----------------------------------------------------------------

  /** A condition of the role that the subject does not meet. */
  predicate Unmet(ipMatches: (string, string) -> bool, r: Role, s: Subject, d: DenialReason) {
    match d
    case MfaRequired => r.conditions.requireMfa && !s.mfa
    case ManagedClientDeviceRequired => r.conditions.managedClientDevice && !s.managedDevice
    case IpAddressNotAllowed =>
      && r.conditions.allowedIpRanges != []
      && !(s.ip.Some? && exists range :: range in r.conditions.allowedIpRanges && ipMatches(s.ip.value, range))
    case _ => false
  }

  /** In which order unmet conditions are reported. */
  function Precedence(d: DenialReason): nat {
    match d
    case MfaRequired => 0
    case ManagedClientDeviceRequired => 1
    case IpAddressNotAllowed => 2
    case _ => 3
  }

  /** Of the unmet conditions of the role, this is reported. */
  ghost predicate FirstUnmet(ipMatches: (string, string) -> bool, r: Role, s: Subject, d: DenialReason) {
    Unmet(ipMatches, r, s, d) && forall c :: Unmet(ipMatches, r, s, c) ==> Precedence(d) <= Precedence(c)
  }

  /** A role passes exactly when all its conditions are met, and otherwise the first unmet one is reported. */
  lemma AbacFaultExactly(ipMatches: (string, string) -> bool, r: Role, s: Subject, d: DenialReason)
    ensures AbacFault(ipMatches, r, s).None? <==> forall c :: !Unmet(ipMatches, r, s, c)
    ensures AbacFault(ipMatches, r, s) == Some(d) <==> FirstUnmet(ipMatches, r, s, d)
  {
    var fault := AbacFault(ipMatches, r, s);
    assert fault.Some? ==> Unmet(ipMatches, r, s, fault.value);
  }

  // ---- Reasons for a denial ----------------------------------------------------------------

  /** The role assigned under name number `i`, if the policy knows it. */
  function RoleAt(e: Rules, s: Subject, i: nat): Option<Role> {
    if i < |s.roles| && s.roles[i] in e.roles then Some(e.roles[s.roles[i]]) else None
  }

  predicate Known(e: Rules, s: Subject, i: nat) {
    RoleAt(e, s, i).Some?
  }

  predicate Allows(e: Rules, s: Subject, action: Action, i: nat) {
    Known(e, s, i) && action in RoleAt(e, s, i).value.allowedActions
  }

  predicate Covers(e: Rules, s: Subject, res: Resource, action: Action, i: nat) {
    Allows(e, s, action, i) && RoleAt(e, s, i).value.MatchesDevice(res.labels)
  }

  /** All conditions of the role are met. */
  ghost predicate Authorises(e: Rules, s: Subject, res: Resource, action: Action, i: nat) {
    Covers(e, s, res, action, i) && forall c :: !Unmet(e.ipMatches, RoleAt(e, s, i).value, s, c)
  }

  /** Session number `i` is the first that holds control. */
  predicate FirstControls(sessions: seq<ActiveSession>, i: nat) {
    && i < |sessions| && sessions[i].isActive && DesktopControl in sessions[i].grantedActions
    && forall j :: 0 <= j < i ==> !(sessions[j].isActive && DesktopControl in sessions[j].grantedActions)
  }

  /** Why a request should be refused, most general reason first. */
  ghost predicate Refuses(e: Rules, s: Subject, res: Resource, action: Action, d: DenialReason) {
    match d
    case ConcurrentControlConflict(session) => ControlledBy(res.sessions, action, session)
    case NoMatchingRole => !Blocked(res.sessions, action) && forall i: nat :: !Known(e, s, i)
    case ActionNotAllowed =>
      !Blocked(res.sessions, action) && (exists i: nat :: Known(e, s, i)) && forall i: nat :: !Allows(e, s, action, i)
    case DeviceNotMatched =>
      && !Blocked(res.sessions, action) && (exists i: nat :: Allows(e, s, action, i))
      && forall i: nat :: !Covers(e, s, res, action, i)
    case _ =>
      && !Blocked(res.sessions, action) && (forall i: nat :: !Authorises(e, s, res, action, i))
      && exists i: nat :: FirstCovers(e, s, res, action, i) && FirstUnmet(e.ipMatches, RoleAt(e, s, i).value, s, d)
  }

  ghost predicate ControlledBy(sessions: seq<ActiveSession>, action: Action, session: string) {
    action == DesktopControl && exists i: nat :: FirstControls(sessions, i) && sessions[i].id == session
  }

  ghost predicate Blocked(sessions: seq<ActiveSession>, action: Action) {
    action == DesktopControl && exists i: nat :: FirstControls(sessions, i)
  }

  ghost predicate FirstCovers(e: Rules, s: Subject, res: Resource, action: Action, i: nat) {
    Covers(e, s, res, action, i) && forall j: nat :: j < i ==> !Covers(e, s, res, action, j)
  }

  lemma {:induction false} FirstControllerIsFirst(sessions: seq<ActiveSession>)
    ensures FirstController(sessions).None? ==> forall i: nat :: !FirstControls(sessions, i)
    ensures FirstController(sessions).Some? ==>
              exists i: nat :: FirstControls(sessions, i) && sessions[i].id == FirstController(sessions).value
  {
    if sessions != [] {
      var rest := sessions[1..];
      FirstControllerIsFirst(rest);
      if Controls(sessions[0]) {
        assert FirstControls(sessions, 0);
      } else {
        forall i: nat | FirstControls(sessions, i) ensures i > 0 && FirstControls(rest, i - 1) {
        }
        if FirstController(rest).Some? {
          var i: nat :| FirstControls(rest, i) && rest[i].id == FirstController(rest).value;
          assert forall j :: 0 < j <= i ==> sessions[j] == rest[j - 1];
          assert FirstControls(sessions, i + 1);
        }
      }
    }
  }

  /** The roles at each stage, by the names they are assigned under. */
  lemma StagesExactly(e: Rules, s: Subject, res: Resource, action: Action)
    ensures Assigned(e.roles, s.roles) == [] <==> forall i: nat :: !Known(e, s, i)
    ensures Permitting(e, s, action) == [] <==> forall i: nat :: !Allows(e, s, action, i)
    ensures Covering(e, s, res, action) == [] <==> forall i: nat :: !Covers(e, s, res, action, i)
    ensures Matching(e, s, res, action) == [] <==> forall i: nat :: !Authorises(e, s, res, action, i)
  {
    forall i: nat | Known(e, s, i)
      ensures var r := RoleAt(e, s, i).value;
              && r in Assigned(e.roles, s.roles)
              && (Allows(e, s, action, i) ==> r in Permitting(e, s, action))
              && (Covers(e, s, res, action, i) ==> r in Covering(e, s, res, action))
              && (Authorises(e, s, res, action, i) ==> r in Matching(e, s, res, action))
    {
      KnownRoleStages(e, s, res, action, i);
    }
    if Assigned(e.roles, s.roles) != [] {
      var i := Place(e, s, Assigned(e.roles, s.roles)[0]);
    }
    if Permitting(e, s, action) != [] {
      var r := Permitting(e, s, action)[0];
      assert r in Permitting(e, s, action);
      var i := Place(e, s, r);
      assert Allows(e, s, action, i);
    }
    if Covering(e, s, res, action) != [] {
      var r := Covering(e, s, res, action)[0];
      assert r in Covering(e, s, res, action);
      assert r in Permitting(e, s, action);
      var i := Place(e, s, r);
      assert Covers(e, s, res, action, i);
    }
    if Matching(e, s, res, action) != [] {
      var r := Matching(e, s, res, action)[0];
      assert r in Matching(e, s, res, action);
      assert r in Covering(e, s, res, action) && AbacFault(e.ipMatches, r, s).None?;
      assert r in Permitting(e, s, action);
      var i := Place(e, s, r);
      AbacFaultExactly(e.ipMatches, r, s, MfaRequired);
      assert Authorises(e, s, res, action, i);
    }
  }

  lemma Place(e: Rules, s: Subject, r: Role) returns (i: nat)
    requires r in Assigned(e.roles, s.roles)
    ensures Known(e, s, i) && RoleAt(e, s, i).value == r
  {
    var n :| n in s.roles && n in e.roles && e.roles[n] == r;
    i :| 0 <= i < |s.roles| && s.roles[i] == n;
  }

  lemma KnownRoleStages(e: Rules, s: Subject, res: Resource, action: Action, i: nat)
    requires Known(e, s, i)
    ensures var r := RoleAt(e, s, i).value;
            && r in Assigned(e.roles, s.roles)
            && (Allows(e, s, action, i) ==> r in Permitting(e, s, action))
            && (Covers(e, s, res, action, i) ==> r in Covering(e, s, res, action))
            && (Authorises(e, s, res, action, i) ==> r in Matching(e, s, res, action))
  {
    var r := RoleAt(e, s, i).value;
    assert s.roles[i] in s.roles;
    AbacFaultExactly(e.ipMatches, r, s, MfaRequired);
  }

  /** The first role that covers the device is the first by name. */
  lemma {:induction false} CoveringStarts(e: Rules, s: Subject, res: Resource, action: Action)
    requires Covering(e, s, res, action) != []
    ensures exists i: nat ::
              FirstCovers(e, s, res, action, i) && RoleAt(e, s, i).value == Covering(e, s, res, action)[0]
    decreases |s.roles|
  {
    if s.roles != [] {
      var rest := s.(roles := s.roles[1..]);
      CoveringHead(e, s, res, action);
      if Covers(e, s, res, action, 0) {
        assert FirstCovers(e, s, res, action, 0);
      } else {
        CoveringStarts(e, rest, res, action);
        var i: nat :| FirstCovers(e, rest, res, action, i)
                      && RoleAt(e, rest, i).value == Covering(e, rest, res, action)[0];
        forall j: nat | j < i + 1 ensures !Covers(e, s, res, action, j) {
          if j > 0 {
            assert RoleAt(e, s, j) == RoleAt(e, rest, j - 1);
            assert !Covers(e, rest, res, action, j - 1);
          }
        }
        assert RoleAt(e, s, i + 1) == RoleAt(e, rest, i);
        assert FirstCovers(e, s, res, action, i + 1);
      }
    }
  }

  lemma CoveringHead(e: Rules, s: Subject, res: Resource, action: Action)
    requires s.roles != []
    ensures Covering(e, s, res, action) ==
            (if Covers(e, s, res, action, 0) then [RoleAt(e, s, 0).value] else [])
            + Covering(e, s.(roles := s.roles[1..]), res, action)
  {
    var rest := s.(roles := s.roles[1..]);
    var tail := Assigned(e.roles, rest.roles);
    if Known(e, s, 0) {
      var r := RoleAt(e, s, 0).value;
      assert Assigned(e.roles, s.roles) == [r] + tail;
      assert ([r] + tail)[1..] == tail;
      var permitted := Permitting(e, rest, action);
      if Allows(e, s, action, 0) {
        assert Permitting(e, s, action) == [r] + permitted;
        assert ([r] + permitted)[1..] == permitted;
      } else {
        assert Permitting(e, s, action) == permitted;
      }
    } else {
      assert Assigned(e.roles, s.roles) == tail;
    }
  }

  lemma BlockedExactly(sessions: seq<ActiveSession>)
    ensures ControlHeld(sessions) <==> exists i: nat :: FirstControls(sessions, i)
  {
    FirstControllerIsFirst(sessions);
  }

  /** The request is blocked by a session, or allowed, or refused by its roles. */
  lemma DenialApplies(e: Rules, s: Subject, res: Resource, action: Action)
    ensures Denial(e, s, res, action).None? <==>
              !Blocked(res.sessions, action) && exists i: nat :: Authorises(e, s, res, action, i)
    ensures Denial(e, s, res, action).Some? ==> Refuses(e, s, res, action, Denial(e, s, res, action).value)
  {
    StagesExactly(e, s, res, action);
    BlockedExactly(res.sessions);
    if Blocked(res.sessions, action) {
      FirstControllerIsFirst(res.sessions);
    } else if Covering(e, s, res, action) != [] && Matching(e, s, res, action) == [] {
      CoveringStarts(e, s, res, action);
      UnmatchedIsUnmet(e, s, res, action);
    }
  }

  /** When no role matches, the first one that covers the device has an unmet condition. */
  lemma UnmatchedIsUnmet(e: Rules, s: Subject, res: Resource, action: Action)
    requires Covering(e, s, res, action) != [] && Matching(e, s, res, action) == []
    ensures var r := Covering(e, s, res, action)[0];
            && AbacFault(e.ipMatches, r, s).Some?
            && FirstUnmet(e.ipMatches, r, s, AbacFault(e.ipMatches, r, s).value)
            && AbacFault(e.ipMatches, r, s).value in {MfaRequired, ManagedClientDeviceRequired, IpAddressNotAllowed}
  {
    var r := Covering(e, s, res, action)[0];
    assert r in Covering(e, s, res, action) && r !in Matching(e, s, res, action);
    AbacFaultExactly(e.ipMatches, r, s, AbacFault(e.ipMatches, r, s).value);
  }

  lemma FirstControlsOnce(sessions: seq<ActiveSession>, i: nat, j: nat)
    requires FirstControls(sessions, i) && FirstControls(sessions, j)
    ensures i == j
  {
  }

  /** At most one reason applies. */
  lemma RefusalIsUnique(e: Rules, s: Subject, res: Resource, action: Action, d: DenialReason, d': DenialReason)
    requires Refuses(e, s, res, action, d) && Refuses(e, s, res, action, d')
    ensures d == d'
  {
    if d.ConcurrentControlConflict? && d'.ConcurrentControlConflict? {
      var i: nat :| FirstControls(res.sessions, i) && res.sessions[i].id == d.session;
      var j: nat :| FirstControls(res.sessions, j) && res.sessions[j].id == d'.session;
      FirstControlsOnce(res.sessions, i, j);
    } else if Precedence(d) < 3 && Precedence(d') < 3 {
      var i: nat :| FirstCovers(e, s, res, action, i) && FirstUnmet(e.ipMatches, RoleAt(e, s, i).value, s, d);
      var j: nat :| FirstCovers(e, s, res, action, j) && FirstUnmet(e.ipMatches, RoleAt(e, s, j).value, s, d');
      assert i == j;
      assert Precedence(d) == Precedence(d');
    }
  }

  /** A request is refused for a reason exactly when that reason applies, and allowed exactly when control is not taken
      and some assigned role allows the action, covers the device and has all its conditions met. */
  lemma DenialExactly(e: Rules, s: Subject, res: Resource, action: Action, d: DenialReason)
    ensures Denial(e, s, res, action).None? <==>
              !Blocked(res.sessions, action) && exists i: nat :: Authorises(e, s, res, action, i)
    ensures Denial(e, s, res, action) == Some(d) <==> Refuses(e, s, res, action, d)
  {
    DenialApplies(e, s, res, action);
    if Refuses(e, s, res, action, d) {
      NothingToRefuse(e, s, res, action, d);
      RefusalIsUnique(e, s, res, action, d, Denial(e, s, res, action).value);
    }
  }

  lemma NothingToRefuse(e: Rules, s: Subject, res: Resource, action: Action, d: DenialReason)
    requires Refuses(e, s, res, action, d)
    ensures Blocked(res.sessions, action) || forall i: nat :: !Authorises(e, s, res, action, i)
  {
  }

  // ---- What is granted ---------------------------------------------------------------------

  /** How long a role lets a session last: an hour unless it says otherwise. */
  function Lasting(r: Role): u64 {
    match r.conditions.maxDurationSeconds
    case Some(seconds) => seconds
    case None => 3600
  }

  predicate LimitsResolution(r: Role) {
    r.conditions.maxResolutionWidth.Some? && r.conditions.maxResolutionHeight.Some?
  }

  /** The grant gives whatever some role gives: its actions, its channels, its duration, and its resolution, without a
      limit as soon as one role sets none. */
  ghost predicate GivesWhatSomeGives(g: Grant, roles: seq<Role>) {
    && (forall a :: a in g.actions <==> exists r :: r in roles && a in r.allowedActions)
    && (g.restrictions.clipboardEnabled <==> exists r :: r in roles && r.conditions.clipboardEnabled)
    && (g.restrictions.fileTransferEnabled <==> exists r :: r in roles && r.conditions.fileTransferEnabled)
    && (g.restrictions.audioEnabled <==> exists r :: r in roles && r.conditions.audioEnabled)
    && (forall r :: r in roles ==> Lasting(r) <= g.restrictions.maxDurationSeconds)
    && (exists r :: r in roles && Lasting(r) == g.restrictions.maxDurationSeconds)
    && (g.restrictions.maxResolution.None? <==> exists r :: r in roles && !LimitsResolution(r))
    && (g.restrictions.maxResolution.Some? ==> IsLargest(g.restrictions.maxResolution.value, roles))
  }

  ghost predicate IsLargest(size: (u32, u32), roles: seq<Role>) {
    && (forall r :: r in roles && LimitsResolution(r) ==>
          r.conditions.maxResolutionWidth.value <= size.0 && r.conditions.maxResolutionHeight.value <= size.1)
    && (exists r :: r in roles && r.conditions.maxResolutionWidth == Some(size.0))
    && (exists r :: r in roles && r.conditions.maxResolutionHeight == Some(size.1))
  }

  lemma MergeGives(actions: set<Action>, roles: seq<Role>)
    requires roles != [] && actions == set r, a | r in roles && a in r.allowedActions :: a
    ensures GivesWhatSomeGives(Grant(actions, MergedRestrictions(roles)), roles)
  {
    MergedResolutionBounds(roles);
    DurationIsLongest(roles);
    var m := MergedResolution(roles);
    if m.Some? {
      var w :| w in roles && w.conditions.MaxResolution().value.0 == m.value.0;
      var h :| h in roles && h.conditions.MaxResolution().value.1 == m.value.1;
      forall r | r in roles ensures Within(r.conditions.MaxResolution(), m) {
      }
      assert IsLargest(m.value, roles);
    }
  }

  lemma DurationIsLongest(roles: seq<Role>)
    requires roles != []
    ensures forall r :: r in roles ==> Lasting(r) <= MergedDuration(roles)
    ensures exists r :: r in roles && Lasting(r) == MergedDuration(roles)
  {
    var ds := Durations(roles);
    forall r | r in roles ensures Lasting(r) <= MergedDuration(roles) {
      var i :| 0 <= i < |roles| && roles[i] == r;
      assert ds[i] in ds;
    }
    var i :| 0 <= i < |ds| && ds[i] == MergedDuration(roles);
    assert roles[i] in roles && Lasting(roles[i]) == MergedDuration(roles);
  }

  /** The join that an allowed request is granted gives exactly what some matching role gives. */
  lemma GrantedExactly(g: Grant, roles: seq<Role>)
    requires roles != [] && IsJoin(g, roles)
    ensures GivesWhatSomeGives(g, roles)
  {
    var actions := set r, a | r in roles && a in r.allowedActions :: a;
    MergeIsJoin(actions, roles);
    MergeGives(actions, roles);
    JoinIsMonotone(g, roles, Grant(actions, MergedRestrictions(roles)), roles);
  }

  // ---- Changes that keep access ------------------------------------------------------------

  /** The second policy differs from the first in its selectors alone, and its roles cover the second device wherever
      the first policy's roles cover the first. */
  ghost predicate CoversMore(e: Rules, res: Resource, e': Rules, res': Resource) {
    && e'.ipMatches == e.ipMatches && e'.roles.Keys == e.roles.Keys && res'.sessions == res.sessions
    && forall n :: n in e.roles ==>
         && e'.roles[n] == e.roles[n].(selectors := e'.roles[n].selectors)
         && (e.roles[n].MatchesDevice(res.labels) ==> e'.roles[n].MatchesDevice(res'.labels))
  }

  /** Whoever is allowed something is still allowed it, and granted no less. */
  ghost predicate KeepsAccess(e: Rules, res: Resource, e': Rules, res': Resource, s: Subject, action: Action) {
    Denial(e, s, res, action).None? ==>
      && Denial(e', s, res', action).None?
      && forall g, g' ::
           IsJoin(g, Matching(e, s, res, action)) && IsJoin(g', Matching(e', s, res', action)) ==> Below(g, g')
  }

  lemma WiderCoverageKeepsAccess(e: Rules, res: Resource, e': Rules, res': Resource, s: Subject, action: Action)
    requires CoversMore(e, res, e', res')
    ensures KeepsAccess(e, res, e', res', s, action)
  {
    AllowedIffSomeRoleMatches(e, s, res, action);
    AllowedIffSomeRoleMatches(e', s, res', action);
    if Denial(e, s, res, action).None? {
      var roles, roles' := Matching(e, s, res, action), Matching(e', s, res', action);
      forall r | r in roles ensures exists r' :: r' in roles' && GrantOf(r') == GrantOf(r) {
        var r' := MatchingTwin(e, res, e', res', s, action, r);
      }
      assert roles[0] in roles;
      forall g, g' | IsJoin(g, roles) && IsJoin(g', roles') ensures Below(g, g') {
        TwinsJoinBelow(g, roles, g', roles');
      }
    }
  }

  lemma TwinsJoinBelow(g: Grant, roles: seq<Role>, g': Grant, roles': seq<Role>)
    requires IsJoin(g, roles) && IsJoin(g', roles')
    requires forall r :: r in roles ==> exists r' :: r' in roles' && GrantOf(r') == GrantOf(r)
    ensures Below(g, g')
  {
    forall r | r in roles ensures Below(GrantOf(r), g') {
      var r' :| r' in roles' && GrantOf(r') == GrantOf(r);
    }
  }

  /** A matching role still matches, with other selectors and the same grant. */
  lemma MatchingTwin(
      e: Rules, res: Resource, e': Rules, res': Resource, s: Subject, action: Action, r: Role) returns (r': Role)
    requires CoversMore(e, res, e', res') && r in Matching(e, s, res, action)
    ensures r' in Matching(e', s, res', action) && GrantOf(r') == GrantOf(r)
  {
    MatchingMembers(e, s, res, action, r);
    var n :| n in s.roles && n in e.roles && e.roles[n] == r;
    r' := e'.roles[n];
    assert n in e'.roles.Keys;
    MatchingMembers(e', s, res', action, r');
  }

  /** One more selector for a role that already has one never takes access away; labelling a device further never does
      either. */
  lemma MoreSelectorsAndLabelsKeepAccess(
      e: Rules, name: string, more: Selector, res: Resource, labels: Labels, s: Subject, action: Action)
    requires name in e.roles && e.roles[name].selectors != [] && Extends(labels, res.labels)
    ensures var role := e.roles[name];
            var e' := e.(roles := e.roles[name := role.(selectors := role.selectors + [more])]);
            KeepsAccess(e, res, e', res, s, action)
    ensures KeepsAccess(e, res, e, res.(labels := labels), s, action)
  {
    var role := e.roles[name];
    var e' := e.(roles := e.roles[name := role.(selectors := role.selectors + [more])]);
    SelectorsAreAlternatives(role, role.selectors, [more], more, res.labels);
    assert role.(selectors := role.selectors) == role;
    assert e'.roles.Keys == e.roles.Keys;
    WiderCoverageKeepsAccess(e, res, e', res, s, action);
    forall n | n in e.roles && e.roles[n].MatchesDevice(res.labels) ensures e.roles[n].MatchesDevice(labels) {
      MoreLabelsKeepDevice(e.roles[n], res.labels, labels);
    }
    forall n | n in e.roles ensures e.roles[n] == e.roles[n].(selectors := e.roles[n].selectors) {
    }
    WiderCoverageKeepsAccess(e, res, e, res.(labels := labels), s, action);
  }

  /** The first selector of a role does take access away: an operator, so far without selectors, may not even view an
      unlabelled device once a label is asked for. */
  lemma FirstSelectorCanRemoveAccess(e: Rules, e': Rules, s: Subject, res: Resource)
    requires e.roles == map["operator" := OPERATOR] && s == Subject(["operator"], false, false, None)
    requires e' == e.(roles := map["operator" := OPERATOR.(selectors := [Exact("env", "prod")])])
    requires res == Resource(map[], [])
    ensures Denial(e, s, res, DesktopView).None?
    ensures Denial(e', s, res, DesktopView) == Some(DeviceNotMatched)
  {
    DenialExactly(e, s, res, DesktopView, DeviceNotMatched);
    DenialExactly(e', s, res, DesktopView, DeviceNotMatched);
    assert Authorises(e, s, res, DesktopView, 0);
    assert Allows(e', s, DesktopView, 0);
    SelectorsAreAlternatives(OPERATOR, [], [], Exact("env", "prod"), map[]);
  }

  /** Sessions that have ended stand in nobody's way. */
  lemma {:induction false} EndedSessionsNeverBlock(e: Rules, s: Subject, res: Resource, action: Action)
    ensures var active := Filter(res.sessions, (x: ActiveSession) => x.isActive);
            Denial(e, s, res.(sessions := active), action).None? <==> Denial(e, s, res, action).None?
  {
    var active := Filter(res.sessions, (x: ActiveSession) => x.isActive);
    AllowedIffSomeRoleMatches(e, s, res, action);
    AllowedIffSomeRoleMatches(e, s, res.(sessions := active), action);
    HeldByMember(res.sessions);
    HeldByMember(active);
    assert Matching(e, s, res.(sessions := active), action) == Matching(e, s, res, action);
  }

  lemma HeldByMember(sessions: seq<ActiveSession>)
    ensures ControlHeld(sessions) <==>
              exists x :: x in sessions && x.isActive && DesktopControl in x.grantedActions
  {
  }

  /** The matched roles are reported by name, in order, with commas between them. */
  lemma {:induction false} NamesAreJoined(x: seq<Role>, y: seq<Role>, one: Role)
    ensures JoinNames([one]) == one.name && JoinNames([]) == ""
    ensures x != [] && y != [] ==> JoinNames(x + y) == JoinNames(x) + "," + JoinNames(y)
  {
    if |x| == 1 && y != [] {
      assert (x + y)[1..] == y;
    } else if |x| > 1 && y != [] {
      assert (x + y)[1..] == x[1..] + y;
      NamesAreJoined(x[1..], y, one);
    }
  }
}
