/** Roles, session restrictions, and the order in which one grant narrows another. */
module Policy {
  import opened Wrappers
  import opened Octets

  const DEFAULT_MAX_DURATION_SECONDS: u64 := 3600

  datatype Action =
    | DesktopView | DesktopControl | ClipboardRead | ClipboardWrite | FileUpload | FileDownload
    | AudioListen | AudioSend | SessionRecord | SessionRequest | SessionApprove

  type Labels = map<string, string>

  datatype Selector = Wildcard | Exact(key: string, value: string) | MatchAll(labels: Labels)

  /** One key-value requirement, where a star on either side matches anything. */
  predicate PairMatches(key: string, value: string, labels: Labels) {
    if key == "*" && value == "*" then true
    else if value == "*" then key in labels
    else if key == "*" then exists k :: k in labels && labels[k] == value
    else key in labels && labels[key] == value
  }

  predicate SelectorMatches(s: Selector, labels: Labels) {
    match s
    case Wildcard => true
    case Exact(key, value) => PairMatches(key, value, labels)
    case MatchAll(required) => forall k :: k in required ==> PairMatches(k, required[k], labels)
  }

  /** A label meets a requirement, where a star in the requirement stands for anything. */
  predicate LabelMeets(key: string, value: string, k: string, v: string) {
    (key == k || key == "*") && (value == v || value == "*")
  }

  /** A requirement is met exactly when some label meets it, or when it asks for nothing; without stars, exactly when
      the device has that label. */
  lemma PairMatchesExactly(key: string, value: string, labels: Labels)
    ensures PairMatches(key, value, labels) <==>
              (key == "*" && value == "*") || exists k :: k in labels && LabelMeets(key, value, k, labels[k])
    ensures key != "*" && value != "*" ==> (PairMatches(key, value, labels) <==> (key, value) in labels.Items)
  {
  }

  /** A set of requirements is met exactly when every part of it is, down to the single requirements. */
  lemma MatchAllIsConjunction(x: Labels, y: Labels, key: string, value: string, labels: Labels)
    requires forall k :: k in x && k in y ==> x[k] == y[k]
    ensures SelectorMatches(MatchAll(x + y), labels) <==>
              SelectorMatches(MatchAll(x), labels) && SelectorMatches(MatchAll(y), labels)
    ensures SelectorMatches(MatchAll(map[key := value]), labels) <==> SelectorMatches(Exact(key, value), labels)
    ensures SelectorMatches(MatchAll(map[]), labels) && SelectorMatches(Wildcard, labels)
  {
    var both := x + y;
    assert forall k :: k in x ==> k in both && both[k] == x[k];
    assert forall k :: k in y ==> k in both && both[k] == y[k];
    assert key in map[key := value];
  }

  /** The device has at least these labels. */
  predicate Extends(more: Labels, labels: Labels) {
    forall k :: k in labels ==> k in more && more[k] == labels[k]
  }

  /** More labels never lose a match. */
  lemma MoreLabelsKeepMatch(s: Selector, labels: Labels, more: Labels)
    requires Extends(more, labels) && SelectorMatches(s, labels)
    ensures SelectorMatches(s, more)
  {
    match s
    case Wildcard =>
    case Exact(key, value) => MoreLabelsKeepPair(key, value, labels, more);
    case MatchAll(required) =>
      forall k | k in required ensures PairMatches(k, required[k], more) {
        MoreLabelsKeepPair(k, required[k], labels, more);
      }
  }

  lemma MoreLabelsKeepPair(key: string, value: string, labels: Labels, more: Labels)
    requires Extends(more, labels) && PairMatches(key, value, labels)
    ensures PairMatches(key, value, more)
  {
  }

  datatype Conditions = Conditions(
    requireMfa: bool,
    managedClientDevice: bool,
    clipboardEnabled: bool,
    fileTransferEnabled: bool,
    audioEnabled: bool,
    maxDurationSeconds: Option<u64>,
    maxResolutionWidth: Option<u32>,
    maxResolutionHeight: Option<u32>,
    allowedIpRanges: seq<string>)
  {
    /** A resolution limit needs both dimensions. */
    function MaxResolution(): Option<(u32, u32)> {
      if maxResolutionWidth.Some? && maxResolutionHeight.Some? then
        Some((maxResolutionWidth.value, maxResolutionHeight.value))
      else None
    }

    function MaxDuration(): u64 {
      if maxDurationSeconds.Some? then maxDurationSeconds.value else DEFAULT_MAX_DURATION_SECONDS
    }
  }

  datatype Restrictions = Restrictions(
    clipboardEnabled: bool,
    fileTransferEnabled: bool,
    audioEnabled: bool,
    maxDurationSeconds: u64,
    maxResolution: Option<(u32, u32)>)

  datatype Role = Role(name: string, allowedActions: set<Action>, selectors: seq<Selector>, conditions: Conditions)
  {
    predicate MatchesDevice(labels: Labels) {
      selectors == [] || exists i :: 0 <= i < |selectors| && SelectorMatches(selectors[i], labels)
    }
  }

  /** A role with selectors covers a device exactly when one of them does; a role without covers every device. */
  lemma SelectorsAreAlternatives(r: Role, x: seq<Selector>, y: seq<Selector>, one: Selector, labels: Labels)
    ensures x != [] && y != [] ==>
              (r.(selectors := x + y).MatchesDevice(labels) <==>
                 r.(selectors := x).MatchesDevice(labels) || r.(selectors := y).MatchesDevice(labels))
    ensures r.(selectors := [one]).MatchesDevice(labels) <==> SelectorMatches(one, labels)
    ensures r.(selectors := []).MatchesDevice(labels)
  {
    var all := x + y;
    assert forall i :: 0 <= i < |x| ==> all[i] == x[i];
    assert forall i :: 0 <= i < |y| ==> all[|x| + i] == y[i];
    assert [one][0] == one;
  }

  lemma MoreLabelsKeepDevice(r: Role, labels: Labels, more: Labels)
    requires Extends(more, labels) && r.MatchesDevice(labels)
    ensures r.MatchesDevice(more)
  {
    if r.selectors != [] {
      var i :| 0 <= i < |r.selectors| && SelectorMatches(r.selectors[i], labels);
      MoreLabelsKeepMatch(r.selectors[i], labels, more);
    }
  }

  /** What a session may do: its actions and its restrictions. */
  datatype Grant = Grant(actions: set<Action>, restrictions: Restrictions)

  /** A single role's own grant (`SessionRestrictions::from_conditions`). */
  function GrantOf(r: Role): Grant {
    Grant(r.allowedActions,
          Restrictions(r.conditions.clipboardEnabled, r.conditions.fileTransferEnabled, r.conditions.audioEnabled,
                       r.conditions.MaxDuration(), r.conditions.MaxResolution()))
  }

  // ---- Narrowing ---------------------------------------------------------------------------

  datatype Widening = Clipboard | FileTransfer | Audio | Duration | ResolutionRemoved | ResolutionIncreased

  datatype NarrowingError = ActionEscalation(unauthorized: set<Action>) | RestrictionWidened(what: Widening)

  /** `validate_policy_narrowing`. */
  function ValidateNarrowing(original: Grant, proposed: Grant): Result<Restrictions, NarrowingError> {
    var o, p := original.restrictions, proposed.restrictions;
    if !(proposed.actions <= original.actions) then Err(ActionEscalation(proposed.actions - original.actions))
    else if !o.clipboardEnabled && p.clipboardEnabled then Err(RestrictionWidened(Clipboard))
    else if !o.fileTransferEnabled && p.fileTransferEnabled then Err(RestrictionWidened(FileTransfer))
    else if !o.audioEnabled && p.audioEnabled then Err(RestrictionWidened(Audio))
    else if p.maxDurationSeconds > o.maxDurationSeconds then Err(RestrictionWidened(Duration))
    else if o.maxResolution.Some? && p.maxResolution.None? then Err(RestrictionWidened(ResolutionRemoved))
    else if o.maxResolution.Some?
            && (|| p.maxResolution.value.0 > o.maxResolution.value.0
                || p.maxResolution.value.1 > o.maxResolution.value.1) then
      Err(RestrictionWidened(ResolutionIncreased))
    else Ok(p)
  }

  /** `p` is allowed nothing that `o` is not: the order narrowing is about. */
  predicate Below(p: Grant, o: Grant) {
    && p.actions <= o.actions
    && (p.restrictions.clipboardEnabled ==> o.restrictions.clipboardEnabled)
    && (p.restrictions.fileTransferEnabled ==> o.restrictions.fileTransferEnabled)
    && (p.restrictions.audioEnabled ==> o.restrictions.audioEnabled)
    && p.restrictions.maxDurationSeconds <= o.restrictions.maxDurationSeconds
    && Within(p.restrictions.maxResolution, o.restrictions.maxResolution)
  }

  /** An absent limit is above every limit. */
  predicate Within(p: Option<(u32, u32)>, o: Option<(u32, u32)>) {
    o.None? || (p.Some? && p.value.0 <= o.value.0 && p.value.1 <= o.value.1)
  }

  /** The validator decides exactly the order, and returns the proposal when it accepts. */
  lemma ValidatorDecidesOrder(original: Grant, proposed: Grant)
    ensures ValidateNarrowing(original, proposed).Ok? <==> Below(proposed, original)
    ensures ValidateNarrowing(original, proposed).Ok? ==>
              ValidateNarrowing(original, proposed).value == proposed.restrictions
  {
  }

  /** What a proposal widens. */
  predicate Widens(original: Grant, proposed: Grant, e: NarrowingError) {
    var o, p := original.restrictions, proposed.restrictions;
    match e
    case ActionEscalation(unauthorized) => unauthorized != {} && unauthorized == proposed.actions - original.actions
    case RestrictionWidened(what) =>
      match what
      case Clipboard => p.clipboardEnabled && !o.clipboardEnabled
      case FileTransfer => p.fileTransferEnabled && !o.fileTransferEnabled
      case Audio => p.audioEnabled && !o.audioEnabled
      case Duration => o.maxDurationSeconds < p.maxDurationSeconds
      case ResolutionRemoved => o.maxResolution.Some? && p.maxResolution.None?
      case ResolutionIncreased =>
        o.maxResolution.Some? && p.maxResolution.Some? && !Within(p.maxResolution, o.maxResolution)
  }

  /** In which order it is reported. */
  function Precedence(e: NarrowingError): nat {
    match e
    case ActionEscalation(_) => 0
    case RestrictionWidened(what) =>
      match what
      case Clipboard => 1
      case FileTransfer => 2
      case Audio => 3
      case Duration => 4
      case ResolutionRemoved => 5
      case ResolutionIncreased => 6
  }

  /** A refused proposal is refused for the first thing it widens. */
  lemma WideningIsReported(original: Grant, proposed: Grant, e: NarrowingError)
    ensures ValidateNarrowing(original, proposed) == Err(e) <==>
              && Widens(original, proposed, e)
              && forall d :: Widens(original, proposed, d) ==> Precedence(e) <= Precedence(d)
  {
    var r := ValidateNarrowing(original, proposed);
    if !(proposed.actions <= original.actions) {
      var a :| a in proposed.actions && a !in original.actions;
      assert a in proposed.actions - original.actions;
    }
    assert r.Err? ==> Widens(original, proposed, r.error);
  }

  lemma BelowIsPartialOrder(a: Grant, b: Grant, c: Grant)
    ensures Below(a, a)
    ensures Below(a, b) && Below(b, a) ==> a == b
    ensures Below(a, b) && Below(b, c) ==> Below(a, c)
  {
  }

  /** However often a session's policy is narrowed, it stays within every earlier grant. */
  lemma {:induction false} NarrowingChainStaysBelow(grants: seq<Grant>, i: nat, j: nat)
    requires i <= j < |grants|
    requires forall k :: 0 <= k < |grants| - 1 ==> ValidateNarrowing(grants[k], grants[k + 1]).Ok?
    ensures Below(grants[j], grants[i])
    ensures ValidateNarrowing(grants[i], grants[j]) == Ok(grants[j].restrictions)
    decreases j - i
  {
    ValidatorDecidesOrder(grants[i], grants[j]);
    if i < j {
      NarrowingChainStaysBelow(grants, i, j - 1);
      ValidatorDecidesOrder(grants[j - 1], grants[j]);
      BelowIsPartialOrder(grants[j], grants[j - 1], grants[i]);
    }
  }

  // ---- Joins -------------------------------------------------------------------------------

  /** `g` is the least grant above every role's own grant. */
  ghost predicate IsJoin(g: Grant, roles: seq<Role>) {
    && (forall r :: r in roles ==> Below(GrantOf(r), g))
    && (forall u: Grant :: (forall r :: r in roles ==> Below(GrantOf(r), u)) ==> Below(g, u))
  }

  /** A join is unique, and grows with the roles. */
  lemma JoinIsMonotone(g: Grant, roles: seq<Role>, h: Grant, more: seq<Role>)
    requires IsJoin(g, roles) && IsJoin(h, more)
    requires forall r :: r in roles ==> r in more
    ensures Below(g, h)
    ensures (forall r :: r in more ==> r in roles) ==> g == h
  {
    if forall r :: r in more ==> r in roles {
      BelowIsPartialOrder(g, h, g);
    }
  }
}
