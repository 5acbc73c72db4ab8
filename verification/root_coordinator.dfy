/** `RootCoordinatorViewModel`: which permission the app asks for on the current screen, how
    skipping and re-asking change that, and when navigating starts or stops the live audio
    source. Permission states and the platform's permission lists are parameters; the flows
    that carry them are replaced by the values they hold at one moment. */
module RootCoordinator {
  import opened Wrappers
  import opened Storage

  datatype PermissionState = Granted | Denied | NotDetermined | NotImplemented | NoPermissionDelegate | Prompt

  /** A screen of the app: its id and whether it listens to the microphone. */
  datatype Route = Route(id: string, usesAudioSource: bool)

  /** The permission to ask for, and whether the screen cannot work without it. */
  datatype PermissionPrompt<P> = PermissionPrompt(permission: P, isRequired: bool)

  /** The required and optional permissions of each route id. */
  datatype Platform<P> = Platform(requiredPermissions: map<string, seq<P>>, optionalPermissions: map<string, seq<P>>)

  /** The view model's own state: the current route and the permissions already prompted during
      this session (a list, so a permission can be in it more than once). */
  datatype Coordinator<P> = Coordinator(currentRoute: Option<Route>, alreadyPrompted: seq<P>)

  /** What a navigation asks of the live audio service. */
  datatype AudioCommand = StartListening | StopListening | NoCommand

  function Initial<P>(): Coordinator<P> {
    Coordinator(None, [])
  }

  /** `map[route.id] ?: emptyList()`. */
  function PermissionsOf<P>(m: map<string, seq<P>>, id: string): seq<P> {
    if id in m then m[id] else []
  }

  // ---------------------------------------------------------------------------------------
  // Permission prompt
  // ---------------------------------------------------------------------------------------

  /** `routePermissions.associateWith { ... }.keys`: each permission once, at its first
      position. */
  function Distinct<P(==)>(s: seq<P>): (d: seq<P>)
    ensures forall i :: 0 <= i < |d| ==> d[i] in s
    ensures forall i :: 0 <= i < |s| ==> s[i] in d
    ensures NoDuplicates(d)
    decreases |s|
  {
    if s == [] then []
    else
      var d := Distinct(s[..|s| - 1]);
      if s[|s| - 1] in d then d else d + [s[|s| - 1]]
  }

  /** The predicate of `firstOrNull`: not granted, and required or not prompted yet. */
  predicate Eligible<P(==)>(p: P, required: seq<P>, prompted: seq<P>, state: P -> PermissionState) {
    state(p) != Granted && (p in required || p !in prompted)
  }

  /** `firstOrNull` with that predicate. */
  function FirstEligible<P(==)>(s: seq<P>, required: seq<P>, prompted: seq<P>, state: P -> PermissionState)
    : (r: Option<P>)
    ensures r.None? <==> forall i :: 0 <= i < |s| ==> !Eligible(s[i], required, prompted, state)
    ensures r.Some? ==>
      exists i ::
        && 0 <= i < |s| && s[i] == r.value
        && Eligible(s[i], required, prompted, state)
        && forall j :: 0 <= j < i ==> !Eligible(s[j], required, prompted, state)
    decreases |s|
  {
    if s == [] then None
    else if Eligible(s[0], required, prompted, state) then Some(s[0])
    else
      var r := FirstEligible(s[1..], required, prompted, state);
      assert forall i :: 1 <= i < |s| ==> s[i] == s[1..][i - 1];
      r
  }

  /** The required then optional permissions of the current route; none without a route. */
  function RoutePermissions<P>(c: Coordinator<P>, platform: Platform<P>): seq<P> {
    match c.currentRoute
    case None => []
    case Some(route) => PermissionsOf(platform.requiredPermissions, route.id) + PermissionsOf(platform.optionalPermissions, route.id)
  }

  /** `permissionPrompt`, the value its shared flow holds after a refresh, given the value
      it held before (`previous`): nothing without a route; otherwise the first permission of
      the route's required then optional permissions that must be asked for. For a route with
      no permission at all, `combine` over an empty list of flows emits nothing, so the flow
      keeps replaying its previous value. */
  function PromptFor<P(==)>(c: Coordinator<P>, platform: Platform<P>, state: P -> PermissionState,
                            previous: Option<PermissionPrompt<P>>)
    : (r: Option<PermissionPrompt<P>>)
    ensures c.currentRoute.None? ==> r.None?
    ensures r.Some? && r != previous ==> r.value.permission in RoutePermissions(c, platform)
  {
    match c.currentRoute
    case None => None
    case Some(route) =>
      var required := PermissionsOf(platform.requiredPermissions, route.id);
      var optional := PermissionsOf(platform.optionalPermissions, route.id);
      if required + optional == [] then previous
      else
        match FirstEligible(Distinct(required + optional), required, c.alreadyPrompted, state)
        case None => None
        case Some(p) => Some(PermissionPrompt(p, p in required))
  }

  /** `skipPermission`: the permission is recorded as prompted. */
  function SkipPermission<P>(c: Coordinator<P>, p: P): Coordinator<P> {
    c.(alreadyPrompted := c.alreadyPrompted + [p])
  }

  /** `promptPermissionIfNeeded`: one record of the permission being prompted is forgotten. */
  function PromptPermissionIfNeeded<P(==)>(c: Coordinator<P>, p: P): Coordinator<P> {
    c.(alreadyPrompted := RemoveFirst(c.alreadyPrompted, p))
  }

  // ---------------------------------------------------------------------------------------
  // Navigation and the audio source
  // ---------------------------------------------------------------------------------------

  /** `startAudioSourceIfNotRecording`. */
  function StartIfNotRecording(isRecording: bool): AudioCommand {
    if !isRecording then StartListening else NoCommand
  }

  /** `stopAudioSourceIfNotRecording`. */
  function StopIfNotRecording(isRecording: bool): AudioCommand {
    if !isRecording then StopListening else NoCommand
  }

  /** `toggleAudioSourceForScreen`. */
  function ToggleAudioSourceForScreen(route: Route, isRecording: bool): (cmd: AudioCommand)
    ensures isRecording ==> cmd == NoCommand
    ensures !isRecording ==> (cmd == StartListening <==> route.usesAudioSource)
    ensures cmd != NoCommand <==> !isRecording
  {
    if route.usesAudioSource then StartIfNotRecording(isRecording) else StopIfNotRecording(isRecording)
  }

  /** What `setCurrentRoute` did besides updating the route: the audio command it sent and
      whether it refreshed the permission states and the prompt. */
  datatype RouteEffects = RouteEffects(audio: AudioCommand, refreshed: bool)

  /** `setCurrentRoute`: nothing happens unless the route changes. */
  function SetCurrentRoute<P>(c: Coordinator<P>, route: Route, isRecording: bool): (r: (Coordinator<P>, RouteEffects))
    ensures r.0.currentRoute == Some(route)
    ensures r.0.alreadyPrompted == c.alreadyPrompted
    ensures r.1.refreshed <==> c.currentRoute != Some(route)
    ensures r.1.audio != NoCommand ==> r.1.refreshed && !isRecording
  {
    if c.currentRoute != Some(route) then
      (c.(currentRoute := Some(route)), RouteEffects(ToggleAudioSourceForScreen(route, isRecording), true))
    else
      (c, RouteEffects(NoCommand, false))
  }

  // ---------------------------------------------------------------------------------------
  // Properties
  // ---------------------------------------------------------------------------------------

  lemma {:induction false} FirstEligibleSnoc<P>(s: seq<P>, x: P, required: seq<P>, prompted: seq<P>, state: P -> PermissionState)
    ensures FirstEligible(s + [x], required, prompted, state)
      == if FirstEligible(s, required, prompted, state).Some? then FirstEligible(s, required, prompted, state)
         else if Eligible(x, required, prompted, state) then Some(x) else None
    decreases |s|
  {
    if s != [] {
      assert (s + [x])[1..] == s[1..] + [x];
      FirstEligibleSnoc(s[1..], x, required, prompted, state);
    }
  }

  /** Dropping repeated permissions does not change which one is found first. */
  lemma {:induction false} FirstEligibleOfDistinct<P>(s: seq<P>, required: seq<P>, prompted: seq<P>, state: P -> PermissionState)
    ensures FirstEligible(Distinct(s), required, prompted, state) == FirstEligible(s, required, prompted, state)
    decreases |s|
  {
    if s != [] {
      var init, x := s[..|s| - 1], s[|s| - 1];
      assert s == init + [x];
      FirstEligibleOfDistinct(init, required, prompted, state);
      FirstEligibleSnoc(init, x, required, prompted, state);
      if x !in Distinct(init) {
        FirstEligibleSnoc(Distinct(init), x, required, prompted, state);
      }
    }
  }

  /** The prompt, stated without the view model's data structures: a route without
      permissions keeps the previous prompt; otherwise the prompt is there exactly when some
      permission of the route must be asked for, it is the first such permission in the
      required then optional lists, and it is marked required exactly when it is. */
  lemma PromptForSpec<P>(c: Coordinator<P>, platform: Platform<P>, state: P -> PermissionState,
                         previous: Option<PermissionPrompt<P>>)
    requires c.currentRoute.Some?
    ensures var required := PermissionsOf(platform.requiredPermissions, c.currentRoute.value.id);
      var all := required + PermissionsOf(platform.optionalPermissions, c.currentRoute.value.id);
      var r := PromptFor(c, platform, state, previous);
      && (all == [] ==> r == previous)
      && (all != [] && r.None? <==> all != [] && forall i :: 0 <= i < |all| ==> !Eligible(all[i], required, c.alreadyPrompted, state))
      && (all != [] && r.Some? ==>
            exists i ::
              && 0 <= i < |all| && all[i] == r.value.permission
              && Eligible(all[i], required, c.alreadyPrompted, state)
              && forall j :: 0 <= j < i ==> !Eligible(all[j], required, c.alreadyPrompted, state))
      && (all != [] && r.Some? ==> (r.value.isRequired <==> r.value.permission in required))
  {
    var route := c.currentRoute.value;
    var required := PermissionsOf(platform.requiredPermissions, route.id);
    var all := required + PermissionsOf(platform.optionalPermissions, route.id);
    FirstEligibleOfDistinct(all, required, c.alreadyPrompted, state);
  }

  /** Required permissions come first: while one of them is not granted, the prompt asks for a
      required permission. */
  lemma RequiredFirst<P>(c: Coordinator<P>, platform: Platform<P>, state: P -> PermissionState,
                         previous: Option<PermissionPrompt<P>>, k: nat)
    requires c.currentRoute.Some?
    requires var required := PermissionsOf(platform.requiredPermissions, c.currentRoute.value.id);
      k < |required| && state(required[k]) != Granted
    ensures PromptFor(c, platform, state, previous).Some? && PromptFor(c, platform, state, previous).value.isRequired
  {
    var route := c.currentRoute.value;
    var required := PermissionsOf(platform.requiredPermissions, route.id);
    var all := required + PermissionsOf(platform.optionalPermissions, route.id);
    PromptForSpec(c, platform, state, previous);
    assert all[k] == required[k];
    var r := PromptFor(c, platform, state, previous);
    var i :| 0 <= i < |all| && all[i] == r.value.permission
      && Eligible(all[i], required, c.alreadyPrompted, state)
      && forall j :: 0 <= j < i ==> !Eligible(all[j], required, c.alreadyPrompted, state);
    assert i <= k;
    assert all[i] == required[i];
  }

  lemma {:induction false} FirstEligibleSame<P>(s: seq<P>, required: seq<P>, a: seq<P>, b: seq<P>, state: P -> PermissionState)
    requires forall i :: 0 <= i < |s| ==> (Eligible(s[i], required, a, state) <==> Eligible(s[i], required, b, state))
    ensures FirstEligible(s, required, a, state) == FirstEligible(s, required, b, state)
    decreases |s|
  {
    if s != [] {
      assert forall i :: 0 <= i < |s[1..]| ==> s[1..][i] == s[i + 1];
      FirstEligibleSame(s[1..], required, a, b, state);
    }
  }

  /** Skipping a permission the current route requires changes nothing: it is asked for
      again. */
  lemma SkipNeverSuppressesRequired<P>(c: Coordinator<P>, platform: Platform<P>, state: P -> PermissionState,
                                       previous: Option<PermissionPrompt<P>>, p: P)
    requires c.currentRoute.Some? && p in PermissionsOf(platform.requiredPermissions, c.currentRoute.value.id)
    ensures PromptFor(SkipPermission(c, p), platform, state, previous) == PromptFor(c, platform, state, previous)
  {
    var route := c.currentRoute.value;
    var required := PermissionsOf(platform.requiredPermissions, route.id);
    var keys := Distinct(required + PermissionsOf(platform.optionalPermissions, route.id));
    FirstEligibleSame(keys, required, c.alreadyPrompted, c.alreadyPrompted + [p], state);
  }

  /** Skipping the optional permission being asked for moves the prompt past it, unless the
      route has no permission at all and the prompt is only the one replayed from before. */
  lemma SkipSuppressesOptional<P>(c: Coordinator<P>, platform: Platform<P>, state: P -> PermissionState,
                                  previous: Option<PermissionPrompt<P>>, p: P)
    requires PromptFor(c, platform, state, previous) == Some(PermissionPrompt(p, false))
    ensures var after := PromptFor(SkipPermission(c, p), platform, state, previous);
      if RoutePermissions(c, platform) == [] then after == previous
      else after != Some(PermissionPrompt(p, false)) && after != Some(PermissionPrompt(p, true))
  {
    var c' := SkipPermission(c, p);
    PromptForSpec(c, platform, state, previous);
    PromptForSpec(c', platform, state, previous);
  }

  /** Re-asking right after skipping restores the view model, when the permission had not been
      prompted before. */
  lemma {:induction false} PromptUndoesSkip<P>(c: Coordinator<P>, p: P)
    requires p !in c.alreadyPrompted
    ensures PromptPermissionIfNeeded(SkipPermission(c, p), p) == c
  {
    RemoveFirstAppended(c.alreadyPrompted, p);
  }

  lemma {:induction false} RemoveFirstCount<T>(s: seq<T>, x: T)
    ensures multiset(RemoveFirst(s, x)) == multiset(s) - multiset{x}
    decreases |s|
  {
    if s != [] {
      assert s == [s[0]] + s[1..];
      if s[0] != x {
        RemoveFirstCount(s[1..], x);
      }
    }
  }

  /** `promptPermissionIfNeeded` makes a permission that was skipped once eligible again. */
  lemma PromptMakesEligible<P>(c: Coordinator<P>, p: P, required: seq<P>, state: P -> PermissionState)
    requires multiset(c.alreadyPrompted)[p] <= 1
    ensures p !in PromptPermissionIfNeeded(c, p).alreadyPrompted
    ensures Eligible(p, required, PromptPermissionIfNeeded(c, p).alreadyPrompted, state) <==> state(p) != Granted
  {
    RemoveFirstCount(c.alreadyPrompted, p);
  }

  /** The prompted list counts skips: after two skips of a permission, one re-ask still leaves
      it recorded as prompted. */
  lemma TwoSkipsNeedTwoPrompts<P>(c: Coordinator<P>, p: P)
    ensures p in PromptPermissionIfNeeded(SkipPermission(SkipPermission(c, p), p), p).alreadyPrompted
  {
    var s := c.alreadyPrompted + [p] + [p];
    RemoveFirstCount(s, p);
    assert multiset(s) == multiset(c.alreadyPrompted) + multiset{p} + multiset{p};
    var r := RemoveFirst(s, p);
    assert multiset(r)[p] >= 1;
    assert p in multiset(r);
  }

  /** Setting the same route twice acts once. */
  lemma SetCurrentRouteIdempotent<P>(c: Coordinator<P>, route: Route, isRecording: bool, isRecording': bool)
    ensures var (c1, _) := SetCurrentRoute(c, route, isRecording);
      SetCurrentRoute(c1, route, isRecording') == (c1, RouteEffects(NoCommand, false))
  {
  }
}
