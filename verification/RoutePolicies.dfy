/** Route policies: their metadata, the route validator, and the handler chain they compose
    (internal/core/policy and the tenancy policies and rule). */
module RoutePolicies {
  import opened Wrappers
  import opened Strings

  // ----- Requests and policies -----

  /** What the policies look at: the authenticated principal's tenant attribute, the tenant resolved for
      the request ("" when there is none), the path parameters, and everything else. */
  datatype Request = Request(principal: Option<string>, tenant: string, path: map<string, string>, other: string)

  datatype Reply = Reply(status: int, body: string)

  type Handler = Request -> Reply

  /** What a policy does with a request: answer it, or hand it on. */
  datatype Verdict = Stop(reply: Reply) | Next(request: Request)

  datatype PolicyType =
    | NoopType | RequireJsonType | WithHeaderType | CustomType
    | AuthRequiredType | TenantRequiredType | TenantMatchType
    | RequirePermType | RequireAnyPermType | RateLimitType
    | CacheReadType | CacheInvalidateType | CacheControlType

  /** `Guard` stands for every other built-in policy: it answers or hands the request on unchanged.
      A custom policy may do anything, and may lack metadata. */
  datatype Policy =
    | AuthRequired(authenticate: Request -> Option<string>)
    | TenantRequired
    | TenantMatchFromPath(param: string)
    | Guard(kind: PolicyType, varyByUser: bool, varyByIdentity: bool, answer: Request -> Option<Reply>)
    | Custom(annotated: bool, act: Request -> Verdict)

  function UrlParam(r: Request, name: string): string {
    if name in r.path then r.path[name] else ""
  }

  predicate SameTenant(a: string, b: string) {
    Trim(a) != "" && Trim(a) == Trim(b)
  }

  function Refuse(status: int): Verdict {
    Stop(Reply(status, ""))
  }

  function DecideTenantRequired(r: Request): Verdict {
    if r.principal == None then Refuse(401)
    else if Trim(r.principal.value) == "" then Refuse(403)
    else if r.tenant != "" && !SameTenant(Trim(r.principal.value), r.tenant) then Refuse(404)
    else Next(r)
  }

  function DecideTenantMatch(param: string, r: Request): Verdict {
    if r.principal == None then Refuse(401)
    else
      var resource := Trim(UrlParam(r, Trim(param)));
      if resource == "" then Refuse(400)
      else if Trim(r.principal.value) == "" then Refuse(403)
      else if !SameTenant(Trim(r.principal.value), resource) then Refuse(404)
      else Next(r)
  }

  function Decide(p: Policy, r: Request): Verdict {
    match p
    case AuthRequired(authenticate) =>
      (match authenticate(r) case None => Refuse(401) case Some(who) => Next(r.(principal := Some(who))))
    case TenantRequired => DecideTenantRequired(r)
    case TenantMatchFromPath(param) => DecideTenantMatch(param, r)
    case Guard(_, _, _, answer) => (match answer(r) case Some(reply) => Stop(reply) case None => Next(r))
    case Custom(_, act) => act(r)
  }

  function Wrap(p: Policy, next: Handler): Handler {
    (r: Request) => match Decide(p, r) case Stop(reply) => reply case Next(r') => next(r')
  }

  // ----- The chain -----

  /** The journey of a request through the policies in registration order; absent ones do nothing. */
  function Walk(ps: seq<Option<Policy>>, r: Request): Verdict {
    if ps == [] then Next(r)
    else if ps[0] == None then Walk(ps[1..], r)
    else match Decide(ps[0].value, r)
      case Stop(reply) => Stop(reply)
      case Next(r') => Walk(ps[1..], r')
  }

  function Serve(ps: seq<Option<Policy>>, h: Handler, r: Request): Reply {
    match Walk(ps, r) case Stop(reply) => reply case Next(r') => h(r')
  }

  /** Composing from the last policy to the first serves requests through the first to the last. */
  method Chain(h: Handler, policies: seq<Option<Policy>>) returns (chained: Handler)
    ensures forall r :: chained(r) == Serve(policies, h, r)
  {
    chained := h;
    var i := |policies|;
    while i > 0
      invariant 0 <= i <= |policies|
      invariant forall r :: chained(r) == Serve(policies[i..], h, r)
    {
      i := i - 1;
      assert policies[i..][1..] == policies[i + 1..];
      if policies[i].Some? {
        chained := Wrap(policies[i].value, chained);
      }
    }
    assert policies[0..] == policies;
  }

  // ----- Metadata -----

  datatype Metadata = Metadata(kind: PolicyType, varyByUser: bool, varyByIdentity: bool, stage: int, pathParam: string)

  const STAGE_AUTH := 1
  const STAGE_ISOLATION := 2
  const STAGE_RBAC := 3
  const STAGE_RATE_LIMIT := 4
  const STAGE_CACHE := 5
  const STAGE_CACHE_CONTROL := 6

  predicate Described(p: Option<Policy>) {
    p.Some? && (p.value.Custom? ==> p.value.annotated)
  }

  /** The metadata each constructor registers. */
  function MetaOf(p: Policy): Metadata {
    match p
    case AuthRequired(_) => Metadata(AuthRequiredType, false, false, 0, "")
    case TenantRequired => Metadata(TenantRequiredType, false, false, STAGE_ISOLATION, "")
    case TenantMatchFromPath(param) => Metadata(TenantMatchType, false, false, STAGE_ISOLATION, Trim(param))
    case Guard(kind, user, identity, _) => Metadata(kind, user, identity, 0, "")
    case Custom(_, _) => Metadata(CustomType, false, false, 0, "")
  }

  /** Built by a constructor: only the three dedicated constructors make the dedicated types. */
  predicate WellBuilt(p: Option<Policy>) {
    p.Some? && p.value.Guard? ==> p.value.kind !in {AuthRequiredType, TenantRequiredType, TenantMatchType, CustomType}
  }

  function Metas(ps: seq<Option<Policy>>): (ms: seq<Metadata>)
    requires forall p | p in ps :: p.Some?
    ensures |ms| == |ps| && forall i | 0 <= i < |ps| :: ms[i] == MetaOf(ps[i].value)
  {
    if ps == [] then [] else [MetaOf(ps[0].value)] + Metas(ps[1..])
  }

  method DescribePolicies(ps: seq<Option<Policy>>) returns (r: Result<seq<Metadata>, RouteError>)
    ensures r.Ok? <==> forall p | p in ps :: Described(p)
    ensures r.Ok? ==> r.value == Metas(ps)
    ensures r.Err? ==> r.error in {NilPolicy, NotAnnotated}
  {
    var metas := [];
    for i := 0 to |ps|
      invariant forall j | 0 <= j < i :: Described(ps[j])
      invariant |metas| == i && forall j | 0 <= j < i :: metas[j] == MetaOf(ps[j].value)
    {
      assert ps[i] in ps;
      if ps[i] == None { return Err(NilPolicy); }
      if ps[i].value.Custom? && !ps[i].value.annotated { return Err(NotAnnotated); }
      metas := metas + [MetaOf(ps[i].value)];
    }
    assert metas == Metas(ps);
    return Ok(metas);
  }

  // ----- The validator -----

  datatype RouteError =
    | MethodRequired | PatternRequired | NilPolicy | NotAnnotated
    | OutOfOrder | AuthMissing | UnsafeCacheRead
    | TenantNeedsAuth | MatchNeedsRequired | MatchBeforeRequired
    | RouteNeedsRequired | RouteNeedsMatch | WrongParam
    | Other(message: string)

  function OrderStage(m: Metadata): int {
    if m.stage > 0 then m.stage
    else match m.kind
      case AuthRequiredType => STAGE_AUTH
      case RequirePermType => STAGE_RBAC
      case RequireAnyPermType => STAGE_RBAC
      case RateLimitType => STAGE_RATE_LIMIT
      case CacheReadType => STAGE_CACHE
      case CacheInvalidateType => STAGE_CACHE
      case CacheControlType => STAGE_CACHE_CONTROL
      case _ => 0
  }

  /** Of two policies with a stage, the earlier one's is not higher. */
  predicate Ordered(ms: seq<Metadata>) {
    forall i, j | 0 <= i < j < |ms| && OrderStage(ms[i]) > 0 && OrderStage(ms[j]) > 0 :: OrderStage(ms[i]) <= OrderStage(ms[j])
  }

  predicate Has(ms: seq<Metadata>, kind: PolicyType) {
    exists i | 0 <= i < |ms| :: ms[i].kind == kind
  }

  predicate AuthBacked(ms: seq<Metadata>) {
    Has(ms, RequirePermType) || Has(ms, RequireAnyPermType) ==> Has(ms, AuthRequiredType)
  }

  predicate CacheSafe(ms: seq<Metadata>) {
    Has(ms, AuthRequiredType) ==>
      forall i | 0 <= i < |ms| && ms[i].kind == CacheReadType :: ms[i].varyByUser || ms[i].varyByIdentity
  }

  method ValidatePolicyOrdering(ms: seq<Metadata>) returns (r: Option<RouteError>)
    ensures r == if Ordered(ms) then None else Some(OutOfOrder)
  {
    var previous := 0;
    for k := 0 to |ms|
      invariant previous >= 0 && Ordered(ms[..k])
      invariant forall i | 0 <= i < k :: OrderStage(ms[i]) <= previous
      invariant previous > 0 ==> exists i | 0 <= i < k :: OrderStage(ms[i]) == previous
    {
      var stage := OrderStage(ms[k]);
      if stage > 0 {
        if stage < previous {
          return Some(OutOfOrder);
        }
        previous := stage;
      }
      assert ms[..k + 1] == ms[..k] + [ms[k]];
    }
    assert ms[..|ms|] == ms;
    return None;
  }

  method HasPolicyType(ms: seq<Metadata>, kind: PolicyType) returns (b: bool)
    ensures b == Has(ms, kind)
  {
    for k := 0 to |ms|
      invariant forall i | 0 <= i < k :: ms[i].kind != kind
    {
      if ms[k].kind == kind { return true; }
    }
    return false;
  }

  function Select(ms: seq<Metadata>, kind: PolicyType): seq<Metadata> {
    if ms == [] then []
    else Select(ms[..|ms| - 1], kind) + (if ms[|ms| - 1].kind == kind then [ms[|ms| - 1]] else [])
  }

  lemma {:induction false} SelectMembers(ms: seq<Metadata>, kind: PolicyType)
    ensures forall m :: m in Select(ms, kind) <==> m in ms && m.kind == kind
  {
    if ms != [] {
      SelectMembers(ms[..|ms| - 1], kind);
      assert ms == ms[..|ms| - 1] + [ms[|ms| - 1]];
    }
  }

  method FindPolicies(ms: seq<Metadata>, kind: PolicyType) returns (found: seq<Metadata>)
    ensures found == Select(ms, kind)
  {
    found := [];
    for k := 0 to |ms|
      invariant found == Select(ms[..k], kind)
    {
      assert ms[..k + 1][..k] == ms[..k];
      if ms[k].kind == kind { found := found + [ms[k]]; }
    }
    assert ms[..|ms|] == ms;
  }

  method ValidateAuthDependencies(ms: seq<Metadata>) returns (r: Option<RouteError>)
    ensures r == if AuthBacked(ms) then None else Some(AuthMissing)
  {
    var auth := HasPolicyType(ms, AuthRequiredType);
    if auth { return None; }
    var perm := HasPolicyType(ms, RequirePermType);
    var any := HasPolicyType(ms, RequireAnyPermType);
    return if perm || any then Some(AuthMissing) else None;
  }

  method ValidateCacheSafety(ms: seq<Metadata>) returns (r: Option<RouteError>)
    ensures r == if CacheSafe(ms) then None else Some(UnsafeCacheRead)
  {
    var auth := HasPolicyType(ms, AuthRequiredType);
    if !auth { return None; }
    var found := FindPolicies(ms, CacheReadType);
    SelectMembers(ms, CacheReadType);
    for k := 0 to |found|
      invariant forall i | 0 <= i < k :: found[i].varyByUser || found[i].varyByIdentity
    {
      if !found[k].varyByUser && !found[k].varyByIdentity {
        assert found[k] in ms;
        return Some(UnsafeCacheRead);
      }
    }
    assert forall i | 0 <= i < |ms| && ms[i].kind == CacheReadType :: ms[i] in found;
    return None;
  }

  // ----- The tenancy rule -----

  const TENANT_PARAM := "tenant_id"

  predicate StartsWith(s: string, part: string) {
    |part| <= |s| && s[..|part|] == part
  }

  predicate Contains(s: string, part: string) {
    exists i | 0 <= i <= |s| :: StartsWith(s[i..], part)
  }

  predicate PatternHasTenant(pattern: string) {
    Contains(Lower(Trim(pattern)), "{" + TENANT_PARAM + "}")
  }

  /** Some path match stands before every TenantRequired. */
  predicate MatchComesFirst(ms: seq<Metadata>) {
    exists j | 0 <= j < |ms| :: ms[j].kind == TenantMatchType && forall i | 0 <= i <= j :: ms[i].kind != TenantRequiredType
  }

  predicate NamesTenantParam(m: Metadata) {
    Lower(Trim(m.pathParam)) == TENANT_PARAM
  }

  function TenancyVerdict(strict: bool, pattern: string, ms: seq<Metadata>): Option<RouteError> {
    if Has(ms, TenantRequiredType) && !Has(ms, AuthRequiredType) then Some(TenantNeedsAuth)
    else if Has(ms, TenantMatchType) && !Has(ms, TenantRequiredType) then Some(MatchNeedsRequired)
    else if MatchComesFirst(ms) then Some(MatchBeforeRequired)
    else if !strict || !PatternHasTenant(pattern) then None
    else if !Has(ms, TenantRequiredType) then Some(RouteNeedsRequired)
    else if !Has(ms, TenantMatchType) then Some(RouteNeedsMatch)
    else if !AllNameTenant(ms) then Some(WrongParam)
    else None
  }

  /** `at` is the first position of the kind, or -1. */
  predicate FirstAt(ms: seq<Metadata>, kind: PolicyType, at: int) {
    && -1 <= at < |ms|
    && (at >= 0 ==> ms[at].kind == kind && forall i | 0 <= i < at :: ms[i].kind != kind)
    && (at == -1 ==> forall i | 0 <= i < |ms| :: ms[i].kind != kind)
  }

  /** The rule's loop: first positions, the path matches, and whether AuthRequired occurs. */
  method ScanMetas(ms: seq<Metadata>) returns (requiredAt: int, matchAt: int, matches: seq<Metadata>, hasAuth: bool)
    ensures FirstAt(ms, TenantRequiredType, requiredAt) && FirstAt(ms, TenantMatchType, matchAt)
    ensures hasAuth == Has(ms, AuthRequiredType) && matches == Select(ms, TenantMatchType)
  {
    requiredAt, matchAt, matches, hasAuth := -1, -1, [], false;
    for k := 0 to |ms|
      invariant FirstAt(ms[..k], TenantRequiredType, requiredAt) && FirstAt(ms[..k], TenantMatchType, matchAt)
      invariant hasAuth == Has(ms[..k], AuthRequiredType)
      invariant matches == Select(ms[..k], TenantMatchType)
    {
      assert ms[..k + 1][..k] == ms[..k];
      assert ms[..k + 1][k].kind == ms[k].kind;
      match ms[k].kind {
        case AuthRequiredType => hasAuth := true;
        case TenantRequiredType => if requiredAt == -1 { requiredAt := k; }
        case TenantMatchType =>
          matches := matches + [ms[k]];
          if matchAt == -1 { matchAt := k; }
        case _ =>
      }
      HasGrows(ms, k, AuthRequiredType);
    }
    assert ms[..|ms|] == ms;
  }

  lemma HasGrows(ms: seq<Metadata>, k: nat, kind: PolicyType)
    requires k < |ms|
    ensures Has(ms[..k + 1], kind) <==> Has(ms[..k], kind) || ms[k].kind == kind
  {
    assert forall i | 0 <= i < k :: ms[..k + 1][i] == ms[..k][i];
    assert ms[..k + 1][k] == ms[k];
  }

  lemma FirstTells(ms: seq<Metadata>, requiredAt: int, matchAt: int)
    requires FirstAt(ms, TenantRequiredType, requiredAt) && FirstAt(ms, TenantMatchType, matchAt)
    ensures requiredAt >= 0 <==> Has(ms, TenantRequiredType)
    ensures matchAt >= 0 <==> Has(ms, TenantMatchType)
    ensures matchAt >= 0 <==> |Select(ms, TenantMatchType)| > 0
    ensures requiredAt >= 0 ==> (MatchComesFirst(ms) <==> 0 <= matchAt < requiredAt)
    ensures MatchComesFirst(ms) ==> matchAt >= 0
  {
    SelectMembers(ms, TenantMatchType);
    var found := Select(ms, TenantMatchType);
    assert |found| > 0 ==> found[0] in ms;
    assert matchAt >= 0 ==> ms[matchAt] in found;
  }

  predicate AllNameTenant(ms: seq<Metadata>) {
    forall i | 0 <= i < |ms| :: ms[i].kind == TenantMatchType ==> NamesTenantParam(ms[i])
  }

  method CheckParams(matches: seq<Metadata>, ghost ms: seq<Metadata>) returns (ok: bool)
    requires matches == Select(ms, TenantMatchType)
    ensures ok == AllNameTenant(ms)
  {
    SelectMembers(ms, TenantMatchType);
    for k := 0 to |matches|
      invariant forall i | 0 <= i < k :: NamesTenantParam(matches[i])
    {
      if Lower(Trim(matches[k].pathParam)) != TENANT_PARAM {
        assert !NamesTenantParam(matches[k]) && matches[k] in ms && matches[k] in matches;
        return false;
      }
    }
    assert forall i | 0 <= i < |ms| && ms[i].kind == TenantMatchType :: ms[i] in matches;
    return true;
  }

  method RouteRule(strict: bool, pattern: string, ms: seq<Metadata>) returns (r: Option<RouteError>)
    ensures r == TenancyVerdict(strict, pattern, ms)
  {
    var requiredAt, matchAt, matches, hasAuth := ScanMetas(ms);
    FirstTells(ms, requiredAt, matchAt);
    if requiredAt >= 0 && !hasAuth { return Some(TenantNeedsAuth); }
    if |matches| > 0 && requiredAt == -1 { return Some(MatchNeedsRequired); }
    if requiredAt >= 0 && matchAt >= 0 && matchAt < requiredAt { return Some(MatchBeforeRequired); }
    if strict && PatternHasTenant(pattern) {
      if requiredAt == -1 { return Some(RouteNeedsRequired); }
      if |matches| == 0 { return Some(RouteNeedsMatch); }
      var named := CheckParams(matches, ms);
      if !named { return Some(WrongParam); }
    }
    return None;
  }

  // ----- The whole check -----

  /** The tenancy rule, or a check another feature contributes. */
  datatype Rule = Tenancy(strict: bool) | Feature(check: (string, string, seq<Metadata>) -> Option<RouteError>)

  function RuleVerdict(rule: Rule, verb: string, pattern: string, ms: seq<Metadata>): Option<RouteError> {
    match rule
    case Tenancy(strict) => TenancyVerdict(strict, pattern, ms)
    case Feature(check) => check(verb, pattern, ms)
  }

  /** The first complaint of the rules in order. */
  function RulesVerdict(rules: seq<Option<Rule>>, verb: string, pattern: string, ms: seq<Metadata>): Option<RouteError> {
    if rules == [] then None
    else
      var first := if rules[0] == None then None else RuleVerdict(rules[0].value, verb, pattern, ms);
      if first.Some? then first else RulesVerdict(rules[1..], verb, pattern, ms)
  }

  function MetasVerdict(rules: seq<Option<Rule>>, verb: string, pattern: string, ms: seq<Metadata>): Option<RouteError> {
    if Trim(verb) == "" then Some(MethodRequired)
    else if Trim(pattern) == "" then Some(PatternRequired)
    else if ms == [] then None
    else if !Ordered(ms) then Some(OutOfOrder)
    else if !AuthBacked(ms) then Some(AuthMissing)
    else if !CacheSafe(ms) then Some(UnsafeCacheRead)
    else RulesVerdict(rules, Upper(Trim(verb)), Trim(pattern), ms)
  }

  method ValidateRouteRules(rules: seq<Option<Rule>>, verb: string, pattern: string, ms: seq<Metadata>) returns (r: Option<RouteError>)
    ensures r == if !Ordered(ms) then Some(OutOfOrder) else if !AuthBacked(ms) then Some(AuthMissing)
                 else if !CacheSafe(ms) then Some(UnsafeCacheRead) else RulesVerdict(rules, verb, pattern, ms)
  {
    r := ValidatePolicyOrdering(ms);
    if r.Some? { return; }
    r := ValidateAuthDependencies(ms);
    if r.Some? { return; }
    r := ValidateCacheSafety(ms);
    if r.Some? { return; }
    assert rules[0..] == rules;
    for k := 0 to |rules|
      invariant r == None && RulesVerdict(rules, verb, pattern, ms) == RulesVerdict(rules[k..], verb, pattern, ms)
    {
      assert rules[k..][1..] == rules[k + 1..];
      if rules[k] == None { continue; }
      match rules[k].value {
        case Tenancy(strict) => r := RouteRule(strict, pattern, ms);
        case Feature(check) => r := check(verb, pattern, ms);
      }
      if r.Some? { return; }
    }
  }

  method ValidateRouteMetadata(rules: seq<Option<Rule>>, verb: string, pattern: string, ms: seq<Metadata>) returns (r: Option<RouteError>)
    ensures r == MetasVerdict(rules, verb, pattern, ms)
  {
    var verb' := Upper(Trim(verb));
    if verb' == "" { return Some(MethodRequired); }
    if Trim(pattern) == "" { return Some(PatternRequired); }
    if ms == [] { return None; }
    r := ValidateRouteRules(rules, verb', Trim(pattern), ms);
  }

  /** The route is accepted, policies and all. */
  ghost predicate Accepted(rules: seq<Option<Rule>>, verb: string, pattern: string, ps: seq<Option<Policy>>) {
    && Trim(verb) != "" && Trim(pattern) != ""
    && (forall p | p in ps :: Described(p))
    && MetasVerdict(rules, Upper(Trim(verb)), Trim(pattern), Metas(ps)) == None
  }

  method ValidateRoute(rules: seq<Option<Rule>>, verb: string, pattern: string, ps: seq<Option<Policy>>) returns (r: Option<RouteError>)
    ensures r == None <==> Accepted(rules, verb, pattern, ps)
  {
    if Trim(verb) == "" { return Some(MethodRequired); }
    if Trim(pattern) == "" { return Some(PatternRequired); }
    var metas := DescribePolicies(ps);
    if metas.Err? { return Some(metas.error); }
    r := ValidateRouteMetadata(rules, Upper(Trim(verb)), Trim(pattern), metas.value);
  }

  // ----- Requests along the chain -----

  /** A custom policy that leaves alone who the request is from and where it goes. */
  ghost predicate KeepsIdentity(p: Option<Policy>) {
    p.Some? && p.value.Custom? ==> forall r :: p.value.act(r).Next? ==> SameIdentity(r, p.value.act(r).request)
  }

  predicate SameIdentity(a: Request, b: Request) {
    a.principal == b.principal && a.tenant == b.tenant && a.path == b.path
  }

  lemma {:induction false} WalkSplits(ps: seq<Option<Policy>>, i: nat, r: Request)
    requires i <= |ps| && Walk(ps, r).Next?
    ensures Walk(ps[..i], r).Next? && Walk(ps[i..], Walk(ps[..i], r).request) == Walk(ps, r)
    decreases i
  {
    if i == 0 {
      assert ps[..0] == [] && ps[0..] == ps;
    } else {
      assert ps[..i][1..] == ps[1..][..i - 1] && ps[1..][i - 1..] == ps[i..] && ps[..i][0] == ps[0];
      var r' := if ps[0] == None then r else Decide(ps[0].value, r).request;
      WalkSplits(ps[1..], i - 1, r');
    }
  }

  /** Only AuthRequired changes the principal, and nothing changes the tenant or the path. */
  lemma {:induction false} WalkKeeps(ps: seq<Option<Policy>>, r: Request)
    requires Walk(ps, r).Next? && forall p | p in ps :: KeepsIdentity(p)
    ensures var last := Walk(ps, r).request;
            last.tenant == r.tenant && last.path == r.path &&
            ((forall p | p in ps :: p.Some? ==> !p.value.AuthRequired?) ==> last.principal == r.principal)
  {
    if ps != [] {
      assert ps[0] in ps && forall p | p in ps[1..] :: p in ps;
      WalkKeeps(ps[1..], if ps[0] == None then r else Decide(ps[0].value, r).request);
    }
  }

  /** The request as it leaves policy i, and the rest of its way. */
  lemma StepAt(ps: seq<Option<Policy>>, i: nat, r: Request) returns (before: Request, after: Request)
    requires i < |ps| && ps[i].Some? && Walk(ps, r).Next?
    ensures Walk(ps[..i], r) == Next(before) && Decide(ps[i].value, before) == Next(after)
    ensures Walk(ps[i + 1..], after) == Walk(ps, r)
  {
    WalkSplits(ps, i, r);
    before := Walk(ps[..i], r).request;
    assert ps[i..][0] == ps[i] && ps[i..][1..] == ps[i + 1..];
    after := Decide(ps[i].value, before).request;
  }

  // ----- What acceptance guarantees -----

  lemma {:induction false} RuleHeld(rules: seq<Option<Rule>>, rule: Rule, verb: string, pattern: string, ms: seq<Metadata>)
    requires Some(rule) in rules && RulesVerdict(rules, verb, pattern, ms) == None
    ensures RuleVerdict(rule, verb, pattern, ms) == None
  {
    if rules[0] != Some(rule) {
      RuleHeld(rules[1..], rule, verb, pattern, ms);
    }
  }

  lemma {:induction false} LastOf(ms: seq<Metadata>, kind: PolicyType) returns (a: nat)
    requires Has(ms, kind)
    ensures a < |ms| && ms[a].kind == kind && forall i | a < i < |ms| :: ms[i].kind != kind
  {
    a := |ms| - 1;
    if ms[a].kind != kind {
      a := LastOf(ms[..|ms| - 1], kind);
    }
  }

  /** Positions of the last AuthRequired, a TenantRequired after it and a path match after that. */
  predicate Guarded(ps: seq<Option<Policy>>, a: nat, t: nat, m: nat) {
    && a < t < m < |ps|
    && ps[a].Some? && ps[a].value.AuthRequired?
    && (forall i | a < i < |ps| :: ps[i].Some? ==> !ps[i].value.AuthRequired?)
    && ps[t] == Some(TenantRequired)
    && ps[m].Some? && ps[m].value.TenantMatchFromPath? && Lower(Trim(ps[m].value.param)) == TENANT_PARAM
  }

  lemma KindsAreReal(p: Option<Policy>)
    requires WellBuilt(p) && p.Some?
    ensures MetaOf(p.value).kind == AuthRequiredType <==> p.value.AuthRequired?
    ensures MetaOf(p.value).kind == TenantRequiredType <==> p.value == TenantRequired
    ensures MetaOf(p.value).kind == TenantMatchType <==> p.value.TenantMatchFromPath?
  {
  }

  /** What an accepted list's metadata says, apart from the wording of names and patterns. */
  predicate TenantOrdered(ms: seq<Metadata>) {
    && Ordered(ms) && !MatchComesFirst(ms) && AllNameTenant(ms)
    && Has(ms, AuthRequiredType) && Has(ms, TenantRequiredType) && Has(ms, TenantMatchType)
  }

  lemma AcceptedMetas(rules: seq<Option<Rule>>, verb: string, pattern: string, ms: seq<Metadata>)
    requires Some(Tenancy(true)) in rules && ms != [] && PatternHasTenant(pattern)
    requires MetasVerdict(rules, verb, Trim(pattern), ms) == None
    ensures TenantOrdered(ms)
  {
    TrimTwice(pattern);
    TrimTwice(Trim(pattern));
    RuleHeld(rules, Tenancy(true), Upper(Trim(verb)), Trim(Trim(pattern)), ms);
    assert TenancyVerdict(true, Trim(pattern), ms) == None;
  }

  lemma TenantPositions(ms: seq<Metadata>) returns (a: nat, t: nat, m: nat)
    requires TenantOrdered(ms)
    requires forall i | 0 <= i < |ms| :: ms[i].kind == AuthRequiredType ==> OrderStage(ms[i]) == STAGE_AUTH
    requires forall i | 0 <= i < |ms| :: ms[i].kind == TenantRequiredType ==> OrderStage(ms[i]) == STAGE_ISOLATION
    ensures a < t < m < |ms| && ms[a].kind == AuthRequiredType && ms[t].kind == TenantRequiredType
    ensures ms[m].kind == TenantMatchType && NamesTenantParam(ms[m])
    ensures forall i | a < i < |ms| :: ms[i].kind != AuthRequiredType
  {
    a := LastOf(ms, AuthRequiredType);
    m := LastOf(ms, TenantMatchType);
    assert exists i | 0 <= i <= m :: ms[i].kind == TenantRequiredType;
    t :| 0 <= t <= m && ms[t].kind == TenantRequiredType;
  }

  lemma AcceptedAreGuarded(rules: seq<Option<Rule>>, verb: string, pattern: string, ps: seq<Option<Policy>>) returns (a: nat, t: nat, m: nat)
    requires Some(Tenancy(true)) in rules && ps != [] && PatternHasTenant(pattern)
    requires Accepted(rules, verb, pattern, ps) && forall p | p in ps :: WellBuilt(p)
    ensures Guarded(ps, a, t, m)
  {
    var ms := Metas(ps);
    AcceptedMetas(rules, Upper(Trim(verb)), pattern, ms);
    forall i | 0 <= i < |ps|
      ensures ps[i].Some?
      ensures ms[i].kind == AuthRequiredType <==> ps[i].value.AuthRequired?
      ensures ms[i].kind == TenantRequiredType <==> ps[i].value == TenantRequired
      ensures ms[i].kind == TenantMatchType <==> ps[i].value.TenantMatchFromPath?
    {
      assert ps[i] in ps;
      KindsAreReal(ps[i]);
    }
    a, t, m := TenantPositions(ms);
    TrimTwice(ps[m].value.param);
  }

  /** What the handler may rely on: the last AuthRequired set the principal it sees, TenantRequired and
      the path match then accepted that same principal, and its tenant is the one in the path and the one
      resolved for the request. */
  ghost predicate Isolated(ps: seq<Option<Policy>>, r: Request, a: nat, t: nat, m: nat)
    requires Guarded(ps, a, t, m) && Walk(ps, r).Next?
  {
    var seen := Walk(ps, r).request;
    && Walk(ps[..a], r).Next? && seen.principal == ps[a].value.authenticate(Walk(ps[..a], r).request)
    && Walk(ps[..t], r).Next? && Decide(TenantRequired, Walk(ps[..t], r).request).Next?
    && seen.tenant == r.tenant && seen.path == r.path
    && seen.principal.Some?
    && var who := Trim(seen.principal.value);
       && who != "" && who == Trim(UrlParam(r, Trim(ps[m].value.param)))
       && (r.tenant != "" ==> who == Trim(r.tenant))
  }

  /** Past the last AuthRequired every policy sees the identity the handler sees. */
  lemma SeenAt(ps: seq<Option<Policy>>, a: nat, i: nat, r: Request) returns (before: Request)
    requires a < i < |ps| && ps[i].Some? && Walk(ps, r).Next? && forall p | p in ps :: KeepsIdentity(p)
    requires forall j | a < j < |ps| :: ps[j].Some? ==> !ps[j].value.AuthRequired?
    ensures Walk(ps[..i], r) == Next(before) && Decide(ps[i].value, before).Next?
    ensures SameIdentity(before, Walk(ps, r).request)
  {
    var after;
    before, after := StepAt(ps, i, r);
    WalkSplits(ps, i, r);
    assert forall p | p in ps[i..] :: p in ps;
    WalkKeeps(ps[i..], before);
  }

  lemma SetBy(ps: seq<Option<Policy>>, a: nat, r: Request)
    requires a < |ps| && ps[a].Some? && ps[a].value.AuthRequired? && Walk(ps, r).Next? && forall p | p in ps :: KeepsIdentity(p)
    requires forall j | a < j < |ps| :: ps[j].Some? ==> !ps[j].value.AuthRequired?
    ensures Walk(ps[..a], r).Next?
    ensures Walk(ps, r).request.principal == ps[a].value.authenticate(Walk(ps[..a], r).request)
  {
    var before, after := StepAt(ps, a, r);
    assert forall p | p in ps[a + 1..] :: p in ps;
    WalkKeeps(ps[a + 1..], after);
  }

  lemma TenantMatched(param: string, r: Request)
    requires DecideTenantMatch(param, r).Next?
    ensures r.principal.Some? && Trim(r.principal.value) != "" && Trim(r.principal.value) == Trim(UrlParam(r, Trim(param)))
  {
    TrimTwice(r.principal.value);
    TrimTwice(UrlParam(r, Trim(param)));
  }

  lemma TenantHeld(r: Request)
    requires DecideTenantRequired(r).Next?
    ensures r.principal.Some? && (r.tenant != "" ==> Trim(r.principal.value) == Trim(r.tenant))
  {
    TrimTwice(r.principal.value);
  }

  lemma GuardedIsIsolated(ps: seq<Option<Policy>>, r: Request, a: nat, t: nat, m: nat)
    requires Guarded(ps, a, t, m) && Walk(ps, r).Next? && forall p | p in ps :: KeepsIdentity(p)
    ensures Isolated(ps, r, a, t, m)
  {
    SetBy(ps, a, r);
    var atT := SeenAt(ps, a, t, r);
    var atM := SeenAt(ps, a, m, r);
    WalkKeeps(ps, r);
    TenantHeld(atT);
    TenantMatched(ps[m].value.param, atM);
    assert UrlParam(atM, Trim(ps[m].value.param)) == UrlParam(r, Trim(ps[m].value.param));
  }

  /** Every request that reaches the handler of an accepted tenant-scoped route is authenticated and
      isolated to the tenant in its path. */
  lemma AcceptedRoutesIsolate(rules: seq<Option<Rule>>, verb: string, pattern: string, ps: seq<Option<Policy>>, r: Request) returns (a: nat, t: nat, m: nat)
    requires Some(Tenancy(true)) in rules && ps != [] && PatternHasTenant(pattern)
    requires Accepted(rules, verb, pattern, ps)
    requires forall p | p in ps :: WellBuilt(p) && KeepsIdentity(p)
    requires Walk(ps, r).Next?
    ensures Guarded(ps, a, t, m) && Isolated(ps, r, a, t, m)
  {
    a, t, m := AcceptedAreGuarded(rules, verb, pattern, ps);
    GuardedIsIsolated(ps, r, a, t, m);
  }

  /** No spelling of the parameter in the path names another tenant than `key` does. */
  predicate OneTenant(path: map<string, string>, key: string)
    requires key in path
  {
    forall k | k in path :: Lower(k) == TENANT_PARAM ==> Trim(path[k]) == "" || Trim(path[k]) == Trim(path[key])
  }

  /** Then the principal's tenant is the one `key` names. */
  lemma PathTenantMatches(rules: seq<Option<Rule>>, verb: string, pattern: string, ps: seq<Option<Policy>>, r: Request, key: string)
    requires Some(Tenancy(true)) in rules && ps != [] && PatternHasTenant(pattern)
    requires Accepted(rules, verb, pattern, ps)
    requires forall p | p in ps :: WellBuilt(p) && KeepsIdentity(p)
    requires Walk(ps, r).Next?
    requires key in r.path && OneTenant(r.path, key)
    ensures Walk(ps, r).request.principal.Some? && Trim(Walk(ps, r).request.principal.value) == Trim(r.path[key])
  {
    var a, t, m := AcceptedRoutesIsolate(rules, verb, pattern, ps, r);
    assert Trim("") == "";
  }

  lemma SpellingIsBare(k: string)
    requires Lower(k) == TENANT_PARAM
    ensures Trim(k) == k
  {
    assert |k| == |TENANT_PARAM| && Lower(k)[0] == LowerChar(k[0]) && Lower(k)[|k| - 1] == LowerChar(k[|k| - 1]);
    assert Bare(k);
  }

  /** With a spelling that names another tenant, an accepted route lets a request of that other tenant
      through: the rule compares parameter names without case, the policy with case. */
  lemma OtherSpellingSlips(verb: string, pattern: string, path: map<string, string>, key: string, spelled: string) returns (ps: seq<Option<Policy>>, r: Request)
    requires Trim(verb) != "" && Trim(pattern) != ""
    requires key in path && spelled in path && Lower(spelled) == TENANT_PARAM
    requires Trim(path[spelled]) != "" && Trim(path[spelled]) != Trim(path[key])
    ensures ps != [] && Accepted([Some(Tenancy(true))], verb, pattern, ps) && r.path == path
    ensures forall p | p in ps :: WellBuilt(p) && KeepsIdentity(p)
    ensures Walk(ps, r).Next? && Walk(ps, r).request.principal.Some? && Trim(Walk(ps, r).request.principal.value) != Trim(path[key])
  {
    var auth := Some(AuthRequired((q: Request) => Some(path[spelled])));
    var required, same := Some(TenantRequired), Some(TenantMatchFromPath(spelled));
    ps := [auth, required, same];
    r := Request(None, "", path, "");
    var seen := r.(principal := Some(path[spelled]));
    SpellingIsBare(spelled);
    TrimTwice(path[spelled]);
    TrimTwice(Trim(path[spelled]));
    WalkThree(auth.value, TenantRequired, same.value, r, seen);
    SlippingListIsAccepted(verb, pattern, ps, spelled);
  }

  /** The request reached the handler of an accepted route as somebody of the tenant that `key` names. */
  ghost predicate ReachesAs(verb: string, pattern: string, ps: seq<Option<Policy>>, r: Request, key: string)
    requires key in r.path
  {
    ps != [] && Accepted([Some(Tenancy(true))], verb, pattern, ps) && (forall p | p in ps :: WellBuilt(p) && KeepsIdentity(p)) && Walk(ps, r).Next? ==>
      Walk(ps, r).request.principal.Some? && Trim(Walk(ps, r).request.principal.value) == Trim(r.path[key])
  }

  /** Accepted routes confine every request on a path to the tenant `key` names exactly when no spelling of
      the parameter in that path names another. */
  lemma ConfinedIffOneTenant(verb: string, pattern: string, path: map<string, string>, key: string)
    requires Trim(verb) != "" && Trim(pattern) != "" && PatternHasTenant(pattern) && key in path
    ensures (forall ps, r: Request | r.path == path :: ReachesAs(verb, pattern, ps, r, key)) <==> OneTenant(path, key)
  {
    if OneTenant(path, key) {
      forall ps, r: Request | r.path == path ensures ReachesAs(verb, pattern, ps, r, key) {
        if ps != [] && Accepted([Some(Tenancy(true))], verb, pattern, ps) && (forall p | p in ps :: WellBuilt(p) && KeepsIdentity(p)) && Walk(ps, r).Next? {
          PathTenantMatches([Some(Tenancy(true))], verb, pattern, ps, r, key);
        }
      }
    } else {
      var spelled :| spelled in path && Lower(spelled) == TENANT_PARAM && Trim(path[spelled]) != "" && Trim(path[spelled]) != Trim(path[key]);
      var ps, r := OtherSpellingSlips(verb, pattern, path, key, spelled);
      assert !ReachesAs(verb, pattern, ps, r, key);
    }
  }

  lemma WalkThree(p: Policy, q: Policy, s: Policy, r: Request, seen: Request)
    requires Decide(p, r) == Next(seen) && Decide(q, seen) == Next(seen) && Decide(s, seen) == Next(seen)
    ensures Walk([Some(p), Some(q), Some(s)], r) == Next(seen)
  {
    var ps := [Some(p), Some(q), Some(s)];
    assert ps[1..] == [Some(q), Some(s)] && ps[1..][1..] == [Some(s)] && [Some(s)][1..] == [];
    assert Walk([Some(s)], seen) == Next(seen);
    assert Walk([Some(q), Some(s)], seen) == Next(seen);
  }

  lemma SlippingMetas(ms: seq<Metadata>, pattern: string)
    requires |ms| == 3 && ms[0].kind == AuthRequiredType && ms[1].kind == TenantRequiredType && ms[2].kind == TenantMatchType
    requires ms[0].stage == 0 && ms[1].stage == ms[2].stage == STAGE_ISOLATION && NamesTenantParam(ms[2])
    ensures Ordered(ms) && AuthBacked(ms) && CacheSafe(ms) && TenancyVerdict(true, pattern, ms) == None
  {
    assert Has(ms, TenantRequiredType) && Has(ms, AuthRequiredType) && Has(ms, TenantMatchType);
    assert !MatchComesFirst(ms) && AllNameTenant(ms);
  }

  lemma OneRule(rule: Rule, verb: string, pattern: string, ms: seq<Metadata>)
    ensures RulesVerdict([Some(rule)], verb, pattern, ms) == RuleVerdict(rule, verb, pattern, ms)
  {
    assert [Some(rule)][1..] == [];
  }

  lemma SlippingListIsAccepted(verb: string, pattern: string, ps: seq<Option<Policy>>, spelled: string)
    requires Trim(verb) != "" && Trim(pattern) != "" && Trim(spelled) == spelled && Lower(spelled) == TENANT_PARAM
    requires |ps| == 3 && ps[0].Some? && ps[0].value.AuthRequired? && ps[1] == Some(TenantRequired) && ps[2] == Some(TenantMatchFromPath(spelled))
    ensures Accepted([Some(Tenancy(true))], verb, pattern, ps)
  {
    var ms := Metas(ps);
    assert NamesTenantParam(ms[2]);
    SlippingMetas(ms, Trim(Trim(pattern)));
    var upper := Upper(Trim(verb));
    TrimTwice(pattern);
    UpperKeepsEmpty(verb);
    OneRule(Tenancy(true), Upper(Trim(upper)), Trim(Trim(pattern)), ms);
    assert MetasVerdict([Some(Tenancy(true))], upper, Trim(pattern), ms) == None;
  }

  /** On an accepted route every permission check comes after an AuthRequired. */
  lemma PermissionChecksFollowAuth(rules: seq<Option<Rule>>, verb: string, pattern: string, ps: seq<Option<Policy>>, j: nat) returns (a: nat)
    requires Accepted(rules, verb, pattern, ps) && forall p | p in ps :: WellBuilt(p)
    requires j < |ps| && ps[j].Some? && ps[j].value.Guard? && ps[j].value.kind in {RequirePermType, RequireAnyPermType}
    ensures a < j && ps[a].Some? && ps[a].value.AuthRequired?
    ensures forall i | j < i < |ps| :: ps[i].Some? ==> !ps[i].value.AuthRequired?
  {
    var ms := Metas(ps);
    AcceptedBasics(rules, verb, pattern, ps);
    assert ms[j].kind in {RequirePermType, RequireAnyPermType};
    a := AuthBefore(ms, j);
    assert ps[a] in ps;
    KindsAreReal(ps[a]);
  }

  lemma AcceptedBasics(rules: seq<Option<Rule>>, verb: string, pattern: string, ps: seq<Option<Policy>>)
    requires Accepted(rules, verb, pattern, ps) && ps != []
    ensures Ordered(Metas(ps)) && AuthBacked(Metas(ps))
  {
    UpperKeepsEmpty(verb);
    TrimTwice(pattern);
  }

  lemma AuthBefore(ms: seq<Metadata>, j: nat) returns (a: nat)
    requires Ordered(ms) && AuthBacked(ms) && j < |ms| && ms[j].kind in {RequirePermType, RequireAnyPermType} && OrderStage(ms[j]) == STAGE_RBAC
    requires forall i | 0 <= i < |ms| :: ms[i].kind == AuthRequiredType ==> OrderStage(ms[i]) == STAGE_AUTH
    ensures a < j && ms[a].kind == AuthRequiredType && forall i | j <= i < |ms| :: ms[i].kind != AuthRequiredType
  {
    a := LastOf(ms, AuthRequiredType);
  }
}
