/** OAuth accounts change only by transitions that return a new account value;
    three version counters and the transport keys built from them tell clients
    what may have changed. */
module Accounts {
  import opened Basics

  const MAX_VERSION: nat := 0xFFFF_FFFF

  datatype Error = InvalidExpiry | InvalidEmail | InvalidModel | DuplicateModel | InvalidVersion

  /** Checks on single texts that the account code calls. */
  datatype Rules = Rules(validModel: Text -> bool, validEmail: Text -> bool)

  datatype Draft = Draft(title: Text, requestsPerMinute: Option<nat>, enabled: bool)

  datatype Account = Account(
    id: nat,
    provider: nat,
    draft: Draft,
    proxy: nat,
    email: Option<Text>,
    expiresAt: Option<int>,
    createdAt: Text,
    tokenVersion: nat,
    generation: nat,
    configVersion: nat,
    models: seq<Text>
  )

  datatype Command =
    | Updated(draft: Draft, proxy: nat)
    | WithModels(models: seq<Text>)
    | Refreshed(email: Option<Text>, expiresAt: Option<int>)
    | Reauthorized(proxy: nat, email: Option<Text>, expiresAt: Option<int>, models: seq<Text>)

  // ----- checks

  predicate ValidVersion(v: nat) {
    0 < v <= MAX_VERSION
  }

  function NextVersion(v: nat): Result<nat, Error> {
    if ValidVersion(v + 1) then Ok(v + 1) else Err(InvalidVersion)
  }

  function BumpedIf(condition: bool, v: nat): Result<nat, Error> {
    if condition then NextVersion(v) else Ok(v)
  }

  predicate ExpiryOk(e: Option<int>) {
    e.Some? ==> e.value >= 0
  }

  predicate EmailOk(rules: Rules, e: Option<Text>) {
    e.Some? ==> rules.validEmail(e.value)
  }

  function ByText(): Text -> Key {
    (t: Text) => Key(0, t)
  }

  /** Sorted, or the reason why not. */
  function ValidateModels(rules: Rules, models: seq<Text>): Result<seq<Text>, Error> {
    var sorted := StableSort(models, ByText());
    if exists i | 0 <= i < |models| :: !rules.validModel(models[i]) then Err(InvalidModel)
    else if exists i | 0 <= i < |sorted| - 1 :: sorted[i] == sorted[i + 1] then Err(DuplicateModel)
    else Ok(sorted)
  }

  /** Accepted model lists come out strictly ascending, so that the account can
      be searched by bisection; a list is refused as duplicate exactly when a
      name occurs twice. */
  lemma ValidatedModels(rules: Rules, models: seq<Text>)
    ensures var r := ValidateModels(rules, models);
            && (r.Ok? ==> StrictlyAscending(r.value, ByText()) && multiset(r.value) == multiset(models))
            && (r == Err(DuplicateModel) ==> !DistinctKeys(models, ByText()))
            && (r.Ok? ==> DistinctKeys(models, ByText()))
  {
    var sorted := StableSort(models, ByText());
    SortAscending(models, ByText());
    if forall i | 0 <= i < |sorted| - 1 :: sorted[i] != sorted[i + 1] {
      forall i, j | 0 <= i < j < |sorted|
        ensures KeyLess(ByText()(sorted[i]), ByText()(sorted[j]))
      {
        NeighboursAscend(sorted, i, j);
      }
      forall i, j | 0 <= i < j < |sorted|
        ensures ByText()(sorted[i]) != ByText()(sorted[j])
      {
        KeyTotal(ByText()(sorted[i]), ByText()(sorted[j]));
      }
      DistinctKeysOfPermutation(sorted, models, ByText());
    } else if DistinctKeys(models, ByText()) {
      DistinctKeysOfPermutation(models, sorted, ByText());
    }
  }

  lemma {:induction false} NeighboursAscend(s: seq<Text>, i: nat, j: nat)
    requires i < j < |s| && Ascending(s, ByText())
    requires forall k | 0 <= k < |s| - 1 :: s[k] != s[k + 1]
    ensures KeyLess(ByText()(s[i]), ByText()(s[j]))
    decreases j - i
  {
    KeyTotal(ByText()(s[i]), ByText()(s[i + 1]));
    assert !KeyLess(ByText()(s[i + 1]), ByText()(s[i]));
    if i + 1 < j {
      NeighboursAscend(s, i + 1, j);
      KeyTransitive(ByText()(s[i]), ByText()(s[i + 1]), ByText()(s[j]));
    }
  }

  // ----- transitions

  function Apply(rules: Rules, a: Account, c: Command): Result<Account, Error> {
    match c
    case Updated(draft, proxy) =>
      if a.draft == draft && a.proxy == proxy then Ok(a)
      else
        (match (BumpedIf((!a.draft.enabled && draft.enabled) || a.proxy != proxy, a.generation), NextVersion(a.configVersion))
         case (Err(e), _) => Err(e)
         case (_, Err(e)) => Err(e)
         case (Ok(generation), Ok(config)) =>
           Ok(a.(draft := draft, proxy := proxy, generation := generation, configVersion := config)))
    case WithModels(models) =>
      (match ValidateModels(rules, models)
       case Err(e) => Err(e)
       case Ok(sorted) =>
         if a.models == sorted then Ok(a)
         else match NextVersion(a.configVersion)
           case Err(e) => Err(e)
           case Ok(config) => Ok(a.(models := sorted, configVersion := config)))
    case Refreshed(email, expiresAt) =>
      if !ExpiryOk(expiresAt) then Err(InvalidExpiry)
      else if !EmailOk(rules, email) then Err(InvalidEmail)
      else
        (match NextVersion(a.tokenVersion)
         case Err(e) => Err(e)
         case Ok(token) => Ok(a.(email := email, expiresAt := expiresAt, tokenVersion := token)))
    case Reauthorized(proxy, email, expiresAt, models) =>
      if !ExpiryOk(expiresAt) then Err(InvalidExpiry)
      else if !EmailOk(rules, email) then Err(InvalidEmail)
      else
        (match ValidateModels(rules, models)
         case Err(e) => Err(e)
         case Ok(sorted) =>
           var rerouted := a.proxy != proxy;
           match (NextVersion(a.tokenVersion), BumpedIf(rerouted, a.generation), BumpedIf(rerouted || a.models != sorted, a.configVersion))
           case (Ok(token), Ok(generation), Ok(config)) =>
             Ok(a.(proxy := proxy, email := email, expiresAt := expiresAt, models := sorted,
                   tokenVersion := token, generation := generation, configVersion := config))
           case _ => Err(InvalidVersion))
  }

  predicate ValidVersions(a: Account) {
    ValidVersion(a.tokenVersion) && ValidVersion(a.generation) && ValidVersion(a.configVersion)
  }

  /** A run: each account comes from the one before by an accepted command. */
  ghost predicate Run(rules: Rules, run: seq<Account>) {
    forall k | 0 < k < |run| :: ChangedAt(rules, run, k)
  }

  ghost predicate ChangedAt(rules: Rules, run: seq<Account>, k: nat)
    requires 0 < k < |run|
  {
    ChangesTo(rules, run[k - 1], run[k])
  }

  ghost predicate ChangesTo(rules: Rules, a: Account, b: Account) {
    exists c :: Leads(rules, a, c, b)
  }

  predicate Leads(rules: Rules, a: Account, c: Command, b: Account) {
    Apply(rules, a, c) == Ok(b)
  }

  /** The account was switched on again at `k`. */
  predicate ReenabledAt(run: seq<Account>, k: nat)
    requires 0 < k < |run|
  {
    !run[k - 1].draft.enabled && run[k].draft.enabled
  }

  /** What one accepted command may do. */
  ghost predicate Follows(a: Account, b: Account) {
    && a.id == b.id && a.provider == b.provider && a.createdAt == b.createdAt
    && a.generation <= b.generation && a.configVersion <= b.configVersion && a.tokenVersion <= b.tokenVersion
    && (a.generation == b.generation ==> a.proxy == b.proxy && (a.draft.enabled || !b.draft.enabled))
    && (a.configVersion == b.configVersion ==> SameSettings(a, b))
    && (a.tokenVersion == b.tokenVersion ==> SameLogin(a, b))
    && (ValidVersions(a) ==> ValidVersions(b))
  }

  predicate SameSettings(a: Account, b: Account) {
    a.draft == b.draft && a.proxy == b.proxy && a.models == b.models
  }

  predicate SameLogin(a: Account, b: Account) {
    a.email == b.email && a.expiresAt == b.expiresAt
  }

  lemma CommandFollows(rules: Rules, a: Account, c: Command)
    requires Apply(rules, a, c).Ok?
    ensures Follows(a, Apply(rules, a, c).value)
  {
  }

  /** Over any stretch of a run, an unchanged counter vouches for its part of the
      account: the generation for the route and for staying enabled-or-not, the
      config version for settings and models, the token version for the login. */
  lemma {:induction false} CountersVouch(rules: Rules, run: seq<Account>, i: nat, j: nat)
    requires Run(rules, run) && i <= j < |run|
    ensures Follows(run[i], run[j])
    ensures run[i].generation == run[j].generation ==>
              && (forall k | i <= k <= j :: run[k].proxy == run[i].proxy)
              && (forall k | i < k <= j :: !ReenabledAt(run, k))
    ensures run[i].configVersion == run[j].configVersion ==> forall k | i <= k <= j :: SameSettings(run[k], run[i])
    ensures run[i].tokenVersion == run[j].tokenVersion ==> forall k | i <= k <= j :: SameLogin(run[k], run[i])
    decreases j - i
  {
    hide Apply, Follows;
    if i == j {
      FollowsItself(run[i]);
    } else {
      var k := j - 1;
      CountersVouch(rules, run, i, k);
      RunStep(rules, run, j);
      FollowsOn(run[i], run[k], run[j]);
    }
  }

  lemma FollowsItself(a: Account)
    ensures Follows(a, a)
  {
  }

  lemma RunStep(rules: Rules, run: seq<Account>, k: nat)
    requires Run(rules, run) && 0 < k < |run|
    ensures Follows(run[k - 1], run[k])
  {
    hide Apply, Follows;
    assert ChangedAt(rules, run, k);
    var c :| Leads(rules, run[k - 1], c, run[k]);
    CommandFollows(rules, run[k - 1], c);
  }

  lemma FollowsOn(a: Account, b: Account, c: Account)
    requires Follows(a, b) && Follows(b, c)
    ensures Follows(a, c)
    ensures a.generation == c.generation ==>
              a.generation == b.generation && a.proxy == b.proxy == c.proxy && !(!b.draft.enabled && c.draft.enabled)
    ensures a.configVersion == c.configVersion ==> a.configVersion == b.configVersion && SameSettings(c, a)
    ensures a.tokenVersion == c.tokenVersion ==> a.tokenVersion == b.tokenVersion && SameLogin(c, a)
  {
  }

  // ----- transport isolation keys

  datatype Owner = Credential(id: nat) | SharedDataPlane | Ephemeral(id: nat)

  datatype TrafficClass = DataPlane | OAuthToken | OAuthQuota | Diagnostic

  datatype IsolationKey = IsolationKey(owner: Owner, generation: nat, authentication: nat, traffic: TrafficClass)

  predicate Retires(a: IsolationKey, cached: IsolationKey) {
    && a.owner.Credential? && a.owner == cached.owner
    && (a.generation > cached.generation || (a.generation == cached.generation && a.authentication > cached.authentication))
  }

  function KeyFor(a: Account, traffic: TrafficClass): IsolationKey {
    IsolationKey(Credential(a.id), a.generation, a.tokenVersion, traffic)
  }

  /** `Retires` is a strict partial order in which only keys of one credential
      are related. */
  lemma RetiresIsAnOrder(a: IsolationKey, b: IsolationKey, c: IsolationKey)
    ensures !Retires(a, a)
    ensures !(Retires(a, b) && Retires(b, a))
    ensures Retires(a, b) && Retires(b, c) ==> Retires(a, c)
    ensures Retires(a, b) ==> a.owner == b.owner
  {
  }

  /** Along a run the keys form a chain: a later key retires an earlier one
      exactly when route or login changed, and is never retired by it. */
  lemma KeysFormAChain(rules: Rules, run: seq<Account>, i: nat, j: nat, s: TrafficClass, t: TrafficClass)
    requires Run(rules, run) && i <= j < |run|
    ensures var early, late := KeyFor(run[i], s), KeyFor(run[j], t);
            && !Retires(early, late)
            && (Retires(late, early) <==> (late.generation, late.authentication) != (early.generation, early.authentication))
            && (!Retires(late, early) ==> run[i].proxy == run[j].proxy && run[i].email == run[j].email && run[i].expiresAt == run[j].expiresAt)
  {
    CountersVouch(rules, run, i, j);
  }
}
