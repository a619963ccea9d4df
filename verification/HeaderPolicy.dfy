/** Projecting request headers: an allow-list in priority order, filtered by
    ownership, and cut off by two budgets. */
module HeaderPolicy {
  import opened Basics

  const MAX_VALUES: nat := 64
  const MAX_VALUE_BYTES: nat := 8 * 1024
  const MAX_BYTES: nat := 32 * 1024

  /** A multi-map of headers. `keys` is the iteration order, which means nothing. */
  datatype HeaderMap = HeaderMap(keys: seq<Text>, values: map<Text, seq<Text>>) {
    ghost predicate Valid() {
      && (forall i, j | 0 <= i < j < |keys| :: keys[i] != keys[j])
      && (forall name :: name in keys <==> name in values)
    }

    function All(name: Text): seq<Text> {
      if name in values then values[name] else []
    }
  }

  datatype Item = Item(name: Text, value: Text)

  // ----- names that are never forwarded

  const FORBIDDEN: set<string> := {
    "authorization", "x-api-key", "api-key", "cookie", "set-cookie", "host", "forwarded",
    "proxy-authenticate", "proxy-authorization", "connection", "keep-alive", "proxy-connection",
    "te", "trailer", "transfer-encoding", "upgrade", "content-length", "content-md5", "digest",
    "etag", "accept-encoding", "baggage", "chatgpt-account-id", "x-userid", "x-xai-token-auth",
    "x-authenticateresponse"
  }

  predicate Forbidden(name: Text) {
    Chars(name) in FORBIDDEN || "x-forwarded-" <= Chars(name)
  }

  const CONNECTION: Text := [99, 111, 110, 110, 101, 99, 116, 105, 111, 110]

  predicate TokenChar(c: byte) {
    || 48 <= c <= 57 || 65 <= c <= 90 || 97 <= c <= 122
    || c in {33, 35, 36, 37, 38, 39, 42, 43, 45, 46, 94, 95, 96, 124, 126}
  }

  /** `HeaderName::from_bytes`: a token, in lower case. */
  function HeaderName(t: Text): Option<Text> {
    if t != [] && forall i | 0 <= i < |t| :: TokenChar(t[i])
    then Some(Lower(t))
    else None
  }

  /** Names listed in a `Connection` header (section 7.6.1 of RFC 9110). */
  predicate Nominated(source: HeaderMap, name: Text) {
    exists v, piece | v in source.All(CONNECTION) && piece in Split(v, COMMA) :: HeaderName(Trim(piece)) == Some(name)
  }

  predicate Blocked(source: HeaderMap, name: Text) {
    Forbidden(name) || Nominated(source, name)
  }

  // ----- the greedy choice

  datatype Chosen = Chosen(out: seq<Item>, bytes: nat, stopped: bool)

  function Weight(it: Item): nat {
    |it.name| + |it.value|
  }

  function Choose(c: Chosen, it: Item): Chosen {
    if c.stopped || |it.value| > MAX_VALUE_BYTES then c
    else if |c.out| >= MAX_VALUES then c.(stopped := true)
    else if c.bytes + Weight(it) > MAX_BYTES then c
    else Chosen(c.out + [it], c.bytes + Weight(it), false)
  }

  /** Offers the items one after the other. */
  function Greedy(c: Chosen, items: seq<Item>): Chosen
    decreases |items|
  {
    if items == [] then c else Greedy(Choose(c, items[0]), items[1..])
  }

  const NOTHING: Chosen := Chosen([], 0, false)

  function ItemsOf(source: HeaderMap, name: Text): seq<Item> {
    if Blocked(source, name) then [] else Tagged(name, source.All(name))
  }

  function Tagged(name: Text, vs: seq<Text>): (r: seq<Item>)
    ensures |r| == |vs|
    ensures forall i | 0 <= i < |vs| :: r[i] == Item(name, vs[i])
  {
    seq(|vs|, i requires 0 <= i < |vs| => Item(name, vs[i]))
  }

  function Candidates(source: HeaderMap, names: seq<Text>): seq<Item> {
    if names == [] then [] else ItemsOf(source, names[0]) + Candidates(source, names[1..])
  }

  lemma {:induction false} GreedySplit(c: Chosen, a: seq<Item>, b: seq<Item>)
    ensures Greedy(c, a + b) == Greedy(Greedy(c, a), b)
    decreases |a|
  {
    if a == [] {
      assert a + b == b;
    } else {
      assert (a + b)[1..] == a[1..] + b;
      GreedySplit(Choose(c, a[0]), a[1..], b);
    }
  }

  lemma {:induction false} GreedyStopped(c: Chosen, items: seq<Item>)
    requires c.stopped
    ensures Greedy(c, items) == c
  {
    if items != [] {
      GreedyStopped(c, items[1..]);
    }
  }

  // ----- prefixes

  function PrefixIndex(name: Text, prefixes: seq<Text>): (r: Option<nat>)
    ensures r.Some? ==> r.value < |prefixes| && prefixes[r.value] <= name
    ensures r.None? ==> forall p | p in prefixes :: !(p <= name)
  {
    if prefixes == [] then None
    else if prefixes[0] <= name then Some(0)
    else
      assert forall p | p in prefixes :: p == prefixes[0] || p in prefixes[1..];
      match PrefixIndex(name, prefixes[1..]) case None => None case Some(i) => Some(i + 1)
  }

  /** Names with a selected prefix, apart from those known exactly. */
  function PrefixKeys(keys: seq<Text>, known: seq<Text>, prefixes: seq<Text>): (r: seq<Key>)
    ensures forall k | k in r :: k.name in keys && k.name !in known && PrefixIndex(k.name, prefixes) == Some(k.rank)
    ensures forall n | n in keys && n !in known && PrefixIndex(n, prefixes).Some? :: Key(PrefixIndex(n, prefixes).value, n) in r
  {
    if keys == [] then []
    else
      var rest := PrefixKeys(keys[1..], known, prefixes);
      if keys[0] in known || PrefixIndex(keys[0], prefixes).None? then rest
      else [Key(PrefixIndex(keys[0], prefixes).value, keys[0])] + rest
  }

  function Itself(): Key -> Key {
    (k: Key) => k
  }

  function Names(ks: seq<Key>): (r: seq<Text>)
    ensures |r| == |ks|
    ensures forall i | 0 <= i < |ks| :: r[i] == ks[i].name
  {
    seq(|ks|, i requires 0 <= i < |ks| => ks[i].name)
  }

  /** Declared prefix order first, then by name. */
  function OrderedPrefixNames(source: HeaderMap, known: seq<Text>, prefixes: seq<Text>): seq<Text> {
    Names(StableSort(PrefixKeys(source.keys, known, prefixes), Itself()))
  }

  /** The whole offer: exact names in their order, then prefix matches. */
  function Offer(source: HeaderMap, selected: seq<Text>, known: seq<Text>, prefixes: seq<Text>): seq<Item> {
    Candidates(source, selected + OrderedPrefixNames(source, known, prefixes))
  }

  // ----- the projection

  method AppendName(source: HeaderMap, name: Text, projected: seq<Item>, bytes: nat)
    returns (out: seq<Item>, total: nat, more: bool)
    ensures Chosen(out, total, !more) == Greedy(Chosen(projected, bytes, false), ItemsOf(source, name))
  {
    out, total, more := projected, bytes, true;
    if Blocked(source, name) {
      return;
    }
    var values := source.All(name);
    ghost var items := Tagged(name, values);
    for k := 0 to |values|
      invariant more
      invariant Greedy(Chosen(out, total, false), items[k..]) == Greedy(Chosen(projected, bytes, false), items)
    {
      assert items[k..][1..] == items[k + 1..];
      if |values[k]| > MAX_VALUE_BYTES {
        continue;
      }
      if |out| >= MAX_VALUES {
        GreedyStopped(Chosen(out, total, true), items[k + 1..]);
        return out, total, false;
      }
      var next := total + |name| + |values[k]|;
      if next > MAX_BYTES {
        continue;
      }
      out, total := out + [Item(name, values[k])], next;
    }
    assert items[|values|..] == [];
  }

  method AppendNames(source: HeaderMap, names: seq<Text>, projected: seq<Item>, bytes: nat)
    returns (out: seq<Item>, total: nat, more: bool)
    ensures Chosen(out, total, !more) == Greedy(Chosen(projected, bytes, false), Candidates(source, names))
  {
    out, total, more := projected, bytes, true;
    ghost var goal := Greedy(Chosen(projected, bytes, false), Candidates(source, names));
    for k := 0 to |names|
      invariant more && Greedy(Chosen(out, total, false), Candidates(source, names[k..])) == goal
    {
      ghost var rest := Candidates(source, names[k + 1..]);
      assert names[k..][1..] == names[k + 1..];
      GreedySplit(Chosen(out, total, false), ItemsOf(source, names[k]), rest);
      out, total, more := AppendName(source, names[k], out, total);
      if !more {
        GreedyStopped(Chosen(out, total, true), rest);
        return;
      }
    }
    assert names[|names|..] == [];
  }

  /** Computes the greedy choice from the whole offer. */
  method ProjectSelected(source: HeaderMap, selected: seq<Text>, known: seq<Text>, prefixes: seq<Text>)
    returns (projected: seq<Item>)
    ensures projected == Greedy(NOTHING, Offer(source, selected, known, prefixes)).out
  {
    var names := OrderedPrefixNames(source, known, prefixes);
    CandidatesSplit(source, selected, names);
    GreedySplit(NOTHING, Candidates(source, selected), Candidates(source, names));
    var total, more;
    projected, total, more := AppendNames(source, selected, [], 0);
    if !more {
      GreedyStopped(Chosen(projected, total, true), Candidates(source, names));
      return;
    }
    projected, total, more := AppendNames(source, names, projected, total);
  }

  lemma {:induction false} CandidatesSplit(source: HeaderMap, a: seq<Text>, b: seq<Text>)
    ensures Candidates(source, a + b) == Candidates(source, a) + Candidates(source, b)
  {
    if a == [] {
      assert a + b == b;
    } else {
      assert (a + b)[1..] == a[1..] + b;
      CandidatesSplit(source, a[1..], b);
    }
  }

  // ----- what the choice guarantees

  function Size(out: seq<Item>): nat {
    if out == [] then 0 else Size(out[..|out| - 1]) + Weight(out[|out| - 1])
  }

  /** A choice that keeps both budgets. */
  predicate WithinBudgets(c: Chosen) {
    |c.out| <= MAX_VALUES && c.bytes == Size(c.out) <= MAX_BYTES && (c.stopped ==> |c.out| == MAX_VALUES)
  }

  /** At most 64 values and 32 KiB, and the choice only ever grows. */
  lemma {:induction false} GreedyKeepsBudgets(c: Chosen, items: seq<Item>)
    requires WithinBudgets(c)
    ensures WithinBudgets(Greedy(c, items)) && c.out <= Greedy(c, items).out && c.bytes <= Greedy(c, items).bytes
    decreases |items|
  {
    if items != [] {
      var next := Choose(c, items[0]);
      assert next.out != c.out ==> next.out[..|next.out| - 1] == c.out;
      GreedyKeepsBudgets(next, items[1..]);
    }
  }

  /** The choice when item `i` comes up. */
  function ChoiceAt(items: seq<Item>, i: nat): Chosen
    requires i <= |items|
  {
    Greedy(NOTHING, items[..i])
  }

  /** Item `i` of the offer was taken. */
  predicate Taken(items: seq<Item>, i: nat)
    requires i < |items|
  {
    ChoiceAt(items, i + 1).out == ChoiceAt(items, i).out + [items[i]]
  }

  /** Whatever was left out is oversized, or no longer fits next to what was
      finally chosen. */
  lemma OmittedForAReason(items: seq<Item>, i: nat)
    requires i < |items|
    ensures var c := Greedy(NOTHING, items);
            || Taken(items, i)
            || |items[i].value| > MAX_VALUE_BYTES
            || |c.out| == MAX_VALUES
            || c.bytes + Weight(items[i]) > MAX_BYTES
  {
    hide Greedy;
    var before := ChoiceAt(items, i);
    assert items[..i + 1] == items[..i] + [items[i]] && items == items[..i + 1] + items[i + 1..];
    NothingFits();
    GreedyKeepsBudgets(NOTHING, items[..i]);
    GreedySplit(NOTHING, items[..i], [items[i]]);
    GreedyOne(before, items[i]);
    GreedyKeepsBudgets(NOTHING, items[..i + 1]);
    GreedySplit(NOTHING, items[..i + 1], items[i + 1..]);
    GreedyKeepsBudgets(ChoiceAt(items, i + 1), items[i + 1..]);
  }

  lemma NothingFits()
    ensures WithinBudgets(NOTHING)
  {
  }

  lemma GreedyOne(c: Chosen, it: Item)
    ensures Greedy(c, [it]) == Choose(c, it)
  {
    assert [it][1..] == [];
  }

  /** The chosen items are offered items, in the order of the offer. */
  lemma {:induction false} GreedySubsequence(c: Chosen, items: seq<Item>)
    ensures c.out <= Greedy(c, items).out
    ensures Subsequence(Greedy(c, items).out[|c.out|..], items)
    decreases |items|
  {
    if items != [] {
      var next := Choose(c, items[0]);
      GreedySubsequence(next, items[1..]);
      var out := Greedy(c, items).out;
      if next.out != c.out {
        assert out[|c.out|] == items[0] && out[|c.out|..][1..] == out[|next.out|..];
      }
    }
  }

  function ValuesOf(items: seq<Item>, name: Text): seq<Text> {
    if items == [] then []
    else (if items[0].name == name then [items[0].value] else []) + ValuesOf(items[1..], name)
  }

  lemma {:induction false} SubsequenceOfValues(a: seq<Item>, b: seq<Item>, name: Text)
    requires Subsequence(a, b)
    ensures Subsequence(ValuesOf(a, name), ValuesOf(b, name))
  {
    if a != [] {
      if Subsequence(a, b[1..]) {
        SubsequenceOfValues(a, b[1..], name);
        if b[0].name == name {
          assert ValuesOf(b, name)[1..] == ValuesOf(b[1..], name);
        } else {
          assert ValuesOf(b, name) == ValuesOf(b[1..], name);
        }
      } else {
        SubsequenceOfValues(a[1..], b[1..], name);
        if b[0].name == name {
          assert ValuesOf(b, name)[1..] == ValuesOf(b[1..], name);
          assert ValuesOf(a, name)[1..] == ValuesOf(a[1..], name);
        } else {
          assert ValuesOf(b, name) == ValuesOf(b[1..], name) && ValuesOf(a, name) == ValuesOf(a[1..], name);
        }
      }
    }
  }

  lemma {:induction false} ValuesOfSplit(a: seq<Item>, b: seq<Item>, name: Text)
    ensures ValuesOf(a + b, name) == ValuesOf(a, name) + ValuesOf(b, name)
  {
    if a == [] {
      assert a + b == b;
    } else {
      assert (a + b)[1..] == a[1..] + b;
      ValuesOfSplit(a[1..], b, name);
    }
  }

  lemma {:induction false} ValuesOfTagged(tag: Text, vs: seq<Text>, name: Text)
    ensures ValuesOf(Tagged(tag, vs), name) == if tag == name then vs else []
  {
    if vs != [] {
      ValuesOfTagged(tag, vs[1..], name);
      assert Tagged(tag, vs)[1..] == Tagged(tag, vs[1..]);
      assert vs == [vs[0]] + vs[1..];
    }
  }

  ghost predicate Distinct(names: seq<Text>) {
    forall i, j | 0 <= i < j < |names| :: names[i] != names[j]
  }

  /** A name offered once is offered with its own values, in their order. */
  lemma {:induction false} ValuesOffered(source: HeaderMap, names: seq<Text>, name: Text)
    requires Distinct(names)
    ensures ValuesOf(Candidates(source, names), name)
            == if name in names && !Blocked(source, name) then source.All(name) else []
  {
    hide Blocked, Tagged;
    if names != [] {
      ValuesOffered(source, names[1..], name);
      ValuesOfSplit(ItemsOf(source, names[0]), Candidates(source, names[1..]), name);
      ValuesOfTagged(names[0], source.All(names[0]), name);
      assert names[0] !in names[1..];
    }
  }

  /** Per name, the projection keeps the source's values and their order. Names
      that are forbidden, nominated by `Connection`, or neither selected nor
      matched by a selected prefix outside the known names have none. */
  lemma ProjectionPerName(source: HeaderMap, selected: seq<Text>, known: seq<Text>, prefixes: seq<Text>, name: Text)
    requires source.Valid() && Distinct(selected) && (forall n | n in selected :: n in known)
    ensures var out := Greedy(NOTHING, Offer(source, selected, known, prefixes)).out;
            && Subsequence(ValuesOf(out, name), source.All(name))
            && (ValuesOf(out, name) != [] ==>
                  && !Forbidden(name) && !Nominated(source, name)
                  && (name in selected || (name !in known && PrefixIndex(name, prefixes).Some?)))
  {
    hide Forbidden, Nominated, Greedy, OrderedPrefixNames, Candidates, ValuesOf, Subsequence, PrefixIndex;
    var prefixed := OrderedPrefixNames(source, known, prefixes);
    var names := selected + prefixed;
    var items := Candidates(source, names);
    var out := Greedy(NOTHING, items).out;
    PrefixNames(source, known, prefixes);
    forall i, j | 0 <= i < j < |names|
      ensures names[i] != names[j]
    {
      if i < |selected| <= j {
        assert names[i] in selected && names[j] in prefixed;
      }
    }
    ValuesOffered(source, names, name);
    GreedySubsequence(NOTHING, items);
    assert out[0..] == out;
    SubsequenceOfValues(out, items, name);
    NothingFromNothing(ValuesOf(out, name));
    NothingFromNothing(source.All(name));
  }

  lemma {:induction false} PrefixKeysDistinct(keys: seq<Text>, known: seq<Text>, prefixes: seq<Text>)
    requires Distinct(keys)
    ensures DistinctKeys(PrefixKeys(keys, known, prefixes), Itself())
  {
    if keys != [] {
      PrefixKeysDistinct(keys[1..], known, prefixes);
      assert keys[0] !in keys[1..];
    }
  }

  /** Prefix matches: distinct, unknown, and exactly those of the source. */
  lemma PrefixNames(source: HeaderMap, known: seq<Text>, prefixes: seq<Text>)
    requires source.Valid()
    ensures var names := OrderedPrefixNames(source, known, prefixes);
            && Distinct(names)
            && forall n :: n in names <==> n in source.values && n !in known && PrefixIndex(n, prefixes).Some?
  {
    hide PrefixIndex, StableSort;
    var ks := PrefixKeys(source.keys, known, prefixes);
    var sorted := StableSort(ks, Itself());
    var names := OrderedPrefixNames(source, known, prefixes);
    PrefixKeysDistinct(source.keys, known, prefixes);
    DistinctKeysOfPermutation(ks, sorted, Itself());
    MembersOf(ks, sorted);
    forall i, j | 0 <= i < j < |names|
      ensures names[i] != names[j]
    {
      assert sorted[i] in ks && sorted[j] in ks;
      assert Itself()(sorted[i]) != Itself()(sorted[j]);
    }
    NamesMembers(sorted);
  }

  lemma {:induction false} FirstPrefix(name: Text, prefixes: seq<Text>)
    ensures PrefixIndex(name, prefixes).Some? ==> forall p | 0 <= p < PrefixIndex(name, prefixes).value :: !(prefixes[p] <= name)
  {
    if prefixes != [] && !(prefixes[0] <= name) {
      FirstPrefix(name, prefixes[1..]);
      assert forall p | 1 <= p < |prefixes| :: prefixes[p] == prefixes[1..][p - 1];
    }
  }

  /** A name is offered before another when its first matching prefix is declared
      earlier, or when both have the same one and it is lexically smaller. */
  lemma PrefixPriority(source: HeaderMap, known: seq<Text>, prefixes: seq<Text>, i: nat, j: nat)
    requires source.Valid() && i < j < |OrderedPrefixNames(source, known, prefixes)|
    ensures var a, b := OrderedPrefixNames(source, known, prefixes)[i], OrderedPrefixNames(source, known, prefixes)[j];
            var p, q := PrefixIndex(a, prefixes), PrefixIndex(b, prefixes);
            && p.Some? && q.Some? && (p.value < q.value || (p == q && LexLess(a, b)))
            && (forall t | 0 <= t < p.value :: !(prefixes[t] <= a)) && (forall t | 0 <= t < q.value :: !(prefixes[t] <= b))
  {
    hide PrefixIndex, StableSort, LexLess;
    var ks := PrefixKeys(source.keys, known, prefixes);
    var sorted := StableSort(ks, Itself());
    PrefixKeysDistinct(source.keys, known, prefixes);
    SortStrict(ks, Itself());
    MembersOf(ks, sorted);
    assert sorted[i] in ks && sorted[j] in ks;
    assert KeyLess(Itself()(sorted[i]), Itself()(sorted[j]));
    FirstPrefix(sorted[i].name, prefixes);
    FirstPrefix(sorted[j].name, prefixes);
  }

  lemma NamesMembers(ks: seq<Key>)
    ensures forall n :: n in Names(ks) <==> exists k | k in ks :: k.name == n
  {
    forall n
      ensures n in Names(ks) <==> exists k | k in ks :: k.name == n
    {
      if n in Names(ks) {
        var i :| 0 <= i < |ks| && Names(ks)[i] == n;
        assert ks[i] in ks;
      }
      if k :| k in ks && k.name == n {
        var i :| 0 <= i < |ks| && ks[i] == k;
        assert Names(ks)[i] == n;
      }
    }
  }

  lemma {:induction false} CandidatesFrom(a: HeaderMap, b: HeaderMap, names: seq<Text>)
    requires a.values == b.values
    ensures Candidates(a, names) == Candidates(b, names)
  {
    if names != [] {
      CandidatesFrom(a, b, names[1..]);
      assert a.All(CONNECTION) == b.All(CONNECTION);
      assert Blocked(a, names[0]) == Blocked(b, names[0]);
    }
  }

  lemma SameElements<T>(xs: seq<T>, ys: seq<T>)
    requires forall i, j | 0 <= i < j < |xs| :: xs[i] != xs[j]
    requires forall i, j | 0 <= i < j < |ys| :: ys[i] != ys[j]
    requires forall x :: x in xs <==> x in ys
    ensures multiset(xs) == multiset(ys)
  {
    forall x
      ensures multiset(xs)[x] == multiset(ys)[x]
    {
      OnceAtMost(xs, x);
      OnceAtMost(ys, x);
    }
  }

  lemma {:induction false} OnceAtMost<T>(xs: seq<T>, x: T)
    requires forall i, j | 0 <= i < j < |xs| :: xs[i] != xs[j]
    ensures multiset(xs)[x] == if x in xs then 1 else 0
  {
    if xs != [] {
      OnceAtMost(xs[1..], x);
      assert xs == [xs[0]] + xs[1..];
      assert xs[0] !in xs[1..];
    }
  }

  /** The projection depends on each name's value list only, not on the order in
      which names arrived. */
  lemma ArrivalOrderIsIrrelevant(a: HeaderMap, b: HeaderMap, selected: seq<Text>, known: seq<Text>, prefixes: seq<Text>)
    requires a.Valid() && b.Valid() && a.values == b.values
    ensures Offer(a, selected, known, prefixes) == Offer(b, selected, known, prefixes)
  {
    var ka, kb := PrefixKeys(a.keys, known, prefixes), PrefixKeys(b.keys, known, prefixes);
    PrefixKeysDistinct(a.keys, known, prefixes);
    PrefixKeysDistinct(b.keys, known, prefixes);
    forall k
      ensures k in ka <==> k in kb
    {
    }
    forall i, j | 0 <= i < j < |ka|
      ensures ka[i] != ka[j]
    {
      assert Itself()(ka[i]) != Itself()(ka[j]);
    }
    forall i, j | 0 <= i < j < |kb|
      ensures kb[i] != kb[j]
    {
      assert Itself()(kb[i]) != Itself()(kb[j]);
    }
    SameElements(ka, kb);
    SortOfPermutation(ka, kb, Itself());
    CandidatesFrom(a, b, selected + OrderedPrefixNames(b, known, prefixes));
  }

  // ----- ownership

  datatype Ownership = Replayable | SessionScoped | CredentialOwned | BoundTurnState

  datatype Rule = Rule(name: Text, ownership: Ownership)

  datatype Permissions = Permissions(credentialOwned: bool, turnState: bool, sessionReplay: bool)

  predicate Allowed(o: Ownership, p: Permissions) {
    match o
    case Replayable => true
    case SessionScoped => p.sessionReplay
    case CredentialOwned => p.credentialOwned
    case BoundTurnState => p.credentialOwned && p.turnState
  }

  function RuleNames(rules: seq<Rule>): (r: seq<Text>)
    ensures |r| == |rules| && forall i | 0 <= i < |rules| :: r[i] == rules[i].name
  {
    seq(|rules|, i requires 0 <= i < |rules| => rules[i].name)
  }

  function AllowedNames(rules: seq<Rule>, p: Permissions): (r: seq<Text>)
    ensures forall n :: n in r <==> exists rule | rule in rules :: rule.name == n && Allowed(rule.ownership, p)
  {
    if rules == [] then []
    else
      var rest := AllowedNames(rules[1..], p);
      assert forall rule :: rule in rules <==> rule == rules[0] || rule in rules[1..];
      if Allowed(rules[0].ownership, p) then [rules[0].name] + rest else rest
  }

  /** Valid rules, each name once, the first mention deciding. */
  method RequestHeaderRules(values: seq<(Text, Ownership)>) returns (rules: seq<Rule>)
    ensures Distinct(RuleNames(rules))
    ensures forall i | 0 <= i < |values| && HeaderName(values[i].0).Some? :: HeaderName(values[i].0).value in RuleNames(rules)
    ensures forall rule | rule in rules ::
              exists i | 0 <= i < |values| ::
                && HeaderName(values[i].0) == Some(rule.name) && values[i].1 == rule.ownership
                && forall j | 0 <= j < i :: HeaderName(values[j].0) != Some(rule.name)
  {
    rules := [];
    for k := 0 to |values|
      invariant Distinct(RuleNames(rules))
      invariant forall i | 0 <= i < k && HeaderName(values[i].0).Some? :: HeaderName(values[i].0).value in RuleNames(rules)
      invariant forall rule | rule in rules ::
                  exists i | 0 <= i < k ::
                    && HeaderName(values[i].0) == Some(rule.name) && values[i].1 == rule.ownership
                    && forall j | 0 <= j < i :: HeaderName(values[j].0) != Some(rule.name)
    {
      hide HeaderName;
      var name := HeaderName(values[k].0);
      if name.None? || name.value in RuleNames(rules) {
        continue;
      }
      ghost var had := RuleNames(rules);
      rules := rules + [Rule(name.value, values[k].1)];
      assert RuleNames(rules) == had + [name.value];
    }
  }

  method ProjectRequest(source: HeaderMap, exact: seq<Rule>, prefixes: seq<Rule>, p: Permissions) returns (projected: seq<Item>)
    ensures projected == Greedy(NOTHING, Offer(source, AllowedNames(exact, p), RuleNames(exact), AllowedNames(prefixes, p))).out
  {
    projected := ProjectSelected(source, AllowedNames(exact, p), RuleNames(exact), AllowedNames(prefixes, p));
  }

  lemma DistinctCons(n: Text, rest: seq<Text>)
    requires Distinct(rest) && n !in rest
    ensures Distinct([n] + rest)
  {
  }

  lemma {:induction false} AllowedNamesDistinct(rules: seq<Rule>, p: Permissions)
    requires Distinct(RuleNames(rules))
    ensures Distinct(AllowedNames(rules, p))
  {
    hide Distinct;
    if rules == [] {
      DistinctNone();
    } else {
      TailDistinct(rules);
      AllowedNamesDistinct(rules[1..], p);
      DistinctCons(rules[0].name, AllowedNames(rules[1..], p));
    }
  }

  lemma DistinctNone()
    ensures Distinct([])
  {
  }

  lemma TailDistinct(rules: seq<Rule>)
    requires Distinct(RuleNames(rules)) && rules != []
    ensures Distinct(RuleNames(rules[1..])) && forall r | r in rules[1..] :: r.name != rules[0].name
  {
    assert RuleNames(rules[1..]) == RuleNames(rules)[1..];
    forall r | r in rules[1..]
      ensures r.name != rules[0].name
    {
      var i :| 1 <= i < |rules| && rules[i] == r;
      assert RuleNames(rules)[i] != RuleNames(rules)[0];
    }
  }

  /** A name whose exact rule is denied is not forwarded, even when an allowed
      prefix matches it. */
  lemma DeniedNamesStayHome(source: HeaderMap, exact: seq<Rule>, prefixes: seq<Rule>, p: Permissions, rule: Rule)
    requires source.Valid() && Distinct(RuleNames(exact)) && rule in exact && !Allowed(rule.ownership, p)
    ensures ValuesOf(Greedy(NOTHING, Offer(source, AllowedNames(exact, p), RuleNames(exact), AllowedNames(prefixes, p))).out, rule.name) == []
  {
    var selected, known := AllowedNames(exact, p), RuleNames(exact);
    AllowedNamesDistinct(exact, p);
    forall n | n in selected
      ensures n in known
    {
      var r :| r in exact && r.name == n && Allowed(r.ownership, p);
      var i :| 0 <= i < |exact| && exact[i] == r;
      assert known[i] == n;
    }
    var i :| 0 <= i < |exact| && exact[i] == rule;
    assert known[i] == rule.name;
    forall r | r in exact && r.name == rule.name
      ensures r == rule
    {
      var j :| 0 <= j < |exact| && exact[j] == r;
      assert known[j] == known[i];
    }
    ProjectionPerName(source, selected, known, AllowedNames(prefixes, p), rule.name);
  }
}
