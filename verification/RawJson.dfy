/** The raw JSON payload: a validated object kept as wire bytes, with a sorted
    index of its top-level fields, and the rewrites made on those bytes. */
module RawJson {
  import opened Basics
  import opened JsonText

  datatype Field = Field(name: Text, lo: nat, hi: nat)

  /** The members of the object that is the whole body. */
  function WholeObject(b: Text): (r: Members)
    ensures r.Members? ==> Within(r.list, 0, |b|)
  {
    var i := Skip(b, 0);
    var r := Object(b, i);
    if r.Bad? || Skip(b, r.end) != |b| then Bad
    else
      ObjectWithin(b, i);
      r
  }

  lemma ObjectWithin(b: Text, i: nat)
    requires i <= |b| && Object(b, i).Members?
    ensures Within(Object(b, i).list, i, Object(b, i).end) && Object(b, i).end <= |b|
  {
    var k := Skip(b, i + 1);
    if !At(b, k, RBRACE) {
      MembersWithin(b, k);
    }
  }

  /** Reads the keys; none when one of them is not a string. */
  function Named(b: Text, ms: seq<Member>): (r: Option<seq<Field>>)
    requires Within(ms, 0, |b|)
    ensures r.Some? ==> |r.value| == |ms|
    ensures r.Some? ==> forall i | 0 <= i < |ms| ::
              Some(r.value[i].name) == StringValue(b[ms[i].keyLo..ms[i].keyHi]) && r.value[i].lo == ms[i].lo && r.value[i].hi == ms[i].hi
  {
    if ms == [] then Some([])
    else
      match (StringValue(b[ms[0].keyLo..ms[0].keyHi]), Named(b, ms[1..]))
      case (Some(name), Some(rest)) => Some([Field(name, ms[0].lo, ms[0].hi)] + rest)
      case _ => None
  }

  /** The fields in source order, duplicates included. */
  function ObjectFields(b: Text): (r: Option<seq<Field>>)
    ensures r.Some? ==> forall i | 0 <= i < |r.value| :: r.value[i].lo < r.value[i].hi < |b|
  {
    var r := WholeObject(b);
    if r.Bad? then None else Named(b, r.list)
  }

  lemma {:induction false} MemberValues(b: Text, i: nat)
    requires i <= |b| && ObjectMembers(b, i).Members?
    ensures forall m | m in ObjectMembers(b, i).list :: m.lo <= |b| && Value(b, m.lo) == Some(m.hi)
    decreases |b| - i
  {
    var k := Skip(b, OneMember(b, i).value.hi);
    if At(b, k, COMMA) {
      MemberValues(b, Skip(b, k + 1));
    }
  }

  /** Every indexed range is one JSON value. */
  lemma FieldsAreValues(b: Text)
    requires ObjectFields(b).Some?
    ensures forall i | 0 <= i < |ObjectFields(b).value| ::
              var f := ObjectFields(b).value[i]; IsValue(b[f.lo..f.hi])
  {
    var ms := WholeObject(b).list;
    var k := Skip(b, Skip(b, 0) + 1);
    if !At(b, k, RBRACE) {
      MemberValues(b, k);
    }
    forall i | 0 <= i < |ms|
      ensures var f := ObjectFields(b).value[i]; IsValue(b[f.lo..f.hi])
    {
      assert ms[i] in ms;
      ValueCutOut(b, ms[i].lo);
    }
  }

  // ----- the index

  function ByName(): Field -> Key {
    (f: Field) => Key(0, f.name)
  }

  /** The last field with a name: what a repeated key means. */
  function Last(fs: seq<Field>, name: Text): (r: Option<Field>)
    ensures r.Some? ==> r.value in fs && r.value.name == name
    ensures r.None? ==> forall f | f in fs :: f.name != name
  {
    if fs == [] then None
    else
      match Last(fs[1..], name)
      case Some(f) => Some(f)
      case None => if fs[0].name == name then Some(fs[0]) else None
  }

  /** `dedup_by` keeping the later range of equal neighbours. */
  function Dedup(fs: seq<Field>): (r: seq<Field>)
    ensures |r| <= |fs|
    ensures fs != [] ==> r != [] && r[0].name == fs[0].name
    ensures forall f | f in r :: f in fs
  {
    if |fs| <= 1 then fs
    else if fs[0].name == fs[1].name then Dedup(fs[1..])
    else [fs[0]] + Dedup(fs[1..])
  }

  function Index(fs: seq<Field>): (r: seq<Field>)
    ensures forall f | f in r :: f in fs
  {
    MembersOf(StableSort(fs, ByName()), fs);
    Dedup(StableSort(fs, ByName()))
  }

  lemma {:induction false} LastOfInsert(x: Field, fs: seq<Field>, name: Text)
    ensures Last(Insert(x, fs, ByName()), name) == Last([x] + fs, name)
  {
    var r := Insert(x, fs, ByName());
    assert ([x] + fs)[1..] == fs;
    if fs != [] && KeyLess(Key(0, fs[0].name), Key(0, x.name)) {
      LastOfInsert(x, fs[1..], name);
      assert r[1..] == Insert(x, fs[1..], ByName());
      assert ([x] + fs[1..])[1..] == fs[1..];
      KeyTotal(Key(0, fs[0].name), Key(0, x.name));
    }
  }

  lemma {:induction false} LastOfSort(fs: seq<Field>, name: Text)
    ensures Last(StableSort(fs, ByName()), name) == Last(fs, name)
  {
    if fs != [] {
      var rest := StableSort(fs[1..], ByName());
      LastOfSort(fs[1..], name);
      LastOfInsert(fs[0], rest, name);
      assert ([fs[0]] + rest)[1..] == rest;
    }
  }

  lemma {:induction false} LastOfDedup(fs: seq<Field>, name: Text)
    ensures Last(Dedup(fs), name) == Last(fs, name)
  {
    if |fs| > 1 {
      LastOfDedup(fs[1..], name);
      if fs[0].name == fs[1].name {
        assert fs[1] in fs[1..];
      } else {
        assert ([fs[0]] + Dedup(fs[1..]))[1..] == Dedup(fs[1..]);
      }
    }
  }

  lemma {:induction false} DedupAscends(fs: seq<Field>)
    requires Ascending(fs, ByName())
    ensures StrictlyAscending(Dedup(fs), ByName())
    ensures |Dedup(fs)| == |fs| <==> DistinctKeys(fs, ByName())
  {
    if |fs| > 1 {
      var rest := Dedup(fs[1..]);
      DedupAscends(fs[1..]);
      assert forall i | 0 <= i < |fs| - 1 :: fs[1..][i] == fs[i + 1];
      if fs[0].name != fs[1].name {
        forall j | 0 <= j < |rest|
          ensures KeyLess(Key(0, fs[0].name), Key(0, rest[j].name))
        {
          KeyTotal(Key(0, fs[0].name), Key(0, fs[1].name));
          assert !KeyLess(ByName()(fs[1]), ByName()(fs[0]));
          if j > 0 {
            assert KeyLess(ByName()(rest[0]), ByName()(rest[j]));
            KeyTransitive(Key(0, fs[0].name), Key(0, fs[1].name), Key(0, rest[j].name));
          }
        }
        forall j | 1 <= j < |fs|
          ensures fs[0].name != fs[j].name
        {
          KeyTotal(Key(0, fs[0].name), Key(0, fs[1].name));
          assert !KeyLess(ByName()(fs[1]), ByName()(fs[0]));
          assert j > 1 ==> !KeyLess(ByName()(fs[j]), ByName()(fs[1]));
        }
        assert DistinctKeys(fs[1..], ByName()) ==> DistinctKeys(fs, ByName());
      }
    }
  }

  /** The index has ascending names and finds the last occurrence of every key. */
  lemma IndexIsLastWins(fs: seq<Field>)
    ensures StrictlyAscending(Index(fs), ByName())
    ensures forall name :: Last(Index(fs), name) == Last(fs, name)
    ensures |Index(fs)| == |fs| <==> DistinctKeys(fs, ByName())
  {
    var sorted := StableSort(fs, ByName());
    SortAscending(fs, ByName());
    DedupAscends(sorted);
    forall name
      ensures Last(Index(fs), name) == Last(fs, name)
    {
      LastOfSort(fs, name);
      LastOfDedup(sorted, name);
    }
    if DistinctKeys(fs, ByName()) {
      DistinctKeysOfPermutation(fs, sorted, ByName());
    }
    if DistinctKeys(sorted, ByName()) {
      DistinctKeysOfPermutation(sorted, fs, ByName());
    }
  }

  /** Strictly ascending fields are their own index. */
  lemma IndexOfAscending(fs: seq<Field>)
    requires StrictlyAscending(fs, ByName())
    ensures Index(fs) == fs
  {
    forall i, j | 0 <= i < j < |fs|
      ensures ByName()(fs[i]) != ByName()(fs[j])
    {
      KeyTotal(ByName()(fs[i]), ByName()(fs[j]));
    }
    SortStrict(fs, ByName());
    StrictlyAscendingUnique(StableSort(fs, ByName()), fs, ByName());
    DedupOfDistinct(fs);
  }

  lemma {:induction false} DedupOfDistinct(fs: seq<Field>)
    requires DistinctKeys(fs, ByName())
    ensures Dedup(fs) == fs
  {
    if |fs| > 1 {
      assert ByName()(fs[0]) != ByName()(fs[1]);
      assert forall i | 0 <= i < |fs| - 1 :: fs[1..][i] == fs[i + 1];
      DedupOfDistinct(fs[1..]);
      assert fs == [fs[0]] + fs[1..];
    }
  }

  /** `binary_search_by` on the index. */
  method FieldRange(fields: seq<Field>, name: Text) returns (r: Option<Field>)
    requires StrictlyAscending(fields, ByName())
    ensures r == Last(fields, name)
  {
    var lo, hi := 0, |fields|;
    while lo < hi
      invariant 0 <= lo <= hi <= |fields|
      invariant forall i | 0 <= i < lo :: fields[i].name != name
      invariant forall i | hi <= i < |fields| :: fields[i].name != name
    {
      var mid := (lo + hi) / 2;
      KeyTotal(Key(0, fields[mid].name), Key(0, name));
      if fields[mid].name == name {
        OnlyOne(fields, mid, Last(fields, name));
        return Some(fields[mid]);
      } else if LexLess(fields[mid].name, name) {
        forall i | 0 <= i < mid + 1
          ensures fields[i].name != name
        {
          assert i < mid ==> KeyLess(ByName()(fields[i]), ByName()(fields[mid]));
        }
        lo := mid + 1;
      } else {
        forall i | mid <= i < |fields|
          ensures fields[i].name != name
        {
          assert mid < i ==> KeyLess(ByName()(fields[mid]), ByName()(fields[i]));
        }
        hi := mid;
      }
    }
    r := None;
  }

  lemma OnlyOne(fields: seq<Field>, i: nat, last: Option<Field>)
    requires StrictlyAscending(fields, ByName()) && i < |fields| && last == Last(fields, fields[i].name)
    ensures last == Some(fields[i])
  {
    assert fields[i] in fields;
    var j :| 0 <= j < |fields| && fields[j] == last.value;
    KeyTotal(ByName()(fields[i]), ByName()(fields[j]));
  }

  // ----- building an object

  datatype Entry = Entry(name: Text, value: Text)

  function Written(e: Entry): (r: Text)
    ensures |r| == |Quote(e.name)| + 1 + |e.value|
  {
    Quote(e.name) + [COLON] + e.value
  }

  /** The members of a written object, joined by commas. */
  function Joined(es: seq<Entry>): Text
    decreases |es|, 0
  {
    if es == [] then [] else Written(es[0]) + Tail(es[1..])
  }

  function Tail(es: seq<Entry>): Text
    decreases |es|, 1
  {
    if es == [] then [] else [COMMA] + Joined(es)
  }

  function Built(es: seq<Entry>): Text {
    [LBRACE] + Joined(es) + [RBRACE]
  }

  /** Where the members of a written object are, the first key being at `at`. */
  function Spots(es: seq<Entry>, at: nat): (r: seq<Member>)
    ensures |r| == |es|
  {
    if es == [] then []
    else
      var lo := at + |Quote(es[0].name)| + 1;
      [Member(at, lo - 1, lo, lo + |es[0].value|)] + Spots(es[1..], lo + |es[0].value| + 1)
  }

  function Places(es: seq<Entry>, at: nat): (r: seq<Field>)
    ensures |r| == |es|
    ensures forall i | 0 <= i < |es| :: r[i] == Field(es[i].name, Spots(es, at)[i].lo, Spots(es, at)[i].hi)
  {
    seq(|es|, i requires 0 <= i < |es| => Field(es[i].name, Spots(es, at)[i].lo, Spots(es, at)[i].hi))
  }

  lemma JoinedTail(es: seq<Entry>)
    ensures Joined([]) == [] && Tail([]) == []
    ensures es != [] ==> Joined(es) == Written(es[0]) + Tail(es[1..]) && Tail(es) == [COMMA] + Joined(es)
  {
    hide Written;
  }

  lemma {:induction false} TailAppend(es: seq<Entry>, e: Entry)
    ensures Joined(es + [e]) == (if es == [] then [] else Joined(es) + [COMMA]) + Written(e)
    ensures Tail(es + [e]) == Tail(es) + [COMMA] + Written(e)
  {
    hide Written, Joined, Tail;
    var all := es + [e];
    JoinedTail(all);
    JoinedTail(es);
    if es == [] {
      assert all == [e] && [e][1..] == [];
    } else {
      assert all[0] == es[0] && all[1..] == es[1..] + [e];
      TailAppend(es[1..], e);
      AssocLeft(Written(es[0]), Tail(es[1..]), [COMMA], Written(e));
      AssocLeft([COMMA], Joined(es), [COMMA], Written(e));
    }
  }

  lemma AssocLeft(a: Text, b: Text, c: Text, d: Text)
    ensures a + (b + c + d) == a + b + c + d
  {
  }

  lemma {:induction false} SpotsAppend(es: seq<Entry>, e: Entry, at: nat)
    ensures var start := at + |Joined(es)| + (if es == [] then 0 else 1);
            var lo := start + |Quote(e.name)| + 1;
            Spots(es + [e], at) == Spots(es, at) + [Member(start, lo - 1, lo, lo + |e.value|)]
    decreases |es|, 1
  {
    hide Quote, Joined;
    EmptyJoined(es);
    if es == [] {
      assert es + [e] == [e] && [e][1..] == [];
    } else {
      JoinedLength(es);
      SpotsAppendStep(es, e, at);
    }
  }

  lemma JoinedLength(es: seq<Entry>)
    requires es != []
    ensures |Joined(es)| == |Quote(es[0].name)| + 1 + |es[0].value| + if |es| == 1 then 0 else 1 + |Joined(es[1..])|
  {
    hide Quote;
  }

  /** The spot of one entry written at `at`, and where the next one starts. */
  function SpotOf(e: Entry, at: nat): Member {
    var lo := at + |Quote(e.name)| + 1;
    Member(at, lo - 1, lo, lo + |e.value|)
  }

  lemma SpotsCons(es: seq<Entry>, at: nat)
    requires es != []
    ensures Spots(es, at) == [SpotOf(es[0], at)] + Spots(es[1..], SpotOf(es[0], at).hi + 1)
  {
    hide Quote;
  }

  lemma SpotsAppendStep(es: seq<Entry>, e: Entry, at: nat)
    requires es != []
    requires |Joined(es)| == |Quote(es[0].name)| + 1 + |es[0].value| + if |es| == 1 then 0 else 1 + |Joined(es[1..])|
    ensures var start := at + |Joined(es)| + 1;
            var lo := start + |Quote(e.name)| + 1;
            Spots(es + [e], at) == Spots(es, at) + [Member(start, lo - 1, lo, lo + |e.value|)]
    decreases |es|, 0
  {
    hide Written, Quote, Joined, Tail, Spots;
    var next := SpotOf(es[0], at).hi + 1;
    assert (es + [e])[1..] == es[1..] + [e] && (es + [e])[0] == es[0];
    SpotsCons(es + [e], at);
    SpotsCons(es, at);
    SpotsAppend(es[1..], e, next);
    EmptyJoined(es[1..]);
    Assoc([SpotOf(es[0], at)], Spots(es[1..], next), [SpotOf(e, at + |Joined(es)| + 1)]);
  }

  lemma EmptyJoined(es: seq<Entry>)
    ensures es == [] ==> Joined(es) == []
  {
  }

  /** Cutting a key, its colon and a value out of a text. */
  lemma Pieces(a: Text, k: Text, c: byte, v: Text, r: Text)
    ensures var s := a + (k + [c] + v) + r;
            && |s| == |a| + |k| + 1 + |v| + |r|
            && s[|a|..|a| + |k|] == k && s[|a| + |k|] == c
            && s[|a| + |k| + 1..|a| + |k| + 1 + |v|] == v
            && s[|a| + |k| + 1 + |v|..] == r
  {
  }

  lemma Assoc4(a: Text, b: Text, c: Text, d: Text)
    ensures a + (b + c) + d == a + b + (c + d)
  {
  }

  lemma FirstSpot(es: seq<Entry>, pre: Text, post: Text)
    requires es != []
    ensures var b, m := pre + Joined(es) + post, Spots(es, |pre|)[0];
            && |pre| == m.keyLo < m.keyHi < m.lo == m.keyHi + 1 <= m.hi <= |pre| + |Joined(es)|
            && b[m.keyLo..m.keyHi] == Quote(es[0].name) && b[m.lo..m.hi] == es[0].value
            && b[m.keyHi] == COLON
            && b[m.hi..] == Tail(es[1..]) + post
            && m == Member(|pre|, m.lo - 1, |pre| + |Quote(es[0].name)| + 1, |pre| + |Written(es[0])|)
  {
    hide Quote, Tail;
    var tail := Tail(es[1..]);
    assert Joined(es) == Quote(es[0].name) + [COLON] + es[0].value + tail;
    Assoc4(pre, Quote(es[0].name) + [COLON] + es[0].value, tail, post);
    Pieces(pre, Quote(es[0].name), COLON, es[0].value, tail + post);
  }

  lemma Pushed(pre: Text, a: Text, b: Text, c: Text, post: Text)
    ensures pre + (a + (b + c)) + post == pre + a + b + c + post
  {
  }

  /** The written text seen from behind its first member. */
  lemma Advance(es: seq<Entry>, pre: Text, post: Text)
    requires |es| > 1
    ensures var pre' := pre + Written(es[0]) + [COMMA];
            && pre + Joined(es) + post == pre' + Joined(es[1..]) + post
            && |Joined(es)| == |Written(es[0])| + 1 + |Joined(es[1..])|
            && Spots(es, |pre|) == [Spots(es, |pre|)[0]] + Spots(es[1..], |pre'|)
  {
    hide Written, Joined, Spots;
    JoinedMore(es);
    SpotsMore(es, |pre|);
    Pushed(pre, Written(es[0]), [COMMA], Joined(es[1..]), post);
  }

  lemma JoinedMore(es: seq<Entry>)
    requires |es| > 1
    ensures Joined(es) == Written(es[0]) + ([COMMA] + Joined(es[1..]))
  {
    hide Written;
  }

  lemma SpotsMore(es: seq<Entry>, at: nat)
    requires es != []
    ensures Spots(es, at) == [Spots(es, at)[0]] + Spots(es[1..], at + |Written(es[0])| + 1)
  {
    hide Quote;
  }

  /** Keys and values stand where the spots say. */
  lemma {:induction false} SpotsHold(es: seq<Entry>, pre: Text, post: Text)
    ensures var b, spots := pre + Joined(es) + post, Spots(es, |pre|);
            forall i | 0 <= i < |es| ::
              && |pre| <= spots[i].keyLo < spots[i].keyHi < spots[i].lo <= spots[i].hi <= |pre| + |Joined(es)|
              && b[spots[i].keyLo..spots[i].keyHi] == Quote(es[i].name)
              && b[spots[i].lo..spots[i].hi] == es[i].value
    decreases |es|
  {
    hide Quote, Joined, Tail, Written, Spots;
    if es != [] {
      FirstSpot(es, pre, post);
      if |es| > 1 {
        Advance(es, pre, post);
        SpotsHold(es[1..], pre + Written(es[0]) + [COMMA], post);
      }
    }
  }

  // ----- scanning what was built

  lemma ValueStart(b: Text, i: nat)
    requires i <= |b| && Value(b, i).Some?
    ensures i < |b| && !IsSpace(b[i])
  {
  }

  /** A key in place scans as a string. */
  lemma KeyInPlace(b: Text, lo: nat, hi: nat, name: Text)
    requires lo <= hi <= |b| && b[lo..hi] == Quote(name)
    ensures String(b, lo) == Some(hi) && b[lo] == QUOTE && lo < hi
  {
    hide String, StringValue, IsValue;
    var q := Quote(name);
    QuoteIsValue(name);
    QuoteStarts(name);
    assert b[lo..hi][0] == b[lo];
    forall t | 0 <= t < |q|
      ensures q[t] == b[t + lo]
    {
      assert b[lo..hi][t] == b[lo + t];
    }
    StringMoved(q, b, 0, lo);
  }

  lemma SkipStays(b: Text, i: nat)
    requires i < |b| && !IsSpace(b[i])
    ensures Skip(b, i) == i
  {
  }

  /** A key and a value in place, followed by a delimiter, scan as a member. */
  lemma ValueInPlace(b: Text, lo: nat, hi: nat, value: Text)
    requires lo <= hi < |b| && b[lo..hi] == value && IsValue(value) && (b[hi] == COMMA || b[hi] == RBRACE)
    ensures Value(b, lo) == Some(hi) && !IsSpace(b[lo])
  {
    hide Value, IsValue;
    assert lo + |value| == hi;
    ValuePutIn(value, b, lo);
    ValueStart(b, lo);
  }

  lemma MemberInPlace(b: Text, m: Member, name: Text, value: Text)
    requires m.keyLo < m.keyHi < m.lo <= m.hi < |b| && m.lo == m.keyHi + 1
    requires b[m.keyLo..m.keyHi] == Quote(name) && b[m.keyHi] == COLON && b[m.lo..m.hi] == value
    requires IsValue(value) && (b[m.hi] == COMMA || b[m.hi] == RBRACE)
    ensures OneMember(b, m.keyLo) == Some(m) && Skip(b, m.hi) == m.hi
  {
    hide OneMember, Value, Quote, IsValue, String, Skip;
    KeyInPlace(b, m.keyLo, m.keyHi, name);
    ValueInPlace(b, m.lo, m.hi, value);
    SkipStays(b, m.keyHi);
    SkipStays(b, m.lo);
    SkipStays(b, m.hi);
    MemberFrom(b, m, m.keyHi);
  }

  lemma KeyFollows(es: seq<Entry>, pre: Text, post: Text)
    requires es != []
    ensures Skip(pre + Joined(es) + post, |pre|) == |pre|
  {
    hide Quote, Written, Spots, Joined, Skip;
    var b := pre + Joined(es) + post;
    FirstSpot(es, pre, post);
    KeyInPlace(b, |pre|, Spots(es, |pre|)[0].keyHi, es[0].name);
    SkipStays(b, |pre|);
  }

  lemma {:induction false} BuiltMembers(es: seq<Entry>, pre: Text, post: Text)
    requires es != [] && forall e | e in es :: IsValue(e.value)
    ensures ObjectMembers(pre + Joined(es) + ([RBRACE] + post), |pre|)
            == Members(Spots(es, |pre|), |pre| + |Joined(es)| + 1)
    decreases |es|
  {
    hide Quote, Written, OneMember, ObjectMembers, IsValue, Spots, Joined, Skip;
    var end := [RBRACE] + post;
    var b := pre + Joined(es) + end;
    var m := Spots(es, |pre|)[0];
    FirstSpot(es, pre, end);
    assert b[m.hi] == b[m.hi..][0];
    assert es[0] in es;
    MemberInPlace(b, m, es[0].name, es[0].value);
    MembersUnfold(b, |pre|, m, m.hi);
    if |es| == 1 {
      assert Spots(es, |pre|) == [m];
      JoinedLength(es);
      assert |Joined(es)| == |Written(es[0])|;
    } else {
      var pre' := pre + Written(es[0]) + [COMMA];
      Advance(es, pre, end);
      BuiltMembers(es[1..], pre', post);
      KeyFollows(es[1..], pre', end);
    }
  }

  lemma QuoteStarts(s: Text)
    ensures Quote(s)[0] == QUOTE
  {
  }

  /** A built object parses to exactly the places it was built with if and only
      if everything written as a value is one. */
  lemma BuiltFieldsIff(es: seq<Entry>)
    ensures ObjectFields(Built(es)) == Some(Places(es, 1)) <==> forall e | e in es :: IsValue(e.value)
  {
    hide ObjectFields, IsValue, Joined, Spots;
    var b := Built(es);
    SpotsHold(es, [LBRACE], [RBRACE]);
    if forall e | e in es :: IsValue(e.value) {
      BuiltFields(es);
    }
    if ObjectFields(b) == Some(Places(es, 1)) {
      FieldsAreValues(b);
      forall e | e in es
        ensures IsValue(e.value)
      {
        var i :| 0 <= i < |es| && es[i] == e;
        var f := ObjectFields(b).value[i];
        assert f == Places(es, 1)[i];
      }
    }
  }

  lemma BuiltFields(es: seq<Entry>)
    requires forall e | e in es :: IsValue(e.value)
    ensures ObjectFields(Built(es)) == Some(Places(es, 1))
  {
    hide WholeObject, IsValue, Joined, Spots, Named, Quote, StringValue;
    var b := Built(es);
    SpotsHold(es, [LBRACE], [RBRACE]);
    BuiltObject(es);
    forall i | 0 <= i < |es|
      ensures StringValue(Quote(es[i].name)) == Some(es[i].name)
    {
      QuoteIsValue(es[i].name);
    }
    NamedSpots(b, Spots(es, 1), es);
    assert Named(b, Spots(es, 1)).value == Places(es, 1);
  }

  lemma BuiltObject(es: seq<Entry>)
    requires forall e | e in es :: IsValue(e.value)
    ensures WholeObject(Built(es)) == Members(Spots(es, 1), |Built(es)|)
  {
    hide ObjectMembers, Quote, IsValue;
    var b := Built(es);
    assert [RBRACE] + [] == [RBRACE];
    if es == [] {
      assert b == [LBRACE, RBRACE];
      assert Skip(b, 1) == 1;
    } else {
      BuiltMembers(es, [LBRACE], []);
      FirstSpot(es, [LBRACE], [RBRACE]);
      KeyInPlace(b, 1, Spots(es, 1)[0].keyHi, es[0].name);
      assert Skip(b, 1) == 1;
    }
    assert Skip(b, 0) == 0 && Skip(b, |b|) == |b|;
  }

  lemma {:induction false} NamedSpots(b: Text, ms: seq<Member>, es: seq<Entry>)
    requires |ms| == |es| && Within(ms, 0, |b|)
    requires forall i | 0 <= i < |ms| :: StringValue(b[ms[i].keyLo..ms[i].keyHi]) == Some(es[i].name)
    ensures Named(b, ms).Some?
    ensures forall i | 0 <= i < |ms| :: Named(b, ms).value[i] == Field(es[i].name, ms[i].lo, ms[i].hi)
  {
    if ms != [] {
      NamedSpots(b, ms[1..], es[1..]);
    }
  }
}
