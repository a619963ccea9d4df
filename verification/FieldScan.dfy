/** Scanning the top-level members of a text for some names in one pass, without
    looking at the rest. */
module FieldScan {
  import opened Basics
  import opened JsonText
  import opened JsonUtf8
  import opened RawJson
  import opened RawPayload
  import opened Splicing

  // ----- the members that a scan completes

  function CompletedMembers(b: Text, i: nat): (r: seq<Field>)
    requires i <= |b|
    ensures InBody(b, r)
    decreases |b| - i
  {
    match OneMember(b, i)
    case None => []
    case Some(m) =>
      match StringValue(b[m.keyLo..m.keyHi])
      case None => []
      case Some(name) =>
        var k := Skip(b, m.hi);
        [Field(name, m.lo, m.hi)] + if At(b, k, COMMA) then CompletedMembers(b, Skip(b, k + 1)) else []
  }

  /** The members completed before the text ends or breaks. */
  function Completed(b: Text): (r: seq<Field>)
    ensures InBody(b, r)
  {
    var i := Skip(b, 0);
    if !At(b, i, LBRACE) then [] else
    var first := Skip(b, i + 1);
    if At(b, first, RBRACE) then [] else CompletedMembers(b, first)
  }

  lemma NamedNone(b: Text)
    ensures Named(b, []) == Some([])
  {
  }

  lemma NamedFirst(b: Text, ms: seq<Member>)
    requires Within(ms, 0, |b|) && ms != []
    ensures Within(ms[1..], 0, |b|) && ms[0].keyLo <= ms[0].keyHi <= |b|
    ensures Named(b, ms).Some? ==>
              var name := StringValue(b[ms[0].keyLo..ms[0].keyHi]);
              && name.Some? && Named(b, ms[1..]).Some?
              && Named(b, ms).value == [Field(name.value, ms[0].lo, ms[0].hi)] + Named(b, ms[1..]).value
  {
    hide StringValue;
  }

  lemma CompletedFirst(b: Text, i: nat, m: Member, k: nat, name: Text)
    requires i <= |b| && OneMember(b, i) == Some(m) && Skip(b, m.hi) == k && StringValue(b[m.keyLo..m.keyHi]) == Some(name)
    ensures At(b, k, COMMA) ==> CompletedMembers(b, i) == [Field(name, m.lo, m.hi)] + CompletedMembers(b, Skip(b, k + 1))
    ensures !At(b, k, COMMA) ==> CompletedMembers(b, i) == [Field(name, m.lo, m.hi)]
  {
    hide OneMember, Skip, StringValue, InBody;
    if !At(b, k, COMMA) {
      assert [Field(name, m.lo, m.hi)] + [] == [Field(name, m.lo, m.hi)];
    }
  }

  lemma {:induction false} CompletedAll(b: Text, i: nat)
    requires i <= |b| && ObjectMembers(b, i).Members? && Within(ObjectMembers(b, i).list, 0, |b|)
    ensures Named(b, ObjectMembers(b, i).list).Some? ==> CompletedMembers(b, i) == Named(b, ObjectMembers(b, i).list).value
    decreases |b| - i
  {
    hide OneMember, Skip, StringValue, ObjectMembers, CompletedMembers, Named, InBody;
    FirstMember(b, i);
    var list := ObjectMembers(b, i).list;
    var m := OneMember(b, i).value;
    var k := Skip(b, m.hi);
    MembersUnfold(b, i, m, k);
    NamedFirst(b, list);
    if Named(b, list).None? {
      return;
    }
    CompletedFirst(b, i, m, k, StringValue(b[m.keyLo..m.keyHi]).value);
    if At(b, k, COMMA) {
      var next := Skip(b, k + 1);
      assert list[1..] == ObjectMembers(b, next).list;
      CompletedAll(b, next);
    } else {
      NamedNone(b);
      assert list[1..] == [];
    }
  }

  /** In an object every member is complete. */
  lemma CompletedOfObject(b: Text)
    requires ObjectFields(b).Some?
    ensures Completed(b) == ObjectFields(b).value
  {
    hide ObjectMembers, CompletedMembers, Named;
    var first := Skip(b, Skip(b, 0) + 1);
    if !At(b, first, RBRACE) {
      MembersWithin(b, first);
      CompletedAll(b, first);
    }
  }

  // ----- texts that are not an object

  /** The text begins like an object: a first member with a readable key and a
      complete value. */
  predicate BeginsWithMember(b: Text) {
    var i := Skip(b, 0);
    At(b, i, LBRACE) &&
    match OneMember(b, Skip(b, i + 1))
    case None => false
    case Some(m) => StringValue(b[m.keyLo..m.keyHi]).Some?
  }

  lemma CompletedSome(b: Text)
    ensures Completed(b) != [] <==> BeginsWithMember(b)
  {
    hide Skip, StringValue, InBody, Value, String, Elements, Object;
    var i := Skip(b, 0);
    if At(b, i, LBRACE) {
      var first := Skip(b, i + 1);
      MemberNeedsQuote(b, first);
      if OneMember(b, first).Some? {
        var m := OneMember(b, first).value;
        if StringValue(b[m.keyLo..m.keyHi]).Some? {
          CompletedFirst(b, first, m, Skip(b, m.hi), StringValue(b[m.keyLo..m.keyHi]).value);
        }
      }
    }
  }

  lemma MemberNeedsQuote(b: Text, i: nat)
    requires i <= |b|
    ensures OneMember(b, i).Some? ==> At(b, i, QUOTE)
  {
    hide Value, Skip;
  }

  lemma LastMemberCut(b: Text, b': Text, i: nat, m: Member)
    requires i <= |b| && OneMember(b, i) == Some(m) && Same(b, b', 0, m.hi, 0) && At(b', m.hi, RBRACE)
    ensures OneMember(b', i) == Some(m) && Skip(b', m.hi) == m.hi
  {
    hide OneMember, Value, String, Same, Skip, Stops;
    MemberParts(b, i, m);
    SamePart(b, b', 0, m.hi, 0, 0, m.lo);
    KeyUnchanged(b, b', i, m.lo);
    var k := Skip(b, m.keyHi);
    SamePart(b, b', 0, m.hi, 0, k + 1, m.hi);
    SkipMoved(b, b', k + 1, 0, m.hi);
    SamePart(b, b', 0, m.hi, 0, m.lo, m.hi);
    StopsAtBrace(b', m.hi);
    ValueMoved(b, b', m.lo, 0);
    MemberFrom(b', m, k);
  }

  lemma CutSame(b: Text, b': Text, hi: nat)
    requires hi <= |b| && b' == b[..hi] + [RBRACE]
    ensures Same(b, b', 0, hi, 0) && |b'| == hi + 1 && At(b', hi, RBRACE)
  {
  }

  lemma StopsAtBrace(b: Text, i: nat)
    requires At(b, i, RBRACE)
    ensures Stops(b, i) && Skip(b, i) == i
  {
  }

  /** The members found are those of the text cut off behind them and closed. */
  lemma {:induction false} CompletedCut(b: Text, b': Text, i: nat, hi: nat)
    requires i <= |b| && CompletedMembers(b, i) != [] && hi == CompletedMembers(b, i)[|CompletedMembers(b, i)| - 1].hi
    requires hi <= |b| && b' == b[..hi] + [RBRACE]
    ensures i < hi && ObjectMembers(b', i).Members? && ObjectMembers(b', i).end == |b'|
    ensures Within(ObjectMembers(b', i).list, 0, |b'|) && Named(b', ObjectMembers(b', i).list) == Some(CompletedMembers(b, i))
    decreases |b| - i
  {
    hide OneMember, Skip, StringValue, ObjectMembers, CompletedMembers, Named, InBody, Same, Within;
    CutSame(b, b', hi);
    CompletedParts(b, i);
    var m := OneMember(b, i).value;
    var k, name := Skip(b, m.hi), StringValue(b[m.keyLo..m.keyHi]).value;
    CompletedFirst(b, i, m, k, name);
    if At(b, k, COMMA) && CompletedMembers(b, Skip(b, k + 1)) != [] {
      var next := Skip(b, k + 1);
      CompletedCut(b, b', next, hi);
      PrefixUnchanged(b, b', i, m, hi);
      MembersUnfold(b', i, m, k);
      SameSlice(b, b', 0, hi, 0, m.keyLo, m.keyHi);
      NamedMore(b', m, ObjectMembers(b', next).list, name);
    } else {
      assert hi == m.hi;
      LastMemberCut(b, b', i, m);
      MembersUnfold(b', i, m, hi);
      SameSlice(b, b', 0, hi, 0, m.keyLo, m.keyHi);
      NoneWithin(0, |b'|);
      NamedNone(b');
      NamedMore(b', m, [], name);
      assert [m] + [] == [m] && [Field(name, m.lo, m.hi)] + [] == [Field(name, m.lo, m.hi)];
    }
  }

  lemma CompletedParts(b: Text, i: nat)
    requires i <= |b| && CompletedMembers(b, i) != []
    ensures OneMember(b, i).Some?
    ensures var m := OneMember(b, i).value; StringValue(b[m.keyLo..m.keyHi]).Some?
  {
    hide OneMember, Skip, StringValue, InBody;
  }

  lemma NamedMore(b: Text, m: Member, rest: seq<Member>, name: Text)
    requires Within(rest, 0, |b|) && Named(b, rest).Some?
    requires m.keyLo < m.keyHi < m.lo < m.hi < |b| && StringValue(b[m.keyLo..m.keyHi]) == Some(name)
    ensures Within([m] + rest, 0, |b|) && Named(b, [m] + rest) == Some([Field(name, m.lo, m.hi)] + Named(b, rest).value)
  {
    hide StringValue;
    assert ([m] + rest)[1..] == rest;
  }

  /** The completed members are the fields of the object that ends behind the
      last of them. */
  lemma CompletedIsPrefixObject(b: Text)
    requires BeginsWithMember(b)
    ensures Completed(b) != []
    ensures var hi := Completed(b)[|Completed(b)| - 1].hi; hi <= |b| && ObjectFields(b[..hi] + [RBRACE]) == Some(Completed(b))
  {
    hide BeginsWithMember, Completed, CompletedMembers, ObjectFields, ObjectMembers, Named, Within, Skip;
    CompletedFrom(b);
    var first, hi := Skip(b, Skip(b, 0) + 1), Completed(b)[|Completed(b)| - 1].hi;
    var b' := b[..hi] + [RBRACE];
    CompletedCut(b, b', first, hi);
    CutBegins(b, b', hi);
    FieldsOf(b', Skip(b, 0), first);
  }

  lemma CompletedFrom(b: Text)
    requires BeginsWithMember(b)
    ensures Completed(b) != [] && Completed(b)[|Completed(b)| - 1].hi <= |b|
    ensures At(b, Skip(b, 0), LBRACE) && Completed(b) == CompletedMembers(b, Skip(b, Skip(b, 0) + 1))
  {
    hide OneMember, CompletedMembers, StringValue, Skip;
    CompletedSome(b);
    assert Completed(b)[|Completed(b)| - 1] in Completed(b);
  }

  /** The opening brace and the way to the first member are before the cut. */
  lemma CutBegins(b: Text, b': Text, hi: nat)
    requires At(b, Skip(b, 0), LBRACE) && Skip(b, Skip(b, 0) + 1) < hi <= |b| && b' == b[..hi] + [RBRACE]
    ensures Skip(b', 0) == Skip(b, 0) && At(b', Skip(b, 0), LBRACE)
    ensures Skip(b', Skip(b, 0) + 1) == Skip(b, Skip(b, 0) + 1)
  {
    hide Same, Skip;
    var i := Skip(b, 0);
    CutSame(b, b', hi);
    SamePart(b, b', 0, hi, 0, i + 1, hi);
    SkipMoved(b, b', 0, 0, hi);
    SkipMoved(b, b', i + 1, 0, hi);
    SameAt(b, b', 0, hi, 0, i);
  }

  lemma FieldsOf(b: Text, i: nat, first: nat)
    requires Skip(b, 0) == i && At(b, i, LBRACE) && Skip(b, i + 1) == first
    requires ObjectMembers(b, first).Members? && ObjectMembers(b, first).end == |b|
    ensures Within(ObjectMembers(b, first).list, 0, |b|) && ObjectFields(b) == Named(b, ObjectMembers(b, first).list)
  {
    hide OneMember, ObjectMembers, Named, Skip, Within, WholeObject;
    FirstMember(b, first);
    MemberNeedsQuote(b, first);
    StopsAtEnd(b);
    WholeFrom(b, i, first);
  }

  lemma StopsAtEnd(b: Text)
    ensures Skip(b, |b|) == |b|
  {
  }

  // ----- the scan for some names

  /** The scan gets past the field: its key is UTF-8, and so is its raw value
      when it is asked for. A value not asked for is skipped unread. */
  predicate Passes(b: Text, f: Field, names: seq<Text>)
    requires f.lo <= f.hi <= |b|
  {
    IsUtf8(f.name) && (f.name in names ==> IsUtf8(b[f.lo..f.hi]))
  }

  /** The fields asked for, up to the first field that does not pass. */
  function Found(b: Text, fs: seq<Field>, names: seq<Text>): (r: seq<Field>)
    requires InBody(b, fs)
    ensures forall f | f in r :: f in fs && f.name in names
  {
    if fs == [] || !Passes(b, fs[0], names) then []
    else (if fs[0].name in names then [fs[0]] else []) + Found(b, fs[1..], names)
  }

  /** What is returned for `name` when `names` are asked for. */
  function FieldFor(b: Text, names: seq<Text>, name: Text): (r: Option<Field>)
    ensures r.Some? ==> r.value.lo <= r.value.hi <= |b|
  {
    Last(Found(b, Completed(b), names), name)
  }

  function TopField(b: Text, name: Text): (r: Option<Field>)
    ensures r.Some? ==> r.value.lo <= r.value.hi <= |b|
  {
    FieldFor(b, [name], name)
  }

  function Position(names: seq<Text>, name: Text): (r: Option<nat>)
    ensures r.Some? ==> r.value < |names| && names[r.value] == name
    ensures r.None? <==> name !in names
  {
    if names == [] then None
    else if names[0] == name then Some(0)
    else match Position(names[1..], name) case None => None case Some(i) => Some(i + 1)
  }

  /** The slot of a name asked for twice stays empty the second time. */
  function Slot(found: seq<Field>, names: seq<Text>, j: nat): Option<Field>
    requires j < |names|
  {
    if Position(names, names[j]) == Some(j) then Last(found, names[j]) else None
  }

  lemma {:induction false} LastAppend(fs: seq<Field>, f: Field, name: Text)
    ensures Last(fs + [f], name) == if f.name == name then Some(f) else Last(fs, name)
  {
    if fs == [] {
      assert fs + [f] == [f] && [f][1..] == [];
    } else {
      assert (fs + [f])[1..] == fs[1..] + [f];
      LastAppend(fs[1..], f, name);
    }
  }

  lemma FoundFirst(b: Text, fs: seq<Field>, f: Field, rest: seq<Field>, names: seq<Text>)
    requires InBody(b, fs) && fs == [f] + rest
    ensures InBody(b, rest)
    ensures !Passes(b, f, names) ==> Found(b, fs, names) == []
    ensures Passes(b, f, names) ==> Found(b, fs, names) == (if f.name in names then [f] else []) + Found(b, rest, names)
  {
    assert f in fs && fs[1..] == rest && forall x | x in rest :: x in fs;
  }

  /** One pass over the members; keeps the last value of every name. */
  method TopFields(b: Text, names: seq<Text>) returns (fields: seq<Option<Field>>)
    ensures |fields| == |names|
    ensures forall j | 0 <= j < |names| :: fields[j] == Slot(Found(b, Completed(b), names), names, j)
  {
    hide CompletedMembers, InBody, Found, Last, Position, IsUtf8, OneMember, StringValue, Skip;
    fields := seq(|names|, _ => None);
    ghost var found: seq<Field> := [];
    NothingLast(names);
    var i := Skip(b, 0);
    if !At(b, i, LBRACE) {
      NothingFound(b, names);
      return;
    }
    var pos := Skip(b, i + 1);
    if At(b, pos, RBRACE) {
      NothingFound(b, names);
      return;
    }
    ghost var all := Found(b, Completed(b), names);
    assert [] + all == all;
    while true
      invariant pos <= |b| && |fields| == |names|
      invariant found + Found(b, CompletedMembers(b, pos), names) == all
      invariant forall j | 0 <= j < |names| :: fields[j] == Slot(found, names, j)
      decreases |b| - pos
    {
      ghost var rest := CompletedMembers(b, pos);
      var member := OneMember(b, pos);
      if member.None? || StringValue(b[member.value.keyLo..member.value.keyHi]).None? {
        ScanBreaks(b, pos, names);
        assert found + [] == found;
        return;
      }
      var m := member.value;
      var f := Field(StringValue(b[m.keyLo..m.keyHi]).value, m.lo, m.hi);
      var comma := Skip(b, m.hi);
      CompletedFirst(b, pos, m, comma, f.name);
      ghost var later: seq<Field> := if At(b, comma, COMMA) then CompletedMembers(b, Skip(b, comma + 1)) else [];
      assert rest == [f] + later;
      FoundFirst(b, rest, f, later, names);
      if !Passes(b, f, names) {
        assert found + [] == found;
        return;
      }
      var index := Position(names, f.name);
      if index.Some? {
        SlotsAfter(fields, found, names, f, index.value);
        fields := fields[index.value := Some(f)];
        Assoc(found, [f], Found(b, later, names));
        found := found + [f];
      } else {
        assert [] + Found(b, later, names) == Found(b, later, names);
      }
      assert found + Found(b, later, names) == all;
      if !At(b, comma, COMMA) {
        NoneFound(b, names);
        assert found == all;
        return;
      }
      pos := Skip(b, comma + 1);
    }
  }

  lemma SlotsAfter(fields: seq<Option<Field>>, found: seq<Field>, names: seq<Text>, f: Field, p: nat)
    requires |fields| == |names| && forall j | 0 <= j < |names| :: fields[j] == Slot(found, names, j)
    requires Position(names, f.name) == Some(p)
    ensures forall j | 0 <= j < |names| :: fields[p := Some(f)][j] == Slot(found + [f], names, j)
  {
    hide Position, Last;
    forall j | 0 <= j < |names|
      ensures fields[p := Some(f)][j] == Slot(found + [f], names, j)
    {
      LastAppend(found, f, names[j]);
    }
  }

  lemma NothingLast(names: seq<Text>)
    ensures forall j | 0 <= j < |names| :: Slot([], names, j) == None
  {
    hide Position;
  }

  lemma NoneFound(b: Text, names: seq<Text>)
    ensures InBody(b, []) && Found(b, [], names) == []
  {
  }

  lemma NothingFound(b: Text, names: seq<Text>)
    requires var i := Skip(b, 0); !At(b, i, LBRACE) || At(b, Skip(b, i + 1), RBRACE)
    ensures Found(b, Completed(b), names) == []
  {
    hide CompletedMembers, Skip;
  }

  lemma ScanBreaks(b: Text, i: nat, names: seq<Text>)
    requires i <= |b|
    requires OneMember(b, i).None? || var m := OneMember(b, i).value; StringValue(b[m.keyLo..m.keyHi]).None?
    ensures CompletedMembers(b, i) == [] && Found(b, CompletedMembers(b, i), names) == []
  {
    hide OneMember, StringValue, Skip;
  }

  // ----- when the scan finds something

  /** A JSON object (section 8.1 of RFC 8259 asks for UTF-8). */
  predicate IsObject(b: Text) {
    ObjectFields(b).Some? && IsUtf8(b)
  }

  /** Field `k` is the first one asked for, it is UTF-8, and the scan gets there. */
  ghost predicate FirstAsked(b: Text, fs: seq<Field>, names: seq<Text>, k: nat)
    requires InBody(b, fs)
  {
    && k < |fs| && fs[k].name in names && IsUtf8(b[fs[k].lo..fs[k].hi])
    && (forall t | 0 <= t <= k :: IsUtf8(fs[t].name))
    && (forall t | 0 <= t < k :: fs[t].name !in names)
  }

  lemma {:induction false} FoundSomeIff(b: Text, fs: seq<Field>, names: seq<Text>)
    requires InBody(b, fs)
    ensures Found(b, fs, names) != [] <==> exists k: nat :: FirstAsked(b, fs, names, k)
  {
    hide IsUtf8;
    if fs != [] && fs[0].name !in names && Passes(b, fs[0], names) {
      FoundSomeIff(b, fs[1..], names);
      if k: nat :| FirstAsked(b, fs[1..], names, k) {
        assert forall t | 1 <= t < |fs| :: fs[t] == fs[1..][t - 1];
        assert FirstAsked(b, fs, names, k + 1);
      }
      if k: nat :| FirstAsked(b, fs, names, k) {
        assert k > 0;
        assert forall t | 0 <= t < |fs| - 1 :: fs[1..][t] == fs[t + 1];
        assert FirstAsked(b, fs[1..], names, k - 1);
      }
    } else if fs != [] && fs[0].name in names && Passes(b, fs[0], names) {
      assert FirstAsked(b, fs, names, 0);
    }
  }

  /** Asked for `names`, a text that is not an object gives nothing if and only if
      the first completed member with one of these names is missing, not UTF-8,
      or behind a key that is not UTF-8. */
  lemma NothingFoundIff(b: Text, names: seq<Text>)
    ensures (IsObject(b) || forall name | name in names :: FieldFor(b, names, name).None?)
            <==> IsObject(b) || !exists k: nat :: FirstAsked(b, Completed(b), names, k)
  {
    hide IsObject, Completed, FirstAsked, Last, IsUtf8;
    var found := Found(b, Completed(b), names);
    FoundSomeIff(b, Completed(b), names);
    if found != [] {
      var f := found[0];
      assert f in found;
      assert FieldFor(b, names, f.name).Some?;
    }
  }

  // ----- objects

  /** In an object the scan passes everything. */
  lemma {:induction false} FoundAll(b: Text, fs: seq<Field>, names: seq<Text>, name: Text)
    requires InBody(b, fs) && name in names && forall f | f in fs :: FieldUtf8(b, f)
    ensures Last(Found(b, fs, names), name) == Last(fs, name)
  {
    hide IsUtf8;
    if fs != [] {
      assert FieldUtf8(b, fs[0]);
      FoundAll(b, fs[1..], names, name);
      var rest := Found(b, fs[1..], names);
      if fs[0].name in names {
        assert ([fs[0]] + rest)[1..] == rest;
      } else {
        assert [] + rest == rest;
      }
    }
  }

  /** Of an object the scan returns the last value of every name asked for. */
  lemma TopFieldOfObject(b: Text, names: seq<Text>, name: Text)
    requires IsObject(b) && name in names
    ensures FieldFor(b, names, name) == Last(ObjectFields(b).value, name)
    ensures Lookup(b, name) == match FieldFor(b, names, name) case None => None case Some(f) => Some(b[f.lo..f.hi])
  {
    hide ObjectFields, Completed, Found, Last, LastValue, IsUtf8;
    CompletedOfObject(b);
    ObjectUtf8(b);
    FoundAll(b, ObjectFields(b).value, names, name);
    LastOfEntries(b, ObjectFields(b).value, name);
  }

  // ----- two texts that are not objects, in which a field is found

  /** Broken behind the member. */
  lemma ScanOfBrokenObject()
    ensures var b := [LBRACE, QUOTE, 97, QUOTE, COLON, 49, RBRACKET];
            TopField(b, [97]) == Some(Field([97], 5, 6)) && ObjectFields(b).None?
  {
    var b := [LBRACE, QUOTE, 97, QUOTE, COLON, 49, RBRACKET];
    hide OneMember, CompletedMembers, ObjectMembers, StringValue, InBody;
    var m, f := Member(1, 4, 5, 6), Field([97], 5, 6);
    BrokenMember(b);
    assert Skip(b, 0) == 0 && Skip(b, 1) == 1 && Skip(b, 6) == 6;
    CompletedFirst(b, 1, m, 6, [97]);
    assert Completed(b) == [f];
    FoundOne(b, f);
    MembersUnfold(b, 1, m, 6);
  }

  lemma FoundOne(b: Text, f: Field)
    requires f.lo <= f.hi <= |b| && IsUtf8(f.name) && IsUtf8(b[f.lo..f.hi]) && Completed(b) == [f]
    ensures TopField(b, f.name) == Some(f)
  {
    hide Completed, IsUtf8;
    assert [f][1..] == [] && [f] + [] == [f];
    assert Found(b, [f], [f.name]) == [f];
  }

  lemma BrokenMember(b: Text)
    requires b == [LBRACE, QUOTE, 97, QUOTE, COLON, 49, RBRACKET]
    ensures OneMember(b, 1) == Some(Member(1, 4, 5, 6)) && StringValue(b[1..4]) == Some([97])
    ensures IsUtf8([97]) && IsUtf8(b[5..6])
  {
    assert b[1..4] == [QUOTE, 97, QUOTE] == Quote([97]) by {
      assert Escape([97]) == [97] by { assert [97][1..] == []; }
    }
    QuoteIsValue([97]);
    assert StringEnd(b, 2) == Some(4);
    assert Digits(b, 5) == 6;
    assert Value(b, 5) == Some(6);
    assert b[5..6] == [49] && [49][1..] == [] && [97][1..] == [];
  }

  /** Well-formed but for a value that is not UTF-8 and was not asked for. */
  lemma ScanOfMalformedText()
    ensures var b := Built([Entry([97], [49]), Entry([98], Quote([0xFF]))]);
            !IsObject(b) && TopField(b, [97]).Some?
  {
    hide ObjectFields, Joined, Spots, Quote, Completed, StringValue, IsValue, IsUtf8, Built;
    var es := [Entry([97], [49]), Entry([98], Quote([0xFF]))];
    var b, fs := Built(es), Places(es, 1);
    SmallTexts();
    QuoteIsValue([0xFF]);
    QuoteUtf8([0xFF]);
    assert es[1] in es;
    BuiltUtf8(es);
    BuiltFields(es);
    CompletedOfObject(b);
    FirstPlace(es);
    FoundFirst(b, fs, fs[0], fs[1..], [[97]]);
    assert fs[0] in Found(b, fs, [[97]]);
  }

  lemma SmallTexts()
    ensures IsValue([49]) && IsUtf8([49]) && IsUtf8([97]) && !IsUtf8([0xFF])
  {
    assert Digits([49], 0) == 1;
    assert [49][1..] == [] && [97][1..] == [];
  }

  lemma FirstPlace(es: seq<Entry>)
    requires es != []
    ensures var f := Places(es, 1)[0]; f.name == es[0].name && f.lo <= f.hi <= |Built(es)| && Built(es)[f.lo..f.hi] == es[0].value
  {
    hide Joined, Spots, Quote;
    SpotsHold(es, [LBRACE], [RBRACE]);
  }
}
