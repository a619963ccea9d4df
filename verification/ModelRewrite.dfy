/** Restoring the public model name in a response. */
module ModelRewrite {
  import opened Basics
  import opened JsonText
  import opened JsonUtf8
  import opened RawJson
  import opened RawPayload
  import opened Splicing
  import opened FieldScan

  // ----- restoring the public model name

  function RewrittenModel(b: Text, public: Text): Text {
    match TopField(b, MODEL)
    case None => b
    case Some(f) => if StringValue(b[f.lo..f.hi]) == Some(public) then b else Put(b, f.lo, f.hi, Quote(public))
  }

  method RewriteBodyModel(body: Text, public: Text) returns (r: Result<Text, SpliceError>)
    requires |body| <= USIZE_MAX
    ensures r.Ok? ==> r.value == RewrittenModel(body, public)
    ensures r == Err(TooLong) <==> |RewrittenModel(body, public)| > USIZE_MAX
    ensures var f := TopField(body, MODEL);
            f.None? || StringValue(body[f.value.lo..f.value.hi]) == Some(public) ==> r == Ok(body)
  {
    hide Found, Completed, Last, StringValue, Quote;
    var fields := TopFields(body, [MODEL]);
    var model := fields[0];
    assert Position([MODEL], MODEL) == Some(0) && model == Slot(Found(body, Completed(body), [MODEL]), [MODEL], 0);
    if model.None? {
      return Ok(body);
    }
    var f := model.value;
    if StringValue(body[f.lo..f.hi]) == Some(public) {
      return Ok(body);
    }
    var spans := [Span(f.lo, f.hi)];
    assert spans[1..] == [];
    assert Spliced(body, spans, Quote(public), 0) == Put(body, f.lo, f.hi, Quote(public));
    r := SpliceRanges(body, spans, Quote(public));
  }

  lemma {:induction false} LastAt(fs: seq<Field>, name: Text) returns (k: nat)
    requires Last(fs, name).Some?
    ensures k < |fs| && fs[k] == Last(fs, name).value && forall t | k < t < |fs| :: fs[t].name != name
  {
    if Last(fs[1..], name).Some? {
      var rest := LastAt(fs[1..], name);
      k := rest + 1;
      assert forall t | k < t < |fs| :: fs[t] == fs[1..][t - 1];
    } else {
      k := 0;
      forall t | 0 < t < |fs|
        ensures fs[t].name != name
      {
        assert fs[t] in fs[1..];
      }
    }
  }

  lemma {:induction false} UpdatedLast(es: seq<Entry>, k: nat, v: Text, name: Text)
    requires k < |es| && forall t | k < t < |es| :: es[t].name != es[k].name
    ensures LastValue(es[k := Entry(es[k].name, v)], name) == if name == es[k].name then Some(v) else LastValue(es, name)
  {
    var u := es[k := Entry(es[k].name, v)];
    if k == 0 {
      assert u[1..] == es[1..];
      forall e | e in es[1..]
        ensures e.name != es[0].name
      {
        var t :| 0 <= t < |es| - 1 && es[1..][t] == e;
        assert es[t + 1] == e;
      }
    } else {
      assert u[1..] == es[1..][k - 1 := Entry(es[k].name, v)];
      UpdatedLast(es[1..], k - 1, v, name);
    }
  }

  /** The value of member `k`, which is a `model`, and nothing else, becomes `v`. */
  ghost predicate ModelBecomes(es: seq<Entry>, es': seq<Entry>, k: nat, v: Text) {
    k < |es| && es[k].name == MODEL && es' == es[k := Entry(MODEL, v)]
  }

  /** `k` is the last `model` field. */
  ghost predicate LastModel(fs: seq<Field>, k: nat) {
    k < |fs| && fs[k].name == MODEL && forall t | k < t < |fs| :: fs[t].name != MODEL
  }

  /** The scan gets to the last `model` and reads it: all keys up to it are UTF-8,
      and all values of that name. */
  ghost predicate Reached(b: Text, fs: seq<Field>)
    requires InBody(b, fs)
  {
    exists k: nat :: LastModel(fs, k) && forall t | 0 <= t <= k :: Passes(b, fs[t], [MODEL])
  }

  lemma {:induction false} FoundSplit(b: Text, a: seq<Field>, c: seq<Field>)
    requires InBody(b, a + c)
    ensures InBody(b, a) && InBody(b, c)
    ensures (forall f | f in a :: Passes(b, f, [MODEL])) ==> Found(b, a + c, [MODEL]) == Found(b, a, [MODEL]) + Found(b, c, [MODEL])
    ensures (exists f | f in a :: !Passes(b, f, [MODEL])) ==> Found(b, a + c, [MODEL]) == Found(b, a, [MODEL])
  {
    hide IsUtf8, Found, Passes;
    assert forall f | f in a :: f in a + c;
    assert forall f | f in c :: f in a + c;
    if a == [] {
      assert a + c == c;
      NoneFound(b, [MODEL]);
      assert [] + Found(b, c, [MODEL]) == Found(b, c, [MODEL]);
    } else {
      assert a == [a[0]] + a[1..] && a + c == [a[0]] + (a[1..] + c);
      FoundFirst(b, a, a[0], a[1..], [MODEL]);
      FoundFirst(b, a + c, a[0], a[1..] + c, [MODEL]);
      assert forall f :: f in a <==> f == a[0] || f in a[1..];
      FoundSplit(b, a[1..], c);
      Assoc(if a[0].name in [MODEL] then [a[0]] else [], Found(b, a[1..], [MODEL]), Found(b, c, [MODEL]));
    }
  }

  lemma LastNone(fs: seq<Field>)
    requires forall f | f in fs :: f.name != MODEL
    ensures Last(fs, MODEL).None?
  {
  }

  lemma {:induction false} LastJoined(a: seq<Field>, c: seq<Field>)
    requires forall f | f in c :: f.name != MODEL
    ensures Last(a + c, MODEL) == Last(a, MODEL)
  {
    if a == [] {
      assert a + c == c;
      LastNone(c);
    } else {
      assert (a + c)[1..] == a[1..] + c;
      LastJoined(a[1..], c);
    }
  }

  /** The fields before `k` are passed, so what is found there comes first. */
  lemma FoundUpTo(b: Text, fs: seq<Field>, k: nat)
    requires InBody(b, fs) && k < |fs|
    ensures InBody(b, fs[..k]) && InBody(b, fs[k + 1..])
    ensures var a, c := Found(b, fs[..k], [MODEL]), Found(b, fs[k + 1..], [MODEL]);
            Found(b, fs, [MODEL])
            == if exists i | 0 <= i < k :: !Passes(b, fs[i], [MODEL]) then a
               else if !Passes(b, fs[k], [MODEL]) then a + []
               else if fs[k].name == MODEL then a + [fs[k]] + c else a + c
  {
    hide IsUtf8, Found, Passes;
    var before, behind := fs[..k], [fs[k]] + fs[k + 1..];
    assert fs == before + behind;
    FoundSplit(b, before, behind);
    FoundFirst(b, behind, fs[k], fs[k + 1..], [MODEL]);
    assert forall f | f in before :: exists i | 0 <= i < k :: fs[i] == f;
    assert forall i | 0 <= i < k :: fs[i] in before;
    var a, c := Found(b, before, [MODEL]), Found(b, fs[k + 1..], [MODEL]);
    Assoc(a, [fs[k]], c);
    assert [] + c == c;
  }

  lemma LastIsFound(b: Text, fs: seq<Field>, k: nat)
    requires InBody(b, fs) && LastModel(fs, k) && forall i | 0 <= i <= k :: Passes(b, fs[i], [MODEL])
    ensures Last(Found(b, fs, [MODEL]), MODEL) == Some(fs[k])
  {
    hide IsUtf8, Found, Passes, Last;
    FoundUpTo(b, fs, k);
    var a, c := Found(b, fs[..k], [MODEL]), Found(b, fs[k + 1..], [MODEL]);
    LaterHaveNone(fs, k, c);
    LastJoined(a + [fs[k]], c);
    LastAppend(a, fs[k], MODEL);
  }

  /** What the scan returns as the model: the last one if it is reached, and else
      none or an earlier one. */
  lemma ModelFound(b: Text, fs: seq<Field>, k: nat) returns (t: nat)
    requires InBody(b, fs) && LastModel(fs, k)
    ensures var top := Last(Found(b, fs, [MODEL]), MODEL);
            && t <= k && (Reached(b, fs) <==> t == k && top.Some?)
            && (top.Some? ==> top.value == fs[t] && fs[t].name == MODEL)
  {
    hide Found, Passes, Last;
    if forall i | 0 <= i <= k :: Passes(b, fs[i], [MODEL]) {
      LastIsFound(b, fs, k);
      t := k;
    } else {
      var i :| 0 <= i <= k && !Passes(b, fs[i], [MODEL]);
      FoundUpTo(b, fs, k);
      assert Found(b, fs[..k], [MODEL]) + [] == Found(b, fs[..k], [MODEL]);
      t := EarlierModel(b, fs, k);
      NotReached(b, fs, k, i);
    }
  }

  lemma NotReached(b: Text, fs: seq<Field>, k: nat, i: nat)
    requires InBody(b, fs) && LastModel(fs, k) && i <= k && !Passes(b, fs[i], [MODEL])
    ensures !Reached(b, fs)
  {
    hide Passes;
    forall k': nat | LastModel(fs, k')
      ensures k' == k
    {
    }
  }

  lemma LaterHaveNone(fs: seq<Field>, k: nat, found: seq<Field>)
    requires LastModel(fs, k) && forall f | f in found :: f in fs[k + 1..]
    ensures forall f | f in found :: f.name != MODEL
  {
    forall f | f in found
      ensures f.name != MODEL
    {
      var i :| 0 <= i < |fs| - k - 1 && fs[k + 1..][i] == f;
      assert fs[k + 1 + i] == f;
    }
  }

  lemma EarlierModel(b: Text, fs: seq<Field>, k: nat) returns (t: nat)
    requires InBody(b, fs) && k < |fs| && InBody(b, fs[..k])
    ensures var top := Last(Found(b, fs[..k], [MODEL]), MODEL);
            && t <= k && (top.Some? ==> t < k && fs[t] == top.value && fs[t].name == MODEL)
  {
    hide Found, Last;
    var top := Last(Found(b, fs[..k], [MODEL]), MODEL);
    t := k;
    if top.Some? {
      assert top.value in fs[..k];
      t :| 0 <= t < k && fs[..k][t] == top.value;
    }
  }

  lemma {:induction false} UpdatedEarlier(es: seq<Entry>, t: nat, k: nat, v: Text, name: Text)
    requires t < k < |es| && es[t].name == es[k].name
    ensures LastValue(es[t := Entry(es[t].name, v)], name) == LastValue(es, name)
  {
    var u := es[t := Entry(es[t].name, v)];
    if t == 0 {
      assert u[1..] == es[1..] && es[k] == es[1..][k - 1];
      assert es[k] in es[1..];
    } else {
      assert u[1..] == es[1..][t - 1 := Entry(es[t].name, v)];
      UpdatedEarlier(es[1..], t - 1, k - 1, v, name);
    }
  }

  /** The text denotes the public name as its model. */
  predicate Shows(b: Text, public: Text) {
    match Lookup(b, MODEL) case None => false case Some(raw) => StringValue(raw) == Some(public)
  }

  /** What rewriting does to a well-formed object. */
  ghost predicate Outcome(b: Text, r: Text, public: Text)
    requires ObjectFields(b).Some?
  {
    && ObjectFields(r).Some?
    && (r == b || exists k: nat :: ModelBecomes(BodyEntries(b), BodyEntries(r), k, Quote(public)))
    && (forall name | name != MODEL :: Lookup(r, name) == Lookup(b, name))
    && (Shows(r, public) <==> Shows(b, public) || Reached(b, ObjectFields(b).value))
    && (r != b && Reached(b, ObjectFields(b).value) ==> LastModelBecomes(b, r, Quote(public)))
  }

  ghost predicate LastModelBecomes(b: Text, r: Text, v: Text)
    requires ObjectFields(b).Some? && ObjectFields(r).Some?
  {
    exists k: nat :: LastModel(ObjectFields(b).value, k) && ModelBecomes(BodyEntries(b), BodyEntries(r), k, v)
  }

  /** Any well-formed object, whether or not it is UTF-8: at most one `model`
      member changes, everything else keeps its bytes and order, and the public
      name is shown afterwards if and only if it was before or the scan reaches
      the last `model`. */
  lemma ShownIff(b: Text, public: Text)
    requires ObjectFields(b).Some?
    ensures Outcome(b, RewrittenModel(b, public), public)
  {
    hide ObjectFields, Put, Quote, StringValue, LastValue, Completed, Last, Found, Reached, Outcome;
    var fs, top := ObjectFields(b).value, TopField(b, MODEL);
    CompletedOfObject(b);
    LastOfEntries(b, fs, MODEL);
    if Last(fs, MODEL).None? {
      NoModel(b, fs);
      SameOutcome(b, public);
    } else {
      var k := LastAt(fs, MODEL);
      var t := ModelFound(b, fs, k);
      if top.None? || StringValue(b[fs[t].lo..fs[t].hi]) == Some(public) {
        SameOutcome(b, public);
      } else {
        ChangedOutcome(b, public, t, k);
      }
    }
  }

  lemma SameOutcome(b: Text, public: Text)
    requires ObjectFields(b).Some? && (Reached(b, ObjectFields(b).value) ==> Shows(b, public))
    ensures Outcome(b, b, public)
  {
    hide ObjectFields, Reached, LastValue, StringValue;
  }

  lemma ChangedOutcome(b: Text, public: Text, t: nat, k: nat)
    requires ObjectFields(b).Some? && t <= k && LastModel(ObjectFields(b).value, k) && ObjectFields(b).value[t].name == MODEL
    requires Reached(b, ObjectFields(b).value) <==> t == k
    ensures var f := ObjectFields(b).value[t]; Outcome(b, Put(b, f.lo, f.hi, Quote(public)), public)
  {
    hide ObjectFields, Put, Quote, Reached, LastValue, StringValue, LastModel, ModelBecomes, BodyEntries;
    ModelChanged(b, public, t, k);
  }

  lemma NoModel(b: Text, fs: seq<Field>)
    requires InBody(b, fs) && Last(fs, MODEL).None?
    ensures Last(Found(b, fs, [MODEL]), MODEL).None? && !Reached(b, fs)
  {
    hide Found, Passes;
    LastNone(Found(b, fs, [MODEL]));
    forall k: nat | k < |fs|
      ensures fs[k].name != MODEL
    {
      assert fs[k] in fs;
    }
  }

  /** Changing `model` number `t`, where `k` is the last. */
  lemma ModelChanged(b: Text, public: Text, t: nat, k: nat)
    requires ObjectFields(b).Some? && t <= k && LastModel(ObjectFields(b).value, k) && ObjectFields(b).value[t].name == MODEL
    ensures var f := ObjectFields(b).value[t];
            var r := Put(b, f.lo, f.hi, Quote(public));
            && ObjectFields(r).Some? && ModelBecomes(BodyEntries(b), BodyEntries(r), t, Quote(public))
            && (forall name | name != MODEL :: Lookup(r, name) == Lookup(b, name))
            && (t == k ==> Shows(r, public)) && (t < k ==> Lookup(r, MODEL) == Lookup(b, MODEL))
  {
    hide ObjectFields, Put, Quote, StringValue, LastValue, IsValue;
    QuoteIsValue(public);
    ChangedEntries(b, t, Quote(public));
    var es, f := BodyEntries(b), ObjectFields(b).value[t];
    var r := Put(b, f.lo, f.hi, Quote(public));
    assert es[t].name == MODEL && es[k].name == MODEL;
    assert BodyEntries(r) == es[t := Entry(es[t].name, Quote(public))];
    if t == k {
      assert forall u | k < u < |es| :: es[u].name == ObjectFields(b).value[u].name;
      UpdatedLast(es, t, Quote(public), MODEL);
      forall name: Text
        ensures name != MODEL ==> LastValue(BodyEntries(r), name) == LastValue(es, name)
      {
        UpdatedLast(es, t, Quote(public), name);
      }
    } else {
      forall name: Text
        ensures LastValue(BodyEntries(r), name) == LastValue(es, name)
      {
        UpdatedEarlier(es, t, k, Quote(public), name);
      }
    }
  }

  /** Of an object the scan reaches everything. */
  lemma ObjectReached(b: Text)
    requires IsObject(b) && Lookup(b, MODEL).Some?
    ensures Reached(b, ObjectFields(b).value)
  {
    hide ObjectFields, LastValue, IsUtf8;
    var fs := ObjectFields(b).value;
    ObjectUtf8(b);
    LastOfEntries(b, fs, MODEL);
    var k := LastAt(fs, MODEL);
    forall t | 0 <= t <= k
      ensures Passes(b, fs[t], [MODEL])
    {
      assert FieldUtf8(b, fs[t]);
    }
    assert LastModel(fs, k);
  }

  /** Of an object that has a model, the value of the last `model` member and no
      other byte of a member changes; the text is then an object again, shows
      the public name, and doing it again changes nothing. */
  lemma ModelRestored(b: Text, public: Text)
    requires IsObject(b) && IsUtf8(public)
    ensures var r := RewrittenModel(b, public);
            && IsObject(r)
            && (r == b || LastModelBecomes(b, r, Quote(public)))
            && (forall name | name != MODEL :: Lookup(r, name) == Lookup(b, name))
            && (if Lookup(b, MODEL).Some? then Shows(r, public) else r == b)
            && RewrittenModel(r, public) == r
  {
    hide ObjectFields, Put, Quote, StringValue, LastValue, Completed, Last, Found, Reached, IsUtf8, LastModel, ModelBecomes;
    var r := RewrittenModel(b, public);
    ShownIff(b, public);
    TopFieldOfObject(b, [MODEL], MODEL);
    if Lookup(b, MODEL).Some? {
      ObjectReached(b);
      if r != b {
        var k: nat :| LastModel(ObjectFields(b).value, k) && ModelBecomes(BodyEntries(b), BodyEntries(r), k, Quote(public));
        StillUtf8(b, r, k, public);
      }
      TopFieldOfObject(r, [MODEL], MODEL);
    }
  }

  lemma StillUtf8(b: Text, r: Text, k: nat, public: Text)
    requires IsObject(b) && IsUtf8(public) && ObjectFields(r).Some? && ModelBecomes(BodyEntries(b), BodyEntries(r), k, Quote(public))
    ensures IsUtf8(r)
  {
    hide ObjectFields, Quote, IsUtf8;
    var es, es', fs, fs' := BodyEntries(b), BodyEntries(r), ObjectFields(b).value, ObjectFields(r).value;
    ObjectUtf8(b);
    ObjectUtf8(r);
    QuoteUtf8(public);
    assert |fs| == |fs'|;
    forall f | f in fs'
      ensures FieldUtf8(r, f)
    {
      var i :| 0 <= i < |fs'| && fs'[i] == f;
      assert es'[i] == Entry(f.name, r[f.lo..f.hi]) && es'[i] == if i == k then Entry(MODEL, Quote(public)) else es[i];
      assert FieldUtf8(b, fs[i]);
    }
  }

  /** A model whose value is not UTF-8 is left as it is. */
  lemma UnreadableModelStays(public: Text)
    requires IsUtf8(public)
    ensures var b := Built([Entry(MODEL, Quote([0xFF]))]);
            ObjectFields(b).Some? && RewrittenModel(b, public) == b && !Shows(b, public)
  {
    hide ObjectFields, Quote, StringValue, Joined, Spots, Completed, LastValue, IsUtf8, Built, IsValue;
    var es := [Entry(MODEL, Quote([0xFF]))];
    var b, fs := Built(es), Places(es, 1);
    SmallTexts();
    QuoteIsValue([0xFF]);
    QuoteUtf8([0xFF]);
    BuiltFields(es);
    CompletedOfObject(b);
    FirstPlace(es);
    FoundFirst(b, fs, fs[0], fs[1..], [MODEL]);
    LastOfEntries(b, fs, MODEL);
    assert Last(fs, MODEL) == Some(fs[0]) by { assert fs[1..] == []; }
  }

  /** In a text that only begins like an object, the name is restored in the
      object up to its last complete member, and the rest stays as it is. */
  lemma ModelRestoredInPrefix(b: Text, public: Text)
    requires BeginsWithMember(b)
    ensures Completed(b) != [] && Completed(b)[|Completed(b)| - 1].hi <= |b|
    ensures var hi := Completed(b)[|Completed(b)| - 1].hi;
            var whole := b[..hi] + [RBRACE];
            && ObjectFields(whole).Some?
            && RewrittenModel(whole, public) != [] && RewrittenModel(b, public) == Front(RewrittenModel(whole, public)) + b[hi..]
  {
    hide BeginsWithMember, Completed, ObjectFields, Last, Quote, StringValue, Found, IsUtf8;
    CompletedIsPrefixObject(b);
    var hi := Completed(b)[|Completed(b)| - 1].hi;
    var whole := b[..hi] + [RBRACE];
    CompletedOfObject(whole);
    FoundInPrefix(b, hi, Completed(b));
    var top := TopField(b, MODEL);
    if top.Some? {
      var i :| 0 <= i < |Completed(b)| && Completed(b)[i] == top.value;
      PutInPrefix(b, hi, top.value.lo, top.value.hi, Quote(public));
    } else {
      assert Front(whole) + b[hi..] == b;
    }
  }

  lemma {:induction false} FoundInPrefix(b: Text, hi: nat, fs: seq<Field>)
    requires hi <= |b| && InBody(b, fs) && forall f | f in fs :: f.lo <= f.hi <= hi
    ensures InBody(b[..hi] + [RBRACE], fs) && Found(b[..hi] + [RBRACE], fs, [MODEL]) == Found(b, fs, [MODEL])
  {
    hide IsUtf8;
    var whole := b[..hi] + [RBRACE];
    if fs != [] {
      assert fs[0] in fs;
      assert whole[fs[0].lo..fs[0].hi] == b[fs[0].lo..fs[0].hi];
      FoundInPrefix(b, hi, fs[1..]);
    }
  }

  function Front(t: Text): Text {
    if t == [] then [] else t[..|t| - 1]
  }

  lemma PutInPrefix(b: Text, hi: nat, from: nat, to: nat, v: Text)
    requires from <= to <= hi <= |b|
    ensures var whole := b[..hi] + [RBRACE];
            && whole[from..to] == b[from..to] && Front(whole) + b[hi..] == b
            && Put(whole, from, to, v) != [] && Front(Put(whole, from, to, v)) + b[hi..] == Put(b, from, to, v)
  {
    var whole := b[..hi] + [RBRACE];
    assert whole[to..] == b[to..hi] + [RBRACE] && b[to..] == b[to..hi] + b[hi..];
    assert Put(whole, from, to, v) == (b[..from] + v + b[to..hi]) + [RBRACE];
  }
}
