/** The mutable payload object over the raw index, the encoder that forwards it,
    and the structured encoder it must agree with. */
module RawPayload {
  import opened Basics
  import opened JsonText
  import opened JsonUtf8
  import opened RawJson

  // ----- what a body says

  ghost predicate InBody(b: Text, fs: seq<Field>) {
    forall f | f in fs :: f.lo <= f.hi <= |b|
  }

  function EntriesOf(b: Text, fs: seq<Field>): (es: seq<Entry>)
    requires InBody(b, fs)
    ensures |es| == |fs|
    ensures forall i | 0 <= i < |fs| :: es[i] == Entry(fs[i].name, b[fs[i].lo..fs[i].hi])
  {
    if fs == [] then [] else [Entry(fs[0].name, b[fs[0].lo..fs[0].hi])] + EntriesOf(b, fs[1..])
  }

  /** The entries of a valid body in source order. */
  function BodyEntries(b: Text): seq<Entry>
    requires ObjectFields(b).Some?
  {
    EntriesOf(b, ObjectFields(b).value)
  }

  function LastValue(es: seq<Entry>, name: Text): (r: Option<Text>)
    ensures r.Some? <==> exists e :: e in es && e.name == name
  {
    if es == [] then None
    else
      match LastValue(es[1..], name)
      case Some(v) => Some(v)
      case None => if es[0].name == name then Some(es[0].value) else None
  }

  /** The raw value of a field; a repeated key means its last occurrence. */
  function Lookup(b: Text, name: Text): Option<Text> {
    if ObjectFields(b).None? then None else LastValue(BodyEntries(b), name)
  }

  lemma {:induction false} LastOfEntries(b: Text, fs: seq<Field>, name: Text)
    requires InBody(b, fs)
    ensures var last := Last(fs, name);
            LastValue(EntriesOf(b, fs), name) == if last.None? then None else Some(b[last.value.lo..last.value.hi])
  {
    if fs != [] {
      LastOfEntries(b, fs[1..], name);
      assert EntriesOf(b, fs)[1..] == EntriesOf(b, fs[1..]);
    }
  }

  /** Index and source agree on every key. */
  lemma IndexedLookup(b: Text, fs: seq<Field>, name: Text)
    requires InBody(b, fs)
    ensures LastValue(EntriesOf(b, Index(fs)), name) == LastValue(EntriesOf(b, fs), name)
  {
    hide Index, EntriesOf, LastValue;
    IndexIsLastWins(fs);
    LastOfEntries(b, fs, name);
    LastOfEntries(b, Index(fs), name);
  }

  lemma IndexedValues(b: Text)
    requires ObjectFields(b).Some?
    ensures forall e | e in EntriesOf(b, Index(ObjectFields(b).value)) :: IsValue(e.value)
  {
    hide ObjectFields, IsValue, Index;
    var fs := ObjectFields(b).value;
    var index := Index(fs);
    FieldsAreValues(b);
    forall e | e in EntriesOf(b, index)
      ensures IsValue(e.value)
    {
      var i :| 0 <= i < |index| && EntriesOf(b, index)[i] == e;
      assert index[i] in fs;
      var j :| 0 <= j < |fs| && fs[j] == index[i];
    }
  }

  lemma IndexedUtf8(b: Text)
    requires ObjectFields(b).Some? && IsUtf8(b)
    ensures forall e | e in EntriesOf(b, Index(ObjectFields(b).value)) :: IsUtf8(e.name) && IsUtf8(e.value)
  {
    hide ObjectFields, IsUtf8, Index;
    var index := Index(ObjectFields(b).value);
    ObjectUtf8(b);
    forall e | e in EntriesOf(b, index)
      ensures IsUtf8(e.name) && IsUtf8(e.value)
    {
      var i :| 0 <= i < |index| && EntriesOf(b, index)[i] == e;
      assert FieldUtf8(b, index[i]);
    }
  }

  /** A change of a UTF-8 body is UTF-8 exactly when what was written is. */
  lemma ChangedUtf8(b: Text, dropped: Option<Text>, field: Text, value: Text)
    requires ObjectFields(b).Some? && IsUtf8(b) && IsValue(value)
    ensures var es := Changed(EntriesOf(b, Index(ObjectFields(b).value)), dropped, field, value);
            && (IsUtf8(value) ==> IsUtf8(Built(es)))
            && (Entry(field, value) in es && IsUtf8(Built(es)) ==> IsUtf8(value))
  {
    hide ObjectFields, IsUtf8, Index, IsValue, Changed, Built, EntriesOf;
    var kept := EntriesOf(b, Index(ObjectFields(b).value));
    var es := Changed(kept, dropped, field, value);
    IndexedUtf8(b);
    IndexedValues(b);
    forall e | e in es
      ensures IsValue(e.value) && IsUtf8(e.name) && (IsUtf8(value) ==> IsUtf8(e.value))
    {
      var o :| o in kept && o.name == e.name;
    }
    BuiltUtf8(es);
  }

  ghost predicate AscendingNames(es: seq<Entry>) {
    forall i, j | 0 <= i < j < |es| :: KeyLess(Key(0, es[i].name), Key(0, es[j].name))
  }

  /** An object built from ascending entries says exactly those entries, and its
      places are its own index. */
  lemma BuiltBody(es: seq<Entry>)
    requires forall e | e in es :: IsValue(e.value)
    ensures ObjectFields(Built(es)) == Some(Places(es, 1)) && BodyEntries(Built(es)) == es
    ensures AscendingNames(es) ==> Index(Places(es, 1)) == Places(es, 1) && DistinctKeys(Places(es, 1), ByName())
  {
    hide ObjectFields, Index, IsValue, Spots, Joined;
    var places := Places(es, 1);
    BuiltFields(es);
    SpotsHold(es, [LBRACE], [RBRACE]);
    assert BodyEntries(Built(es)) == es;
    if AscendingNames(es) {
      assert StrictlyAscending(places, ByName());
      IndexOfAscending(places);
      IndexIsLastWins(places);
    }
  }

  /** If the index of a built object is its places, all it holds are values. */
  lemma BuiltValues(es: seq<Entry>, e: Entry)
    requires e in es
    ensures ObjectFields(Built(es)).Some? && Index(ObjectFields(Built(es)).value) == Places(es, 1) ==> IsValue(e.value)
  {
    hide ObjectFields, Index, IsValue, Spots, Joined;
    var b := Built(es);
    SpotsHold(es, [LBRACE], [RBRACE]);
    if ObjectFields(b).Some? && Index(ObjectFields(b).value) == Places(es, 1) {
      FieldsAreValues(b);
      var fs := ObjectFields(b).value;
      var i :| 0 <= i < |es| && es[i] == e;
      assert Places(es, 1)[i] in Index(fs);
      var j :| 0 <= j < |fs| && fs[j] == Places(es, 1)[i];
    }
  }

  // ----- changing entries

  lemma {:induction false} LastValueAppend(es: seq<Entry>, e: Entry, name: Text)
    ensures LastValue(es + [e], name) == if e.name == name then Some(e.value) else LastValue(es, name)
  {
    if es == [] {
      assert es + [e] == [e] && [e][1..] == [];
    } else {
      assert (es + [e])[1..] == es[1..] + [e];
      LastValueAppend(es[1..], e, name);
    }
  }

  /** Keeps, drops or replaces entries one by one. */
  function Changed(es: seq<Entry>, dropped: Option<Text>, field: Text, value: Text): (r: seq<Entry>)
    ensures forall e | e in r :: exists o :: o in es && o.name == e.name
    ensures forall e | e in r :: e == Entry(field, value) || e in es
  {
    if es == [] then []
    else
      var n := |es| - 1;
      var init := Changed(es[..n], dropped, field, value);
      assert forall o :: o in es[..n] ==> o in es;
      assert es[n] in es;
      if dropped == Some(es[n].name) then init
      else if es[n].name == field then init + [Entry(field, value)]
      else init + [es[n]]
  }

  lemma {:induction false} ChangedLast(es: seq<Entry>, dropped: Option<Text>, field: Text, value: Text, name: Text)
    ensures LastValue(Changed(es, dropped, field, value), name)
            == if dropped == Some(name) then None
               else if name == field && LastValue(es, field).Some? then Some(value)
               else LastValue(es, name)
  {
    hide LastValue;
    if es == [] {
      EmptyLast(name);
    } else {
      var n := |es| - 1;
      assert es == es[..n] + [es[n]];
      var init := Changed(es[..n], dropped, field, value);
      ChangedLast(es[..n], dropped, field, value, name);
      LastValueAppend(es[..n], es[n], name);
      LastValueAppend(es[..n], es[n], field);
      LastValueAppend(init, Entry(field, value), name);
      LastValueAppend(init, es[n], name);
    }
  }

  lemma EmptyLast(name: Text)
    ensures LastValue([], name) == None
  {
  }

  lemma AscendsAppend(es: seq<Entry>, e: Entry)
    requires AscendingNames(es)
    requires forall o | o in es :: KeyLess(Key(0, o.name), Key(0, e.name))
    ensures AscendingNames(es + [e])
  {
    hide KeyLess;
    forall i, j | 0 <= i < j < |es + [e]|
      ensures KeyLess(Key(0, (es + [e])[i].name), Key(0, (es + [e])[j].name))
    {
      assert es[i] in es;
    }
  }

  lemma {:induction false} ChangedAscends(es: seq<Entry>, dropped: Option<Text>, field: Text, value: Text)
    requires AscendingNames(es)
    ensures AscendingNames(Changed(es, dropped, field, value))
  {
    hide KeyLess;
    if es != [] {
      var n := |es| - 1;
      ChangedAscends(es[..n], dropped, field, value);
      var init := Changed(es[..n], dropped, field, value);
      forall e | e in init
        ensures KeyLess(Key(0, e.name), Key(0, es[n].name))
      {
        var o :| o in es[..n] && o.name == e.name;
        var j :| 0 <= j < n && es[j] == o;
      }
      AscendsAppend(init, es[n]);
      AscendsAppend(init, Entry(es[n].name, value));
    }
  }

  /** A change of an indexed body, built again, says what the change says. */
  lemma ChangedBody(b: Text, dropped: Option<Text>, field: Text, value: Text)
    requires ObjectFields(b).Some?
    requires IsValue(value)
    ensures var es := Changed(EntriesOf(b, Index(ObjectFields(b).value)), dropped, field, value);
            && ObjectFields(Built(es)) == Some(Places(es, 1))
            && Index(Places(es, 1)) == Places(es, 1) && DistinctKeys(Places(es, 1), ByName())
            && forall name :: Lookup(Built(es), name)
                 == if dropped == Some(name) then None
                    else if name == field && Lookup(b, field).Some? then Some(value)
                    else Lookup(b, name)
  {
    hide ObjectFields, Index, IsValue, LastValue, Joined;
    var fs := ObjectFields(b).value;
    var kept := EntriesOf(b, Index(fs));
    var es := Changed(kept, dropped, field, value);
    IndexIsLastWins(fs);
    assert AscendingNames(kept) by {
      forall i, j | 0 <= i < j < |kept|
        ensures KeyLess(Key(0, kept[i].name), Key(0, kept[j].name))
      {
        assert KeyLess(ByName()(Index(fs)[i]), ByName()(Index(fs)[j]));
      }
    }
    ChangedAscends(kept, dropped, field, value);
    IndexedValues(b);
    BuiltBody(es);
    forall name
      ensures Lookup(Built(es), name)
              == if dropped == Some(name) then None
                 else if name == field && Lookup(b, field).Some? then Some(value)
                 else Lookup(b, name)
    {
      ChangedLast(kept, dropped, field, value, name);
      IndexedLookup(b, fs, name);
      IndexedLookup(b, fs, field);
    }
  }

  // ----- writing entries

  /** One more entry behind those already written. */
  lemma WroteOneMore(es: seq<Entry>, e: Entry)
    ensures var before, after := [LBRACE] + Joined(es), [LBRACE] + Joined(es + [e]);
            && before + (if es == [] then [] else [COMMA]) + Written(e) == after
            && Places(es + [e], 1) == Places(es, 1) + [Field(e.name, |after| - |e.value|, |after|)]
  {
    hide Written, Joined, Quote, Spots;
    EmptyJoined(es);
    TailAppend(es, e);
    SpotsAppend(es, e, 1);
    assert [LBRACE] + Joined(es) + (if es == [] then [] else [COMMA]) + Written(e) == [LBRACE] + Joined(es + [e]);
    assert Places(es + [e], 1) == Places(es, 1) + [Field(e.name, |[LBRACE] + Joined(es + [e])| - |e.value|, |[LBRACE] + Joined(es + [e])|)];
  }

  /** `write_field_prefix` and the value behind it: one more entry. */
  method WriteField(encoded: Text, first: bool, name: Text, value: Text, ghost es: seq<Entry>)
    returns (out: Text, start: nat)
    requires encoded == [LBRACE] + Joined(es) && first == (es == [])
    ensures out == [LBRACE] + Joined(es + [Entry(name, value)])
    ensures Places(es + [Entry(name, value)], 1) == Places(es, 1) + [Field(name, start, |out|)]
  {
    hide Quote, Joined, Places;
    out := if first then encoded else encoded + [COMMA];
    out := out + Quote(name) + [COLON];
    start := |out|;
    out := out + value;
    assert out == encoded + (if first then [] else [COMMA]) + (Quote(name) + [COLON] + value);
    WroteOneMore(es, Entry(name, value));
  }

  lemma EmptyWritten()
    ensures [LBRACE] + Joined([]) == [LBRACE] && WrittenSoFar([LBRACE], [], [])
  {
  }

  /** The entries are written and their places noted. */
  ghost predicate WrittenSoFar(encoded: Text, places: seq<Field>, es: seq<Entry>) {
    encoded == [LBRACE] + Joined(es) && places == Places(es, 1)
  }

  method WriteEntry(encoded: Text, places: seq<Field>, first: bool, name: Text, value: Text, ghost es: seq<Entry>)
    returns (out: Text, noted: seq<Field>)
    requires WrittenSoFar(encoded, places, es) && first == (es == [])
    ensures WrittenSoFar(out, noted, es + [Entry(name, value)])
  {
    hide Joined, Places;
    var start;
    out, start := WriteField(encoded, first, name, value, es);
    noted := places + [Field(name, start, |out|)];
  }

  // ----- the payload

  datatype ParseError = InvalidJson | NotAnObject

  predicate IsAsciiWhitespace(c: byte) {
    c == 32 || c == 9 || c == 10 || c == 12 || c == 13
  }

  function FirstVisible(b: Text): Option<byte> {
    if b == [] then None else if IsAsciiWhitespace(b[0]) then FirstVisible(b[1..]) else Some(b[0])
  }

  predicate IsJson(b: Text) {
    var v := Value(b, Skip(b, 0));
    v.Some? && Skip(b, v.value) == |b|
  }

  datatype EncodeError = ModelNotAString

  /** What forwarding means: unique keys, the model replaced, `stream` dropped
      when it is not allowed, and every other field's bytes as they were. */
  ghost predicate Forwards(b: Text, allowsStream: bool, upstream: Text, out: Text) {
    && ObjectFields(out).Some? && DistinctKeys(ObjectFields(out).value, ByName())
    && (forall name | name != MODEL ::
          Lookup(out, name) == if name == STREAM && !allowsStream then None else Lookup(b, name))
    && Lookup(out, MODEL).Some? == Lookup(b, MODEL).Some?
    && (Lookup(b, MODEL).Some? ==> StringValue(Lookup(out, MODEL).value) == Some(upstream))
  }

  function Dropped(allowsStream: bool): Option<Text> {
    if allowsStream then None else Some(STREAM)
  }

  lemma ForwardedUnchanged(b: Text, allowsStream: bool, upstream: Text)
    requires ObjectFields(b).Some? && |Index(ObjectFields(b).value)| == |ObjectFields(b).value|
    requires Lookup(b, MODEL).Some? && StringValue(Lookup(b, MODEL).value) == Some(upstream)
    requires allowsStream || Lookup(b, STREAM).None?
    ensures Forwards(b, allowsStream, upstream, b)
  {
    hide ObjectFields, Index, Lookup, StringValue;
    IndexIsLastWins(ObjectFields(b).value);
  }

  lemma ForwardedChanged(b: Text, allowsStream: bool, upstream: Text)
    requires ObjectFields(b).Some?
    ensures Forwards(b, allowsStream, upstream,
                     Built(Changed(EntriesOf(b, Index(ObjectFields(b).value)), Dropped(allowsStream), MODEL, Quote(upstream))))
  {
    hide ObjectFields, Index, Lookup, StringValue, Built, Changed, Quote, DistinctKeys, EntriesOf, InBody, Places, IsValue;
    QuoteIsValue(upstream);
    ChangedBody(b, Dropped(allowsStream), MODEL, Quote(upstream));
    assert Dropped(allowsStream) != Some(MODEL);
  }

  /** The loop that writes the fields to forward, in index order. */
  method WriteForwarded(body: Text, fields: seq<Field>, allowsStream: bool, upstream: Text) returns (out: Text)
    requires InBody(body, fields)
    ensures out == Built(Changed(EntriesOf(body, fields), Dropped(allowsStream), MODEL, Quote(upstream)))
  {
    hide Joined, Changed, EntriesOf, Places, Quote;
    ghost var kept := EntriesOf(body, fields);
    ghost var es: seq<Entry> := [];
    out := [LBRACE];
    var first := true;
    EmptyWritten();
    NothingChanged(Dropped(allowsStream), MODEL, Quote(upstream));
    for k := 0 to |fields|
      invariant es == Changed(kept[..k], Dropped(allowsStream), MODEL, Quote(upstream))
      invariant out == [LBRACE] + Joined(es) && first == (es == [])
    {
      var f := fields[k];
      ChangedStep(kept, k, Dropped(allowsStream), MODEL, Quote(upstream));
      EntryAt(body, fields, k);
      if f.name == STREAM && !allowsStream {
        continue;
      }
      var piece := if f.name == MODEL then Quote(upstream) else body[f.lo..f.hi];
      var start;
      out, start := WriteField(out, first, f.name, piece, es);
      first := false;
      es := es + [Entry(f.name, piece)];
    }
    assert kept[..|fields|] == kept;
    out := out + [RBRACE];
  }

  lemma EntryAt(b: Text, fs: seq<Field>, k: nat)
    requires InBody(b, fs) && k < |fs|
    ensures EntriesOf(b, fs)[k] == Entry(fs[k].name, b[fs[k].lo..fs[k].hi])
  {
  }

  class RawJsonPayload {
    var body: Text
    var fields: seq<Field>
    var hasDuplicateFields: bool

    /** The index is the one a fresh parse of the body would give. */
    ghost predicate Valid()
      reads this
    {
      && ObjectFields(body).Some? && IsUtf8(body)
      && fields == Index(ObjectFields(body).value)
      && hasDuplicateFields == (|fields| != |ObjectFields(body).value|)
    }

    constructor (body: Text, fs: seq<Field>)
      requires ObjectFields(body) == Some(fs) && IsUtf8(body)
      ensures Valid() && this.body == body
    {
      this.body, this.fields := body, Index(fs);
      this.hasDuplicateFields := |Index(fs)| != |fs|;
    }

    method GetField(name: Text) returns (r: Option<Text>)
      requires Valid()
      ensures r == Lookup(body, name)
    {
      hide ObjectFields, Index, LastValue;
      var fs := ObjectFields(body).value;
      IndexIsLastWins(fs);
      LastOfEntries(body, fs, name);
      var found := FieldRange(fields, name);
      r := if found.None? then None else Some(body[found.value.lo..found.value.hi]);
    }

    /** The body to forward: the wire bytes themselves when nothing has to
        change, otherwise the indexed fields written again. */
    method Encode(allowsStream: bool, upstream: Text) returns (r: Result<Text, EncodeError>)
      requires Valid()
      ensures r.Err? <==> Lookup(body, MODEL).Some? && StringValue(Lookup(body, MODEL).value).None?
      ensures r.Ok? ==> Forwards(body, allowsStream, upstream, r.value) && (IsUtf8(upstream) ==> IsUtf8(r.value))
      ensures (&& Lookup(body, MODEL).Some? && StringValue(Lookup(body, MODEL).value) == Some(upstream)
               && (allowsStream || Lookup(body, STREAM).None?) && !hasDuplicateFields) ==> r == Ok(body)
    {
      hide ObjectFields, Index, LastValue, Lookup, StringValue, Built, Changed, Forwards, IsUtf8, Quote, IsValue;
      var model := GetField(MODEL);
      if model.Some? && StringValue(model.value).None? {
        return Err(ModelNotAString);
      }
      var stream := GetField(STREAM);
      if model.Some? && StringValue(model.value) == Some(upstream) && (allowsStream || stream.None?) && !hasDuplicateFields {
        ForwardedUnchanged(body, allowsStream, upstream);
        return Ok(body);
      }
      var out := WriteForwarded(body, fields, allowsStream, upstream);
      ForwardedChanged(body, allowsStream, upstream);
      QuoteIsValue(upstream);
      QuoteUtf8(upstream);
      ChangedUtf8(body, Dropped(allowsStream), MODEL, Quote(upstream));
      r := Ok(out);
    }

    /** Replaces one field's raw value by what `rewrite` writes. Every other
        field keeps its bytes, a failure changes nothing, and the payload is
        that of a fresh parse exactly when a value in UTF-8 was written. */
    method RewriteRawField<E>(field: Text, rewrite: Text -> Result<Text, E>) returns (r: Result<(), E>)
      requires Valid()
      modifies this
      ensures r.Err? || old(Lookup(body, field)).None? ==> unchanged(this)
      ensures r.Err? <==> old(Lookup(body, field)).Some? && rewrite(old(Lookup(body, field)).value).Err?
      ensures r.Ok? && old(Lookup(body, field)).Some? ==>
                var written := rewrite(old(Lookup(body, field)).value).value;
                && (Valid() <==> IsValue(written) && IsUtf8(written))
                && (IsValue(written) ==>
                      forall name :: Lookup(body, name) == if name == field then Some(written) else old(Lookup(body, name)))
    {
      hide ObjectFields, Index, IsValue, Last, LastValue, Lookup, Built, Places, Changed, IsUtf8;
      var target := GetField(field);
      if target.None? {
        return Ok(());
      }
      IndexedTarget(body, fields, field, target.value);
      var rebuilt := RebuildRawField(body, fields, field, rewrite, target.value);
      if rebuilt.Err? {
        return Err(rebuilt.error);
      }
      Rewritten(body, fields, field, rewrite(target.value).value);
      RewrittenUtf8(body, fields, field, rewrite(target.value).value);
      body, fields, hasDuplicateFields := rebuilt.value.0, rebuilt.value.1, false;
      r := Ok(());
    }
  }

  /** `field` is indexed, with the value `target` only. */
  ghost predicate HoldsTarget(b: Text, fs: seq<Field>, field: Text, target: Text)
    requires InBody(b, fs)
  {
    && (exists i | 0 <= i < |fs| :: fs[i].name == field)
    && (forall i | 0 <= i < |fs| && fs[i].name == field :: b[fs[i].lo..fs[i].hi] == target)
  }

  lemma TargetAt(b: Text, fs: seq<Field>, field: Text, target: Text, k: nat)
    requires InBody(b, fs) && HoldsTarget(b, fs, field, target) && k < |fs|
    ensures fs[k].lo <= fs[k].hi <= |b|
    ensures fs[k].name == field ==> b[fs[k].lo..fs[k].hi] == target
    ensures EntriesOf(b, fs)[k] == Entry(fs[k].name, b[fs[k].lo..fs[k].hi])
  {
  }

  lemma TargetSomewhere(b: Text, fs: seq<Field>, field: Text, target: Text) returns (at: nat)
    requires InBody(b, fs) && HoldsTarget(b, fs, field, target)
    ensures at < |fs| && fs[at].name == field
  {
    at :| 0 <= at < |fs| && fs[at].name == field;
  }

  /** A field's raw value, rewritten or as it is. */
  function RawValue<E>(raw: Text, target: bool, rewrite: Text -> Result<Text, E>): Result<Text, E> {
    if target then rewrite(raw) else Ok(raw)
  }

  /** Writes the object again in index order, with the value `target` of one
      field rewritten, and notes where each field lands. */
  method RebuildRawField<E>(body: Text, fields: seq<Field>, field: Text, rewrite: Text -> Result<Text, E>, ghost target: Text)
    returns (r: Result<(Text, seq<Field>), E>)
    requires InBody(body, fields) && HoldsTarget(body, fields, field, target)
    ensures rewrite(target).Err? ==> r == Err(rewrite(target).error)
    ensures rewrite(target).Ok? ==>
              var es := Changed(EntriesOf(body, fields), None, field, rewrite(target).value);
              r == Ok((Built(es), Places(es, 1)))
  {
    hide Joined, Written, Places, Changed, HoldsTarget, EntriesOf, InBody, Quote, Built, WrittenSoFar;
    ghost var kept := EntriesOf(body, fields);
    ghost var value := if rewrite(target).Ok? then rewrite(target).value else [];
    ghost var at := TargetSomewhere(body, fields, field, target);
    var encoded: Text, places: seq<Field> := [LBRACE], [];
    ghost var es: seq<Entry> := [];
    EmptyWritten();
    NothingChanged(None, field, value);
    for k := 0 to |fields|
      invariant es == Changed(kept[..k], None, field, value) && |es| == k
      invariant WrittenSoFar(encoded, places, es)
      invariant rewrite(target).Err? ==> k <= at
    {
      TargetAt(body, fields, field, target, k);
      var f := fields[k];
      var piece := RawValue(body[f.lo..f.hi], f.name == field, rewrite);
      if piece.Err? {
        return Err(piece.error);
      }
      ChangedStep(kept, k, None, field, value);
      encoded, places := WriteEntry(encoded, places, k == 0, f.name, piece.value, es);
      es := es + [Entry(f.name, piece.value)];
    }
    assert kept[..|fields|] == kept;
    BuiltFrom(encoded, places, es);
    r := Ok((encoded + [RBRACE], places));
  }

  lemma BuiltFrom(encoded: Text, places: seq<Field>, es: seq<Entry>)
    requires WrittenSoFar(encoded, places, es)
    ensures Built(es) == encoded + [RBRACE] && Places(es, 1) == places
  {
  }

  lemma NothingChanged(dropped: Option<Text>, field: Text, value: Text)
    ensures Changed([], dropped, field, value) == []
  {
  }

  lemma ChangedStep(es: seq<Entry>, k: nat, dropped: Option<Text>, field: Text, value: Text)
    requires k < |es|
    ensures Changed(es[..k + 1], dropped, field, value)
            == Changed(es[..k], dropped, field, value)
               + if dropped == Some(es[k].name) then [] else [Entry(es[k].name, if es[k].name == field then value else es[k].value)]
  {
    assert es[..k + 1][..k] == es[..k];
  }

  /** The index holds the value that a lookup finds, and only that one. */
  lemma IndexedTarget(b: Text, fields: seq<Field>, field: Text, target: Text)
    requires ObjectFields(b).Some? && fields == Index(ObjectFields(b).value) && Lookup(b, field) == Some(target)
    ensures InBody(b, fields) && HoldsTarget(b, fields, field, target)
  {
    hide ObjectFields, Index, LastValue, Last, StrictlyAscending, EntriesOf;
    var fs := ObjectFields(b).value;
    IndexIsLastWins(fs);
    LastOfEntries(b, fs, field);
    var last := Last(fields, field).value;
    forall i | 0 <= i < |fields| && fields[i].name == field
      ensures b[fields[i].lo..fields[i].hi] == target
    {
      OnlyOne(fields, i, Last(fields, field));
    }
    var i :| 0 <= i < |fields| && fields[i] == last;
  }

  /** What `RewriteRawField` promises, for the body it wrote. */
  lemma Rewritten(b: Text, fields: seq<Field>, field: Text, value: Text)
    requires ObjectFields(b).Some? && fields == Index(ObjectFields(b).value) && Lookup(b, field).Some?
    ensures var es := Changed(EntriesOf(b, fields), None, field, value);
            && (IsValue(value) <==> ObjectFields(Built(es)).Some? && Index(ObjectFields(Built(es)).value) == Places(es, 1))
            && (IsValue(value) ==>
                  && ObjectFields(Built(es)) == Some(Places(es, 1))
                  && forall name :: Lookup(Built(es), name) == if name == field then Some(value) else Lookup(b, name))
  {
    hide ObjectFields, Index, IsValue, Joined, Lookup, Built, Places;
    var kept := EntriesOf(b, fields);
    IndexedTarget(b, fields, field, Lookup(b, field).value);
    var i :| 0 <= i < |fields| && fields[i].name == field;
    ChangedKeeps(kept, field, value, i);
    if IsValue(value) {
      ChangedBody(b, None, field, value);
    }
    BuiltValues(Changed(kept, None, field, value), Entry(field, value));
  }

  lemma RewrittenUtf8(b: Text, fields: seq<Field>, field: Text, value: Text)
    requires ObjectFields(b).Some? && fields == Index(ObjectFields(b).value) && Lookup(b, field).Some? && IsUtf8(b)
    ensures IsValue(value) ==> (IsUtf8(Built(Changed(EntriesOf(b, fields), None, field, value))) <==> IsUtf8(value))
  {
    hide ObjectFields, Index, IsValue, Lookup, Built, IsUtf8, Changed;
    IndexedTarget(b, fields, field, Lookup(b, field).value);
    var i :| 0 <= i < |fields| && fields[i].name == field;
    ChangedKeeps(EntriesOf(b, fields), field, value, i);
    if IsValue(value) {
      ChangedUtf8(b, None, field, value);
    }
  }

  /** The replaced value is among the changed entries. */
  lemma {:induction false} ChangedKeeps(es: seq<Entry>, field: Text, value: Text, i: nat)
    requires i < |es| && es[i].name == field
    ensures Entry(field, value) in Changed(es, None, field, value)
  {
    if i < |es| - 1 {
      ChangedKeeps(es[..|es| - 1], field, value, i);
    }
  }

  lemma FirstVisibleOfObject(b: Text, i: nat)
    requires i <= |b| && At(b, Skip(b, i), LBRACE)
    ensures FirstVisible(b[i..]) == Some(LBRACE)
    decreases |b| - i
  {
    if IsSpace(b[i]) {
      FirstVisibleOfObject(b, i + 1);
      assert b[i..][1..] == b[i + 1..];
    }
  }

  /** Accepts exactly the bodies that are one JSON object with readable keys, in
      UTF-8. It is the keys and the raw values that are checked for UTF-8. */
  method Parse(body: Text) returns (r: Result<RawJsonPayload, ParseError>)
    ensures r.Ok? <==> ObjectFields(body).Some? && IsUtf8(body)
    ensures r.Ok? ==> fresh(r.value) && r.value.Valid() && r.value.body == body
    ensures r == Err(NotAnObject) <==> FirstVisible(body) != Some(LBRACE) && IsJson(body)
  {
    hide Named, Value, Object, IsUtf8;
    if At(body, Skip(body, 0), LBRACE) {
      FirstVisibleOfObject(body, 0);
      assert body[0..] == body;
    } else {
      NotWhole(body);
    }
    if FirstVisible(body) != Some(LBRACE) {
      return Err(if IsJson(body) then NotAnObject else InvalidJson);
    }
    var fs := ObjectFields(body);
    if fs.None? {
      return Err(InvalidJson);
    }
    ObjectUtf8(body);
    if exists f | f in fs.value :: !FieldUtf8(body, f) {
      return Err(InvalidJson);
    }
    var payload := new RawJsonPayload(body, fs.value);
    r := Ok(payload);
  }

  lemma NotWhole(b: Text)
    requires !At(b, Skip(b, 0), LBRACE)
    ensures ObjectFields(b).None?
  {
  }

  // ----- the structured encoder

  /** A reading of JSON values: what a raw value means, how a meaning is printed,
      and the meaning of a string. */
  datatype Reading<!V> = Reading(mean: Text -> V, show: V -> Text, str: Text -> V)

  /** Strings mean their content; printing writes a value of the same meaning. */
  ghost predicate Lawful<V(!new)>(j: Reading<V>) {
    && (forall raw | IsValue(raw) && StringValue(raw).Some? :: j.mean(raw) == j.str(StringValue(raw).value))
    && (forall raw | IsValue(raw) :: IsValue(j.show(j.mean(raw))) && j.mean(j.show(j.mean(raw))) == j.mean(raw))
  }

  datatype Pair<V> = Pair(name: Text, value: V)

  /** What a field of a body means. */
  function Meaning<V>(j: Reading<V>, b: Text, name: Text): Option<V> {
    match Lookup(b, name)
    case None => None
    case Some(raw) => Some(j.mean(raw))
  }

  /** The body as an ordered map of meanings. */
  function ObjectOf<V>(j: Reading<V>, es: seq<Entry>): (o: seq<Pair<V>>)
    ensures |o| == |es|
    ensures forall i | 0 <= i < |es| :: o[i] == Pair(es[i].name, j.mean(es[i].value))
  {
    seq(|es|, i requires 0 <= i < |es| => Pair(es[i].name, j.mean(es[i].value)))
  }

  function Shown<V>(j: Reading<V>, pairs: seq<Pair<V>>): (es: seq<Entry>)
    ensures |es| == |pairs|
    ensures forall i | 0 <= i < |es| :: es[i] == Entry(pairs[i].name, j.show(pairs[i].value))
  {
    seq(|pairs|, i requires 0 <= i < |pairs| => Entry(pairs[i].name, j.show(pairs[i].value)))
  }

  /** What the structured encoder writes: like forwarding, but the model is
      added when the object has none. */
  function StructuredEntries<V>(j: Reading<V>, pairs: seq<Pair<V>>, upstream: Text, includeStream: bool): seq<Entry> {
    var es := Changed(Shown(j, pairs), Dropped(includeStream), MODEL, Quote(upstream));
    if LastValue(es, MODEL).Some? then es else es + [Entry(MODEL, Quote(upstream))]
  }

  method EncodeStructured<V>(j: Reading<V>, pairs: seq<Pair<V>>, upstream: Text, includeStream: bool) returns (out: Text)
    ensures out == Built(StructuredEntries(j, pairs, upstream, includeStream))
  {
    hide Joined, Changed, Shown, Places, Quote, LastValue;
    ghost var shown := Shown(j, pairs);
    ghost var es: seq<Entry> := [];
    var addsModel, first := true, true;
    out := [LBRACE];
    EmptyWritten();
    NothingChanged(Dropped(includeStream), MODEL, Quote(upstream));
    EmptyLast(MODEL);
    for k := 0 to |pairs|
      invariant es == Changed(shown[..k], Dropped(includeStream), MODEL, Quote(upstream))
      invariant out == [LBRACE] + Joined(es) && first == (es == [])
      invariant addsModel == LastValue(es, MODEL).None?
    {
      var p := pairs[k];
      ChangedStep(shown, k, Dropped(includeStream), MODEL, Quote(upstream));
      if p.name == STREAM && !includeStream {
        continue;
      }
      var piece := if p.name == MODEL then Quote(upstream) else j.show(p.value);
      LastValueAppend(es, Entry(p.name, piece), MODEL);
      var start;
      out, start := WriteField(out, first, p.name, piece, es);
      addsModel, first := addsModel && p.name != MODEL, false;
      es := es + [Entry(p.name, piece)];
    }
    assert shown[..|pairs|] == shown;
    if addsModel {
      var start;
      out, start := WriteField(out, first, MODEL, Quote(upstream), es);
    }
    out := out + [RBRACE];
  }

  lemma LookupIsValue(b: Text, name: Text)
    ensures Lookup(b, name).Some? ==> IsValue(Lookup(b, name).value)
  {
    hide ObjectFields, IsValue, LastValue;
    if ObjectFields(b).Some? {
      var fs := ObjectFields(b).value;
      FieldsAreValues(b);
      LastOfEntries(b, fs, name);
      var last := Last(fs, name);
      if last.Some? {
        var i :| 0 <= i < |fs| && fs[i] == last.value;
      }
    }
  }

  lemma {:induction false} ShownLast<V>(j: Reading<V>, es: seq<Entry>, name: Text)
    ensures LastValue(Shown(j, ObjectOf(j, es)), name)
            == match LastValue(es, name) case None => None case Some(v) => Some(j.show(j.mean(v)))
  {
    if es != [] {
      ShownLast(j, es[1..], name);
      assert Shown(j, ObjectOf(j, es))[1..] == Shown(j, ObjectOf(j, es[1..]));
    }
  }

  lemma StructuredBody<V(!new)>(j: Reading<V>, b: Text, allowsStream: bool, upstream: Text, name: Text)
    requires Lawful(j) && ObjectFields(b).Some?
    ensures var out := Built(StructuredEntries(j, ObjectOf(j, EntriesOf(b, Index(ObjectFields(b).value))), upstream, allowsStream));
            && ObjectFields(out).Some?
            && Lookup(out, name) == if name == MODEL then Some(Quote(upstream))
                                    else if Dropped(allowsStream) == Some(name) then None
                                    else match Lookup(b, name) case None => None case Some(v) => Some(j.show(j.mean(v)))
  {
    hide ObjectFields, Index, IsValue, LastValue, Changed, Quote, Built;
    var fs := ObjectFields(b).value;
    var kept := EntriesOf(b, Index(fs));
    var shown := Shown(j, ObjectOf(j, kept));
    var es := Changed(shown, Dropped(allowsStream), MODEL, Quote(upstream));
    var all := StructuredEntries(j, ObjectOf(j, kept), upstream, allowsStream);
    IndexedValues(b);
    QuoteIsValue(upstream);
    assert forall e | e in shown :: IsValue(e.value) by {
      forall i | 0 <= i < |shown|
        ensures IsValue(shown[i].value)
      {
        assert kept[i] in kept;
      }
    }
    BuiltBody(all);
    ChangedLast(shown, Dropped(allowsStream), MODEL, Quote(upstream), name);
    ChangedLast(shown, Dropped(allowsStream), MODEL, Quote(upstream), MODEL);
    LastValueAppend(es, Entry(MODEL, Quote(upstream)), name);
    ShownLast(j, kept, name);
    IndexedLookup(b, fs, name);
  }

  /** The raw and the structured encoder write objects of the same meaning if
      and only if the body has a model; without one, only the structured
      encoder adds it. */
  lemma EncodersAgree<V(!new)>(j: Reading<V>, b: Text, allowsStream: bool, upstream: Text, raw: Text)
    requires Lawful(j) && ObjectFields(b).Some? && Forwards(b, allowsStream, upstream, raw)
    ensures var out := Built(StructuredEntries(j, ObjectOf(j, EntriesOf(b, Index(ObjectFields(b).value))), upstream, allowsStream));
            && (forall name | name != MODEL :: Meaning(j, out, name) == Meaning(j, raw, name))
            && Meaning(j, out, MODEL) == Some(j.str(upstream))
            && Meaning(j, raw, MODEL) == if Lookup(b, MODEL).Some? then Some(j.str(upstream)) else None
  {
    hide ObjectFields, Index, IsValue, Lookup, Quote, Built, StructuredEntries, StringValue;
    var out := Built(StructuredEntries(j, ObjectOf(j, EntriesOf(b, Index(ObjectFields(b).value))), upstream, allowsStream));
    forall name | name != MODEL
      ensures Meaning(j, out, name) == Meaning(j, raw, name)
    {
      StructuredBody(j, b, allowsStream, upstream, name);
      LookupIsValue(b, name);
    }
    StructuredBody(j, b, allowsStream, upstream, MODEL);
    QuoteIsValue(upstream);
    LookupIsValue(raw, MODEL);
  }

  // ----- one reading, to show that the laws can be met

  datatype Plain = Str(content: Text) | Other(raw: Text)

  function PlainReading(): Reading<Plain> {
    Reading(
      (raw: Text) => if StringValue(raw).Some? then Str(StringValue(raw).value) else Other(raw),
      (v: Plain) => match v case Str(s) => Quote(s) case Other(raw) => raw,
      (s: Text) => Str(s)
    )
  }

  lemma PlainReadingIsLawful()
    ensures Lawful(PlainReading())
  {
    hide IsValue, StringValue, Quote;
    forall raw | IsValue(raw)
      ensures var j := PlainReading(); IsValue(j.show(j.mean(raw))) && j.mean(j.show(j.mean(raw))) == j.mean(raw)
    {
      if StringValue(raw).Some? {
        QuoteIsValue(StringValue(raw).value);
      }
    }
  }
}
