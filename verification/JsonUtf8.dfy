/** UTF-8 (section 4 of RFC 3629) in JSON text: which parts of an object have to
    be well-formed for the whole to be. */
module JsonUtf8 {
  import opened Basics
  import opened JsonText
  import opened RawJson

  // ----- joining and cutting

  /** Bytes behind a character do not change its length. */
  lemma CharStays(a: Text, b: Text)
    requires a != []
    ensures CharLength(a) > 0 ==> CharLength(a + b) == CharLength(a)
    ensures CharLength(a + b) <= |a| ==> CharLength(a) == CharLength(a + b)
  {
  }

  lemma {:induction false} Utf8Join(a: Text, b: Text)
    requires IsUtf8(a)
    ensures IsUtf8(a + b) <==> IsUtf8(b)
  {
    hide CharLength;
    if a == [] {
      assert a + b == b;
    } else {
      CharStays(a, b);
      var n := CharLength(a);
      assert (a + b)[n..] == a[n..] + b;
      Utf8Join(a[n..], b);
    }
  }

  /** A text can be cut anywhere but before a continuation byte. */
  lemma {:induction false} Utf8Cut(a: Text, b: Text)
    requires !Continues(b, 0)
    ensures IsUtf8(a + b) <==> IsUtf8(a) && IsUtf8(b)
  {
    hide CharLength;
    if a == [] {
      assert a + b == b;
    } else {
      CharEndsBefore(a, b);
      CharStays(a, b);
      var n := CharLength(a);
      if n > 0 {
        assert (a + b)[n..] == a[n..] + b;
        Utf8Cut(a[n..], b);
      }
    }
  }

  lemma CharEndsBefore(a: Text, b: Text)
    requires a != [] && !Continues(b, 0)
    ensures CharLength(a + b) <= |a|
  {
  }

  lemma SliceCut(b: Text, lo: nat, mid: nat, hi: nat)
    requires lo <= mid <= hi <= |b| && (mid < hi ==> b[mid] < 0x80)
    ensures IsUtf8(b[lo..hi]) <==> IsUtf8(b[lo..mid]) && IsUtf8(b[mid..hi])
  {
    assert b[lo..hi] == b[lo..mid] + b[mid..hi];
    Utf8Cut(b[lo..mid], b[mid..hi]);
  }

  ghost predicate AllAscii(b: Text, lo: nat, hi: nat) {
    lo <= hi <= |b| && forall t | lo <= t < hi :: b[t] < 0x80
  }

  lemma {:induction false} AsciiIsUtf8(b: Text, lo: nat, hi: nat)
    requires AllAscii(b, lo, hi)
    ensures IsUtf8(b[lo..hi])
    decreases hi - lo
  {
    if lo < hi {
      AsciiIsUtf8(b, lo + 1, hi);
      assert b[lo..hi][1..] == b[lo + 1..hi];
    }
  }

  lemma {:induction false} SkipIsAscii(b: Text, i: nat)
    requires i <= |b|
    ensures AllAscii(b, i, Skip(b, i))
    decreases |b| - i
  {
    if i < |b| && IsSpace(b[i]) {
      SkipIsAscii(b, i + 1);
    }
  }

  // ----- strings

  lemma CodeIsUtf8(code: nat)
    requires code < 0x110000 && !HighSurrogate(code) && !LowSurrogate(code)
    ensures Utf8(code) != [] && CharLength(Utf8(code)) == |Utf8(code)| && IsUtf8(Utf8(code)) && !Continues(Utf8(code), 0)
  {
    var t := Utf8(code);
    if 0x800 <= code < 0x10000 {
      assert code / 4096 == 0 ==> code / 64 % 64 >= 32;
      assert code / 4096 == 13 ==> code / 64 % 64 < 32;
    } else if code >= 0x10000 {
      assert code / 262144 == 0 ==> code / 4096 % 64 >= 16;
      assert code / 262144 == 4 ==> code / 4096 % 64 < 16;
    }
    assert CharLength(t) == |t|;
    assert t[|t|..] == [];
  }

  /** One escape: what stands for what, and what is left. */
  lemma EscapeParts(s: Text) returns (n: nat, c: Text)
    requires s != [] && s[0] == BACKSLASH && Unescape(s).Some?
    ensures 0 < n <= |s| && AllAscii(s, 0, n) && c != [] && IsUtf8(c) && !Continues(c, 0)
    ensures Unescape(s) == Prefixed(c, Unescape(s[n..]))
  {
    if ShortEscape(s[1]).Some? {
      n, c := 2, [ShortEscape(s[1]).value];
      assert c[1..] == [];
    } else {
      var code := Hex4(s, 2).value;
      HexIsAscii(s, 2);
      if HighSurrogate(code) {
        var low := Hex4(s, 8).value;
        HexIsAscii(s, 8);
        n, c := 12, Utf8(0x10000 + (code - 0xD800) * 1024 + (low - 0xDC00));
        CodeIsUtf8(0x10000 + (code - 0xD800) * 1024 + (low - 0xDC00));
      } else {
        n, c := 6, Utf8(code);
        CodeIsUtf8(code);
      }
    }
  }

  lemma HexIsAscii(s: Text, i: nat)
    requires Hex4(s, i).Some?
    ensures AllAscii(s, i, i + 4)
  {
  }

  /** Continuation bytes come from nowhere but themselves. */
  lemma ContinuesAlike(s: Text, t: Text)
    requires Unescape(s) == Some(t)
    ensures Continues(s, 0) <==> Continues(t, 0)
    ensures Continues(s, 0) ==> s[0] == t[0] && Unescape(s[1..]) == Some(t[1..])
  {
    if s != [] {
      if s[0] == BACKSLASH {
        var n, c := EscapeParts(s);
        assert t[0] == c[0];
      } else {
        var rest := Unescape(s[1..]).value;
        assert t == [s[0]] + rest && t[1..] == rest;
      }
    }
  }

  lemma CharsAlike(s: Text, t: Text)
    requires Unescape(s) == Some(t) && s != [] && s[0] >= 0x80
    ensures t != [] && CharLength(s) == CharLength(t)
    ensures Unescape(s[CharLength(s)..]) == Some(t[CharLength(s)..])
  {
    var rest := Unescape(s[1..]).value;
    assert t == [s[0]] + rest && t[1..] == rest;
    ContinuesAlike(s[1..], t[1..]);
    if Continues(s, 1) {
      assert s[1..][1..] == s[2..] && t[1..][1..] == t[2..];
      ContinuesAlike(s[2..], t[2..]);
      if Continues(s, 2) {
        assert s[2..][1..] == s[3..] && t[2..][1..] == t[3..];
        ContinuesAlike(s[3..], t[3..]);
        if Continues(s, 3) {
          assert s[3..][1..] == s[4..] && t[3..][1..] == t[4..];
        }
      }
    }
  }

  /** A string is UTF-8 as it is written if and only if what it denotes is. */
  lemma {:induction false} UnescapeUtf8(s: Text, t: Text)
    requires Unescape(s) == Some(t)
    ensures IsUtf8(s) <==> IsUtf8(t)
    decreases |s|
  {
    if s == [] {
    } else if s[0] == BACKSLASH {
      var n, c := EscapeParts(s);
      var rest := Unescape(s[n..]).value;
      AsciiIsUtf8(s, 0, n);
      assert s == s[0..n] + s[n..];
      Utf8Join(s[0..n], s[n..]);
      Utf8Join(c, rest);
      UnescapeUtf8(s[n..], rest);
    } else if s[0] < 0x80 {
      var rest := Unescape(s[1..]).value;
      assert t == [s[0]] + rest && t[1..] == rest;
      UnescapeUtf8(s[1..], rest);
    } else {
      CharsAlike(s, t);
      var n := CharLength(s);
      if n > 0 {
        UnescapeUtf8(s[n..], t[n..]);
      }
    }
  }

  lemma QuotedUtf8(inside: Text)
    ensures IsUtf8([QUOTE] + inside + [QUOTE]) <==> IsUtf8(inside)
  {
    assert [QUOTE][1..] == [];
    Utf8Cut([QUOTE] + inside, [QUOTE]);
    Utf8Join([QUOTE], inside);
  }

  lemma StringUtf8(raw: Text)
    requires StringValue(raw).Some?
    ensures IsUtf8(raw) <==> IsUtf8(StringValue(raw).value)
  {
    hide Unescape;
    var inside := raw[1..|raw| - 1];
    StringEdges(raw);
    assert raw == [QUOTE] + inside + [QUOTE];
    QuotedUtf8(inside);
    UnescapeUtf8(inside, StringValue(raw).value);
  }

  lemma StringEdges(raw: Text)
    requires String(raw, 0) == Some(|raw|)
    ensures |raw| >= 2 && raw[0] == QUOTE && raw[|raw| - 1] == QUOTE
  {
  }

  lemma QuoteUtf8(s: Text)
    ensures IsUtf8(Quote(s)) <==> IsUtf8(s)
  {
    hide Quote, StringValue, IsValue, String;
    QuoteIsValue(s);
    StringUtf8(Quote(s));
  }

  // ----- objects

  ghost predicate MemberUtf8(b: Text, m: Member) {
    m.keyLo <= m.keyHi <= |b| && m.lo <= m.hi <= |b| && IsUtf8(b[m.keyLo..m.keyHi]) && IsUtf8(b[m.lo..m.hi])
  }

  lemma ValueIsAscii(b: Text, i: nat)
    requires i <= |b| && Value(b, i).Some?
    ensures b[i] < 0x80
  {
    hide String, Object, Elements, Skip, Literal, Fraction, Exponent;
  }

  lemma StringIsAscii(b: Text, i: nat)
    requires i <= |b| && String(b, i).Some?
    ensures b[i] < 0x80
  {
    hide StringEnd;
  }

  /** Between the parts of a member there is only ASCII. */
  lemma MemberGaps(b: Text, i: nat, m: Member)
    requires i <= |b| && OneMember(b, i) == Some(m)
    ensures m.keyLo == i && b[i] < 0x80 && b[m.lo] < 0x80 && AllAscii(b, m.keyHi, m.lo)
  {
    hide OneMember, Value, Skip, String;
    MemberParts(b, i, m);
    StringIsAscii(b, i);
    var k := Skip(b, m.keyHi);
    SkipIsAscii(b, m.keyHi);
    SkipIsAscii(b, k + 1);
    ValueIsAscii(b, m.lo);
  }

  /** A member up to `end`, with only ASCII behind its value. */
  lemma MemberSlice(b: Text, i: nat, m: Member, end: nat)
    requires i <= |b| && OneMember(b, i) == Some(m) && AllAscii(b, m.hi, end)
    ensures IsUtf8(b[i..end]) <==> MemberUtf8(b, m)
  {
    hide OneMember, IsUtf8;
    MemberGaps(b, i, m);
    SliceCut(b, i, m.keyHi, end);
    SliceCut(b, m.keyHi, m.lo, end);
    AsciiIsUtf8(b, m.keyHi, m.lo);
    SliceCut(b, m.lo, m.hi, end);
    AsciiIsUtf8(b, m.hi, end);
  }

  lemma {:induction false} MembersUtf8(b: Text, i: nat)
    requires i <= |b| && ObjectMembers(b, i).Members?
    ensures IsUtf8(b[i..ObjectMembers(b, i).end]) <==> forall m | m in ObjectMembers(b, i).list :: MemberUtf8(b, m)
    ensures b[i] < 0x80
    decreases |b| - i
  {
    hide OneMember, ObjectMembers, Skip, IsUtf8, MemberUtf8;
    FirstMember(b, i);
    var r := ObjectMembers(b, i);
    var m := OneMember(b, i).value;
    var k := Skip(b, m.hi);
    MembersUnfold(b, i, m, k);
    MemberGaps(b, i, m);
    SkipIsAscii(b, m.hi);
    if At(b, k, COMMA) {
      var next := Skip(b, k + 1);
      var rest := ObjectMembers(b, next);
      SkipIsAscii(b, k + 1);
      MembersUtf8(b, next);
      MemberSlice(b, i, m, next);
      SliceCut(b, i, next, r.end);
      assert r.list == [m] + rest.list;
      assert forall x :: x in r.list <==> x == m || x in rest.list;
    } else {
      MemberSlice(b, i, m, k + 1);
      assert forall x :: x in r.list <==> x == m;
    }
  }

  /** Before and behind the members of the object there is only ASCII. */
  lemma WholeUtf8(b: Text)
    requires WholeObject(b).Members?
    ensures IsUtf8(b) <==> forall m | m in WholeObject(b).list :: MemberUtf8(b, m)
  {
    hide ObjectMembers, Skip, IsUtf8, MemberUtf8;
    var i := Skip(b, 0);
    var first, end := Skip(b, i + 1), WholeObject(b).end;
    SkipIsAscii(b, 0);
    SkipIsAscii(b, i + 1);
    SkipIsAscii(b, end);
    assert b == b[0..|b|];
    if At(b, first, RBRACE) {
      AsciiIsUtf8(b, 0, |b|);
    } else {
      MembersUtf8(b, first);
      SliceCut(b, 0, first, |b|);
      AsciiIsUtf8(b, 0, first);
      SliceCut(b, first, end, |b|);
      AsciiIsUtf8(b, end, |b|);
    }
  }

  /** A field is UTF-8 in its name and in its value. */
  predicate FieldUtf8(b: Text, f: Field) {
    f.lo <= f.hi <= |b| && IsUtf8(f.name) && IsUtf8(b[f.lo..f.hi])
  }

  /** An object is UTF-8 if and only if the names and the raw values of its
      members are, which is what a reader of its members checks. */
  lemma ObjectUtf8(b: Text)
    requires ObjectFields(b).Some?
    ensures IsUtf8(b) <==> forall f | f in ObjectFields(b).value :: FieldUtf8(b, f)
  {
    hide WholeObject, IsUtf8, Named, StringValue;
    var ms, fs := WholeObject(b).list, ObjectFields(b).value;
    WholeUtf8(b);
    assert |fs| == |ms|;
    forall k | 0 <= k < |ms|
      ensures MemberUtf8(b, ms[k]) <==> FieldUtf8(b, fs[k])
    {
      StringUtf8(b[ms[k].keyLo..ms[k].keyHi]);
    }
    if IsUtf8(b) {
      forall f | f in fs
        ensures FieldUtf8(b, f)
      {
        var k :| 0 <= k < |fs| && fs[k] == f;
        assert ms[k] in ms;
      }
    }
    if forall f | f in fs :: FieldUtf8(b, f) {
      forall m | m in ms
        ensures MemberUtf8(b, m)
      {
        var k :| 0 <= k < |ms| && ms[k] == m;
        assert fs[k] in fs;
      }
    }
  }

  /** What is written is UTF-8 if and only if all names and values are. */
  lemma BuiltUtf8(es: seq<Entry>)
    requires forall e | e in es :: IsValue(e.value)
    ensures IsUtf8(Built(es)) <==> forall e | e in es :: IsUtf8(e.name) && IsUtf8(e.value)
  {
    hide ObjectFields, IsUtf8, Joined, Spots, IsValue;
    var b := Built(es);
    BuiltFields(es);
    ObjectUtf8(b);
    var fs := Places(es, 1);
    SpotsHold(es, [LBRACE], [RBRACE]);
    forall k | 0 <= k < |es|
      ensures FieldUtf8(b, fs[k]) <==> IsUtf8(es[k].name) && IsUtf8(es[k].value)
    {
    }
    if forall f | f in fs :: FieldUtf8(b, f) {
      forall e | e in es
        ensures IsUtf8(e.name) && IsUtf8(e.value)
      {
        var k :| 0 <= k < |es| && es[k] == e;
        assert fs[k] in fs;
      }
    }
    if forall e | e in es :: IsUtf8(e.name) && IsUtf8(e.value) {
      forall f | f in fs
        ensures FieldUtf8(b, f)
      {
        var k :| 0 <= k < |fs| && fs[k] == f;
        assert es[k] in es;
      }
    }
  }
}
