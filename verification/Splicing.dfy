/** Replacing parts of a text, and what that does to the JSON object in it. */
module Splicing {
  import opened Basics
  import opened JsonText
  import opened RawJson
  import opened RawPayload
  import opened PayloadBuffers

  // ----- splicing

  datatype Span = Span(lo: nat, hi: nat)

  /** Ascending, disjoint, in bounds and behind `cursor`. */
  ghost predicate Ordered(spans: seq<Span>, cursor: nat, size: nat) {
    if spans == [] then cursor <= size
    else cursor <= spans[0].lo <= spans[0].hi && Ordered(spans[1..], spans[0].hi, size)
  }

  lemma {:induction false} OrderedBounds(spans: seq<Span>, cursor: nat, size: nat)
    requires Ordered(spans, cursor, size)
    ensures cursor <= size && (spans != [] ==> spans[0].hi <= size)
    ensures Removed(spans) <= size - cursor
  {
    if spans != [] {
      OrderedBounds(spans[1..], spans[0].hi, size);
    }
  }

  function Removed(spans: seq<Span>): int {
    if spans == [] then 0 else spans[0].hi - spans[0].lo + Removed(spans[1..])
  }

  /** The rest of the source with every span replaced. */
  function Spliced(source: Text, spans: seq<Span>, replacement: Text, cursor: nat): Text
    requires Ordered(spans, cursor, |source|)
  {
    OrderedBounds(spans, cursor, |source|);
    if spans == [] then source[cursor..]
    else source[cursor..spans[0].lo] + replacement + Spliced(source, spans[1..], replacement, spans[0].hi)
  }

  lemma {:induction false} SplicedLength(source: Text, spans: seq<Span>, replacement: Text, cursor: nat)
    requires Ordered(spans, cursor, |source|)
    ensures |Spliced(source, spans, replacement, cursor)| == |source| - cursor - Removed(spans) + |spans| * |replacement|
  {
    OrderedBounds(spans, cursor, |source|);
    if spans != [] {
      SplicedLength(source, spans[1..], replacement, spans[0].hi);
      assert |spans| * |replacement| == (|spans| - 1) * |replacement| + |replacement|;
    }
  }

  predicate Inside(spans: seq<Span>, i: nat) {
    exists k | 0 <= k < |spans| :: spans[k].lo <= i < spans[k].hi
  }

  /** By how much the bytes at `i` move. */
  function Shift(spans: seq<Span>, i: nat, size: nat): int {
    if spans == [] || i < spans[0].lo then 0
    else size - (spans[0].hi - spans[0].lo) + Shift(spans[1..], i, size)
  }

  /** Every byte outside the spans is kept, in order. */
  lemma {:induction false} SplicedKeeps(source: Text, spans: seq<Span>, replacement: Text, cursor: nat, i: nat)
    requires Ordered(spans, cursor, |source|) && cursor <= i < |source| && !Inside(spans, i)
    ensures var at := i - cursor + Shift(spans, i, |replacement|);
            && 0 <= at < |Spliced(source, spans, replacement, cursor)|
            && Spliced(source, spans, replacement, cursor)[at] == source[i]
  {
    OrderedBounds(spans, cursor, |source|);
    if spans != [] && i >= spans[0].lo {
      assert i >= spans[0].hi;
      forall k | 0 <= k < |spans| - 1
        ensures !(spans[1..][k].lo <= i < spans[1..][k].hi)
      {
        assert spans[1..][k] == spans[k + 1];
      }
      SplicedKeeps(source, spans[1..], replacement, spans[0].hi, i);
    }
  }

  datatype SpliceError = TooLong | NoMemory

  /** Splices through a buffer of exactly the computed size, which is never too
      small. */
  method SpliceRanges(source: Text, spans: seq<Span>, replacement: Text) returns (r: Result<Text, SpliceError>)
    requires |source| <= USIZE_MAX && Ordered(spans, 0, |source|)
    ensures r == Err(TooLong) <==> |Spliced(source, spans, replacement, 0)| > USIZE_MAX
    ensures r.Ok? ==> r.value == Spliced(source, spans, replacement, 0)
  {
    hide Spliced;
    SplicedLength(source, spans, replacement, 0);
    OrderedBounds(spans, 0, |source|);
    var size := |source| - Removed(spans) + |spans| * |replacement|;
    if |spans| * |replacement| > USIZE_MAX || size > USIZE_MAX {
      return Err(TooLong);
    }
    var output := Allocate(Some(size), size);
    if output == null {
      return Err(NoMemory);
    }
    var cursor: nat := 0;
    for k := 0 to |spans|
      invariant output.Valid() && output.maxLen == size
      invariant output.mapped == null || fresh(output.mapped)
      invariant Ordered(spans[k..], cursor, |source|)
      invariant output.Contents() + Spliced(source, spans[k..], replacement, cursor) == Spliced(source, spans, replacement, 0)
    {
      var span := spans[k];
      assert spans[k..][0] == span && spans[k..][1..] == spans[k + 1..];
      OrderedBounds(spans[k..], cursor, |source|);
      SplicedHead(source, spans[k..], replacement, cursor);
      ghost var rest := Spliced(source, spans[k + 1..], replacement, span.hi);
      ghost var had := output.Contents();
      Fits(had, source[cursor..span.lo], replacement, rest);
      var done := output.ExtendFromSlice(source[cursor..span.lo]);
      if done != Done {
        return Err(NoMemory);
      }
      done := output.ExtendFromSlice(replacement);
      if done != Done {
        return Err(NoMemory);
      }
      cursor := span.hi;
    }
    assert spans[|spans|..] == [];
    SplicedTail(source, replacement, cursor);
    var done := output.ExtendFromSlice(source[cursor..]);
    if done != Done {
      return Err(NoMemory);
    }
    var bytes, _ := output.Freeze();
    r := Ok(bytes);
  }

  lemma SplicedHead(source: Text, spans: seq<Span>, replacement: Text, cursor: nat)
    requires spans != [] && Ordered(spans, cursor, |source|)
    ensures spans[0].lo <= |source|
    ensures Spliced(source, spans, replacement, cursor)
            == source[cursor..spans[0].lo] + replacement + Spliced(source, spans[1..], replacement, spans[0].hi)
  {
    OrderedBounds(spans, cursor, |source|);
  }

  lemma SplicedTail(source: Text, replacement: Text, cursor: nat)
    requires cursor <= |source|
    ensures Spliced(source, [], replacement, cursor) == source[cursor..]
  {
  }

  lemma Fits(had: Text, piece: Text, replacement: Text, rest: Text)
    ensures had + (piece + replacement + rest) == had + piece + replacement + rest
  {
  }

  // ----- replacing one value of an object

  lemma {:induction false} SkipUpTo(a: Text, b: Text, i: nat)
    requires i <= |a| && Same(a, b, i, Skip(a, i), 0)
    requires Skip(a, i) < |b| ==> !IsSpace(b[Skip(a, i)])
    ensures Skip(b, i) == Skip(a, i)
    decreases |a| - i
  {
    if i < |a| && IsSpace(a[i]) {
      SkipUpTo(a, b, i + 1);
    }
  }

  lemma {:induction false} SkipToEnd(a: Text, b: Text, i: nat, d: int)
    requires i <= |a| && Skip(a, i) == |a| && |b| == |a| + d && Same(a, b, i, |a|, d)
    ensures Skip(b, i + d) == |b|
    decreases |a| - i
  {
    if i < |a| {
      SkipToEnd(a, b, i + 1, d);
    }
  }

  /** A text with `[lo, hi)` replaced by `v`. */
  function Put(b: Text, lo: nat, hi: nat, v: Text): (r: Text)
    requires lo <= hi <= |b|
    ensures |r| == |b| + |v| - (hi - lo)
  {
    b[..lo] + v + b[hi..]
  }

  lemma PutParts(b: Text, lo: nat, hi: nat, v: Text)
    requires lo <= hi <= |b|
    ensures var r := Put(b, lo, hi, v);
            && Same(b, r, 0, lo, 0)
            && Same(b, r, hi, |b|, |v| - (hi - lo))
            && r[lo..lo + |v|] == v
  {
  }

  lemma SamePart(a: Text, b: Text, lo: nat, hi: nat, d: int, lo': nat, hi': nat)
    requires Same(a, b, lo, hi, d) && lo <= lo' <= hi' <= hi
    ensures Same(a, b, lo', hi', d)
  {
  }

  lemma SameAt(a: Text, b: Text, lo: nat, hi: nat, d: int, t: nat)
    requires Same(a, b, lo, hi, d) && lo <= t < hi
    ensures 0 <= t + d < |b| && a[t] == b[t + d]
  {
  }

  /** `ms` starts with a member whose value can grow by `d`, the rest moving along. */
  ghost predicate CanGrow(ms: seq<Member>, k: nat, d: int) {
    && k < |ms| && 0 <= ms[k].hi + d
    && forall t | k < t < |ms| :: ms[k].hi < ms[t].keyLo <= ms[t].keyHi <= ms[t].lo <= ms[t].hi
  }

  /** The members after the value of member `k` changed its length by `d`. */
  function Moved(ms: seq<Member>, k: nat, d: int): (r: seq<Member>)
    requires CanGrow(ms, k, d)
    ensures |r| == |ms|
  {
    if k == 0 then [ms[0].(hi := ms[0].hi + d)] + AllShifted(ms[1..], d)
    else
      assert forall t | 1 <= t < |ms| :: ms[1..][t - 1] == ms[t];
      [ms[0]] + Moved(ms[1..], k - 1, d)
  }

  lemma {:induction false} MovedAt(ms: seq<Member>, k: nat, d: int, t: nat)
    requires CanGrow(ms, k, d) && t < |ms|
    ensures Moved(ms, k, d)[t] == if t < k then ms[t] else if t == k then ms[k].(hi := ms[k].hi + d) else Shifted(ms[t], d)
  {
    if k == 0 {
      MovedAtZero(ms, d, t);
    } else {
      MovedTail(ms, k, d);
      if t > 0 {
        MovedAt(ms[1..], k - 1, d, t - 1);
      }
    }
  }

  lemma MovedAtZero(ms: seq<Member>, d: int, t: nat)
    requires CanGrow(ms, 0, d) && t < |ms|
    ensures Moved(ms, 0, d)[t] == if t == 0 then ms[0].(hi := ms[0].hi + d) else Shifted(ms[t], d)
  {
    if t > 0 {
      assert ms[1..][t - 1] == ms[t];
    }
  }

  lemma MovedTail(ms: seq<Member>, k: nat, d: int)
    requires CanGrow(ms, k, d) && k > 0
    ensures CanGrow(ms[1..], k - 1, d) && Moved(ms, k, d) == [ms[0]] + Moved(ms[1..], k - 1, d)
  {
  }

  lemma WithinAt(ms: seq<Member>, lo: nat, hi: nat, k: nat)
    requires Within(ms, lo, hi) && k < |ms|
    ensures lo <= ms[k].keyLo < ms[k].keyHi < ms[k].lo < ms[k].hi < hi
  {
  }

  lemma NoneWithin(lo: nat, hi: nat)
    ensures Within([], lo, hi)
  {
  }

  lemma FirstGrows(m: Member, rest: seq<Member>, from: nat, end: nat, d: int)
    requires Within(rest, from, end) && m.hi < from && 0 <= m.hi + d
    ensures CanGrow([m] + rest, 0, d)
    ensures Moved([m] + rest, 0, d) == [m.(hi := m.hi + d)] + AllShifted(rest, d)
  {
    hide AllShifted, Moved;
    FirstMoved([m] + rest, d);
    assert ([m] + rest)[1..] == rest;
  }

  lemma FirstMoved(ms: seq<Member>, d: int)
    requires CanGrow(ms, 0, d) && forall t | 0 <= t < |ms[1..]| :: Movable(ms[1..][t], d)
    ensures Moved(ms, 0, d) == [ms[0].(hi := ms[0].hi + d)] + AllShifted(ms[1..], d)
  {
    hide AllShifted, CanGrow;
  }

  lemma LaterGrows(first: Member, rest: seq<Member>, k: nat, d: int)
    requires 0 < k && CanGrow(rest, k - 1, d)
    ensures CanGrow([first] + rest, k, d)
    ensures Moved([first] + rest, k, d) == [first] + Moved(rest, k - 1, d)
  {
    assert ([first] + rest)[1..] == rest;
  }

  lemma DelimitedStops(b: Text, i: nat)
    requires i <= |b| && (At(b, Skip(b, i), COMMA) || At(b, Skip(b, i), RBRACE))
    ensures Stops(b, i)
  {
  }

  /** The changed member itself: its key, colon and new value scan in place. */
  lemma ChangedMember(b: Text, i: nat, end: nat, v: Text)
    requires i <= |b| && OneMember(b, i).Some? && IsValue(v)
    requires var k := Skip(b, OneMember(b, i).value.hi); k < end <= |b| && (b[k] == COMMA || b[k] == RBRACE)
    ensures var m := OneMember(b, i).value;
            var b', d := Put(b, m.lo, m.hi, v), |v| - (m.hi - m.lo);
            && OneMember(b', i) == Some(m.(hi := m.hi + d))
            && Skip(b', m.hi + d) == Skip(b, m.hi) + d
  {
    hide OneMember, Value, String, Put, Same, IsValue, Skip, Stops;
    var m := OneMember(b, i).value;
    MemberParts(b, i, m);
    var b', d := Put(b, m.lo, m.hi, v), |v| - (m.hi - m.lo);
    PutParts(b, m.lo, m.hi, v);
    KeyUnchanged(b, b', i, m.lo);
    ValueBegins(v);
    assert b'[m.lo] == b'[m.lo..m.lo + |v|][0];
    var k := Skip(b, m.keyHi);
    SamePart(b, b', 0, m.lo, 0, k + 1, m.lo);
    SkipUpTo(b, b', k + 1);
    SamePart(b, b', m.hi, |b|, d, m.hi, end);
    SkipMoved(b, b', m.hi, d, end);
    SameAt(b, b', m.hi, |b|, d, Skip(b, m.hi));
    DelimitedStops(b', m.hi + d);
    ValuePutIn(v, b', m.lo);
    MemberFrom(b', m.(hi := m.hi + d), k);
  }

  lemma ValueBegins(v: Text)
    requires IsValue(v)
    ensures v != [] && !IsSpace(v[0])
  {
    hide Value;
    ValueStart(v, 0);
  }

  /** The key and colon of a member whose value starts at `lo`. */
  lemma KeyUnchanged(b: Text, b': Text, i: nat, lo: nat)
    requires i <= |b| && OneMember(b, i).Some? && OneMember(b, i).value.lo == lo && Same(b, b', 0, lo, 0)
    ensures i <= |b'| && String(b', i) == String(b, i)
    ensures Skip(b', String(b, i).value) == Skip(b, String(b, i).value)
    ensures At(b', Skip(b, String(b, i).value), COLON)
  {
    hide Value, String, Same, Skip;
    var keyHi := String(b, i).value;
    SamePart(b, b', 0, lo, 0, i, keyHi);
    StringMoved(b, b', i, 0);
    SamePart(b, b', 0, lo, 0, keyHi, lo);
    SkipMoved(b, b', keyHi, 0, lo);
    SameAt(b, b', 0, lo, 0, Skip(b, keyHi));
  }

  /** Members from their first one and its delimiter. */
  lemma ChangedFirst(b: Text, i: nat, v: Text)
    requires i <= |b| && ObjectMembers(b, i).Members? && IsValue(v)
    requires Within(ObjectMembers(b, i).list, i, ObjectMembers(b, i).end) && ObjectMembers(b, i).list != []
    ensures var ms, m, end := ObjectMembers(b, i).list, ObjectMembers(b, i).list[0], ObjectMembers(b, i).end;
            var d := |v| - (m.hi - m.lo);
            && CanGrow(ms, 0, d)
            && ObjectMembers(Put(b, m.lo, m.hi, v), i) == Members(Moved(ms, 0, d), end + d)
  {
    hide OneMember, Put, Skip, IsValue, ObjectMembers, Same, Moved, CanGrow, Within, AllShifted;
    FirstMember(b, i);
    WithinAt(ObjectMembers(b, i).list, i, ObjectMembers(b, i).end, 0);
    var ms, end := ObjectMembers(b, i).list, ObjectMembers(b, i).end;
    var m := OneMember(b, i).value;
    var comma := Skip(b, m.hi);
    MembersUnfold(b, i, m, comma);
    var d, b' := |v| - (m.hi - m.lo), Put(b, m.lo, m.hi, v);
    PutParts(b, m.lo, m.hi, v);
    ChangedMember(b, i, end, v);
    MembersUnfold(b', i, m.(hi := m.hi + d), comma + d);
    SameAt(b, b', m.hi, |b|, d, comma);
    if At(b, comma, COMMA) {
      RestMoved(b, b', m.hi, comma + 1, d);
      var rest := ObjectMembers(b, Skip(b, comma + 1));
      FirstGrows(m, rest.list, comma + 1, rest.end, d);
    } else {
      NoneWithin(comma + 1, comma + 1);
      FirstGrows(m, [], comma + 1, comma + 1, d);
      assert [m] + [] == [m] && [m.(hi := m.hi + d)] + AllShifted([], d) == [m.(hi := m.hi + d)];
    }
  }

  /** The members behind a comma, moved together. */
  lemma RestMoved(b: Text, b': Text, lo: nat, i: nat, d: int)
    requires lo <= i <= |b| && Same(b, b', lo, |b|, d) && 0 <= i + d <= |b'|
    requires ObjectMembers(b, Skip(b, i)).Members?
    ensures var rest := ObjectMembers(b, Skip(b, i));
            && Within(rest.list, i, rest.end) && (forall t | 0 <= t < |rest.list| :: 0 <= i + d <= rest.list[t].keyLo + d)
            && ObjectMembers(b', Skip(b', i + d)) == Members(AllShifted(rest.list, d), rest.end + d)
  {
    hide Skip, ObjectMembers, Same;
    var next := Skip(b, i);
    var end := ObjectMembers(b, next).end;
    NextMember(b, i);
    MembersWithin(b, next);
    SamePart(b, b', lo, |b|, d, i, end);
    SkipMoved(b, b', i, d, end);
    SamePart(b, b', lo, |b|, d, next, end);
    MembersMoved(b, b', next, d);
  }

  /** Replacing the value of member `k` by another value leaves every other
      member alone, apart from moving those behind it. */
  lemma {:induction false} ChangedMembers(b: Text, i: nat, k: nat, v: Text)
    requires i <= |b| && ObjectMembers(b, i).Members? && k < |ObjectMembers(b, i).list| && IsValue(v)
    requires Within(ObjectMembers(b, i).list, i, ObjectMembers(b, i).end)
    ensures var ms, m, end := ObjectMembers(b, i).list, ObjectMembers(b, i).list[k], ObjectMembers(b, i).end;
            var d := |v| - (m.hi - m.lo);
            && CanGrow(ms, k, d)
            && ObjectMembers(Put(b, m.lo, m.hi, v), i) == Members(Moved(ms, k, d), end + d)
    decreases k
  {
    hide OneMember, Put, Skip, IsValue, ObjectMembers, Same, Moved, CanGrow, Within;
    WithinAt(ObjectMembers(b, i).list, i, ObjectMembers(b, i).end, k);
    if k == 0 {
      ChangedFirst(b, i, v);
    } else {
      FirstMember(b, i);
      var ms := ObjectMembers(b, i).list;
      var first, m := OneMember(b, i).value, ms[k];
      var d, b' := |v| - (m.hi - m.lo), Put(b, m.lo, m.hi, v);
      var comma := Skip(b, first.hi);
      MembersUnfold(b, i, first, comma);
      var next := Skip(b, comma + 1);
      MembersWithin(b, next);
      assert ms[1..] == ObjectMembers(b, next).list && m == ms[1..][k - 1];
      WithinAt(ms[1..], next, ObjectMembers(b, next).end, k - 1);
      ChangedMembers(b, next, k - 1, v);
      PutParts(b, m.lo, m.hi, v);
      PrefixUnchanged(b, b', i, first, m.lo);
      MembersUnfold(b', i, first, comma);
      LaterGrows(first, ms[1..], k, d);
      assert ms == [first] + ms[1..];
    }
  }

  /** A member, its comma and the way to the next member, all before `lo`. */
  lemma PrefixUnchanged(b: Text, b': Text, i: nat, m: Member, lo: nat)
    requires i <= |b| && OneMember(b, i) == Some(m) && At(b, Skip(b, m.hi), COMMA)
    requires Skip(b, Skip(b, m.hi) + 1) < lo && Same(b, b', 0, lo, 0)
    ensures i <= |b'| && OneMember(b', i) == Some(m) && m.hi <= |b'| && Skip(b', m.hi) == Skip(b, m.hi)
    ensures At(b', Skip(b, m.hi), COMMA) && Skip(b', Skip(b, m.hi) + 1) == Skip(b, Skip(b, m.hi) + 1)
  {
    hide OneMember, Skip, Same;
    var comma := Skip(b, m.hi);
    SamePart(b, b', 0, lo, 0, i, lo);
    OneMemberMoved(b, b', i, 0, lo);
    SamePart(b, b', 0, lo, 0, comma + 1, lo);
    SkipMoved(b, b', comma + 1, 0, lo);
    SameAt(b, b', 0, lo, 0, comma);
  }

  lemma NextMember(b: Text, i: nat)
    requires i <= |b| && ObjectMembers(b, Skip(b, i)).Members?
    ensures Skip(b, i) < ObjectMembers(b, Skip(b, i)).end
  {
  }

  lemma WholeParts(b: Text)
    requires WholeObject(b).Members? && WholeObject(b).list != []
    ensures var i := Skip(b, 0);
            && At(b, i, LBRACE) && !At(b, Skip(b, i + 1), RBRACE)
            && ObjectMembers(b, Skip(b, i + 1)) == WholeObject(b) && Skip(b, WholeObject(b).end) == |b|
  {
    hide ObjectMembers, Skip, Within;
  }

  lemma WholeFrom(b: Text, i: nat, first: nat)
    requires Skip(b, 0) == i && At(b, i, LBRACE) && Skip(b, i + 1) == first && !At(b, first, RBRACE)
    requires ObjectMembers(b, first).Members? && Skip(b, ObjectMembers(b, first).end) == |b|
    ensures WholeObject(b) == ObjectMembers(b, first)
  {
    hide ObjectMembers, Skip, Within;
  }

  lemma ChangedObject(b: Text, k: nat, v: Text)
    requires WholeObject(b).Members? && k < |WholeObject(b).list| && IsValue(v)
    ensures var ms, m := WholeObject(b).list, WholeObject(b).list[k];
            var d := |v| - (m.hi - m.lo);
            var r := WholeObject(Put(b, m.lo, m.hi, v));
            CanGrow(ms, k, d) && r.Members? && r.list == Moved(ms, k, d)
  {
    hide WholeObject, ObjectMembers, Put, IsValue, Same, Skip, Within, CanGrow, Moved;
    WholeParts(b);
    var i := Skip(b, 0);
    var first := Skip(b, i + 1);
    var m, end := WholeObject(b).list[k], WholeObject(b).end;
    MembersWithin(b, first);
    WithinAt(WholeObject(b).list, first, end, k);
    var d, b' := |v| - (m.hi - m.lo), Put(b, m.lo, m.hi, v);
    PutParts(b, m.lo, m.hi, v);
    ChangedMembers(b, first, k, v);
    SamePart(b, b', 0, m.lo, 0, i + 1, m.lo);
    SkipMoved(b, b', 0, 0, m.lo);
    SkipMoved(b, b', i + 1, 0, m.lo);
    SameAt(b, b', 0, m.lo, 0, i);
    SameAt(b, b', 0, m.lo, 0, first);
    SamePart(b, b', m.hi, |b|, d, end, |b|);
    SkipToEnd(b, b', end, d);
    WholeFrom(b', i, first);
  }

  lemma SameSlice(a: Text, b: Text, lo: nat, hi: nat, d: int, lo': nat, hi': nat)
    requires Same(a, b, lo, hi, d) && lo <= lo' <= hi' <= hi
    ensures 0 <= lo' + d && hi' + d <= |b| && a[lo'..hi'] == b[lo' + d..hi' + d]
  {
  }

  /** Keys and other values keep their bytes. */
  lemma ChangedSlices(b: Text, ms: seq<Member>, k: nat, v: Text, t: nat)
    requires Within(ms, 0, |b|) && k < |ms| && t < |ms|
    requires forall i, j | 0 <= i < j < |ms| :: ms[i].hi < ms[j].keyLo
    requires CanGrow(ms, k, |v| - (ms[k].hi - ms[k].lo))
    ensures var d := |v| - (ms[k].hi - ms[k].lo);
            var b', m' := Put(b, ms[k].lo, ms[k].hi, v), Moved(ms, k, d)[t];
            && m'.keyLo <= m'.keyHi <= |b'| && m'.lo <= m'.hi <= |b'|
            && b'[m'.keyLo..m'.keyHi] == b[ms[t].keyLo..ms[t].keyHi]
            && b'[m'.lo..m'.hi] == if t == k then v else b[ms[t].lo..ms[t].hi]
  {
    hide Put, Same, Moved, CanGrow, Within;
    var m, n, d := ms[k], ms[t], |v| - (ms[k].hi - ms[k].lo);
    WithinAt(ms, 0, |b|, k);
    WithinAt(ms, 0, |b|, t);
    MovedAt(ms, k, d, t);
    if t == k {
      OwnSlices(b, m, v);
    } else {
      assert if t < k then n.hi < m.keyLo else m.hi < n.keyLo;
      SlicesAround(b, m.lo, m.hi, v, n);
    }
  }

  lemma OwnSlices(b: Text, m: Member, v: Text)
    requires m.keyLo <= m.keyHi <= m.lo <= m.hi <= |b|
    ensures var r := Put(b, m.lo, m.hi, v);
            m.lo + |v| <= |r| && r[m.keyLo..m.keyHi] == b[m.keyLo..m.keyHi] && r[m.lo..m.lo + |v|] == v
  {
    hide Put, Same;
    PutParts(b, m.lo, m.hi, v);
    SameSlice(b, Put(b, m.lo, m.hi, v), 0, m.lo, 0, m.keyLo, m.keyHi);
  }

  lemma SlicesAround(b: Text, lo: nat, hi: nat, v: Text, n: Member)
    requires lo <= hi <= |b| && n.keyLo <= n.keyHi <= n.lo <= n.hi <= |b| && (n.hi <= lo || hi <= n.keyLo)
    ensures var r, d := Put(b, lo, hi, v), if n.hi <= lo then 0 else |v| - (hi - lo);
            && 0 <= n.keyLo + d && n.hi + d <= |r|
            && r[n.keyLo + d..n.keyHi + d] == b[n.keyLo..n.keyHi] && r[n.lo + d..n.hi + d] == b[n.lo..n.hi]
  {
    hide Put;
    SliceAround(b, lo, hi, v, n.keyLo, n.keyHi, n.hi <= lo);
    SliceAround(b, lo, hi, v, n.lo, n.hi, n.hi <= lo);
  }

  lemma SliceAround(b: Text, lo: nat, hi: nat, v: Text, from: nat, to: nat, before: bool)
    requires lo <= hi <= |b| && from <= to <= |b| && if before then to <= lo else hi <= from
    ensures var r, d := Put(b, lo, hi, v), if before then 0 else |v| - (hi - lo);
            0 <= from + d && to + d <= |r| && r[from + d..to + d] == b[from..to]
  {
    hide Put, Same;
    PutParts(b, lo, hi, v);
    if before {
      SameSlice(b, Put(b, lo, hi, v), 0, lo, 0, from, to);
    } else {
      SameSlice(b, Put(b, lo, hi, v), hi, |b|, |v| - (hi - lo), from, to);
    }
  }

  lemma {:induction false} MembersInOrder(b: Text, i: nat)
    requires i <= |b| && ObjectMembers(b, i).Members?
    ensures forall s, t | 0 <= s < t < |ObjectMembers(b, i).list| :: ObjectMembers(b, i).list[s].hi < ObjectMembers(b, i).list[t].keyLo
    decreases |b| - i
  {
    hide OneMember, Skip;
    FirstMember(b, i);
    var m := OneMember(b, i).value;
    var k := Skip(b, m.hi);
    if At(b, k, COMMA) {
      var next := Skip(b, k + 1);
      MembersInOrder(b, next);
      MembersWithin(b, next);
    }
  }

  /** Replacing one field's value by a value changes that entry and no other. */
  lemma ChangedEntries(b: Text, k: nat, v: Text)
    requires ObjectFields(b).Some? && k < |ObjectFields(b).value| && IsValue(v)
    ensures var f := ObjectFields(b).value[k];
            var b' := Put(b, f.lo, f.hi, v);
            && ObjectFields(b').Some?
            && BodyEntries(b') == BodyEntries(b)[k := Entry(f.name, v)]
  {
    hide WholeObject, Put, IsValue, Named, StringValue, Moved, CanGrow;
    var ms, fs, f := WholeObject(b).list, ObjectFields(b).value, ObjectFields(b).value[k];
    var d, b' := |v| - (f.hi - f.lo), Put(b, f.lo, f.hi, v);
    ObjectInOrder(b);
    ChangedObject(b, k, v);
    var ms', es := Moved(ms, k, d), BodyEntries(b);
    forall t | 0 <= t < |ms|
      ensures StringValue(b'[ms'[t].keyLo..ms'[t].keyHi]) == Some(es[t].name)
      ensures b'[ms'[t].lo..ms'[t].hi] == if t == k then v else es[t].value
    {
      ChangedSlices(b, ms, k, v, t);
    }
    NamedSpots(b', ms', es);
    assert BodyEntries(b') == es[k := Entry(f.name, v)];
  }

  lemma ObjectInOrder(b: Text)
    requires WholeObject(b).Members?
    ensures forall s, t | 0 <= s < t < |WholeObject(b).list| :: WholeObject(b).list[s].hi < WholeObject(b).list[t].keyLo
  {
    hide ObjectMembers;
    var first := Skip(b, Skip(b, 0) + 1);
    if !At(b, first, RBRACE) {
      MembersInOrder(b, first);
    }
  }
}
