/** Reading the log page by page while the writer goes on and retention removes
    segments. */
module LogSessions {
  import opened Basics
  import opened LogReader

  // ----- what happens between two pages

  /** One interval: the newest segment gets more bytes, newer segments appear, and
      retention removes some of those that were there. */
  datatype Growth = Growth(newest: Segment, older: seq<Segment>, tail: Text, modified: int, added: seq<Segment>, removed: set<Text>) {
    function Grown(): Segment {
      Segment(newest.name, modified, newest.bytes + tail)
    }
  }

  /** The first line is complete, or as long as it is ever read, and carries a
      timestamp. */
  predicate Settled<Entry>(cfg: Config<Entry>, seg: Segment) {
    cfg.timestamp(FirstLine(cfg, seg.bytes)).Some? && (|seg.bytes| >= cfg.window || NEWLINE in seg.bytes)
  }

  /** Appending keeps the key of a settled segment. */
  lemma AppendKeepsKey<Entry>(cfg: Config<Entry>, seg: Segment, tail: Text, modified: int)
    requires cfg.Valid() && Settled(cfg, seg)
    ensures KeyOf(cfg)(Segment(seg.name, modified, seg.bytes + tail)) == KeyOf(cfg)(seg)
  {
    var b := seg.bytes;
    var head, head' := b[..Min(cfg.window, |b|)], (b + tail)[..Min(cfg.window, |b + tail|)];
    assert |b| >= cfg.window ==> head == head';
    assert |b| < cfg.window ==> head == b && head[0..] == b;
    FirstLineEndOfPrefix(head, head', 0);
    var e := FirstLineEnd(head, 0);
    assert head[..e] == head'[..e];
    assert FirstLine(cfg, b) == FirstLine(cfg, seg.(bytes := b + tail).bytes);
    assert Segment(seg.name, modified, b + tail).bytes == b + tail;
  }

  lemma {:induction false} FirstLineEndOfPrefix(b: Text, b': Text, k: nat)
    requires b <= b' && k <= |b|
    requires b == b' || NEWLINE in b[k..]
    ensures FirstLineEnd(b, k) == FirstLineEnd(b', k)
    decreases |b| - k
  {
    if k < |b| && b[k] != NEWLINE {
      assert b != b' ==> b[k..] == [b[k]] + b[k + 1..];
      FirstLineEndOfPrefix(b, b', k + 1);
    }
  }

  lemma SameLine<Entry>(cfg: Config<Entry>, key: Key, b: Text, b': Text, s: nat, e: nat)
    requires s < e <= |b| && b <= b'
    ensures LineRecord(cfg, key, b', s, e) == LineRecord(cfg, key, b, s, e)
  {
    assert b'[s..e] == b[s..e];
  }

  lemma {:induction false} RecordsOfPrefix<Entry>(cfg: Config<Entry>, key: Key, b: Text, b': Text, end: nat)
    requires end <= |b| && b <= b'
    ensures Records(cfg, key, b', end) == Records(cfg, key, b, end)
  {
    hide LineStart, LineRecord;
    if end > 0 {
      var s := LineStart(b, end - 1);
      LineStartUnique(b', end - 1, s);
      RecordsOfPrefix(cfg, key, b, b', s);
      SameLine(cfg, key, b, b', s, end);
    }
  }

  lemma {:induction false} MultisetOfReverse<T>(xs: seq<T>)
    ensures multiset(Reverse(xs)) == multiset(xs)
  {
    if xs != [] {
      MultisetOfReverse(xs[1..]);
      assert Reverse(xs) == Reverse(xs[1..]) + [xs[0]];
      assert xs == [xs[0]] + xs[1..];
    }
  }

  lemma OrderedUnique<Entry>(cfg: Config<Entry>, files: seq<Segment>, segs: seq<Segment>)
    requires ValidFiles(cfg, files) && multiset(files) == multiset(segs) && Descending(cfg, segs)
    ensures Ordered(cfg, files) == segs
  {
    hide StableSort, KeyLess;
    var key := KeyOf(cfg);
    SortStrict(files, key);
    MultisetOfReverse(segs);
    StrictlyAscendingUnique(StableSort(files, key), Reverse(segs), key);
    assert Reverse(Reverse(segs)) == segs;
  }

  lemma PartsAreValid<Entry>(cfg: Config<Entry>, files: seq<Segment>, a: seq<Segment>, b: seq<Segment>)
    requires ValidFiles(cfg, files) && multiset(files) == multiset(a + b)
    ensures ValidFiles(cfg, a) && ValidFiles(cfg, b)
  {
    var name := (seg: Segment) => Key(0, seg.name);
    var both := a + b;
    assert DistinctKeys(files, name);
    DistinctKeysOfPermutation(files, both, name);
    MembersOf(files, both);
    forall i | 0 <= i < |both|
      ensures ValidSegment(cfg, both[i])
    {
      assert both[i] in files;
    }
    assert forall i | 0 <= i < |a| :: a[i] == both[i];
    assert forall i | 0 <= i < |b| :: b[i] == both[|a| + i];
    forall i, j | 0 <= i < j < |both|
      ensures both[i].name != both[j].name
    {
      assert name(both[i]) != name(both[j]);
    }
  }

  lemma OrderedMembers<Entry>(cfg: Config<Entry>, files: seq<Segment>)
    ensures multiset(Ordered(cfg, files)) == multiset(files)
    ensures forall seg :: seg in Ordered(cfg, files) <==> seg in files
  {
    MultisetOfReverse(StableSort(files, KeyOf(cfg)));
    MembersOf(Ordered(cfg, files), files);
  }

  ghost predicate GrownBy<Entry>(cfg: Config<Entry>, files: seq<Segment>, g: Growth, files': seq<Segment>) {
    && ValidFiles(cfg, files) && ValidFiles(cfg, files')
    && multiset(files) == multiset([g.newest] + g.older)
    && multiset(files') == multiset(g.added + Present([g.Grown()] + g.older, g.removed))
    && (Settled(cfg, g.newest) || g.Grown() == g.newest)
    && (forall i | 0 <= i < |g.older| :: KeyLess(KeyOf(cfg)(g.older[i]), KeyOf(cfg)(g.newest)))
    && (forall i | 0 <= i < |g.added| :: KeyLess(KeyOf(cfg)(g.newest), KeyOf(cfg)(g.added[i])))
  }

  // ----- removal and order

  lemma {:induction false} PresentCounts(segs: seq<Segment>, gone: set<Text>, seg: Segment)
    ensures multiset(Present(segs, gone))[seg] == if seg.name in gone then 0 else multiset(segs)[seg]
  {
    if segs != [] {
      PresentCounts(segs[1..], gone, seg);
      assert segs == [segs[0]] + segs[1..];
    }
  }

  lemma PresentPermuted(a: seq<Segment>, b: seq<Segment>, gone: set<Text>)
    requires multiset(a) == multiset(b)
    ensures multiset(Present(a, gone)) == multiset(Present(b, gone))
  {
    forall seg
      ensures multiset(Present(a, gone))[seg] == multiset(Present(b, gone))[seg]
    {
      PresentCounts(a, gone, seg);
      PresentCounts(b, gone, seg);
    }
  }

  lemma {:induction false} PresentTwice(segs: seq<Segment>, some: set<Text>, all: set<Text>)
    requires some <= all
    ensures Present(Present(segs, some), all) == Present(segs, all)
  {
    if segs != [] {
      PresentTwice(segs[1..], some, all);
      if segs[0].name !in some {
        var rest := Present(segs[1..], some);
        assert ([segs[0]] + rest)[1..] == rest;
      } else {
        assert [] + Present(segs[1..], some) == Present(segs[1..], some);
      }
    }
  }

  lemma DescendingJoin<Entry>(cfg: Config<Entry>, above: seq<Segment>, below: seq<Segment>)
    requires Descending(cfg, above) && Descending(cfg, below)
    requires forall a, b | a in above && b in below :: KeyLess(KeyOf(cfg)(b), KeyOf(cfg)(a))
    ensures Descending(cfg, above + below)
  {
    hide KeyLess;
    var all, n := above + below, |above|;
    forall i, j | 0 <= i < j < |all|
      ensures KeyLess(KeyOf(cfg)(all[j]), KeyOf(cfg)(all[i]))
    {
      if i < n <= j {
        assert above[i] in above && below[j - n] in below;
      }
    }
  }

  /** The old listing: the newest segment in front. */
  lemma OrderedWithNewest<Entry>(cfg: Config<Entry>, files: seq<Segment>, newest: Segment, older: seq<Segment>)
    requires ValidFiles(cfg, files) && multiset(files) == multiset([newest] + older)
    requires forall i | 0 <= i < |older| :: KeyLess(KeyOf(cfg)(older[i]), KeyOf(cfg)(newest))
    ensures Ordered(cfg, files) == [newest] + Ordered(cfg, older) && Descending(cfg, [newest] + Ordered(cfg, older))
    ensures ValidFiles(cfg, older)
  {
    hide KeyLess, StableSort, ValidFiles, Ordered, Descending;
    PartsAreValid(cfg, files, [newest], older);
    OrderedMembers(cfg, older);
    OrderedIsDescending(cfg, older);
    OneDescends(cfg, newest);
    forall a, b | a in [newest] && b in Ordered(cfg, older)
      ensures KeyLess(KeyOf(cfg)(b), KeyOf(cfg)(a))
    {
      assert b in older;
    }
    DescendingJoin(cfg, [newest], Ordered(cfg, older));
    OrderedUnique(cfg, files, [newest] + Ordered(cfg, older));
  }

  lemma OneDescends<Entry>(cfg: Config<Entry>, seg: Segment)
    ensures Descending(cfg, [seg])
  {
  }

  /** The new listing: what was added, then what is left. */
  lemma OrderedAfter<Entry>(cfg: Config<Entry>, files: seq<Segment>, g: Growth, files': seq<Segment>)
    requires GrownBy(cfg, files, g, files') && KeyOf(cfg)(g.Grown()) == KeyOf(cfg)(g.newest)
    requires Descending(cfg, [g.newest] + Ordered(cfg, g.older))
    ensures Ordered(cfg, files') == Ordered(cfg, g.added) + Present([g.Grown()] + Ordered(cfg, g.older), g.removed)
    ensures forall seg | seg in Ordered(cfg, g.added) :: KeyLess(KeyOf(cfg)(g.newest), KeyOf(cfg)(seg))
  {
    hide KeyLess, StableSort, ValidFiles, Ordered, KeyOf;
    var left := Present([g.Grown()] + Ordered(cfg, g.older), g.removed);
    LeftAfter(cfg, g);
    PartsAreValid(cfg, files', g.added, Present([g.Grown()] + g.older, g.removed));
    OrderedMembers(cfg, g.added);
    OrderedIsDescending(cfg, g.added);
    forall a, b | a in Ordered(cfg, g.added) && b in left
      ensures KeyLess(KeyOf(cfg)(b), KeyOf(cfg)(a))
    {
      assert a in g.added;
      if KeyOf(cfg)(b) != KeyOf(cfg)(g.newest) {
        KeyTransitive(KeyOf(cfg)(b), KeyOf(cfg)(g.newest), KeyOf(cfg)(a));
      }
    }
    DescendingJoin(cfg, Ordered(cfg, g.added), left);
    OrderedUnique(cfg, files', Ordered(cfg, g.added) + left);
  }

  lemma LeftAfter<Entry>(cfg: Config<Entry>, g: Growth)
    requires KeyOf(cfg)(g.Grown()) == KeyOf(cfg)(g.newest) && Descending(cfg, [g.newest] + Ordered(cfg, g.older))
    ensures var left := Present([g.Grown()] + Ordered(cfg, g.older), g.removed);
            && Descending(cfg, left) && multiset(left) == multiset(Present([g.Grown()] + g.older, g.removed))
            && forall b | b in left :: KeyOf(cfg)(b) == KeyOf(cfg)(g.newest) || KeyLess(KeyOf(cfg)(b), KeyOf(cfg)(g.newest))
  {
    hide KeyLess, StableSort, Ordered, KeyOf;
    var older := Ordered(cfg, g.older);
    var segs, grown := [g.newest] + older, [g.Grown()] + older;
    assert forall i | 0 <= i < |segs| :: KeyOf(cfg)(grown[i]) == KeyOf(cfg)(segs[i]);
    assert Descending(cfg, grown);
    PresentDescends(cfg, grown, g.removed);
    OrderedMembers(cfg, g.older);
    PresentPermuted(grown, [g.Grown()] + g.older, g.removed);
    forall b | b in Present(grown, g.removed)
      ensures KeyOf(cfg)(b) == KeyOf(cfg)(g.newest) || KeyLess(KeyOf(cfg)(b), KeyOf(cfg)(g.newest))
    {
      PresentMembers(grown, g.removed, b);
      var i :| 0 <= i < |grown| && grown[i] == b;
      assert i > 0 ==> KeyLess(KeyOf(cfg)(segs[i]), KeyOf(cfg)(segs[0]));
    }
  }

  lemma GrownSegment<Entry>(cfg: Config<Entry>, g: Growth, c: Cursor)
    requires KeyOf(cfg)(g.Grown()) == KeyOf(cfg)(g.newest)
    requires KeyLess(c.key, KeyOf(cfg)(g.newest)) || (c.key == KeyOf(cfg)(g.newest) && c.offset <= |g.newest.bytes|)
    ensures SegmentRemaining(cfg, g.Grown(), Some(c)) == SegmentRemaining(cfg, g.newest, Some(c))
  {
    hide Records, KeyLess, KeyOf;
    KeyTotal(c.key, KeyOf(cfg)(g.newest));
    if c.key == KeyOf(cfg)(g.newest) {
      RecordsOfPrefix(cfg, c.key, g.newest.bytes, g.newest.bytes + g.tail, c.offset);
    }
  }

  /** The cursor does not reach behind what was there. */
  ghost predicate Inside<Entry>(cfg: Config<Entry>, newest: Segment, c: Cursor) {
    KeyLess(c.key, KeyOf(cfg)(newest)) || (c.key == KeyOf(cfg)(newest) && c.offset <= |newest.bytes|)
  }

  lemma PointsInside<Entry>(cfg: Config<Entry>, segs: seq<Segment>, c: Cursor)
    requires Descending(cfg, segs) && PointsInto(cfg, segs, c)
    ensures segs != [] && Inside(cfg, segs[0], c)
  {
    var at :| 0 <= at < |segs| && KeyOf(cfg)(segs[at]) == c.key && c.offset <= |segs[at].bytes|;
    assert at > 0 ==> KeyLess(KeyOf(cfg)(segs[at]), KeyOf(cfg)(segs[0]));
  }

  /** After an interval, whatever set of segments is taken away: what is behind a
      cursor is what was behind it, of the segments that are left. */
  lemma GrowthKeepsRemaining<Entry>(cfg: Config<Entry>, files: seq<Segment>, g: Growth, files': seq<Segment>, c: Cursor, gone: set<Text>)
    requires cfg.Valid() && GrownBy(cfg, files, g, files') && PointsInto(cfg, Ordered(cfg, files), c)
    ensures Remaining(cfg, Present(Ordered(cfg, files'), gone), Some(c))
            == Remaining(cfg, Present(Ordered(cfg, files), g.removed + gone), Some(c))
  {
    hide KeyLess, StableSort, Ordered, Remaining, KeyOf, ValidFiles, Descending, SegmentRemaining;
    var above, older := Ordered(cfg, g.added), Ordered(cfg, g.older);
    if g.Grown() != g.newest {
      AppendKeepsKey(cfg, g.newest, g.tail, g.modified);
    }
    OrderedWithNewest(cfg, files, g.newest, g.older);
    PointsInside(cfg, [g.newest] + older, c);
    OrderedAfter(cfg, files, g, files');
    var left := Present([g.Grown()] + older, g.removed);
    PresentSplit(above, left, gone);
    AddedAbove(cfg, g, above, c, gone);
    RemainingAbove(cfg, Present(above, gone), Present(left, gone), c);
    PresentAgain([g.Grown()] + older, g.removed, gone);
    GrownPresent(cfg, g, older, c, g.removed + gone);
  }

  lemma PresentAgain(segs: seq<Segment>, a: set<Text>, b: set<Text>)
    ensures Present(Present(segs, a), b) == Present(segs, a + b)
  {
    PresentTwice(segs, a, a + b);
    AlreadyGone(Present(segs, a), a, b);
    forall seg | seg in Present(segs, a)
      ensures seg.name !in a
    {
      NotGone(segs, a, seg);
    }
  }

  lemma {:induction false} NotGone(segs: seq<Segment>, gone: set<Text>, seg: Segment)
    requires seg in Present(segs, gone)
    ensures seg.name !in gone
  {
    if seg !in Present(segs[1..], gone) {
      assert seg == segs[0];
    } else {
      NotGone(segs[1..], gone, seg);
    }
  }

  lemma {:induction false} AlreadyGone(segs: seq<Segment>, a: set<Text>, b: set<Text>)
    ensures (forall seg | seg in segs :: seg.name !in a) ==> Present(segs, a + b) == Present(segs, b)
  {
    if segs != [] {
      AlreadyGone(segs[1..], a, b);
      assert segs[0] in segs && forall seg | seg in segs[1..] :: seg in segs;
    }
  }

  lemma AddedAbove<Entry>(cfg: Config<Entry>, g: Growth, above: seq<Segment>, c: Cursor, gone: set<Text>)
    requires Inside(cfg, g.newest, c) && forall seg | seg in above :: KeyLess(KeyOf(cfg)(g.newest), KeyOf(cfg)(seg))
    ensures forall i | 0 <= i < |Present(above, gone)| :: KeyLess(c.key, KeyOf(cfg)(Present(above, gone)[i]))
  {
    hide KeyLess, KeyOf;
    forall i | 0 <= i < |Present(above, gone)|
      ensures KeyLess(c.key, KeyOf(cfg)(Present(above, gone)[i]))
    {
      var seg := Present(above, gone)[i];
      PresentMembers(above, gone, seg);
      if c.key != KeyOf(cfg)(g.newest) {
        KeyTransitive(c.key, KeyOf(cfg)(g.newest), KeyOf(cfg)(seg));
      }
    }
  }

  lemma GrownPresent<Entry>(cfg: Config<Entry>, g: Growth, older: seq<Segment>, c: Cursor, gone: set<Text>)
    requires KeyOf(cfg)(g.Grown()) == KeyOf(cfg)(g.newest) && Inside(cfg, g.newest, c)
    ensures Remaining(cfg, Present([g.Grown()] + older, gone), Some(c)) == Remaining(cfg, Present([g.newest] + older, gone), Some(c))
  {
    hide KeyLess, KeyOf, SegmentRemaining;
    assert ([g.Grown()] + older)[1..] == older && ([g.newest] + older)[1..] == older;
    GrownSegment(cfg, g, c);
    var rest := Present(older, gone);
    assert ([g.Grown()] + rest)[1..] == rest && ([g.newest] + rest)[1..] == rest;
  }

  // ----- what lies between two cursors

  /** What lies behind one offset of a segment lies behind every later one. */
  lemma {:induction false} RecordsSuffix<Entry>(cfg: Config<Entry>, key: Key, b: Text, end: nat, off: nat)
    requires off <= end <= |b|
    ensures Suffix(Records(cfg, key, b, end), Records(cfg, key, b, off))
    decreases end
  {
    if off < end {
      var s := LineStart(b, end - 1);
      var line := if Fits(cfg, s, end) then LineRecord(cfg, key, b, s, end) else [];
      if off <= s {
        RecordsSuffix(cfg, key, b, s, off);
      } else {
        LineStartUnique(b, off - 1, s);
        assert b[off - 1] != NEWLINE;
        assert Records(cfg, key, b, off) == [] + Records(cfg, key, b, s) == Records(cfg, key, b, s);
      }
      SuffixBehind(line, Records(cfg, key, b, s), Records(cfg, key, b, off));
    }
  }

  ghost predicate Suffix<T>(a: seq<T>, b: seq<T>) {
    |b| <= |a| && a[|a| - |b|..] == b
  }

  lemma SuffixBehind<T>(front: seq<T>, a: seq<T>, b: seq<T>)
    requires Suffix(a, b)
    ensures Suffix(front + a, b)
  {
    assert (front + a)[|front| + |a| - |b|..] == a[|a| - |b|..];
  }

  /** `next` lies behind `cursor`, where no cursor is the very front. */
  predicate BehindOr(next: Cursor, cursor: Option<Cursor>) {
    cursor.Some? ==> Behind(next, cursor.value)
  }

  lemma SegmentSuffix<Entry>(cfg: Config<Entry>, seg: Segment, cursor: Option<Cursor>, next: Cursor)
    requires BehindOr(next, cursor)
    ensures Suffix(SegmentRemaining(cfg, seg, cursor), SegmentRemaining(cfg, seg, Some(next)))
    ensures KeyLess(KeyOf(cfg)(seg), next.key) ==> SegmentRemaining(cfg, seg, cursor) == SegmentRemaining(cfg, seg, Some(next))
    ensures KeyLess(next.key, KeyOf(cfg)(seg)) ==> SegmentRemaining(cfg, seg, Some(next)) == []
  {
    hide Records, KeyLess, KeyOf;
    var key := KeyOf(cfg)(seg);
    KeyTotal(key, next.key);
    if cursor.Some? {
      KeyTotal(key, cursor.value.key);
      KeyTotal(next.key, cursor.value.key);
      if KeyLess(cursor.value.key, key) && KeyLess(next.key, cursor.value.key) {
        KeyTransitive(next.key, cursor.value.key, key);
      }
      if KeyLess(key, next.key) && KeyLess(next.key, cursor.value.key) {
        KeyTransitive(key, next.key, cursor.value.key);
      }
    }
    if !Skipped(cfg, seg, cursor) && !Skipped(cfg, seg, Some(next)) {
      RecordsSuffix(cfg, key, seg.bytes, EndOf(cfg, seg, cursor), EndOf(cfg, seg, Some(next)));
    }
  }

  function SegmentGap<Entry>(cfg: Config<Entry>, seg: Segment, cursor: Option<Cursor>, next: Cursor): seq<Record<Entry>> {
    var a, b := SegmentRemaining(cfg, seg, cursor), SegmentRemaining(cfg, seg, Some(next));
    if |b| <= |a| then a[..|a| - |b|] else []
  }

  /** The records between two cursors. */
  function Gap<Entry>(cfg: Config<Entry>, segs: seq<Segment>, cursor: Option<Cursor>, next: Cursor): seq<Record<Entry>> {
    if segs == [] then [] else SegmentGap(cfg, segs[0], cursor, next) + Gap(cfg, segs[1..], cursor, next)
  }

  lemma SegmentSplit<Entry>(cfg: Config<Entry>, seg: Segment, cursor: Option<Cursor>, next: Cursor)
    requires BehindOr(next, cursor)
    ensures SegmentRemaining(cfg, seg, cursor) == SegmentGap(cfg, seg, cursor, next) + SegmentRemaining(cfg, seg, Some(next))
    ensures KeyLess(KeyOf(cfg)(seg), next.key) ==> SegmentGap(cfg, seg, cursor, next) == []
    ensures KeyLess(next.key, KeyOf(cfg)(seg)) ==> SegmentRemaining(cfg, seg, Some(next)) == []
  {
    hide SegmentRemaining, KeyLess, KeyOf;
    SegmentSuffix(cfg, seg, cursor, next);
  }

  lemma {:induction false} NoGapBelow<Entry>(cfg: Config<Entry>, segs: seq<Segment>, cursor: Option<Cursor>, next: Cursor)
    requires BehindOr(next, cursor) && forall i | 0 <= i < |segs| :: KeyLess(KeyOf(cfg)(segs[i]), next.key)
    ensures Gap(cfg, segs, cursor, next) == [] && Remaining(cfg, segs, cursor) == Remaining(cfg, segs, Some(next))
  {
    hide SegmentRemaining, KeyLess, KeyOf, SegmentGap;
    if segs != [] {
      SegmentSplit(cfg, segs[0], cursor, next);
      NoGapBelow(cfg, segs[1..], cursor, next);
      assert [] + SegmentRemaining(cfg, segs[0], Some(next)) == SegmentRemaining(cfg, segs[0], Some(next));
    }
  }

  lemma {:induction false} RemainingSplit<Entry>(cfg: Config<Entry>, segs: seq<Segment>, cursor: Option<Cursor>, next: Cursor)
    requires Descending(cfg, segs) && BehindOr(next, cursor)
    ensures Remaining(cfg, segs, cursor) == Gap(cfg, segs, cursor, next) + Remaining(cfg, segs, Some(next))
  {
    hide SegmentRemaining, KeyLess, KeyOf, SegmentGap;
    if segs != [] {
      var head, tail := segs[0], segs[1..];
      SegmentSplit(cfg, head, cursor, next);
      KeyTotal(KeyOf(cfg)(head), next.key);
      var g, r := SegmentGap(cfg, head, cursor, next), SegmentRemaining(cfg, head, Some(next));
      if KeyLess(next.key, KeyOf(cfg)(head)) {
        RemainingSplit(cfg, tail, cursor, next);
        assert g + [] == g && [] + Remaining(cfg, tail, Some(next)) == Remaining(cfg, tail, Some(next));
        Assoc(g, Gap(cfg, tail, cursor, next), Remaining(cfg, tail, Some(next)));
      } else {
        TailBelow(cfg, segs, next);
        NoGapBelow(cfg, tail, cursor, next);
        assert g + [] == g;
        Assoc(g, r, Remaining(cfg, tail, Some(next)));
      }
    }
  }

  lemma TailBelow<Entry>(cfg: Config<Entry>, segs: seq<Segment>, next: Cursor)
    requires Descending(cfg, segs) && segs != [] && !KeyLess(next.key, KeyOf(cfg)(segs[0]))
    ensures forall i | 0 <= i < |segs| - 1 :: KeyLess(KeyOf(cfg)(segs[1..][i]), next.key)
  {
    hide KeyLess, KeyOf;
    forall i | 0 <= i < |segs| - 1
      ensures KeyLess(KeyOf(cfg)(segs[1..][i]), next.key)
    {
      assert KeyLess(KeyOf(cfg)(segs[i + 1]), KeyOf(cfg)(segs[0]));
      KeyTotal(KeyOf(cfg)(segs[0]), next.key);
      if KeyOf(cfg)(segs[0]) != next.key {
        KeyTransitive(KeyOf(cfg)(segs[i + 1]), KeyOf(cfg)(segs[0]), next.key);
      }
    }
  }

  /** Fewer segments, fewer records, in the same order. */
  lemma {:induction false} FewerRecords<Entry>(cfg: Config<Entry>, segs: seq<Segment>, gone: set<Text>, cursor: Option<Cursor>,
                                               next: Cursor)
    ensures Subsequence(Remaining(cfg, Present(segs, gone), cursor), Remaining(cfg, segs, cursor))
    ensures Subsequence(Gap(cfg, Present(segs, gone), cursor, next), Gap(cfg, segs, cursor, next))
  {
    hide SegmentRemaining, SegmentGap, Subsequence;
    if segs == [] {
      SubsequenceSelf<Record<Entry>>([]);
    } else {
      var rest, r, g := Present(segs[1..], gone), SegmentRemaining(cfg, segs[0], cursor), SegmentGap(cfg, segs[0], cursor, next);
      FewerRecords(cfg, segs[1..], gone, cursor, next);
      if segs[0].name in gone {
        assert [] + rest == rest;
        SubsequenceBehind(Remaining(cfg, rest, cursor), r, Remaining(cfg, segs[1..], cursor));
        SubsequenceBehind(Gap(cfg, rest, cursor, next), g, Gap(cfg, segs[1..], cursor, next));
      } else {
        assert ([segs[0]] + rest)[1..] == rest;
        SubsequenceSelf(r);
        SubsequenceSelf(g);
        SubsequenceJoined(r, r, Remaining(cfg, rest, cursor), Remaining(cfg, segs[1..], cursor));
        SubsequenceJoined(g, g, Gap(cfg, rest, cursor, next), Gap(cfg, segs[1..], cursor, next));
      }
    }
  }

  // ----- sessions

  /** A reading session: page `k` is read from listing `k` while the segments
      `vanished[k]` disappear, each page asks with the cursor of the one before,
      and between pages the log grows and shrinks. */
  ghost predicate Session<Entry>(cfg: Config<Entry>, listings: seq<seq<Segment>>, vanished: seq<set<Text>>, growths: seq<Growth>,
                                 pages: seq<Page<Entry>>, cursor: Option<Cursor>) {
    && 0 < |pages| == |listings| == |vanished| == |growths| + 1
    && ValidFiles(cfg, listings[0])
    && PageOk(cfg, Present(Ordered(cfg, listings[0]), vanished[0]), cursor, pages[0])
    && if |pages| == 1 then pages[0].next.None?
       else
         && pages[0].next.Some?
         && GrownBy(cfg, listings[0], growths[0], listings[1])
         && Session(cfg, listings[1..], vanished[1..], growths[1..], pages[1..], ParseCursor(cfg, pages[0].next.value))
  }

  function Items<Entry>(pages: seq<Page<Entry>>): seq<Record<Entry>> {
    if pages == [] then [] else pages[0].items + Items(pages[1..])
  }

  /** All segments that went during the session. */
  function Lost(vanished: seq<set<Text>>, growths: seq<Growth>): set<Text> {
    (if vanished == [] then {} else vanished[0] + Lost(vanished[1..], if growths == [] then [] else growths[1..]))
    + (if growths == [] then {} else growths[0].removed)
  }

  /** One page, seen with any segments `gone` that include those that vanished. */
  lemma PageBetween<Entry>(cfg: Config<Entry>, segs: seq<Segment>, vanished: set<Text>, cursor: Option<Cursor>,
                           page: Page<Entry>, gone: set<Text>)
    requires Descending(cfg, segs) && vanished <= gone && PageOk(cfg, Present(segs, vanished), cursor, page)
    ensures page.next.None? ==>
              && Subsequence(page.items, Remaining(cfg, segs, cursor))
              && Subsequence(Remaining(cfg, Present(segs, gone), cursor), page.items)
    ensures page.next.Some? ==>
              && ParseCursor(cfg, page.next.value).Some?
              && var next := ParseCursor(cfg, page.next.value).value;
              && PointsInto(cfg, segs, next) && BehindOr(next, cursor)
              && Subsequence(page.items, Gap(cfg, segs, cursor, next))
              && Subsequence(Gap(cfg, Present(segs, gone), cursor, next), page.items)
  {
    hide Remaining, Gap, Present, Subsequence, ParseCursor, Descending;
    var there := Present(segs, vanished);
    var next := if page.next.Some? then ParseCursor(cfg, page.next.value).value else Cursor(Key(0, []), 0);
    PresentTwice(segs, vanished, gone);
    FewerRecords(cfg, segs, vanished, cursor, next);
    FewerRecords(cfg, there, gone, cursor, next);
    PresentDescends(cfg, segs, vanished);
    if page.next.Some? {
      RemainingSplit(cfg, there, cursor, next);
      SameFront(page.items, Gap(cfg, there, cursor, next), Remaining(cfg, there, Some(next)));
      PointsIntoAll(cfg, segs, vanished, next);
    }
  }

  lemma SameFront<T>(a: seq<T>, b: seq<T>, rest: seq<T>)
    requires a + rest == b + rest
    ensures a == b
  {
    assert |a| == |b|;
    assert a == (a + rest)[..|a|] && b == (b + rest)[..|b|];
  }

  lemma PointsIntoAll<Entry>(cfg: Config<Entry>, segs: seq<Segment>, gone: set<Text>, c: Cursor)
    requires PointsInto(cfg, Present(segs, gone), c)
    ensures PointsInto(cfg, segs, c)
  {
    var there := Present(segs, gone);
    var i :| 0 <= i < |there| && KeyOf(cfg)(there[i]) == c.key && c.offset <= |there[i].bytes|;
    PresentMembers(segs, gone, there[i]);
    var j :| 0 <= j < |segs| && segs[j] == there[i];
  }

  /** A session returns nothing but what was there when it began, in order and
      each record once, and of that it misses nothing but records of segments
      that went during the session. */
  lemma {:induction false} SessionUnderRetention<Entry>(cfg: Config<Entry>, listings: seq<seq<Segment>>, vanished: seq<set<Text>>,
                                                        growths: seq<Growth>, pages: seq<Page<Entry>>, cursor: Option<Cursor>,
                                                        gone: set<Text>)
    requires cfg.Valid() && Session(cfg, listings, vanished, growths, pages, cursor) && Lost(vanished, growths) <= gone
    ensures Subsequence(Items(pages), Remaining(cfg, Ordered(cfg, listings[0]), cursor))
    ensures Subsequence(Remaining(cfg, Present(Ordered(cfg, listings[0]), gone), cursor), Items(pages))
    decreases |pages|
  {
    hide Remaining, Gap, Present, Subsequence, ParseCursor, Ordered, GrownBy, ValidFiles, Descending, PageOk;
    var segs := Ordered(cfg, listings[0]);
    OrderedIsDescending(cfg, listings[0]);
    PageBetween(cfg, segs, vanished[0], cursor, pages[0], gone);
    if |pages| == 1 {
      assert pages[1..] == [] && pages[0].items + [] == pages[0].items;
    } else {
      var next := ParseCursor(cfg, pages[0].next.value).value;
      SessionUnderRetention(cfg, listings[1..], vanished[1..], growths[1..], pages[1..], Some(next), gone);
      SessionStep(cfg, listings[0], growths[0], listings[1], cursor, next, gone, pages[0].items, Items(pages[1..]));
    }
  }

  lemma SessionStep<Entry>(cfg: Config<Entry>, files: seq<Segment>, g: Growth, files': seq<Segment>, cursor: Option<Cursor>, next: Cursor,
                           gone: set<Text>, items: seq<Record<Entry>>, later: seq<Record<Entry>>)
    requires cfg.Valid() && GrownBy(cfg, files, g, files') && g.removed <= gone
    requires PointsInto(cfg, Ordered(cfg, files), next) && BehindOr(next, cursor)
    requires Subsequence(items, Gap(cfg, Ordered(cfg, files), cursor, next))
    requires Subsequence(Gap(cfg, Present(Ordered(cfg, files), gone), cursor, next), items)
    requires Subsequence(later, Remaining(cfg, Ordered(cfg, files'), Some(next)))
    requires Subsequence(Remaining(cfg, Present(Ordered(cfg, files'), gone), Some(next)), later)
    ensures Subsequence(items + later, Remaining(cfg, Ordered(cfg, files), cursor))
    ensures Subsequence(Remaining(cfg, Present(Ordered(cfg, files), gone), cursor), items + later)
  {
    hide Remaining, Gap, Present, Subsequence, Ordered, GrownBy, ValidFiles, Descending, PointsInto;
    var segs, segs' := Ordered(cfg, files), Ordered(cfg, files');
    ListingIsValid(cfg, files, g, files');
    OrderedIsDescending(cfg, files);
    // nothing new
    GrowthKeepsRemaining(cfg, files, g, files', next, {});
    AllPresent(segs');
    assert g.removed + {} == g.removed;
    FewerRecords(cfg, segs, g.removed, Some(next), next);
    SubsequenceTransitive(later, Remaining(cfg, segs', Some(next)), Remaining(cfg, segs, Some(next)));
    RemainingSplit(cfg, segs, cursor, next);
    SubsequenceJoined(items, Gap(cfg, segs, cursor, next), later, Remaining(cfg, segs, Some(next)));
    // nothing lost that is still there
    GrowthKeepsRemaining(cfg, files, g, files', next, gone);
    assert g.removed + gone == gone;
    PresentDescends(cfg, segs, gone);
    RemainingSplit(cfg, Present(segs, gone), cursor, next);
    SubsequenceJoined(Gap(cfg, Present(segs, gone), cursor, next), items, Remaining(cfg, Present(segs, gone), Some(next)), later);
  }

  lemma ListingIsValid<Entry>(cfg: Config<Entry>, files: seq<Segment>, g: Growth, files': seq<Segment>)
    requires GrownBy(cfg, files, g, files')
    ensures ValidFiles(cfg, files)
  {
  }

  /** When nothing is removed, a session returns exactly what was there when it
      began, however the writer grows the log between pages. */
  lemma SessionReturnsTheFirstListing<Entry>(cfg: Config<Entry>, listings: seq<seq<Segment>>, vanished: seq<set<Text>>,
                                             growths: seq<Growth>, pages: seq<Page<Entry>>, cursor: Option<Cursor>)
    requires cfg.Valid() && Session(cfg, listings, vanished, growths, pages, cursor) && Lost(vanished, growths) == {}
    ensures Items(pages) == Remaining(cfg, Ordered(cfg, listings[0]), cursor)
  {
    hide Subsequence, Remaining, Ordered, Items, PageOk, GrownBy, ValidFiles;
    var segs := Ordered(cfg, listings[0]);
    SessionUnderRetention(cfg, listings, vanished, growths, pages, cursor, {});
    AllPresent(segs);
    SubsequenceLength(Items(pages), Remaining(cfg, segs, cursor));
    SubsequenceLength(Remaining(cfg, segs, cursor), Items(pages));
  }
}
