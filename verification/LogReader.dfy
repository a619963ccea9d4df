/** The runtime-log reader: pages newest-first through append-only segment
    files, reading each one backwards in fixed windows. */
module LogReader {
  import opened Basics
  import Decimal

  const NEWLINE: byte := 10

  /** The three limits, and the parts of the reader that only look at one line
      or one name: parsing an event, reading a first line's timestamp, and
      recognising a managed file name. */
  datatype Config<Entry> = Config(
    window: nat,
    pageSize: nat,
    maxScan: nat,
    parse: Text -> Option<Entry>,
    timestamp: Text -> Option<int>,
    managed: Text -> bool
  ) {
    predicate Valid() {
      0 < window && 0 < pageSize && 0 < maxScan
    }
  }

  datatype Segment = Segment(name: Text, modified: int, bytes: Text)

  datatype Cursor = Cursor(key: Key, offset: nat)

  datatype Record<Entry> = Record(id: Text, entry: Entry)

  datatype Page<Entry> = Page(items: seq<Record<Entry>>, next: Option<Text>)

  datatype ReadError = InvalidInput | ReadFailed

  /** What listing the directory and reading first lines gave. */
  datatype Listing = NoDirectory | ListingFailed | Listed(files: seq<Segment>)

  // ----- lines

  /** Start of the line that holds position `k`, scanning back from `k`. */
  function LineStart(b: Text, k: nat): (s: nat)
    requires k <= |b|
    ensures s <= k
    ensures s == 0 || b[s - 1] == NEWLINE
    ensures forall t | s <= t < k :: b[t] != NEWLINE
  {
    if k == 0 || b[k - 1] == NEWLINE then k else LineStart(b, k - 1)
  }

  /** The two facts that characterise a line start leave only one choice. */
  lemma LineStartUnique(b: Text, k: nat, s: nat)
    requires s <= k <= |b|
    requires s == 0 || b[s - 1] == NEWLINE
    requires forall t | s <= t < k :: b[t] != NEWLINE
    ensures LineStart(b, k) == s
  {
  }

  // ----- what the reader should return

  function Id(key: Key, offset: nat): Text {
    Decimal.PrintSigned(key.rank) + [COLON] + key.name + [COLON] + Decimal.Print(offset)
  }

  /** The record on the line `b[s..e]`, when it is complete and parses. */
  function LineRecord<Entry>(cfg: Config<Entry>, key: Key, b: Text, s: nat, e: nat): seq<Record<Entry>>
    requires s < e <= |b|
  {
    if b[e - 1] != NEWLINE then []
    else
      match cfg.parse(b[s..e])
      case Some(entry) => [Record(Id(key, s), entry)]
      case None => []
  }

  /** Every newline-terminated, parseable line of `b[..end]`, last line first. */
  function Complete<Entry>(cfg: Config<Entry>, key: Key, b: Text, end: nat): seq<Record<Entry>>
    requires end <= |b|
  {
    if end == 0 then []
    else
      var s := LineStart(b, end - 1);
      LineRecord(cfg, key, b, s, end) + Complete(cfg, key, b, s)
  }

  /** Lines the windows can deliver: shorter than a window, or exactly one
      window long at the very start of the file. */
  predicate Fits<Entry>(cfg: Config<Entry>, s: nat, e: nat) {
    e - s < cfg.window || (s == 0 && e == cfg.window)
  }

  /** `Complete`, restricted to the lines that fit. */
  function Records<Entry>(cfg: Config<Entry>, key: Key, b: Text, end: nat): seq<Record<Entry>>
    requires end <= |b|
  {
    if end == 0 then []
    else
      var s := LineStart(b, end - 1);
      (if Fits(cfg, s, end) then LineRecord(cfg, key, b, s, end) else [])
      + Records(cfg, key, b, s)
  }

  /** Every complete, parseable line of `b[..end]` fits. */
  predicate AllFit<Entry>(cfg: Config<Entry>, b: Text, end: nat)
    requires end <= |b|
  {
    end == 0 ||
    var s := LineStart(b, end - 1);
    (b[end - 1] == NEWLINE && cfg.parse(b[s..end]).Some? ==> Fits(cfg, s, end)) && AllFit(cfg, b, s)
  }

  lemma {:induction false} RecordsAreComplete<Entry>(cfg: Config<Entry>, key: Key, b: Text, end: nat)
    requires end <= |b|
    ensures AllFit(cfg, b, end) ==> Records(cfg, key, b, end) == Complete(cfg, key, b, end)
    ensures !AllFit(cfg, b, end) ==> |Records(cfg, key, b, end)| < |Complete(cfg, key, b, end)|
    ensures |Records(cfg, key, b, end)| <= |Complete(cfg, key, b, end)|
  {
    if end > 0 {
      RecordsAreComplete(cfg, key, b, LineStart(b, end - 1));
    }
  }

  // ----- segments, keys and cursors

  /** `read_until(b'\n')` over the first window. */
  function FirstLine<Entry>(cfg: Config<Entry>, b: Text): Text {
    var head := b[..Min(cfg.window, |b|)];
    head[..FirstLineEnd(head, 0)]
  }

  function FirstLineEnd(b: Text, k: nat): (e: nat)
    requires k <= |b|
    ensures k <= e <= |b|
    ensures forall t | k <= t < e - 1 :: b[t] != NEWLINE
    ensures e == |b| || (k < e && b[e - 1] == NEWLINE)
    decreases |b| - k
  {
    if k == |b| then k else if b[k] == NEWLINE then k + 1 else FirstLineEnd(b, k + 1)
  }

  /** The ordering key: the first event's time, or the modification time. */
  function KeyOf<Entry>(cfg: Config<Entry>): Segment -> Key {
    (seg: Segment) =>
      var started := match cfg.timestamp(FirstLine(cfg, seg.bytes)) case Some(t) => t case None => seg.modified;
      Key(started, seg.name)
  }

  function Reverse<T>(xs: seq<T>): (r: seq<T>)
    ensures |r| == |xs|
    ensures forall i | 0 <= i < |xs| :: r[i] == xs[|xs| - 1 - i]
  {
    seq(|xs|, i requires 0 <= i < |xs| => xs[|xs| - 1 - i])
  }

  /** Newest segment first. */
  function Ordered<Entry>(cfg: Config<Entry>, files: seq<Segment>): (r: seq<Segment>)
    ensures |r| == |files|
  {
    Reverse(StableSort(files, KeyOf(cfg)))
  }

  ghost predicate Descending<Entry>(cfg: Config<Entry>, segs: seq<Segment>) {
    forall i, j | 0 <= i < j < |segs| :: KeyLess(KeyOf(cfg)(segs[j]), KeyOf(cfg)(segs[i]))
  }

  /** What the file system guarantees of a listing: distinct managed names,
      sizes of 64 bits, times of 128 bits. */
  ghost predicate ValidFiles<Entry>(cfg: Config<Entry>, files: seq<Segment>) {
    && (forall i, j | 0 <= i < j < |files| :: files[i].name != files[j].name)
    && (forall i | 0 <= i < |files| :: ValidSegment(cfg, files[i]))
  }

  predicate ValidSegment<Entry>(cfg: Config<Entry>, seg: Segment) {
    && cfg.managed(seg.name)
    && |seg.bytes| <= U64_MAX
    && -Decimal.I128_MAX - 1 <= KeyOf(cfg)(seg).rank <= Decimal.I128_MAX
  }

  lemma OrderedIsDescending<Entry>(cfg: Config<Entry>, files: seq<Segment>)
    requires ValidFiles(cfg, files)
    ensures Descending(cfg, Ordered(cfg, files))
    ensures forall i | 0 <= i < |files| :: ValidSegment(cfg, Ordered(cfg, files)[i])
  {
    hide StableSort, KeyLess;
    var key := KeyOf(cfg);
    var sorted := StableSort(files, key);
    assert DistinctKeys(files, key);
    SortStrict(files, key);
    MembersOf(files, sorted);
    var r := Ordered(cfg, files);
    forall i | 0 <= i < |files|
      ensures ValidSegment(cfg, r[i])
    {
      assert r[i] == sorted[|files| - 1 - i];
      assert r[i] in sorted;
    }
    forall i, j | 0 <= i < j < |r|
      ensures KeyLess(key(r[j]), key(r[i]))
    {
      assert r[j] == sorted[|files| - 1 - j] && r[i] == sorted[|files| - 1 - i];
    }
  }

  predicate Skipped<Entry>(cfg: Config<Entry>, seg: Segment, cursor: Option<Cursor>) {
    cursor.Some? && KeyLess(cursor.value.key, KeyOf(cfg)(seg))
  }

  /** Where reading of a segment starts: its size, or the cursor inside it. */
  function EndOf<Entry>(cfg: Config<Entry>, seg: Segment, cursor: Option<Cursor>): (end: nat)
    ensures end <= |seg.bytes|
  {
    if cursor.Some? && cursor.value.key == KeyOf(cfg)(seg)
    then Min(cursor.value.offset, |seg.bytes|)
    else |seg.bytes|
  }

  function SegmentRemaining<Entry>(cfg: Config<Entry>, seg: Segment, cursor: Option<Cursor>): seq<Record<Entry>> {
    if Skipped(cfg, seg, cursor) then []
    else Records(cfg, KeyOf(cfg)(seg), seg.bytes, EndOf(cfg, seg, cursor))
  }

  /** Everything older than the cursor, newest first. */
  function Remaining<Entry>(cfg: Config<Entry>, segs: seq<Segment>, cursor: Option<Cursor>): seq<Record<Entry>> {
    if segs == [] then []
    else SegmentRemaining(cfg, segs[0], cursor) + Remaining(cfg, segs[1..], cursor)
  }

  /** Segments above the cursor contribute nothing. */
  lemma {:induction false} RemainingAbove<Entry>(cfg: Config<Entry>, above: seq<Segment>, rest: seq<Segment>, c: Cursor)
    requires forall i | 0 <= i < |above| :: KeyLess(c.key, KeyOf(cfg)(above[i]))
    ensures Remaining(cfg, above + rest, Some(c)) == Remaining(cfg, rest, Some(c))
  {
    if above == [] {
      assert above + rest == rest;
    } else {
      assert (above + rest)[1..] == above[1..] + rest;
      RemainingAbove(cfg, above[1..], rest, c);
    }
  }

  lemma {:induction false} RemainingBelow<Entry>(cfg: Config<Entry>, segs: seq<Segment>, c: Cursor)
    requires forall i | 0 <= i < |segs| :: KeyLess(KeyOf(cfg)(segs[i]), c.key)
    ensures Remaining(cfg, segs, Some(c)) == Remaining(cfg, segs, None)
  {
    if segs != [] {
      KeyTotal(KeyOf(cfg)(segs[0]), c.key);
      RemainingBelow(cfg, segs[1..], c);
    }
  }

  lemma RemainingFirst<Entry>(cfg: Config<Entry>, segs: seq<Segment>, cursor: Option<Cursor>)
    requires segs != []
    ensures Remaining(cfg, segs, cursor) == SegmentRemaining(cfg, segs[0], cursor) + Remaining(cfg, segs[1..], cursor)
  {
  }

  /** A cursor inside segment `i` leaves that segment's prefix and all older ones. */
  lemma RemainingAt<Entry>(cfg: Config<Entry>, segs: seq<Segment>, i: nat, offset: nat)
    requires Descending(cfg, segs) && i < |segs| && offset <= |segs[i].bytes|
    ensures var key := KeyOf(cfg)(segs[i]);
            Remaining(cfg, segs, Some(Cursor(key, offset)))
            == Records(cfg, key, segs[i].bytes, offset) + Remaining(cfg, segs[i + 1..], None)
  {
    hide Remaining, Records, KeyLess;
    var key := KeyOf(cfg)(segs[i]);
    var c := Cursor(key, offset);
    assert segs == segs[..i] + segs[i..];
    RemainingAbove(cfg, segs[..i], segs[i..], c);
    RemainingFirst(cfg, segs[i..], Some(c));
    assert segs[i..][0] == segs[i] && segs[i..][1..] == segs[i + 1..];
    RemainingBelow(cfg, segs[i + 1..], c);
    KeyTotal(key, key);
  }

  // ----- cursor text

  function SplitOnce(t: Text, sep: byte): Option<(Text, Text)> {
    if t == [] then None
    else if t[0] == sep then Some(([], t[1..]))
    else
      match SplitOnce(t[1..], sep)
      case None => None
      case Some((a, b)) => Some(([t[0]] + a, b))
  }

  function RSplitOnce(t: Text, sep: byte): Option<(Text, Text)> {
    if t == [] then None
    else if t[|t| - 1] == sep then Some((t[..|t| - 1], []))
    else
      match RSplitOnce(t[..|t| - 1], sep)
      case None => None
      case Some((a, b)) => Some((a, b + [t[|t| - 1]]))
  }

  function ParseCursor<Entry>(cfg: Config<Entry>, t: Text): Option<Cursor> {
    match RSplitOnce(t, COLON)
    case None => None
    case Some((head, offset)) =>
      match SplitOnce(head, COLON)
      case None => None
      case Some((started, name)) =>
        if !cfg.managed(name) then None
        else
          match (Decimal.ParseSigned(started, Decimal.I128_MAX), Decimal.ParseUnsigned(offset, U64_MAX))
          case (Some(rank), Some(at)) => Some(Cursor(Key(rank, name), at))
          case _ => None
  }

  lemma {:induction false} SplitOnceJoined(a: Text, sep: byte, b: Text)
    requires sep !in a
    ensures SplitOnce(a + [sep] + b, sep) == Some((a, b))
  {
    var t := a + [sep] + b;
    if a == [] {
      assert t[1..] == b;
    } else {
      assert t[1..] == a[1..] + [sep] + b;
      SplitOnceJoined(a[1..], sep, b);
      assert a == [a[0]] + a[1..];
    }
  }

  lemma {:induction false} RSplitOnceJoined(a: Text, sep: byte, b: Text)
    requires sep !in b
    ensures RSplitOnce(a + [sep] + b, sep) == Some((a, b))
  {
    var t := a + [sep] + b;
    if b == [] {
      assert t[..|t| - 1] == a;
    } else {
      var last := b[|b| - 1];
      assert t[|t| - 1] == last && last in b;
      assert t[..|t| - 1] == a + [sep] + b[..|b| - 1];
      RSplitOnceJoined(a, sep, b[..|b| - 1]);
      assert b == b[..|b| - 1] + [last];
    }
  }

  /** The text of a cursor parses back to it, whatever the file name holds. */
  lemma CursorRoundTrip<Entry>(cfg: Config<Entry>, key: Key, offset: nat)
    requires cfg.managed(key.name) && offset <= U64_MAX
    requires -Decimal.I128_MAX - 1 <= key.rank <= Decimal.I128_MAX
    ensures ParseCursor(cfg, Id(key, offset)) == Some(Cursor(key, offset))
  {
    var started := Decimal.PrintSigned(key.rank);
    var at := Decimal.Print(offset);
    assert Id(key, offset) == (started + [COLON] + key.name) + [COLON] + at;
    assert COLON !in at;
    assert COLON !in started;
    RSplitOnceJoined(started + [COLON] + key.name, COLON, at);
    SplitOnceJoined(started, COLON, key.name);
    Decimal.PrintSignedParses(key.rank, Decimal.I128_MAX);
    Decimal.PrintParses(offset, U64_MAX);
  }

  function NextCursor(key: Key, offset: nat, hasOlder: bool): Option<Text> {
    if offset > 0 || hasOlder then Some(Id(key, offset)) else None
  }

  // ----- the scan

  lemma Regroup<T>(a: seq<T>, b: seq<T>, c: seq<T>, d: seq<T>, rest: seq<T>)
    requires a + b == c + d
    ensures a + (b + rest) == c + (d + rest)
  {
    Assoc(a, b, rest);
    Assoc(c, d, rest);
  }

  /** Start of the last line of the window part `b[lo..hi]`, never looking
      below `lo`: one `next_back` of the reversed `split_inclusive`. */
  function LastLineStart(b: Text, lo: nat, k: nat): (s: nat)
    requires lo <= k <= |b|
    ensures lo <= s <= k
    ensures s == lo || b[s - 1] == NEWLINE
    ensures forall t | s <= t < k :: b[t] != NEWLINE
  {
    if k == lo || b[k - 1] == NEWLINE then k else LastLineStart(b, lo, k - 1)
  }

  /** Where the first line that starts inside the window begins. */
  function FirstInWindow(w: Text, atFileStart: bool): (first: nat)
    ensures first <= |w|
  {
    if atFileStart then 0 else FirstLineEnd(w, 0)
  }

  /** Jumping over a window without a line start loses no line that fits. */
  lemma WindowWithoutStart<Entry>(cfg: Config<Entry>, key: Key, b: Text, start: nat, end: nat)
    requires 0 < start < end <= |b| && end - start == cfg.window
    requires forall t | start <= t < end - 1 :: b[t] != NEWLINE
    ensures Records(cfg, key, b, end) == Records(cfg, key, b, start)
  {
    var s := LineStart(b, end - 1);
    assert s <= start;
    if s < start {
      LineStartUnique(b, start - 1, s);
      assert b[start - 1] != NEWLINE;
    }
  }

  lemma NextLine<Entry>(cfg: Config<Entry>, key: Key, b: Text, s: nat, end: nat,
                        had: seq<Record<Entry>>, now: seq<Record<Entry>>)
    requires s < end <= |b| && s == LineStart(b, end - 1) && Fits(cfg, s, end)
    requires now == had + LineRecord(cfg, key, b, s, end)
    ensures now + Records(cfg, key, b, s) == had + Records(cfg, key, b, end)
  {
    assert Records(cfg, key, b, end) == LineRecord(cfg, key, b, s, end) + Records(cfg, key, b, s);
    Assoc(had, LineRecord(cfg, key, b, s, end), Records(cfg, key, b, s));
  }

  /** The last line before `offset`, and its record if it yields one. */
  method ReadLine<Entry>(cfg: Config<Entry>, key: Key, b: Text, boundary: nat, offset: nat)
    returns (start: nat, found: seq<Record<Entry>>)
    requires boundary < offset <= |b| && (boundary == 0 || b[boundary - 1] == NEWLINE)
    ensures boundary <= start < offset && start == LineStart(b, offset - 1)
    ensures found == LineRecord(cfg, key, b, start, offset)
  {
    start := LastLineStart(b, boundary, offset - 1);
    LineStartUnique(b, offset - 1, start);
    var line := b[start..offset];
    if line[|line| - 1] != NEWLINE {
      return start, [];
    }
    var entry := cfg.parse(line);
    found := if entry.Some? then [Record(Id(key, start), entry.value)] else [];
  }

  /** One window's lines from last to first; stops when the page is full. */
  method ScanWindow<Entry>(cfg: Config<Entry>, key: Key, b: Text, boundary: nat, end: nat, before: seq<Record<Entry>>)
    returns (items: seq<Record<Entry>>, offset: nat, full: bool)
    requires cfg.Valid() && boundary <= end <= |b| && |before| < cfg.pageSize
    requires boundary == 0 || b[boundary - 1] == NEWLINE || boundary == end
    requires end - boundary < cfg.window || (boundary == 0 && end <= cfg.window)
    ensures boundary <= offset <= end
    ensures items + Records(cfg, key, b, offset) == before + Records(cfg, key, b, end)
    ensures full ==> |items| == cfg.pageSize && offset < end
    ensures !full ==> |items| < cfg.pageSize && offset == boundary
  {
    items, offset := before, end;
    while offset > boundary
      invariant boundary <= offset <= end
      invariant items + Records(cfg, key, b, offset) == before + Records(cfg, key, b, end)
      invariant |items| < cfg.pageSize
    {
      var start, found := ReadLine(cfg, key, b, boundary, offset);
      ghost var had, lineEnd := items, offset;
      items, offset := items + found, start;
      NextLine(cfg, key, b, offset, lineEnd, had, items);
      if |items| == cfg.pageSize {
        return items, offset, true;
      }
    }
    full := false;
  }

  lemma RecordsNone<Entry>(cfg: Config<Entry>, key: Key, b: Text)
    ensures Records(cfg, key, b, 0) == []
  {
  }

  /** Where the lines of the window begin: at a line start of the file, or at the
      window's end when no line starts in it. */
  lemma BoundaryInWindow(b: Text, start: nat, end: nat)
    requires start < end <= |b|
    ensures var boundary := start + FirstInWindow(b[start..end], start == 0);
            && boundary <= end && (start > 0 ==> boundary > start)
            && (boundary == 0 || b[boundary - 1] == NEWLINE || boundary == end)
            && (boundary == end ==> start > 0 && forall t | start <= t < end - 1 :: b[t] != NEWLINE)
  {
    if start > 0 {
      var first := FirstLineEnd(b[start..end], 0);
      assert b[start..end][first - 1] == b[start + first - 1];
      assert forall t | start <= t < end :: b[t] == b[start..end][t - start];
    }
  }

  /** One segment, window by window, from `from` down to its start. `stop` is
      the offset at which the page ended, if it did. */
  method ScanSegment<Entry>(cfg: Config<Entry>, key: Key, b: Text, from: nat, before: seq<Record<Entry>>, alreadyScanned: nat)
    returns (items: seq<Record<Entry>>, scanned: nat, stop: Option<nat>)
    requires cfg.Valid() && from <= |b| && |before| < cfg.pageSize && alreadyScanned < cfg.maxScan
    ensures stop.None? ==> items == before + Records(cfg, key, b, from) && |items| < cfg.pageSize && scanned < cfg.maxScan
    ensures stop.Some? ==> stop.value < from && items + Records(cfg, key, b, stop.value) == before + Records(cfg, key, b, from)
    ensures stop.Some? ==> |items| == cfg.pageSize || (|items| < cfg.pageSize && scanned >= cfg.maxScan)
    ensures alreadyScanned <= scanned < cfg.maxScan + cfg.window
  {
    hide Records, FirstInWindow;
    items, scanned := before, alreadyScanned;
    var end := from;
    while end > 0
      invariant 0 <= end <= from
      invariant items + Records(cfg, key, b, end) == before + Records(cfg, key, b, from)
      invariant |items| < cfg.pageSize && alreadyScanned <= scanned < cfg.maxScan
    {
      var start := if end < cfg.window then 0 else end - cfg.window;
      var bytes := b[start..end];
      scanned := scanned + (end - start);
      var first := FirstInWindow(bytes, start == 0);
      var boundary := start + first;
      BoundaryInWindow(b, start, end);
      var offset, full;
      items, offset, full := ScanWindow(cfg, key, b, boundary, end, items);
      if full {
        return items, scanned, Some(offset);
      }
      if boundary == end {
        WindowWithoutStart(cfg, key, b, start, end);
      }
      end := if boundary < end then boundary else start;
      if scanned >= cfg.maxScan {
        return items, scanned, Some(end);
      }
    }
    RecordsNone(cfg, key, b);
    stop := None;
  }

  /** The contract of one page: its items followed by everything behind its
      next cursor are exactly what was behind the query's cursor, and the next
      cursor lies strictly further back. */
  ghost predicate PageOk<Entry>(cfg: Config<Entry>, segs: seq<Segment>, cursor: Option<Cursor>, page: Page<Entry>) {
    && |page.items| <= cfg.pageSize
    && (page.next.None? ==> page.items == Remaining(cfg, segs, cursor))
    && (page.next.Some? ==>
          var next := ParseCursor(cfg, page.next.value);
          && next.Some?
          && PointsInto(cfg, segs, next.value)
          && (cursor.Some? ==> Behind(next.value, cursor.value))
          && page.items + Remaining(cfg, segs, next) == Remaining(cfg, segs, cursor))
  }

  ghost predicate PointsInto<Entry>(cfg: Config<Entry>, segs: seq<Segment>, c: Cursor) {
    exists i | 0 <= i < |segs| :: KeyOf(cfg)(segs[i]) == c.key && c.offset <= |segs[i].bytes|
  }

  predicate Behind(a: Cursor, b: Cursor) {
    KeyLess(a.key, b.key) || (a.key == b.key && a.offset < b.offset)
  }

  // ----- segments that retention removes while a page is read

  /** The segments that are still there when they are opened. */
  function Present(segs: seq<Segment>, gone: set<Text>): seq<Segment> {
    if segs == [] then []
    else (if segs[0].name in gone then [] else [segs[0]]) + Present(segs[1..], gone)
  }

  lemma {:induction false} PresentSplit(a: seq<Segment>, b: seq<Segment>, gone: set<Text>)
    ensures Present(a + b, gone) == Present(a, gone) + Present(b, gone)
  {
    if a == [] {
      assert a + b == b;
    } else {
      assert (a + b)[1..] == a[1..] + b;
      PresentSplit(a[1..], b, gone);
      Assoc(if a[0].name in gone then [] else [a[0]], Present(a[1..], gone), Present(b, gone));
    }
  }

  lemma PresentAt(segs: seq<Segment>, gone: set<Text>, i: nat)
    requires i < |segs|
    ensures var all, k := Present(segs, gone), |Present(segs[..i], gone)|;
            && k <= |all| && all[k..] == Present(segs[i..], gone)
            && (segs[i].name !in gone ==> k < |all| && all[k] == segs[i] && all[k + 1..] == Present(segs[i + 1..], gone))
            && (segs[i].name in gone ==> Present(segs[i..], gone) == Present(segs[i + 1..], gone))
            && (segs[i].name !in gone && i + 1 == |segs| ==> k + 1 == |all|)
  {
    PresentSplit(segs[..i], segs[i..], gone);
    assert segs == segs[..i] + segs[i..] && segs[i..][1..] == segs[i + 1..];
    var rest := Present(segs[i..], gone);
    if segs[i].name !in gone {
      assert rest == [segs[i]] + Present(segs[i + 1..], gone);
      assert rest[1..] == Present(segs[i + 1..], gone);
    }
  }

  lemma {:induction false} PresentMembers(segs: seq<Segment>, gone: set<Text>, seg: Segment)
    requires seg in Present(segs, gone)
    ensures seg in segs
  {
    if seg != segs[0] {
      PresentMembers(segs[1..], gone, seg);
    }
  }

  lemma {:induction false} PresentDescends<Entry>(cfg: Config<Entry>, segs: seq<Segment>, gone: set<Text>)
    requires Descending(cfg, segs)
    ensures Descending(cfg, Present(segs, gone))
  {
    hide KeyLess;
    if segs != [] {
      var rest := Present(segs[1..], gone);
      PresentDescends(cfg, segs[1..], gone);
      forall i | 0 <= i < |rest|
        ensures KeyLess(KeyOf(cfg)(rest[i]), KeyOf(cfg)(segs[0]))
      {
        PresentMembers(segs[1..], gone, rest[i]);
        var j :| 0 <= j < |segs| - 1 && segs[1..][j] == rest[i];
        assert segs[j + 1] == rest[i];
      }
      HeadDescends(cfg, segs[0], rest);
    }
  }

  lemma HeadDescends<Entry>(cfg: Config<Entry>, seg: Segment, rest: seq<Segment>)
    requires Descending(cfg, rest) && forall i | 0 <= i < |rest| :: KeyLess(KeyOf(cfg)(rest[i]), KeyOf(cfg)(seg))
    ensures Descending(cfg, [seg] + rest) && Descending(cfg, [] + rest)
  {
    hide KeyLess;
    assert [] + rest == rest;
  }

  lemma {:induction false} AllPresent(segs: seq<Segment>)
    ensures Present(segs, {}) == segs
  {
    if segs != [] {
      AllPresent(segs[1..]);
    }
  }

  lemma WholePage<Entry>(cfg: Config<Entry>, segs: seq<Segment>, cursor: Option<Cursor>, items: seq<Record<Entry>>, gone: set<Text>)
    requires items + Remaining(cfg, Present([], gone), cursor) == Remaining(cfg, segs, cursor) && |items| <= cfg.pageSize
    ensures PageOk(cfg, segs, cursor, Page(items, None))
  {
    hide ParseCursor;
  }

  /** The segment is read for this query, and reading it fails. */
  ghost predicate FailsOn<Entry>(cfg: Config<Entry>, seg: Segment, cursor: Option<Cursor>, gone: set<Text>, failing: set<Text>) {
    seg.name in failing && seg.name !in gone && !Skipped(cfg, seg, cursor)
  }

  /** One page. `gone` are the segments removed after they were listed, `failing`
      those that cannot be read, and `scanned` is the number of bytes read. */
  method ReadPage<Entry>(cfg: Config<Entry>, listing: Listing, query: Option<Text>, gone: set<Text>, failing: set<Text>)
    returns (r: Result<Page<Entry>, ReadError>, scanned: nat)
    requires cfg.Valid() && (listing.Listed? ==> ValidFiles(cfg, listing.files))
    ensures r == Err(InvalidInput) <==> query.Some? && ParseCursor(cfg, query.value).None?
    ensures r == Err(ReadFailed) ==>
              || listing.ListingFailed?
              || (listing.Listed? && exists i | 0 <= i < |listing.files| ::
                    FailsOn(cfg, Ordered(cfg, listing.files)[i], if query.None? then None else ParseCursor(cfg, query.value), gone, failing))
    ensures r.Err? ==> (query.Some? && ParseCursor(cfg, query.value).None?) || listing.ListingFailed? || failing != {}
    ensures r.Ok? ==> !listing.ListingFailed? && (listing.NoDirectory? ==> r.value == Page([], None))
    ensures r.Ok? && listing.Listed? ==>
              PageOk(cfg, Present(Ordered(cfg, listing.files), gone),
                     if query.None? then None else ParseCursor(cfg, query.value), r.value)
    ensures r.Ok? && r.value.next.Some? ==> |r.value.items| == cfg.pageSize || scanned >= cfg.maxScan
    ensures scanned < cfg.maxScan + cfg.window
  {
    hide Remaining, Present, PageOk, ParseCursor, KeyOf, Records, Descending, Ordered, ValidFiles;
    scanned := 0;
    var cursor: Option<Cursor> := None;
    if query.Some? {
      cursor := ParseCursor(cfg, query.value);
      if cursor.None? {
        return Err(InvalidInput), 0;
      }
    }
    if listing.NoDirectory? {
      return Ok(Page([], None)), 0;
    }
    if listing.ListingFailed? {
      return Err(ReadFailed), 0;
    }
    OrderedIsDescending(cfg, listing.files);
    var ordered := Ordered(cfg, listing.files);
    ghost var segs := Present(ordered, gone);
    PresentDescends(cfg, ordered, gone);
    var items: seq<Record<Entry>> := [];
    assert ordered[0..] == ordered;
    for index := 0 to |ordered|
      invariant |items| < cfg.pageSize && scanned < cfg.maxScan
      invariant items + Remaining(cfg, Present(ordered[index..], gone), cursor) == Remaining(cfg, segs, cursor)
    {
      var seg := ordered[index];
      var key := KeyOf(cfg)(seg);
      PresentAt(ordered, gone, index);
      ghost var at := |Present(ordered[..index], gone)|;
      ghost var had := items;
      if seg.name in gone {
        continue;
      }
      if !Skipped(cfg, seg, cursor) {
        if seg.name in failing {
          assert FailsOn(cfg, ordered[index], cursor, gone, failing);
          return Err(ReadFailed), scanned;
        }
        var end := EndOf(cfg, seg, cursor);
        var stop;
        items, scanned, stop := ScanSegment(cfg, key, seg.bytes, end, items, scanned);
        if stop.Some? {
          var page := Page(items, NextCursor(key, stop.value, index + 1 < |ordered|));
          StoppedPage(cfg, segs, cursor, at, stop.value, page, had, index + 1 < |ordered|);
          return Ok(page), scanned;
        }
      }
      NextSegment(cfg, segs, at, cursor, had, items);
    }
    assert ordered[|ordered|..] == [];
    WholePage(cfg, segs, cursor, items, gone);
    r := Ok(Page(items, None));
  }

  lemma NextSegment<Entry>(cfg: Config<Entry>, segs: seq<Segment>, i: nat, cursor: Option<Cursor>,
                           had: seq<Record<Entry>>, now: seq<Record<Entry>>)
    requires i < |segs| && now == had + SegmentRemaining(cfg, segs[i], cursor)
    ensures now + Remaining(cfg, segs[i + 1..], cursor) == had + Remaining(cfg, segs[i..], cursor)
  {
    assert segs[i..][1..] == segs[i + 1..];
    Assoc(had, SegmentRemaining(cfg, segs[i], cursor), Remaining(cfg, segs[i + 1..], cursor));
  }

  /** A page that stops inside a segment meets the page contract. */
  lemma StoppedPage<Entry>(cfg: Config<Entry>, segs: seq<Segment>, cursor: Option<Cursor>, i: nat, stop: nat,
                           page: Page<Entry>, had: seq<Record<Entry>>, hasOlder: bool)
    requires Descending(cfg, segs) && i < |segs| && ValidSegment(cfg, segs[i])
    requires !Skipped(cfg, segs[i], cursor) && stop < EndOf(cfg, segs[i], cursor)
    requires |page.items| <= cfg.pageSize
    requires page.next == NextCursor(KeyOf(cfg)(segs[i]), stop, hasOlder) && (i + 1 < |segs| ==> hasOlder)
    requires had + Remaining(cfg, segs[i..], cursor) == Remaining(cfg, segs, cursor)
    requires page.items + Records(cfg, KeyOf(cfg)(segs[i]), segs[i].bytes, stop)
             == had + SegmentRemaining(cfg, segs[i], cursor)
    ensures PageOk(cfg, segs, cursor, page)
  {
    var key := KeyOf(cfg)(segs[i]);
    var older := segs[i + 1..];
    assert segs[i..][1..] == older;
    if cursor.Some? {
      KeyTotal(key, cursor.value.key);
      forall j | 0 <= j < |older|
        ensures KeyLess(KeyOf(cfg)(older[j]), cursor.value.key)
      {
        assert KeyLess(KeyOf(cfg)(segs[i + 1 + j]), key);
        if key != cursor.value.key {
          KeyTransitive(KeyOf(cfg)(older[j]), key, cursor.value.key);
        }
      }
      RemainingBelow(cfg, older, cursor.value);
    }
    Regroup(page.items, Records(cfg, key, segs[i].bytes, stop),
            had, SegmentRemaining(cfg, segs[i], cursor), Remaining(cfg, older, cursor));
    if page.next.Some? {
      CursorRoundTrip(cfg, key, stop);
      RemainingAt(cfg, segs, i, stop);
    } else {
      assert older == [];
    }
  }

  // ----- following the cursors to the end

  function Weight<Entry>(cfg: Config<Entry>, seg: Segment, cursor: Option<Cursor>): nat {
    if Skipped(cfg, seg, cursor) then 0
    else if cursor.Some? && cursor.value.key == KeyOf(cfg)(seg) then EndOf(cfg, seg, cursor)
    else |seg.bytes| + 1
  }

  /** How much lies behind a cursor, counting every older segment as one more. */
  function Distance<Entry>(cfg: Config<Entry>, segs: seq<Segment>, cursor: Option<Cursor>): nat {
    if segs == [] then 0 else Weight(cfg, segs[0], cursor) + Distance(cfg, segs[1..], cursor)
  }

  lemma {:induction false} DistanceOrder<Entry>(cfg: Config<Entry>, segs: seq<Segment>, a: Option<Cursor>, b: Option<Cursor>)
    requires forall i | 0 <= i < |segs| :: Weight(cfg, segs[i], a) <= Weight(cfg, segs[i], b)
    ensures Distance(cfg, segs, a) <= Distance(cfg, segs, b)
    ensures (exists i | 0 <= i < |segs| :: Weight(cfg, segs[i], a) < Weight(cfg, segs[i], b))
            ==> Distance(cfg, segs, a) < Distance(cfg, segs, b)
  {
    if segs != [] {
      assert Weight(cfg, segs[0], a) <= Weight(cfg, segs[0], b);
      DistanceOrder(cfg, segs[1..], a, b);
      if i :| 0 <= i < |segs| && Weight(cfg, segs[i], a) < Weight(cfg, segs[i], b) {
        assert i > 0 ==> segs[1..][i - 1] == segs[i];
      }
    }
  }

  /** Every next cursor is strictly closer to the end of the history. */
  lemma DistanceDrops<Entry>(cfg: Config<Entry>, segs: seq<Segment>, cursor: Option<Cursor>, next: Cursor)
    requires Descending(cfg, segs) && PointsInto(cfg, segs, next)
    requires cursor.Some? ==> PointsInto(cfg, segs, cursor.value) && Behind(next, cursor.value)
    ensures Distance(cfg, segs, Some(next)) < Distance(cfg, segs, cursor)
  {
    var key := KeyOf(cfg);
    var at :| 0 <= at < |segs| && key(segs[at]) == next.key && next.offset <= |segs[at].bytes|;
    forall i | 0 <= i < |segs|
      ensures Weight(cfg, segs[i], Some(next)) <= Weight(cfg, segs[i], cursor)
      ensures i == at ==> Weight(cfg, segs[i], Some(next)) < Weight(cfg, segs[i], cursor)
    {
      KeyTotal(key(segs[i]), next.key);
      if cursor.Some? {
        KeyTotal(key(segs[i]), cursor.value.key);
        KeyTotal(next.key, cursor.value.key);
        if KeyLess(key(segs[i]), next.key) && KeyLess(next.key, cursor.value.key) {
          KeyTransitive(key(segs[i]), next.key, cursor.value.key);
        }
        if i == at && next.key == cursor.value.key {
          var c :| 0 <= c < |segs| && key(segs[c]) == cursor.value.key && cursor.value.offset <= |segs[c].bytes|;
          KeyTotal(key(segs[c]), key(segs[at]));
          assert c == at;
        }
      }
    }
    DistanceOrder(cfg, segs, Some(next), cursor);
  }

  /** The client loop: ask for pages until no cursor comes back. It ends, and
      returns every record that fits, once, newest first. */
  method ReadAll<Entry>(cfg: Config<Entry>, files: seq<Segment>) returns (all: seq<Record<Entry>>)
    requires cfg.Valid() && ValidFiles(cfg, files)
    ensures all == Remaining(cfg, Ordered(cfg, files), None)
  {
    hide FailsOn, Remaining, Present, ParseCursor, Ordered, KeyOf, Distance, Descending, ValidFiles;
    OrderedIsDescending(cfg, files);
    ghost var segs := Ordered(cfg, files);
    var query: Option<Text> := None;
    ghost var cursor: Option<Cursor> := None;
    all := [];
    while true
      invariant query.None? ==> cursor.None?
      invariant query.Some? ==> cursor.Some? && cursor == ParseCursor(cfg, query.value)
      invariant cursor.Some? ==> PointsInto(cfg, segs, cursor.value)
      invariant all + Remaining(cfg, segs, cursor) == Remaining(cfg, segs, None)
      decreases Distance(cfg, segs, cursor)
    {
      AllPresent(segs);
      var r, _ := ReadPage(cfg, Listed(files), query, {}, {});
      var page := r.value;
      ghost var had := all;
      all := all + page.items;
      if page.next.None? {
        return;
      }
      ghost var next := ParseCursor(cfg, page.next.value);
      Assoc(had, page.items, Remaining(cfg, segs, next));
      DistanceDrops(cfg, segs, cursor, next.value);
      query, cursor := page.next, next;
    }
  }

  // ----- what is lost, exactly

  function AllComplete<Entry>(cfg: Config<Entry>, segs: seq<Segment>): seq<Record<Entry>> {
    if segs == [] then []
    else Complete(cfg, KeyOf(cfg)(segs[0]), segs[0].bytes, |segs[0].bytes|) + AllComplete(cfg, segs[1..])
  }

  /** Paging returns every complete, parseable record if and only if each of
      them is shorter than the window, or fills the first window exactly. */
  lemma {:induction false} NothingLostIff<Entry>(cfg: Config<Entry>, segs: seq<Segment>)
    ensures Remaining(cfg, segs, None) == AllComplete(cfg, segs)
            <==> forall i | 0 <= i < |segs| :: AllFit(cfg, segs[i].bytes, |segs[i].bytes|)
    ensures |Remaining(cfg, segs, None)| <= |AllComplete(cfg, segs)|
  {
    hide Records, Complete, AllFit;
    if segs != [] {
      var b, key, rest := segs[0].bytes, KeyOf(cfg)(segs[0]), segs[1..];
      RecordsAreComplete(cfg, key, b, |b|);
      NothingLostIff(cfg, rest);
      var r, c := Records(cfg, key, b, |b|), Complete(cfg, key, b, |b|);
      var rs, cs := Remaining(cfg, rest, None), AllComplete(cfg, rest);
      if r + rs == c + cs {
        assert |r| == |c| && |rs| == |cs|;
        assert rs == (r + rs)[|r|..] && cs == (c + cs)[|c|..];
        forall i | 0 <= i < |segs|
          ensures AllFit(cfg, segs[i].bytes, |segs[i].bytes|)
        {
          assert i > 0 ==> segs[i] == rest[i - 1];
        }
      }
      if forall i | 0 <= i < |segs| :: AllFit(cfg, segs[i].bytes, |segs[i].bytes|) {
        forall i | 0 <= i < |rest|
          ensures AllFit(cfg, rest[i].bytes, |rest[i].bytes|)
        {
          assert rest[i] == segs[i + 1];
        }
        assert AllFit(cfg, segs[0].bytes, |segs[0].bytes|);
      }
    }
  }

  /** A record of exactly the window length behind another one is lost. */
  lemma RecordOfWindowLengthIsLost(cfg: Config<Text>)
    requires cfg.window == 2 && cfg.parse == (line => Some(line))
    ensures var seg := Segment([], 0, [NEWLINE, 97, NEWLINE]);
            Remaining(cfg, [seg], None) != AllComplete(cfg, [seg])
  {
    var seg := Segment([], 0, [NEWLINE, 97, NEWLINE]);
    LineStartUnique(seg.bytes, 2, 1);
    assert !Fits(cfg, 1, 3);
    assert !AllFit(cfg, seg.bytes, 3);
    NothingLostIff(cfg, [seg]);
    assert [seg][0] == seg;
  }
}
