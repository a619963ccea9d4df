/** Re-encoding a parsed multipart body with a fresh boundary, and reading it
    back by the rules of section 5.1.1 of RFC 2046. */
module Multipart {
  import opened Basics
  import opened PayloadBuffers

  const CR: byte := 13
  const LF: byte := 10
  const CRLF: Text := [CR, LF]
  const DASHES: Text := [45, 45]
  const SEPARATOR: Text := [58, 32]

  datatype Header = Header(name: Text, value: Text)

  datatype Part = Part(name: Text, headers: seq<Header>, body: Text)

  // ----- what the encoder writes

  function HeaderLine(h: Header): Text {
    h.name + SEPARATOR + h.value + CRLF
  }

  function HeaderLines(hs: seq<Header>): Text {
    if hs == [] then [] else HeaderLine(hs[0]) + HeaderLines(hs[1..])
  }

  /** The line that ends a part: its line break belongs to it. */
  function Delimiter(boundary: Text): Text {
    CRLF + DASHES + boundary
  }

  /** What follows a `--boundary`. */
  function Following(parts: seq<Part>, boundary: Text): Text {
    if parts == [] then DASHES + CRLF
    else
      CRLF + HeaderLines(parts[0].headers) + CRLF
      + (parts[0].body + (Delimiter(boundary) + Following(parts[1..], boundary)))
  }

  function Encoded(parts: seq<Part>, boundary: Text): Text {
    DASHES + boundary + Following(parts, boundary)
  }

  /** The parts with the model's body replaced. */
  function WithModel(parts: seq<Part>, model: nat, upstream: Text): (r: seq<Part>)
    requires model < |parts|
    ensures |r| == |parts|
  {
    parts[model := parts[model].(body := upstream)]
  }

  // ----- its exact size

  function HeadersSize(hs: seq<Header>): nat {
    if hs == [] then 0 else |hs[0].name| + |hs[0].value| + 4 + HeadersSize(hs[1..])
  }

  function PartsSize(parts: seq<Part>, boundary: Text): nat {
    if parts == [] then 0
    else |boundary| + 4 + |parts[0].body| + 4 + HeadersSize(parts[0].headers) + PartsSize(parts[1..], boundary)
  }

  lemma {:induction false} HeaderLinesSize(hs: seq<Header>)
    ensures |HeaderLines(hs)| == HeadersSize(hs)
  {
    if hs != [] {
      HeaderLinesSize(hs[1..]);
    }
  }

  lemma {:induction false} FollowingSize(parts: seq<Part>, boundary: Text)
    ensures |Following(parts, boundary)| == PartsSize(parts, boundary) + 4
  {
    if parts != [] {
      HeaderLinesSize(parts[0].headers);
      FollowingSize(parts[1..], boundary);
    }
  }

  lemma EncodedSize(parts: seq<Part>, boundary: Text)
    ensures |Encoded(parts, boundary)| == |boundary| + 6 + PartsSize(parts, boundary)
  {
    FollowingSize(parts, boundary);
  }

  lemma {:induction false} SizeOfPrefix(parts: seq<Part>, boundary: Text, k: nat)
    requires k < |parts|
    ensures PartsSize(parts[..k + 1], boundary)
            == PartsSize(parts[..k], boundary) + |boundary| + 4 + |parts[k].body| + 4 + HeadersSize(parts[k].headers)
    ensures PartsSize(parts[..k + 1], boundary) <= PartsSize(parts, boundary)
  {
    if k == 0 {
      assert parts[..1] == [parts[0]] && parts[..0] == [] && [parts[0]][1..] == [];
    } else {
      SizeOfPrefix(parts[1..], boundary, k - 1);
      assert parts[..k + 1][1..] == parts[1..][..k] && parts[..k][1..] == parts[1..][..k - 1];
      assert parts[1..][k - 1] == parts[k];
    }
  }

  lemma {:induction false} HeadersSizeOfPrefix(hs: seq<Header>, k: nat)
    requires k < |hs|
    ensures HeadersSize(hs[..k + 1]) == HeadersSize(hs[..k]) + |hs[k].name| + |hs[k].value| + 4
    ensures HeadersSize(hs[..k + 1]) <= HeadersSize(hs)
  {
    if k == 0 {
      assert hs[..1] == [hs[0]] && hs[..0] == [] && [hs[0]][1..] == [];
    } else {
      HeadersSizeOfPrefix(hs[1..], k - 1);
      assert hs[..k + 1][1..] == hs[1..][..k] && hs[..k][1..] == hs[1..][..k - 1];
      assert hs[1..][k - 1] == hs[k];
    }
  }

  datatype EncodeError = ModelMissing | NameMissing | TooLong | NoMemory

  /** The size computed before encoding: exact, and refused when it does not fit
      the machine. */
  method EncodedCapacity(parts: seq<Part>, boundary: Text) returns (r: Result<nat, EncodeError>)
    ensures r == if |Encoded(parts, boundary)| <= USIZE_MAX then Ok(|Encoded(parts, boundary)|) else Err(TooLong)
  {
    EncodedSize(parts, boundary);
    var total := |boundary| + 6;
    if total > USIZE_MAX {
      return Err(TooLong);
    }
    assert parts[..0] == [];
    for k := 0 to |parts|
      invariant total == |boundary| + 6 + PartsSize(parts[..k], boundary) <= USIZE_MAX
    {
      SizeOfPrefix(parts, boundary, k);
      total := total + (|boundary| + 4) + (|parts[k].body| + 4);
      if total > USIZE_MAX {
        return Err(TooLong);
      }
      var headers := parts[k].headers;
      ghost var before := total;
      assert headers[..0] == [];
      for h := 0 to |headers|
        invariant total == before + HeadersSize(headers[..h]) <= USIZE_MAX
      {
        HeadersSizeOfPrefix(headers, h);
        total := total + |headers[h].name| + (|headers[h].value| + 4);
        if total > USIZE_MAX {
          return Err(TooLong);
        }
      }
      assert headers[..|headers|] == headers;
    }
    assert parts[..|parts|] == parts;
    r := Ok(total);
  }

  // ----- encoding

  /** One write into a buffer that has room for it. */
  method Write(output: PayloadBuffer, bytes: Text) returns (ok: bool)
    requires output.Valid() && output.len + |bytes| <= output.maxLen
    modifies output, output.mapped
    ensures output.Valid() && (output.mapped == old(output.mapped) || fresh(output.mapped))
    ensures ok ==> output.Contents() == old(output.Contents()) + bytes
  {
    var done := output.ExtendFromSlice(bytes);
    ok := done == Done;
  }

  function PartText(part: Part, boundary: Text): Text {
    DASHES + boundary + CRLF + HeaderLines(part.headers) + CRLF + part.body + CRLF
  }

  /** Three writes in a row. */
  method WriteThree(output: PayloadBuffer, a: Text, b: Text, c: Text) returns (ok: bool)
    requires output.Valid() && output.len + |a| + |b| + |c| <= output.maxLen
    modifies output, output.mapped
    ensures output.Valid() && (output.mapped == old(output.mapped) || fresh(output.mapped))
    ensures ok ==> output.Contents() == old(output.Contents()) + (a + b + c)
  {
    ghost var had := output.Contents();
    ok := Write(output, a);
    if !ok { return; }
    ok := Write(output, b);
    if !ok { return; }
    ok := Write(output, c);
    Assoc(had, a, b);
    Assoc(had, a + b, c);
  }

  method WriteHeader(output: PayloadBuffer, header: Header) returns (ok: bool)
    requires output.Valid() && output.len + |HeaderLine(header)| <= output.maxLen
    modifies output, output.mapped
    ensures output.Valid() && (output.mapped == old(output.mapped) || fresh(output.mapped))
    ensures ok ==> output.Contents() == old(output.Contents()) + HeaderLine(header)
  {
    ghost var had := output.Contents();
    ok := WriteThree(output, header.name, SEPARATOR, header.value);
    if !ok { return; }
    ok := Write(output, CRLF);
    Assoc(had, header.name + SEPARATOR + header.value, CRLF);
  }

  method WriteHeaders(output: PayloadBuffer, headers: seq<Header>) returns (ok: bool)
    requires output.Valid() && output.len + |HeaderLines(headers)| <= output.maxLen
    modifies output, output.mapped
    ensures output.Valid() && (output.mapped == old(output.mapped) || fresh(output.mapped))
    ensures ok ==> output.Contents() == old(output.Contents()) + HeaderLines(headers)
  {
    hide HeaderLine;
    ghost var before := output.Contents();
    for h := 0 to |headers|
      invariant output.Valid() && (output.mapped == old(output.mapped) || fresh(output.mapped))
      invariant output.Contents() + HeaderLines(headers[h..]) == before + HeaderLines(headers)
    {
      ghost var had, rest := output.Contents(), HeaderLines(headers[h + 1..]);
      assert headers[h..][1..] == headers[h + 1..];
      Assoc(had, HeaderLine(headers[h]), rest);
      assert |had + HeaderLine(headers[h]) + rest| == |before + HeaderLines(headers)|;
      ok := WriteHeader(output, headers[h]);
      if !ok { return; }
    }
    assert headers[|headers|..] == [];
    ok := true;
  }

  method WritePart(output: PayloadBuffer, part: Part, boundary: Text) returns (ok: bool)
    requires output.Valid() && output.len + |PartText(part, boundary)| <= output.maxLen
    modifies output, output.mapped
    ensures output.Valid() && (output.mapped == old(output.mapped) || fresh(output.mapped))
    ensures ok ==> output.Contents() == old(output.Contents()) + PartText(part, boundary)
  {
    hide HeaderLines;
    ghost var had := output.Contents();
    ok := WriteThree(output, DASHES, boundary, CRLF);
    if !ok { return; }
    ok := WriteHeaders(output, part.headers);
    if !ok { return; }
    ok := WriteThree(output, CRLF, part.body, CRLF);
    PartPieces(had, DASHES + boundary + CRLF, HeaderLines(part.headers), CRLF, part.body, CRLF);
  }

  lemma PartPieces(had: Text, open: Text, headers: Text, blank: Text, body: Text, end: Text)
    ensures had + open + headers + (blank + body + end) == had + (open + headers + blank + body + end)
  {
  }

  /** A part's text and what is written behind it. */
  lemma FollowingFirst(parts: seq<Part>, boundary: Text)
    requires parts != []
    ensures Following(parts, boundary)
            == CRLF + HeaderLines(parts[0].headers) + CRLF + (parts[0].body + (Delimiter(boundary) + Following(parts[1..], boundary)))
  {
  }

  lemma EncodedHead(parts: seq<Part>, boundary: Text)
    requires parts != []
    ensures Encoded(parts, boundary) == PartText(parts[0], boundary) + Encoded(parts[1..], boundary)
  {
    hide HeaderLines, Following;
    var p, rest := parts[0], Following(parts[1..], boundary);
    FollowingFirst(parts, boundary);
    Regroup(DASHES + boundary, CRLF + HeaderLines(p.headers) + CRLF, p.body, CRLF, DASHES + boundary, rest);
  }

  lemma Regroup(open: Text, head: Text, body: Text, end: Text, next: Text, rest: Text)
    ensures open + (head + (body + (end + next + rest))) == (open + head + body + end) + (next + rest)
  {
  }

  /** Encodes into a buffer of exactly the computed size, which never refuses a
      write; only memory can run out. */
  method Encode(parts: seq<Part>, model: nat, upstream: Text, boundary: Text) returns (r: Result<Text, EncodeError>)
    ensures r == Err(ModelMissing) <==> model >= |parts|
    ensures model < |parts| ==> (r == Err(TooLong) <==> |Encoded(WithModel(parts, model, upstream), boundary)| > USIZE_MAX)
    ensures r == Err(NameMissing) ==> exists i | 0 <= i < |parts| :: parts[i].name == []
    ensures r.Ok? ==> model < |parts| && r.value == Encoded(WithModel(parts, model, upstream), boundary)
    ensures r.Ok? ==> forall i | 0 <= i < |parts| :: parts[i].name != []
  {
    hide PartText, Encoded;
    if model >= |parts| {
      return Err(ModelMissing);
    }
    var all := WithModel(parts, model, upstream);
    var capacity := EncodedCapacity(all, boundary);
    if capacity.Err? {
      return Err(TooLong);
    }
    var output := Allocate(Some(capacity.value), capacity.value);
    if output == null {
      return Err(NoMemory);
    }
    for k := 0 to |parts|
      invariant output.Valid() && output.maxLen == |Encoded(all, boundary)|
      invariant output.mapped == null || fresh(output.mapped)
      invariant output.Contents() + Encoded(all[k..], boundary) == Encoded(all, boundary)
      invariant forall i | 0 <= i < k :: parts[i].name != []
    {
      if parts[k].name == [] {
        return Err(NameMissing);
      }
      ghost var had := output.Contents();
      assert all[k..][1..] == all[k + 1..];
      EncodedHead(all[k..], boundary);
      Assoc(had, PartText(all[k], boundary), Encoded(all[k + 1..], boundary));
      assert |had + PartText(all[k], boundary) + Encoded(all[k + 1..], boundary)| == |Encoded(all, boundary)|;
      var ok := WritePart(output, all[k], boundary);
      if !ok {
        return Err(NoMemory);
      }
    }
    assert all[|parts|..] == [];
    EncodedEnd(boundary);
    var ok := Write(output, DASHES + boundary + DASHES + CRLF);
    if !ok {
      return Err(NoMemory);
    }
    var bytes, _ := output.Freeze();
    r := Ok(bytes);
  }

  lemma EncodedEnd(boundary: Text)
    ensures Encoded([], boundary) == DASHES + boundary + DASHES + CRLF
  {
    Assoc(DASHES + boundary, DASHES, CRLF);
  }

  // ----- reading it back

  predicate MatchesAt(s: Text, pattern: Text, i: nat) {
    i + |pattern| <= |s| && s[i..i + |pattern|] == pattern
  }

  /** The first occurrence of `pattern` at or behind `i`. */
  function Find(s: Text, pattern: Text, i: nat): (r: Option<nat>)
    requires i <= |s|
    ensures r.Some? ==> i <= r.value && MatchesAt(s, pattern, r.value)
    ensures forall j | i <= j && (r.None? || j < r.value) :: !MatchesAt(s, pattern, j)
    decreases |s| - i
  {
    if MatchesAt(s, pattern, i) then Some(i)
    else if i == |s| then None
    else Find(s, pattern, i + 1)
  }

  /** A header line: the name before the first colon, the value trimmed. */
  function ParseHeader(line: Text): Option<Header> {
    match Find(line, [COLON], 0)
    case None => None
    case Some(i) => Some(Header(line[..i], Trim(line[i + 1..])))
  }

  /** Header lines up to the empty line, and what follows it. */
  function ParseHeaders(s: Text): (r: Option<(seq<Header>, Text)>)
    ensures r.Some? ==> |r.value.1| < |s|
  {
    match Find(s, CRLF, 0)
    case None => None
    case Some(0) => Some(([], s[2..]))
    case Some(i) =>
      match (ParseHeader(s[..i]), ParseHeaders(s[i + 2..]))
      case (Some(h), Some((hs, rest))) => Some(([h] + hs, rest))
      case _ => None
  }

  datatype Read = Read(headers: seq<Header>, body: Text)

  /** What follows a `--boundary`: the end, or one more part. */
  function ParseFollowing(s: Text, boundary: Text): Option<seq<Read>>
    decreases |s|
  {
    if MatchesAt(s, DASHES, 0) then Some([])
    else if !MatchesAt(s, CRLF, 0) then None
    else
      match ParseHeaders(s[2..])
      case None => None
      case Some((headers, rest)) =>
        match Find(rest, Delimiter(boundary), 0)
        case None => None
        case Some(i) =>
          match ParseFollowing(rest[i + |Delimiter(boundary)|..], boundary)
          case None => None
          case Some(more) => Some([Read(headers, rest[..i])] + more)
  }

  function Parse(s: Text, boundary: Text): Option<seq<Read>> {
    if MatchesAt(s, DASHES + boundary, 0) then ParseFollowing(s[2 + |boundary|..], boundary) else None
  }

  /** Headers as the HTTP layer hands them over: names without a colon, neither
      part with a line break, values trimmed. */
  predicate ValidHeader(h: Header) {
    && h.name != [] && COLON !in h.name && CR !in h.name && LF !in h.name
    && CR !in h.value && LF !in h.value
    && (h.value != [] ==> !IsBlank(h.value[0]) && !IsBlank(h.value[|h.value| - 1]))
  }

  predicate ValidParts(parts: seq<Part>) {
    forall i, j | 0 <= i < |parts| && 0 <= j < |parts[i].headers| :: ValidHeader(parts[i].headers[j])
  }

  predicate Contains(s: Text, pattern: Text) {
    exists i | 0 <= i <= |s| :: MatchesAt(s, pattern, i)
  }

  function Reads(parts: seq<Part>): (r: seq<Read>)
    ensures |r| == |parts|
  {
    if parts == [] then [] else [Read(parts[0].headers, parts[0].body)] + Reads(parts[1..])
  }

  /** The delimiter cannot overlap itself, so the one that was written is the
      first one found exactly when the body does not hold another. */
  lemma DelimiterFound(body: Text, boundary: Text, rest: Text)
    requires CR !in boundary
    ensures var d := Delimiter(boundary);
            var found := Find(body + (d + rest), d, 0);
            && found.Some?
            && (found == Some(|body|) <==> !Contains(body, d))
            && (Contains(body, d) ==> found.value < |body|)
  {
    var d := Delimiter(boundary);
    var s := body + (d + rest);
    assert s[|body|..|body| + |d|] == d;
    assert MatchesAt(s, d, |body|);
    var found := Find(s, d, 0);
    if Contains(body, d) {
      var i :| 0 <= i <= |body| && MatchesAt(body, d, i);
      assert s[i..i + |d|] == body[i..i + |d|];
      assert MatchesAt(s, d, i);
    } else if found.value < |body| {
      var i := found.value;
      if i + |d| <= |body| {
        assert body[i..i + |d|] == s[i..i + |d|];
        assert MatchesAt(body, d, i);
        assert false;
      }
      var j := |body| - i;
      assert s[i..i + |d|][j] == s[|body|] == CR;
      assert d[j] == CR && 1 <= j < |d|;
      NoCarriageReturn(boundary, j);
    }
  }

  lemma NoCarriageReturn(boundary: Text, j: nat)
    requires CR !in boundary && 1 <= j < |Delimiter(boundary)|
    ensures Delimiter(boundary)[j] != CR
  {
    if j >= 4 {
      assert Delimiter(boundary)[j] == boundary[j - 4];
    }
  }

  lemma {:induction false} FindLineEnd(line: Text, rest: Text, i: nat)
    requires CR !in line && i <= |line|
    ensures Find(line + (CRLF + rest), CRLF, i) == Some(|line|)
    decreases |line| - i
  {
    var s := line + (CRLF + rest);
    if i == |line| {
      assert s[i..i + 2] == CRLF;
    } else {
      assert s[i..i + 2][0] == line[i];
      assert line[i] in line;
      FindLineEnd(line, rest, i + 1);
    }
  }

  lemma {:induction false} FindColon(name: Text, rest: Text, i: nat)
    requires COLON !in name && i <= |name|
    ensures Find(name + ([COLON] + rest), [COLON], i) == Some(|name|)
    decreases |name| - i
  {
    var s := name + ([COLON] + rest);
    if i == |name| {
      assert s[i..i + 1] == [COLON];
    } else {
      assert s[i..i + 1][0] == name[i];
      assert name[i] in name;
      FindColon(name, rest, i + 1);
    }
  }

  lemma HeaderReadsBack(h: Header)
    requires ValidHeader(h)
    ensures ParseHeader(h.name + SEPARATOR + h.value) == Some(h)
  {
    var line := h.name + SEPARATOR + h.value;
    assert line == h.name + ([COLON] + ([32] + h.value));
    FindColon(h.name, [32] + h.value, 0);
    assert line[|h.name| + 1..] == [32] + h.value;
    assert ([32] + h.value)[1..] == h.value;
    assert Trim([32] + h.value) == h.value;
    assert line[..|h.name|] == h.name;
  }

  lemma {:induction false} HeadersReadBack(hs: seq<Header>, rest: Text)
    requires forall h | h in hs :: ValidHeader(h)
    ensures ParseHeaders(HeaderLines(hs) + CRLF + rest) == Some((hs, rest))
  {
    hide ParseHeaders, ValidHeader;
    if hs == [] {
      NoHeader(rest);
    } else {
      var h, tail := hs[0], HeaderLines(hs[1..]) + CRLF + rest;
      HeadersReadBack(hs[1..], rest);
      assert h in hs;
      OneHeader(h, tail);
      Regrouped(h.name + SEPARATOR + h.value, CRLF, HeaderLines(hs[1..]), CRLF, rest);
      assert hs == [h] + hs[1..];
    }
  }

  lemma Regrouped(a: Text, b: Text, c: Text, d: Text, e: Text)
    ensures a + b + c + d + e == a + (b + (c + d + e))
  {
  }

  lemma NoHeader(rest: Text)
    ensures ParseHeaders([] + CRLF + rest) == Some(([], rest))
  {
    var s := [] + CRLF + rest;
    assert s == [] + (CRLF + rest);
    FindLineEnd([], rest, 0);
    assert s[2..] == rest;
  }

  lemma OneHeader(h: Header, tail: Text)
    requires ValidHeader(h)
    ensures var line := h.name + SEPARATOR + h.value;
            ParseHeaders(line + (CRLF + tail))
            == match ParseHeaders(tail) case None => None case Some((hs, rest)) => Some(([h] + hs, rest))
  {
    hide ParseHeader;
    var line := h.name + SEPARATOR + h.value;
    var s := line + (CRLF + tail);
    assert CR !in line;
    FindLineEnd(line, tail, 0);
    CutAt(line, CRLF, tail);
    HeaderReadsBack(h);
  }

  /** No part's body holds the delimiter. */
  ghost predicate Clear(parts: seq<Part>, boundary: Text) {
    forall i | 0 <= i < |parts| :: !Contains(parts[i].body, Delimiter(boundary))
  }

  lemma ClearParts(parts: seq<Part>, boundary: Text)
    requires parts != []
    ensures Clear(parts, boundary) <==> !Contains(parts[0].body, Delimiter(boundary)) && Clear(parts[1..], boundary)
  {
    hide Contains, Delimiter;
    assert forall i | 1 <= i < |parts| :: parts[i] == parts[1..][i - 1];
  }

  /** Reading the first part, up to where a delimiter is found. */
  lemma ParseFirst(parts: seq<Part>, boundary: Text, found: nat)
    requires ValidParts(parts) && parts != []
    requires var d, rest := Delimiter(boundary), parts[0].body + (Delimiter(boundary) + Following(parts[1..], boundary));
             Find(rest, d, 0) == Some(found)
    ensures var d, rest := Delimiter(boundary), parts[0].body + (Delimiter(boundary) + Following(parts[1..], boundary));
            ParseFollowing(Following(parts, boundary), boundary)
            == Consed(Read(parts[0].headers, rest[..found]), ParseFollowing(rest[found + |d|..], boundary))
  {
    hide Find, ParseHeaders, Delimiter, Following, ValidParts;
    OnePart(parts, boundary);
  }

  function Consed(read: Read, more: Option<seq<Read>>): Option<seq<Read>> {
    match more case None => None case Some(tail) => Some([read] + tail)
  }

  lemma ConsedIs(read: Read, more: Option<seq<Read>>, parts: seq<Part>)
    requires parts != []
    ensures read == Read(parts[0].headers, parts[0].body) ==> (Consed(read, more) == Some(Reads(parts)) <==> more == Some(Reads(parts[1..])))
    ensures read.body != parts[0].body ==> Consed(read, more) != Some(Reads(parts))
  {
    var all := Reads(parts);
    assert all[0].body == parts[0].body && all[1..] == Reads(parts[1..]);
    if more.Some? {
      assert ([read] + more.value)[1..] == more.value && ([read] + more.value)[0] == read;
    }
  }

  /** Reading back what was written gives the same parts, in order, if and only
      if no body holds the delimiter. */
  lemma {:induction false} FollowingReadsBack(parts: seq<Part>, boundary: Text)
    requires ValidParts(parts) && CR !in boundary
    ensures ParseFollowing(Following(parts, boundary), boundary) == Some(Reads(parts)) <==> Clear(parts, boundary)
  {
    if parts == [] {
      assert Following(parts, boundary)[0..2] == DASHES;
    } else {
      FirstReadsBack(parts, boundary);
      FollowingReadsBack(parts[1..], boundary);
    }
  }

  lemma FirstReadsBack(parts: seq<Part>, boundary: Text)
    requires ValidParts(parts) && CR !in boundary && parts != []
    ensures var rest := ParseFollowing(Following(parts[1..], boundary), boundary) == Some(Reads(parts[1..]));
            && (ParseFollowing(Following(parts, boundary), boundary) == Some(Reads(parts))
                <==> !Contains(parts[0].body, Delimiter(boundary)) && rest)
            && (Clear(parts, boundary) <==> !Contains(parts[0].body, Delimiter(boundary)) && Clear(parts[1..], boundary))
  {
    hide Find, ParseFollowing, Following, Delimiter, Contains, ValidParts, Clear, Reads, Consed;
    var p, d, behind := parts[0], Delimiter(boundary), Following(parts[1..], boundary);
    var rest := p.body + (d + behind);
    ClearParts(parts, boundary);
    DelimiterFound(p.body, boundary, behind);
    var found := Find(rest, d, 0).value;
    ParseFirst(parts, boundary, found);
    ConsedIs(Read(p.headers, rest[..found]), ParseFollowing(rest[found + |d|..], boundary), parts);
    if found == |p.body| {
      CutAt(p.body, d, behind);
    }
  }

  lemma CutAt(a: Text, b: Text, c: Text)
    ensures var s := a + (b + c); s[..|a|] == a && s[|a| + |b|..] == c
  {
  }

  lemma OnePart(parts: seq<Part>, boundary: Text)
    requires ValidParts(parts) && parts != []
    ensures var s, p := Following(parts, boundary), parts[0];
            && !MatchesAt(s, DASHES, 0) && MatchesAt(s, CRLF, 0)
            && ParseHeaders(s[2..]) == Some((p.headers, p.body + (Delimiter(boundary) + Following(parts[1..], boundary))))
  {
    var s, p := Following(parts, boundary), parts[0];
    var rest := p.body + (Delimiter(boundary) + Following(parts[1..], boundary));
    assert s[0..2] == CRLF;
    assert s[2..] == HeaderLines(p.headers) + CRLF + rest;
    HeadersReadBack(p.headers, rest);
  }

  /** The whole body: encoding then parsing returns the headers and bodies of
      all parts, the model's body replaced, exactly when none of them holds the
      delimiter. */
  lemma EncodedReadsBack(parts: seq<Part>, model: nat, upstream: Text, boundary: Text)
    requires model < |parts| && ValidParts(parts) && CR !in boundary
    ensures var all := WithModel(parts, model, upstream);
            Parse(Encoded(all, boundary), boundary) == Some(Reads(all))
            <==> Clear(all, boundary)
  {
    var all := WithModel(parts, model, upstream);
    var s := Encoded(all, boundary);
    assert s[0..2 + |boundary|] == DASHES + boundary;
    assert s[2 + |boundary|..] == Following(all, boundary);
    assert ValidParts(all);
    FollowingReadsBack(all, boundary);
  }

  // ----- accepting a body

  /** A field as the multipart reader yields it. */
  datatype Incoming = Incoming(name: Option<Text>, headers: seq<Header>, body: Text)

  datatype Payload = Payload(parts: seq<Part>, modelIndex: nat, model: Text, stream: bool)

  // ----- headers of a part

  const FORBIDDEN: set<string> := {
    "authorization", "api-key", "cookie", "host", "content-length", "connection", "keep-alive", "proxy-connection",
    "proxy-authenticate", "proxy-authorization", "set-cookie", "te", "trailer", "transfer-encoding", "upgrade", "x-api-key"
  }

  predicate Forbidden(h: Header) {
    Chars(Lower(h.name)) in FORBIDDEN
  }

  predicate IsDisposition(h: Header) {
    Chars(Lower(h.name)) == "content-disposition"
  }

  /** What is kept of a part's headers. */
  function Kept(hs: seq<Header>): seq<Header> {
    if hs == [] then []
    else Kept(hs[..|hs| - 1]) + if Forbidden(hs[|hs| - 1]) then [] else [hs[|hs| - 1]]
  }

  predicate HasDisposition(hs: seq<Header>) {
    exists i | 0 <= i < |hs| :: IsDisposition(hs[i])
  }

  lemma DispositionIsAllowed(h: Header)
    requires IsDisposition(h)
    ensures !Forbidden(h)
  {
    var name := Chars(Lower(h.name));
    assert |name| == 19 && name[0] == 'c';
  }

  /** Exactly the headers that are not forbidden, and the disposition among them
      if there was one. */
  lemma {:induction false} KeptHeaders(hs: seq<Header>)
    ensures forall h :: h in Kept(hs) <==> h in hs && !Forbidden(h)
    ensures HasDisposition(Kept(hs)) <==> HasDisposition(hs)
  {
    hide Forbidden, IsDisposition;
    KeptMembers(hs);
    if i :| 0 <= i < |hs| && IsDisposition(hs[i]) {
      DispositionIsAllowed(hs[i]);
      assert hs[i] in hs;
      var j :| 0 <= j < |Kept(hs)| && Kept(hs)[j] == hs[i];
    }
    if j :| 0 <= j < |Kept(hs)| && IsDisposition(Kept(hs)[j]) {
      var h := Kept(hs)[j];
      assert h in Kept(hs);
      var i :| 0 <= i < |hs| && hs[i] == h;
    }
  }

  lemma {:induction false} KeptMembers(hs: seq<Header>)
    ensures forall h :: h in Kept(hs) <==> h in hs && !Forbidden(h)
  {
    hide Forbidden;
    if hs != [] {
      var init, last := hs[..|hs| - 1], hs[|hs| - 1];
      KeptMembers(init);
      assert hs == init + [last];
    }
  }

  /** The copying loop; a part without disposition is refused. */
  method SafeHeaders(headers: seq<Header>) returns (r: Option<seq<Header>>)
    ensures r == if HasDisposition(headers) then Some(Kept(headers)) else None
  {
    var output: seq<Header> := [];
    for k := 0 to |headers|
      invariant output == Kept(headers[..k])
    {
      assert headers[..k + 1][..k] == headers[..k];
      if Forbidden(headers[k]) {
        continue;
      }
      output := output + [headers[k]];
    }
    assert headers[..|headers|] == headers;
    KeptHeaders(headers);
    r := if HasDisposition(output) then Some(output) else None;
  }

  ghost predicate OnlyAt(fields: seq<Incoming>, name: Text, k: int) {
    forall i | 0 <= i < |fields| && fields[i].name == Some(name) :: i == k
  }

  /** Every field has a name and a disposition, `model` occurs once with visible text, `stream` at
      most once and is a boolean word. `visible` gives the trimmed text of a
      body that is UTF-8. */
  ghost predicate Acceptable(fields: seq<Incoming>, visible: Text -> Option<Text>) {
    && (forall i | 0 <= i < |fields| :: fields[i].name.Some? && HasDisposition(fields[i].headers))
    && (exists k | 0 <= k < |fields| :: fields[k].name == Some(MODEL) && OnlyAt(fields, MODEL, k) && GoodModel(fields[k], visible))
    && (exists k :: OnlyAt(fields, STREAM, k))
    && (forall i | 0 <= i < |fields| && fields[i].name == Some(STREAM) :: fields[i].body == TRUE || fields[i].body == FALSE)
  }

  predicate GoodModel(f: Incoming, visible: Text -> Option<Text>) {
    visible(f.body).Some? && visible(f.body).value != []
  }

  predicate Copied(p: Part, f: Incoming) {
    Some(p.name) == f.name && p.headers == Kept(f.headers) && p.body == f.body
  }

  /** The reading loop: accepts exactly the acceptable bodies and keeps all
      parts in order, without forbidden headers. */
  method ReadParts(fields: seq<Incoming>, visible: Text -> Option<Text>) returns (r: Option<Payload>)
    ensures r.Some? <==> Acceptable(fields, visible)
    ensures r.Some? ==>
              && |r.value.parts| == |fields|
              && (forall i | 0 <= i < |fields| :: Copied(r.value.parts[i], fields[i]))
              && r.value.modelIndex < |fields| && fields[r.value.modelIndex].name == Some(MODEL)
              && Some(r.value.model) == visible(fields[r.value.modelIndex].body)
              && (r.value.stream <==> exists i | 0 <= i < |fields| :: fields[i].name == Some(STREAM) && fields[i].body == TRUE)
  {
    hide HasDisposition, Kept;
    var parts: seq<Part> := [];
    var modelAt, streamAt, model, stream := -1, -1, [], false;
    for k := 0 to |fields|
      invariant |parts| == k
      invariant forall i | 0 <= i < k :: Copied(parts[i], fields[i])
      invariant forall i | 0 <= i < k :: fields[i].name.Some? && HasDisposition(fields[i].headers)
      invariant -1 <= modelAt < k && -1 <= streamAt < k
      invariant forall i | 0 <= i < k :: (fields[i].name == Some(MODEL) <==> i == modelAt) && (fields[i].name == Some(STREAM) <==> i == streamAt)
      invariant modelAt >= 0 ==> GoodModel(fields[modelAt], visible) && Some(model) == visible(fields[modelAt].body)
      invariant streamAt >= 0 ==> fields[streamAt].body == if stream then TRUE else FALSE
      invariant streamAt < 0 ==> !stream
    {
      var f := fields[k];
      if f.name.None? {
        return None;
      }
      var headers := SafeHeaders(f.headers);
      if headers.None? {
        return None;
      }
      if f.name.value == MODEL {
        if modelAt >= 0 || !GoodModel(f, visible) {
          assert modelAt >= 0 ==> fields[modelAt].name == fields[k].name;
          return None;
        }
        modelAt, model := k, visible(f.body).value;
      } else if f.name.value == STREAM {
        if streamAt >= 0 || (f.body != TRUE && f.body != FALSE) {
          assert streamAt >= 0 ==> fields[streamAt].name == fields[k].name;
          return None;
        }
        streamAt, stream := k, f.body == TRUE;
      }
      parts := parts + [Part(f.name.value, headers.value, f.body)];
    }
    if modelAt < 0 {
      return None;
    }
    assert OnlyAt(fields, MODEL, modelAt) && OnlyAt(fields, STREAM, streamAt);
    r := Some(Payload(parts, modelAt, model, stream));
  }
}
