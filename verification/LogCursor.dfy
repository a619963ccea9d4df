/** The opaque continuation cursor of log listings: positions printed behind a
    prefix that names the listing it belongs to. */
module LogCursors {
  import opened Basics
  import Decimal

  const DOT: byte := 46
  const MAX_CURSOR: nat := 1024
  const MAX_ID: nat := 256

  datatype Position = Position(startedAt: nat, requestId: Text)

  datatype Cursor = Cursor(anchor: Position, before: Position)

  datatype Scope = Request(fingerprint: Text) | System(showAdmin: bool)

  // ----- base64url without padding (section 5 of RFC 4648)

  function Digit(n: nat): (c: byte)
    requires n < 64
    ensures c != DOT
  {
    if n < 26 then (65 + n) as byte
    else if n < 52 then (71 + n) as byte
    else if n < 62 then (n - 4) as byte
    else if n == 62 then 45
    else 95
  }

  function Value(c: byte): (r: Option<nat>)
    ensures r.Some? ==> r.value < 64
  {
    if 65 <= c <= 90 then Some((c - 65) as nat)
    else if 97 <= c <= 122 then Some((c - 71) as nat)
    else if 48 <= c <= 57 then Some((c + 4) as nat)
    else if c == 45 then Some(62)
    else if c == 95 then Some(63)
    else None
  }

  lemma ValueOfDigit(n: nat)
    requires n < 64
    ensures Value(Digit(n)) == Some(n)
  {
  }

  function Base64(b: Text): Text {
    if b == [] then []
    else
      var x := b[0] as nat;
      if |b| == 1 then [Digit(x / 4), Digit(x % 4 * 16)]
      else
        var y := b[1] as nat;
        if |b| == 2 then [Digit(x / 4), Digit(x % 4 * 16 + y / 16), Digit(y % 16 * 4)]
        else
          var z := b[2] as nat;
          [Digit(x / 4), Digit(x % 4 * 16 + y / 16), Digit(y % 16 * 4 + z / 64), Digit(z % 64)] + Base64(b[3..])
  }

  /** Strict decoding: no padding, no stray low bits. */
  function FromBase64(t: Text): Option<Text> {
    if t == [] then Some([])
    else if |t| == 1 then None
    else
      match (Value(t[0]), Value(t[1]))
      case (Some(p), Some(q)) =>
        if |t| == 2 then (if q % 16 == 0 then Some([(p * 4 + q / 16) as byte]) else None)
        else
          (match Value(t[2])
           case None => None
           case Some(r) =>
             if |t| == 3 then (if r % 4 == 0 then Some([(p * 4 + q / 16) as byte, (q % 16 * 16 + r / 4) as byte]) else None)
             else
               match (Value(t[3]), FromBase64(t[4..]))
               case (Some(s), Some(rest)) =>
                 Some([(p * 4 + q / 16) as byte, (q % 16 * 16 + r / 4) as byte, (r % 4 * 64 + s) as byte] + rest)
               case _ => None)
      case _ => None
  }

  /** Regrouping three bytes into four digits and back. */
  lemma Regrouped(x: nat, y: nat, z: nat)
    requires x < 256 && y < 256 && z < 256
    ensures var q, r := x % 4 * 16 + y / 16, y % 16 * 4 + z / 64;
            && q < 64 && r < 64
            && x / 4 * 4 + q / 16 == x && q % 16 * 16 + r / 4 == y && r % 4 * 64 + z % 64 == z
  {
  }

  lemma FourDigits(p: nat, q: nat, r: nat, s: nat, rest: Text)
    requires p < 64 && q < 64 && r < 64 && s < 64
    ensures FromBase64([Digit(p), Digit(q), Digit(r), Digit(s)] + rest)
            == match FromBase64(rest)
               case None => None
               case Some(b) => Some([(p * 4 + q / 16) as byte, (q % 16 * 16 + r / 4) as byte, (r % 4 * 64 + s) as byte] + b)
  {
    hide Digit, Value;
    ValueOfDigit(p);
    ValueOfDigit(q);
    ValueOfDigit(r);
    ValueOfDigit(s);
    assert ([Digit(p), Digit(q), Digit(r), Digit(s)] + rest)[4..] == rest;
  }

  lemma FewDigits(p: nat, q: nat, r: nat)
    requires p < 64 && q < 64 && r < 64
    ensures q % 16 == 0 ==> FromBase64([Digit(p), Digit(q)]) == Some([(p * 4 + q / 16) as byte])
    ensures r % 4 == 0 ==> FromBase64([Digit(p), Digit(q), Digit(r)])
                           == Some([(p * 4 + q / 16) as byte, (q % 16 * 16 + r / 4) as byte])
  {
    hide Digit, Value;
    ValueOfDigit(p);
    ValueOfDigit(q);
    ValueOfDigit(r);
  }

  lemma OneByte(c: byte)
    ensures FromBase64(Base64([c])) == Some([c])
  {
    hide Digit, Value, FromBase64;
    var x := c as nat;
    Regrouped(x, 0, 0);
    assert x % 4 * 16 % 16 == 0;
    FewDigits(x / 4, x % 4 * 16, 0);
  }

  lemma TwoBytes(c: byte, d: byte)
    ensures FromBase64(Base64([c, d])) == Some([c, d])
  {
    hide Digit, Value, FromBase64;
    var x, y := c as nat, d as nat;
    Regrouped(x, y, 0);
    assert y % 16 * 4 % 4 == 0;
    FewDigits(x / 4, x % 4 * 16 + y / 16, y % 16 * 4);
  }

  lemma ThreeBytes(c: byte, d: byte, e: byte, rest: Text)
    requires FromBase64(Base64(rest)) == Some(rest)
    ensures FromBase64(Base64([c, d, e] + rest)) == Some([c, d, e] + rest)
  {
    hide Digit, Value, FromBase64;
    var x, y, z := c as nat, d as nat, e as nat;
    assert ([c, d, e] + rest)[3..] == rest;
    Regrouped(x, y, z);
    FourDigits(x / 4, x % 4 * 16 + y / 16, y % 16 * 4 + z / 64, z % 64, Base64(rest));
  }

  lemma {:induction false} Base64RoundTrip(b: Text)
    ensures FromBase64(Base64(b)) == Some(b)
  {
    hide Base64, FromBase64;
    if b == [] {
      NoBytes();
    } else if |b| == 1 {
      OneByte(b[0]);
      assert b == [b[0]];
    } else if |b| == 2 {
      TwoBytes(b[0], b[1]);
      assert b == [b[0], b[1]];
    } else {
      Base64RoundTrip(b[3..]);
      ThreeBytes(b[0], b[1], b[2], b[3..]);
      assert b == [b[0], b[1], b[2]] + b[3..];
    }
  }

  lemma NoBytes()
    ensures FromBase64(Base64([])) == Some([])
  {
  }

  lemma {:induction false} Base64HasNoDot(b: Text)
    ensures DOT !in Base64(b)
  {
    hide Digit;
    if |b| >= 3 {
      Base64HasNoDot(b[3..]);
    }
  }

  // ----- the order of positions

  /** Derived order: time, then id. A cursor never points past its anchor. */
  predicate NotAfter(a: Position, b: Position) {
    a == b || KeyLess(Key(a.startedAt, a.requestId), Key(b.startedAt, b.requestId))
  }

  function Next(anchor: Position, before: Position): Option<Cursor> {
    if NotAfter(before, anchor) then Some(Cursor(anchor, before)) else None
  }

  // ----- text

  function Prefix(scope: Scope): Text {
    match scope
    case Request(fingerprint) => [114, 52, DOT] + fingerprint
    case System(show) => [115, 53, DOT, if show then 49 else 48]
  }

  function Positions(c: Cursor): Text {
    Decimal.Print(c.anchor.startedAt) + [DOT] + Base64(c.anchor.requestId) + [DOT]
    + Decimal.Print(c.before.startedAt) + [DOT] + Base64(c.before.requestId)
  }

  function Encode(scope: Scope, c: Cursor): Text {
    Prefix(scope) + [DOT] + Positions(c)
  }

  function DecodePosition(startedAt: Text, requestId: Text): Option<Position> {
    match (Decimal.ParseUnsigned(startedAt, U64_MAX), FromBase64(requestId))
    case (Some(at), Some(id)) =>
      if at <= I64_MAX && 0 < |id| <= MAX_ID && IsUtf8(id) then Some(Position(at, id)) else None
    case _ => None
  }

  function DecodePositions(t: Text): Option<Cursor> {
    var parts := Split(t, DOT);
    if |parts| != 4 then None
    else
      match (DecodePosition(parts[0], parts[1]), DecodePosition(parts[2], parts[3]))
      case (Some(anchor), Some(before)) => Next(anchor, before)
      case _ => None
  }

  function Decode(scope: Scope, t: Text): Option<Cursor> {
    var start := |Prefix(scope)| + 1;
    if |t| > MAX_CURSOR || !(Prefix(scope) + [DOT] <= t) then None else DecodePositions(t[start..])
  }

  /** A position that a listing can produce. */
  predicate ValidPosition(p: Position) {
    p.startedAt <= I64_MAX && 0 < |p.requestId| <= MAX_ID && IsUtf8(p.requestId)
  }

  lemma PositionRoundTrip(p: Position)
    requires ValidPosition(p)
    ensures DecodePosition(Decimal.Print(p.startedAt), Base64(p.requestId)) == Some(p)
  {
    Decimal.PrintParses(p.startedAt, U64_MAX);
    Base64RoundTrip(p.requestId);
  }

  lemma FourParts(a: Text, b: Text, c: Text, d: Text)
    requires DOT !in a && DOT !in b && DOT !in c && DOT !in d
    ensures Split(a + [DOT] + b + [DOT] + c + [DOT] + d, DOT) == [a, b, c, d]
  {
    SplitUnseparated(a, DOT);
    SplitUnseparated(b, DOT);
    SplitUnseparated(c, DOT);
    SplitUnseparated(d, DOT);
    SplitJoined(a, DOT, b);
    SplitJoined(a + [DOT] + b, DOT, c);
    SplitJoined(a + [DOT] + b + [DOT] + c, DOT, d);
  }

  /** Decoding an encoded cursor in its own scope returns it, exactly when its
      text is not too long. */
  lemma CursorRoundTrip(scope: Scope, c: Cursor)
    requires ValidPosition(c.anchor) && ValidPosition(c.before) && NotAfter(c.before, c.anchor)
    ensures Decode(scope, Encode(scope, c)) == if |Encode(scope, c)| <= MAX_CURSOR then Some(c) else None
  {
    hide Base64, Split, DecodePosition, NotAfter;
    var t, start := Encode(scope, c), |Prefix(scope)| + 1;
    assert t == (Prefix(scope) + [DOT]) + Positions(c);
    assert t[start..] == Positions(c);
    assert DOT !in Decimal.Print(c.anchor.startedAt) && DOT !in Decimal.Print(c.before.startedAt);
    Base64HasNoDot(c.anchor.requestId);
    Base64HasNoDot(c.before.requestId);
    FourParts(Decimal.Print(c.anchor.startedAt), Base64(c.anchor.requestId),
              Decimal.Print(c.before.startedAt), Base64(c.before.requestId));
    PositionRoundTrip(c.anchor);
    PositionRoundTrip(c.before);
  }

  function Pow10(k: nat): nat {
    if k == 0 then 1 else 10 * Pow10(k - 1)
  }

  lemma {:induction false} PrintLength(n: nat, k: nat)
    requires 0 < k && n < Pow10(k)
    ensures |Decimal.Print(n)| <= k
  {
    if n >= 10 {
      PrintLength(n / 10, k - 1);
    }
  }

  lemma {:induction false} Base64Length(b: Text)
    ensures 3 * |Base64(b)| <= 4 * |b| + 2
  {
    if |b| >= 3 {
      Base64Length(b[3..]);
    }
  }

  /** The length limit never bites while the fingerprint has at most 295 bytes. */
  lemma ValidCursorsFit(scope: Scope, c: Cursor)
    requires ValidPosition(c.anchor) && ValidPosition(c.before)
    requires scope.Request? ==> |scope.fingerprint| <= 295
    ensures |Encode(scope, c)| <= MAX_CURSOR
  {
    assert Pow10(6) == 1_000_000 && Pow10(12) == 1_000_000_000_000 && I64_MAX < Pow10(19);
    PrintLength(c.anchor.startedAt, 19);
    PrintLength(c.before.startedAt, 19);
    Base64Length(c.anchor.requestId);
    Base64Length(c.before.requestId);
  }

  /** Whatever text is presented, it is a cursor of at most one scope, also when
      fingerprints contain dots. */
  lemma ScopesAreIsolated(a: Scope, b: Scope, t: Text)
    ensures Decode(a, t).Some? && Decode(b, t).Some? ==> a == b
  {
    if Decode(a, t).None? || Decode(b, t).None? {
      return;
    }
    if |Prefix(a)| < |Prefix(b)| {
      LongerPrefixFails(a, b, t);
    } else if |Prefix(b)| < |Prefix(a)| {
      LongerPrefixFails(b, a, t);
    }
    var n := |Prefix(a)|;
    assert Prefix(a) == t[..n] == Prefix(b);
    if a.Request? && b.Request? {
      assert Prefix(a)[3..] == a.fingerprint && Prefix(b)[3..] == b.fingerprint;
    } else {
      assert Prefix(a)[0] == Prefix(b)[0];
      assert a.System? && b.System? ==> Prefix(a)[3] == Prefix(b)[3];
    }
  }

  /** A longer prefix would leave a dot too many behind the shorter one. */
  lemma LongerPrefixFails(a: Scope, b: Scope, t: Text)
    requires |Prefix(a)| < |Prefix(b)| && Decode(a, t).Some?
    ensures Decode(b, t).None?
  {
    hide Decode, Prefix, Split;
    if Decode(b, t).Some? {
      FourParted(a, t);
      FourParted(b, t);
      var short, long := |Prefix(a)| + 1, |Prefix(b)| + 1;
      CutAtDot(t, short, long, Prefix(b));
      SplitJoined(t[short..long - 1], DOT, t[long..]);
    }
  }

  lemma FourParted(scope: Scope, t: Text)
    requires Decode(scope, t).Some?
    ensures Prefix(scope) + [DOT] <= t && |Split(t[|Prefix(scope)| + 1..], DOT)| == 4
  {
    hide Prefix, Split, DecodePosition;
  }

  lemma CutAtDot(t: Text, short: nat, long: nat, prefix: Text)
    requires short < long == |prefix| + 1 && prefix + [DOT] <= t
    ensures t[short..] == t[short..long - 1] + [DOT] + t[long..]
  {
    assert t[long - 1] == (prefix + [DOT])[long - 1] == DOT;
  }
}
