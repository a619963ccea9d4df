/** Byte-level JSON text (RFC 8259): scanning values, and writing and reading
    strings. Scanners return the position behind what they read. */
module JsonText {
  import opened Basics

  const QUOTE: byte := 34
  const LBRACKET: byte := 91
  const BACKSLASH: byte := 92
  const RBRACKET: byte := 93
  const LBRACE: byte := 123
  const RBRACE: byte := 125

  // ----- white space, literals, numbers

  predicate IsSpace(c: byte) {
    c == 32 || c == 9 || c == 10 || c == 13
  }

  function Skip(b: Text, i: nat): (j: nat)
    requires i <= |b|
    ensures i <= j <= |b|
    ensures j < |b| ==> !IsSpace(b[j])
    decreases |b| - i
  {
    if i < |b| && IsSpace(b[i]) then Skip(b, i + 1) else i
  }

  predicate At(b: Text, i: nat, c: byte) {
    i < |b| && b[i] == c
  }

  /** Bytes that could continue a number. */
  predicate InNumber(c: byte) {
    IsDigit(c) || c == 43 || c == 45 || c == 46 || c == 69 || c == 101
  }

  function Digits(b: Text, i: nat): (j: nat)
    requires i <= |b|
    ensures i <= j <= |b|
    ensures j < |b| ==> !IsDigit(b[j])
    decreases |b| - i
  {
    if i < |b| && IsDigit(b[i]) then Digits(b, i + 1) else i
  }

  function SomeDigits(b: Text, i: nat): (r: Option<nat>)
    requires i <= |b|
    ensures r.Some? ==> i < r.value <= |b|
  {
    var j := Digits(b, i);
    if j > i then Some(j) else None
  }

  /** No digit may follow a leading zero. */
  function Integer(b: Text, i: nat): (r: Option<nat>)
    requires i <= |b|
    ensures r.Some? ==> i < r.value <= |b|
  {
    if !At(b, i, 48) then SomeDigits(b, i)
    else if i + 1 < |b| && IsDigit(b[i + 1]) then None
    else Some(i + 1)
  }

  function Fraction(b: Text, i: nat): (r: Option<nat>)
    requires i <= |b|
    ensures r.Some? ==> i <= r.value <= |b|
  {
    if At(b, i, 46) then SomeDigits(b, i + 1) else Some(i)
  }

  function Exponent(b: Text, i: nat): (r: Option<nat>)
    requires i <= |b|
    ensures r.Some? ==> i <= r.value <= |b|
  {
    if At(b, i, 69) || At(b, i, 101) then
      SomeDigits(b, if At(b, i + 1, 43) || At(b, i + 1, 45) then i + 2 else i + 1)
    else Some(i)
  }

  function Number(b: Text, i: nat): (r: Option<nat>)
    requires i <= |b|
    ensures r.Some? ==> i < r.value <= |b|
  {
    var whole := Integer(b, if At(b, i, 45) then i + 1 else i);
    if whole.None? then None
    else
      var fraction := Fraction(b, whole.value);
      if fraction.None? then None else Exponent(b, fraction.value)
  }

  function Literal(b: Text, i: nat, word: Text): (r: Option<nat>)
    requires i <= |b| && word != []
    ensures r.Some? ==> i < r.value <= |b|
  {
    if i + |word| <= |b| && b[i..i + |word|] == word then Some(i + |word|) else None
  }

  const NULL: Text := [110, 117, 108, 108]

  // ----- strings

  function HexDigit(c: byte): Option<nat> {
    if 48 <= c <= 57 then Some((c - 48) as nat)
    else if 97 <= c <= 102 then Some((c - 87) as nat)
    else if 65 <= c <= 70 then Some((c - 55) as nat)
    else None
  }

  function Hex4(b: Text, i: nat): (r: Option<nat>)
    ensures r.Some? ==> i + 4 <= |b| && r.value < 0x10000
  {
    if i + 4 > |b| then None
    else
      match (HexDigit(b[i]), HexDigit(b[i + 1]), HexDigit(b[i + 2]), HexDigit(b[i + 3]))
      case (Some(p), Some(q), Some(r), Some(s)) =>
        HexBounds(b[i]); HexBounds(b[i + 1]); HexBounds(b[i + 2]); HexBounds(b[i + 3]);
        Some(((p * 16 + q) * 16 + r) * 16 + s)
      case _ => None
  }

  lemma HexBounds(c: byte)
    ensures HexDigit(c).Some? ==> HexDigit(c).value < 16
  {
  }

  /** The byte a one-letter escape stands for. */
  function ShortEscape(c: byte): Option<byte> {
    if c == QUOTE || c == BACKSLASH || c == 47 then Some(c)
    else if c == 98 then Some(8)
    else if c == 102 then Some(12)
    else if c == 110 then Some(10)
    else if c == 114 then Some(13)
    else if c == 116 then Some(9)
    else None
  }

  /** Length of the escape whose letter is at `i`; zero if it is malformed. */
  function EscapeLength(b: Text, i: nat): (n: nat)
    ensures n > 0 ==> i + n <= |b|
  {
    if i >= |b| then 0
    else if ShortEscape(b[i]).Some? then 1
    else if b[i] == 117 && Hex4(b, i + 1).Some? then 5
    else 0
  }

  /** From inside a string to behind its closing quote. */
  function StringEnd(b: Text, i: nat): (r: Option<nat>)
    requires i <= |b|
    ensures r.Some? ==> i < r.value <= |b| && b[r.value - 1] == QUOTE
    decreases |b| - i
  {
    if i == |b| then None
    else if b[i] == QUOTE then Some(i + 1)
    else if b[i] == BACKSLASH then
      var n := EscapeLength(b, i + 1);
      if n == 0 then None else StringEnd(b, i + 1 + n)
    else if b[i] < 32 then None
    else StringEnd(b, i + 1)
  }

  function String(b: Text, i: nat): (r: Option<nat>)
    requires i <= |b|
    ensures r.Some? ==> i + 1 < r.value <= |b|
  {
    if At(b, i, QUOTE) then StringEnd(b, i + 1) else None
  }

  // ----- values

  /** One member of an object: where its key, quotes included, and its value are. */
  datatype Member = Member(keyLo: nat, keyHi: nat, lo: nat, hi: nat)

  datatype Members = Bad | Members(list: seq<Member>, end: nat)

  function Value(b: Text, i: nat): (r: Option<nat>)
    requires i <= |b|
    ensures r.Some? ==> i < r.value <= |b|
    decreases |b| - i, 1
  {
    if i == |b| then None
    else if b[i] == QUOTE then String(b, i)
    else if b[i] == LBRACE then
      match Object(b, i)
      case Bad => None
      case Members(_, end) => Some(end)
    else if b[i] == LBRACKET then
      var k := Skip(b, i + 1);
      if At(b, k, RBRACKET) then Some(k + 1) else Elements(b, k)
    else if b[i] == 116 then Literal(b, i, TRUE)
    else if b[i] == 102 then Literal(b, i, FALSE)
    else if b[i] == 110 then Literal(b, i, NULL)
    else Number(b, i)
  }

  /** The elements of an array up to and including its bracket. */
  function Elements(b: Text, i: nat): (r: Option<nat>)
    requires i <= |b|
    ensures r.Some? ==> i < r.value <= |b|
    decreases |b| - i, 2
  {
    match Value(b, i)
    case None => None
    case Some(j) =>
      var k := Skip(b, j);
      if At(b, k, RBRACKET) then Some(k + 1)
      else if At(b, k, COMMA) then Elements(b, Skip(b, k + 1))
      else None
  }

  function Object(b: Text, i: nat): (r: Members)
    requires i <= |b|
    ensures r.Members? ==> i < r.end <= |b|
    decreases |b| - i, 0
  {
    if !At(b, i, LBRACE) then Bad
    else
      var k := Skip(b, i + 1);
      if At(b, k, RBRACE) then Members([], k + 1) else ObjectMembers(b, k)
  }

  /** The members of an object up to and including its brace. */
  function ObjectMembers(b: Text, i: nat): (r: Members)
    requires i <= |b|
    ensures r.Members? ==> i < r.end <= |b|
    decreases |b| - i, 2
  {
    match OneMember(b, i)
    case None => Bad
    case Some(m) =>
      var k := Skip(b, m.hi);
      if At(b, k, RBRACE) then Members([m], k + 1)
      else if At(b, k, COMMA) then
        match ObjectMembers(b, Skip(b, k + 1))
        case Bad => Bad
        case Members(rest, end) => Members([m] + rest, end)
      else Bad
  }

  function OneMember(b: Text, i: nat): (r: Option<Member>)
    requires i <= |b|
    ensures r.Some? ==> i == r.value.keyLo < r.value.keyHi < r.value.lo < r.value.hi <= |b|
    decreases |b| - i, 1
  {
    match String(b, i)
    case None => None
    case Some(keyHi) =>
      var k := Skip(b, keyHi);
      if !At(b, k, COLON) then None
      else
        var lo := Skip(b, k + 1);
        match Value(b, lo)
        case None => None
        case Some(hi) => Some(Member(i, keyHi, lo, hi))
  }

  /** The text is one JSON value without surrounding white space. */
  predicate IsValue(v: Text) {
    Value(v, 0) == Some(|v|)
  }

  // ----- the same bytes scan the same way elsewhere

  /** `a[lo..hi]` stands in `b`, moved by `d`. */
  ghost predicate Same(a: Text, b: Text, lo: nat, hi: nat, d: int) {
    && lo <= hi <= |a| && 0 <= lo + d && hi + d <= |b|
    && forall t | lo <= t < hi :: a[t] == b[t + d]
  }

  /** A number read up to `i` cannot go on. */
  predicate Stops(b: Text, i: nat) {
    i < |b| ==> !InNumber(b[i])
  }

  lemma {:induction false} SkipMoved(a: Text, b: Text, i: nat, d: int, hi: nat)
    requires i <= |a| && Skip(a, i) < hi && Same(a, b, i, hi, d)
    ensures Skip(b, i + d) == Skip(a, i) + d
    decreases |a| - i
  {
    if IsSpace(a[i]) {
      SkipMoved(a, b, i + 1, d, hi);
    }
  }

  lemma {:induction false} DigitsMoved(a: Text, b: Text, i: nat, d: int)
    requires i <= |a| && Same(a, b, i, Digits(a, i), d)
    requires Digits(a, i) + d < |b| ==> !IsDigit(b[Digits(a, i) + d])
    ensures Digits(b, i + d) == Digits(a, i) + d
    decreases |a| - i
  {
    if i < |a| && IsDigit(a[i]) {
      DigitsMoved(a, b, i + 1, d);
    }
  }

  lemma IntegerMoved(a: Text, b: Text, i: nat, d: int)
    requires i <= |a| && Integer(a, i).Some? && Same(a, b, i, Integer(a, i).value, d)
    requires var end := Integer(a, i).value + d; end < |b| ==> !IsDigit(b[end])
    ensures Integer(b, i + d) == Some(Integer(a, i).value + d)
  {
    assert a[i] == b[i + d];
    if !At(a, i, 48) {
      DigitsMoved(a, b, i, d);
    }
  }

  lemma FractionMoved(a: Text, b: Text, i: nat, d: int)
    requires i <= |a| && 0 <= i + d <= |b| && Fraction(a, i).Some? && Same(a, b, i, Fraction(a, i).value, d)
    requires var end := Fraction(a, i).value + d; end < |b| ==> !IsDigit(b[end]) && (end == i + d ==> b[end] != 46)
    ensures Fraction(b, i + d) == Some(Fraction(a, i).value + d)
  {
    if At(a, i, 46) {
      assert a[i] == b[i + d];
      DigitsMoved(a, b, i + 1, d);
    }
  }

  lemma ExponentMoved(a: Text, b: Text, i: nat, d: int)
    requires i <= |a| && 0 <= i + d <= |b| && Exponent(a, i).Some? && Same(a, b, i, Exponent(a, i).value, d)
    requires Stops(b, Exponent(a, i).value + d)
    ensures Exponent(b, i + d) == Some(Exponent(a, i).value + d)
  {
    if At(a, i, 69) || At(a, i, 101) {
      assert a[i] == b[i + d] && a[i + 1] == b[i + 1 + d];
      DigitsMoved(a, b, if At(a, i + 1, 43) || At(a, i + 1, 45) then i + 2 else i + 1, d);
    }
  }

  lemma NumberMoved(a: Text, b: Text, i: nat, d: int)
    requires i <= |a| && Number(a, i).Some?
    requires Same(a, b, i, Number(a, i).value, d) && Stops(b, Number(a, i).value + d)
    ensures Number(b, i + d) == Some(Number(a, i).value + d)
  {
    hide Digits;
    var end := Number(a, i).value;
    var start := if At(a, i, 45) then i + 1 else i;
    var whole := Integer(a, start).value;
    var fraction := Fraction(a, whole).value;
    assert a[i] == b[i + d];
    assert whole < end ==> a[whole] == b[whole + d];
    assert fraction < end ==> a[fraction] == b[fraction + d];
    IntegerMoved(a, b, start, d);
    FractionMoved(a, b, whole, d);
    ExponentMoved(a, b, fraction, d);
  }

  lemma LiteralMoved(a: Text, b: Text, i: nat, word: Text, d: int)
    requires i <= |a| && word != [] && Literal(a, i, word).Some? && Same(a, b, i, Literal(a, i, word).value, d)
    ensures Literal(b, i + d, word) == Some(Literal(a, i, word).value + d)
  {
    assert b[i + d..i + d + |word|] == a[i..i + |word|];
  }

  lemma EscapeMoved(a: Text, b: Text, i: nat, d: int)
    requires EscapeLength(a, i) > 0 && Same(a, b, i, i + EscapeLength(a, i), d)
    ensures EscapeLength(b, i + d) == EscapeLength(a, i)
  {
    var n := EscapeLength(a, i);
    assert a[i] == b[i + d];
    if n == 5 {
      assert forall t | i + 1 <= t < i + 5 :: a[t] == b[t + d];
      assert a[i + 1] == b[i + 1 + d] && a[i + 2] == b[i + 2 + d] && a[i + 3] == b[i + 3 + d] && a[i + 4] == b[i + 4 + d];
    }
  }

  lemma {:induction false} StringEndMoved(a: Text, b: Text, i: nat, d: int)
    requires i <= |a| && StringEnd(a, i).Some? && Same(a, b, i, StringEnd(a, i).value, d)
    ensures StringEnd(b, i + d) == Some(StringEnd(a, i).value + d)
    decreases |a| - i
  {
    assert a[i] == b[i + d];
    if a[i] == QUOTE {
    } else if a[i] == BACKSLASH {
      EscapeMoved(a, b, i + 1, d);
      StringEndMoved(a, b, i + 1 + EscapeLength(a, i + 1), d);
    } else {
      StringEndMoved(a, b, i + 1, d);
    }
  }

  lemma StringMoved(a: Text, b: Text, i: nat, d: int)
    requires i <= |a| && String(a, i).Some? && Same(a, b, i, String(a, i).value, d)
    ensures String(b, i + d) == Some(String(a, i).value + d)
  {
    StringEndMoved(a, b, i + 1, d);
  }

  lemma {:induction false} ValueMoved(a: Text, b: Text, i: nat, d: int)
    requires i <= |a| && Value(a, i).Some?
    requires Same(a, b, i, Value(a, i).value, d) && Stops(b, Value(a, i).value + d)
    ensures Value(b, i + d) == Some(Value(a, i).value + d)
    decreases |a| - i, 1
  {
    hide Object, Elements, Number, Literal, String, Skip;
    assert a[i] == b[i + d];
    if a[i] == QUOTE {
      StringMoved(a, b, i, d);
    } else if a[i] == LBRACE {
      ObjectMoved(a, b, i, d);
    } else if a[i] == LBRACKET {
      SkipMoved(a, b, i + 1, d, Value(a, i).value);
      var k := Skip(a, i + 1);
      assert a[k] == b[k + d];
      if a[k] != RBRACKET {
        ElementsMoved(a, b, k, d);
      }
    } else if a[i] == 116 {
      LiteralMoved(a, b, i, TRUE, d);
    } else if a[i] == 102 {
      LiteralMoved(a, b, i, FALSE, d);
    } else if a[i] == 110 {
      LiteralMoved(a, b, i, NULL, d);
    } else {
      NumberMoved(a, b, i, d);
    }
  }

  /** A value followed, after white space, by a delimiter that is also there. */
  lemma {:induction false} ValueInsideMoved(a: Text, b: Text, i: nat, d: int, hi: nat)
    requires i <= |a| && Value(a, i).Some? && Skip(a, Value(a, i).value) < hi
    requires Same(a, b, i, hi, d)
    requires var c := a[Skip(a, Value(a, i).value)]; c == COMMA || c == RBRACE || c == RBRACKET
    ensures Value(b, i + d) == Some(Value(a, i).value + d)
    ensures Skip(b, Value(a, i).value + d) == Skip(a, Value(a, i).value) + d
    decreases |a| - i, 2
  {
    var j := Value(a, i).value;
    assert a[j] == b[j + d];
    assert IsSpace(a[j]) || j == Skip(a, j);
    ValueMoved(a, b, i, d);
    SkipMoved(a, b, j, d, hi);
  }

  lemma {:induction false} ElementsMoved(a: Text, b: Text, i: nat, d: int)
    requires i <= |a| && Elements(a, i).Some? && Same(a, b, i, Elements(a, i).value, d)
    ensures Elements(b, i + d) == Some(Elements(a, i).value + d)
    decreases |a| - i, 3
  {
    hide Value, Skip, Elements;
    ElementsUnfold(a, i);
    var end := Elements(a, i).value;
    var k := Skip(a, Value(a, i).value);
    ValueInsideMoved(a, b, i, d, end);
    assert b[k + d] == a[k];
    ElementsUnfold(b, i + d);
    if At(a, k, COMMA) {
      SkipMoved(a, b, k + 1, d, end);
      ElementsMoved(a, b, Skip(a, k + 1), d);
    }
  }

  lemma ElementsUnfold(b: Text, i: nat)
    requires i <= |b|
    ensures Elements(b, i).Some? ==> Value(b, i).Some?
    ensures Value(b, i).Some? ==>
              var k := Skip(b, Value(b, i).value);
              Elements(b, i) == if At(b, k, RBRACKET) then Some(k + 1)
                                else if At(b, k, COMMA) then Elements(b, Skip(b, k + 1)) else None
  {
    hide Value, Skip;
  }

  predicate Movable(m: Member, d: int) {
    0 <= m.keyLo + d && 0 <= m.keyHi + d && 0 <= m.lo + d && 0 <= m.hi + d
  }

  function Shifted(m: Member, d: int): Member
    requires Movable(m, d)
  {
    Member(m.keyLo + d, m.keyHi + d, m.lo + d, m.hi + d)
  }

  /** `ms` are members inside `[lo, hi)`, so that they can be moved. */
  ghost predicate Within(ms: seq<Member>, lo: nat, hi: nat) {
    forall i | 0 <= i < |ms| :: lo <= ms[i].keyLo < ms[i].keyHi < ms[i].lo < ms[i].hi < hi
  }

  function AllShifted(ms: seq<Member>, d: int): (r: seq<Member>)
    requires forall i | 0 <= i < |ms| :: Movable(ms[i], d)
    ensures |r| == |ms|
    ensures forall i | 0 <= i < |ms| :: r[i] == Shifted(ms[i], d)
  {
    seq(|ms|, i requires 0 <= i < |ms| => Shifted(ms[i], d))
  }

  lemma {:induction false} MembersWithin(b: Text, i: nat)
    requires i <= |b| && ObjectMembers(b, i).Members?
    ensures Within(ObjectMembers(b, i).list, i, ObjectMembers(b, i).end)
    ensures ObjectMembers(b, i).list != []
    decreases |b| - i
  {
    hide OneMember, Skip, ObjectMembers, Within;
    FirstMember(b, i);
    var m := OneMember(b, i).value;
    var k := Skip(b, m.hi);
    MembersUnfold(b, i, m, k);
    if At(b, k, COMMA) {
      var next := Skip(b, k + 1);
      MembersWithin(b, next);
      WithinCons(m, ObjectMembers(b, next).list, i, next, ObjectMembers(b, i).end);
    } else {
      WithinOne(m, i, ObjectMembers(b, i).end);
    }
  }

  lemma WithinOne(m: Member, lo: nat, hi: nat)
    requires lo <= m.keyLo < m.keyHi < m.lo < m.hi < hi
    ensures Within([m], lo, hi)
  {
  }

  lemma WithinCons(m: Member, rest: seq<Member>, lo: nat, from: nat, hi: nat)
    requires lo <= m.keyLo < m.keyHi < m.lo < m.hi < hi && lo <= from && Within(rest, from, hi)
    ensures Within([m] + rest, lo, hi)
  {
  }

  /** One member followed by a delimiter that is also there. */
  lemma {:induction false} OneMemberMoved(a: Text, b: Text, i: nat, d: int, hi: nat)
    requires i <= |a| && OneMember(a, i).Some? && Same(a, b, i, hi, d)
    requires var k := Skip(a, OneMember(a, i).value.hi); k < hi && (a[k] == COMMA || a[k] == RBRACE)
    ensures OneMember(b, i + d) == Some(Shifted(OneMember(a, i).value, d))
    ensures Skip(b, OneMember(a, i).value.hi + d) == Skip(a, OneMember(a, i).value.hi) + d
    decreases |a| - i, 3
  {
    hide Value, Skip, String;
    var m := OneMember(a, i).value;
    var k := Skip(a, m.keyHi);
    StringMoved(a, b, i, d);
    SkipMoved(a, b, m.keyHi, d, hi);
    assert a[k] == b[k + d];
    SkipMoved(a, b, k + 1, d, hi);
    ValueInsideMoved(a, b, m.lo, d, hi);
  }

  lemma ShiftedCons(m: Member, rest: seq<Member>, d: int)
    requires Movable(m, d) && forall i | 0 <= i < |rest| :: Movable(rest[i], d)
    ensures AllShifted([m], d) == [Shifted(m, d)]
    ensures AllShifted([m] + rest, d) == [Shifted(m, d)] + AllShifted(rest, d)
  {
  }

  lemma MemberParts(b: Text, i: nat, m: Member)
    requires i <= |b| && OneMember(b, i) == Some(m)
    ensures String(b, i) == Some(m.keyHi) && At(b, Skip(b, m.keyHi), COLON)
    ensures Skip(b, Skip(b, m.keyHi) + 1) == m.lo && Value(b, m.lo) == Some(m.hi)
  {
    hide Value, String, Skip;
  }

  lemma MemberFrom(b: Text, m: Member, colon: nat)
    requires m.keyLo <= |b| && String(b, m.keyLo) == Some(m.keyHi) && Skip(b, m.keyHi) == colon && At(b, colon, COLON)
    requires Skip(b, colon + 1) == m.lo && Value(b, m.lo) == Some(m.hi)
    ensures OneMember(b, m.keyLo) == Some(m)
  {
    hide Value, String, Skip;
  }

  lemma FirstMember(b: Text, i: nat)
    requires i <= |b| && ObjectMembers(b, i).Members?
    ensures OneMember(b, i).Some? && ObjectMembers(b, i).list != [] && ObjectMembers(b, i).list[0] == OneMember(b, i).value
    ensures var k := Skip(b, OneMember(b, i).value.hi);
            k < ObjectMembers(b, i).end && (At(b, k, COMMA) || At(b, k, RBRACE))
  {
    hide OneMember, Skip;
  }

  lemma MembersUnfold(b: Text, i: nat, m: Member, k: nat)
    requires i <= |b| && OneMember(b, i) == Some(m) && Skip(b, m.hi) == k
    ensures At(b, k, RBRACE) ==> ObjectMembers(b, i) == Members([m], k + 1)
    ensures At(b, k, COMMA) ==>
              var rest := ObjectMembers(b, Skip(b, k + 1));
              ObjectMembers(b, i) == if rest.Bad? then Bad else Members([m] + rest.list, rest.end)
    ensures !At(b, k, COMMA) && !At(b, k, RBRACE) ==> ObjectMembers(b, i) == Bad
  {
    hide OneMember, Skip;
  }

  lemma {:induction false} MembersMoved(a: Text, b: Text, i: nat, d: int)
    requires i <= |a| && ObjectMembers(a, i).Members? && Same(a, b, i, ObjectMembers(a, i).end, d)
    requires Within(ObjectMembers(a, i).list, i, ObjectMembers(a, i).end)
    ensures ObjectMembers(b, i + d) == Members(AllShifted(ObjectMembers(a, i).list, d), ObjectMembers(a, i).end + d)
    decreases |a| - i, 4
  {
    hide OneMember, Skip, AllShifted, ObjectMembers;
    FirstMember(a, i);
    var m := OneMember(a, i).value;
    var k := Skip(a, m.hi);
    FirstMemberMoved(a, b, i, d, m, k);
    MembersUnfold(a, i, m, k);
    if At(a, k, COMMA) {
      MembersWithin(a, Skip(a, k + 1));
      LaterMembersMoved(a, b, k + 1, d);
      MoreMembersMoved(a, b, i, d, m, k);
    } else {
      ShiftedCons(m, [], d);
      MembersUnfold(b, i + d, Shifted(m, d), k + d);
    }
  }

  lemma {:induction false} LaterMembersMoved(a: Text, b: Text, i: nat, d: int)
    requires i <= |a| && ObjectMembers(a, Skip(a, i)).Members?
    requires var rest := ObjectMembers(a, Skip(a, i)); Same(a, b, i, rest.end, d) && Within(rest.list, Skip(a, i), rest.end)
    ensures var rest := ObjectMembers(a, Skip(a, i));
            && Skip(b, i + d) == Skip(a, i) + d
            && ObjectMembers(b, Skip(a, i) + d) == Members(AllShifted(rest.list, d), rest.end + d)
    decreases |a| - i, 5
  {
    hide Skip, AllShifted, ObjectMembers;
    var end := ObjectMembers(a, Skip(a, i)).end;
    SkipMoved(a, b, i, d, end);
    MembersMoved(a, b, Skip(a, i), d);
  }

  lemma MoreMembersMoved(a: Text, b: Text, i: nat, d: int, m: Member, k: nat)
    requires k < |a| && ObjectMembers(a, Skip(a, k + 1)).Members?
    requires Movable(m, d) && 0 <= i + d <= |b| && OneMember(b, i + d) == Some(Shifted(m, d)) && 0 <= k + d
    requires Skip(b, m.hi + d) == k + d && At(b, k + d, COMMA) && Skip(b, k + 1 + d) == Skip(a, k + 1) + d
    requires var rest := ObjectMembers(a, Skip(a, k + 1));
             && (forall t | 0 <= t < |rest.list| :: Movable(rest.list[t], d)) && 0 <= rest.end + d
             && ObjectMembers(b, Skip(a, k + 1) + d) == Members(AllShifted(rest.list, d), rest.end + d)
    ensures var rest := ObjectMembers(a, Skip(a, k + 1));
            ObjectMembers(b, i + d) == Members(AllShifted([m] + rest.list, d), rest.end + d)
  {
    hide OneMember, Skip, AllShifted, ObjectMembers;
    ShiftedCons(m, ObjectMembers(a, Skip(a, k + 1)).list, d);
    MembersUnfold(b, i + d, Shifted(m, d), k + d);
  }

  lemma {:induction false} FirstMemberMoved(a: Text, b: Text, i: nat, d: int, m: Member, k: nat)
    requires i <= |a| && ObjectMembers(a, i).Members? && Same(a, b, i, ObjectMembers(a, i).end, d)
    requires OneMember(a, i) == Some(m) && k == Skip(a, m.hi) < ObjectMembers(a, i).end
    requires At(a, k, RBRACE) || At(a, k, COMMA)
    ensures Movable(m, d) && OneMember(b, i + d) == Some(Shifted(m, d)) && Skip(b, m.hi + d) == k + d
    ensures k + d < |b| && b[k + d] == a[k]
    decreases |a| - i, 4, 0
  {
    hide OneMember, Skip, ObjectMembers;
    OneMemberMoved(a, b, i, d, ObjectMembers(a, i).end);
  }

  lemma {:induction false} ObjectMoved(a: Text, b: Text, i: nat, d: int)
    requires i <= |a| && Object(a, i).Members? && Same(a, b, i, Object(a, i).end, d)
    ensures Object(b, i + d).Members? && Object(b, i + d).end == Object(a, i).end + d
    decreases |a| - i, 0
  {
    assert a[i] == b[i + d];
    var k := Skip(a, i + 1);
    SkipMoved(a, b, i + 1, d, Object(a, i).end);
    assert a[k] == b[k + d];
    if a[k] != RBRACE {
      MembersWithin(a, k);
      MembersMoved(a, b, k, d);
    }
  }

  /** Cutting a scanned value out of its surroundings keeps it a value. */
  lemma ValueCutOut(b: Text, lo: nat)
    requires lo <= |b| && Value(b, lo).Some?
    ensures IsValue(b[lo..Value(b, lo).value])
  {
    var hi := Value(b, lo).value;
    var v := b[lo..hi];
    var d: int := -(lo as int);
    assert Same(b, v, lo, hi, d);
    ValueMoved(b, v, lo, d);
  }

  /** A value put between other bytes is scanned to its end. */
  lemma ValuePutIn(v: Text, b: Text, lo: nat)
    requires IsValue(v) && lo + |v| <= |b| && b[lo..lo + |v|] == v && Stops(b, lo + |v|)
    ensures Value(b, lo) == Some(lo + |v|)
  {
    assert forall t | 0 <= t < |v| :: v[t] == b[lo..lo + |v|][t];
    ValueMoved(v, b, 0, lo);
  }

  // ----- writing and reading strings

  const HEX: seq<byte> := [48, 49, 50, 51, 52, 53, 54, 55, 56, 57, 97, 98, 99, 100, 101, 102]

  /** The JSON writer's escaping of one byte. */
  function EscapeByte(c: byte): (r: Text)
    ensures r != []
  {
    if c == QUOTE || c == BACKSLASH then [BACKSLASH, c]
    else if c == 8 then [BACKSLASH, 98]
    else if c == 9 then [BACKSLASH, 116]
    else if c == 10 then [BACKSLASH, 110]
    else if c == 12 then [BACKSLASH, 102]
    else if c == 13 then [BACKSLASH, 114]
    else if c < 32 then [BACKSLASH, 117, 48, 48, HEX[c / 16], HEX[c % 16]]
    else [c]
  }

  function Escape(s: Text): Text {
    if s == [] then [] else EscapeByte(s[0]) + Escape(s[1..])
  }

  function Quote(s: Text): (q: Text)
    ensures |q| >= 2
  {
    [QUOTE] + Escape(s) + [QUOTE]
  }

  /** UTF-8 of a code point. */
  function Utf8(code: nat): Text
    requires code < 0x110000
  {
    if code < 0x80 then [code as byte]
    else if code < 0x800 then [(0xC0 + code / 64) as byte, (0x80 + code % 64) as byte]
    else if code < 0x10000 then
      [(0xE0 + code / 4096) as byte, (0x80 + code / 64 % 64) as byte, (0x80 + code % 64) as byte]
    else
      [(0xF0 + code / 262144) as byte, (0x80 + code / 4096 % 64) as byte, (0x80 + code / 64 % 64) as byte, (0x80 + code % 64) as byte]
  }

  predicate HighSurrogate(code: nat) {
    0xD800 <= code < 0xDC00
  }

  predicate LowSurrogate(code: nat) {
    0xDC00 <= code < 0xE000
  }

  /** What the text between two quotes denotes; none for a lone surrogate. */
  function Unescape(s: Text): Option<Text> {
    if s == [] then Some([])
    else if s[0] != BACKSLASH then Prefixed([s[0]], Unescape(s[1..]))
    else if |s| == 1 then None
    else if ShortEscape(s[1]).Some? then Prefixed([ShortEscape(s[1]).value], Unescape(s[2..]))
    else if s[1] != 117 then None
    else
      match Hex4(s, 2)
      case None => None
      case Some(code) =>
        if LowSurrogate(code) then None
        else if !HighSurrogate(code) then Prefixed(Utf8(code), Unescape(s[6..]))
        else if |s| < 8 || s[6] != BACKSLASH || s[7] != 117 then None
        else
          match Hex4(s, 8)
          case None => None
          case Some(low) =>
            if !LowSurrogate(low) then None
            else Prefixed(Utf8(0x10000 + (code - 0xD800) * 1024 + (low - 0xDC00)), Unescape(s[12..]))
  }

  function Prefixed(head: Text, tail: Option<Text>): Option<Text> {
    match tail
    case None => None
    case Some(t) => Some(head + t)
  }

  /** The string a JSON text denotes, if it is one. */
  function StringValue(raw: Text): Option<Text> {
    if String(raw, 0) == Some(|raw|) then Unescape(raw[1..|raw| - 1]) else None
  }

  lemma UnescapeHex(c: byte, rest: Text)
    requires c < 32
    ensures Unescape([BACKSLASH, 117, 48, 48, HEX[c / 16], HEX[c % 16]] + rest) == Prefixed([c], Unescape(rest))
  {
    var s := [BACKSLASH, 117, 48, 48, HEX[c / 16], HEX[c % 16]] + rest;
    HexOfControl(c);
    assert Hex4(s, 2) == Some(c as nat);
    assert s[6..] == rest;
  }

  lemma UnescapeStep(c: byte, rest: Text)
    ensures Unescape(EscapeByte(c) + rest) == Prefixed([c], Unescape(rest))
  {
    var s := EscapeByte(c) + rest;
    if |EscapeByte(c)| == 6 {
      UnescapeHex(c, rest);
    } else if |EscapeByte(c)| == 2 {
      assert s[2..] == rest;
    } else {
      assert s[1..] == rest;
    }
  }

  lemma HexOfControl(c: byte)
    requires c < 32
    ensures HexDigit(HEX[c / 16]) == Some(c as nat / 16) && HexDigit(HEX[c % 16]) == Some(c as nat % 16)
  {
  }

  /** Reading what was written gives the string back. */
  lemma {:induction false} UnescapeEscape(s: Text)
    ensures Unescape(Escape(s)) == Some(s)
  {
    hide EscapeByte;
    if s != [] {
      hide Unescape;
      UnescapeEscape(s[1..]);
      UnescapeStep(s[0], Escape(s[1..]));
      assert s == [s[0]] + s[1..];
    }
  }

  lemma EscapedByte(c: byte, b: Text, i: nat)
    requires i + |EscapeByte(c)| <= |b| && b[i..i + |EscapeByte(c)|] == EscapeByte(c)
    ensures StringEnd(b, i) == StringEnd(b, i + |EscapeByte(c)|)
  {
    var e := EscapeByte(c);
    var cut := b[i..i + |e|];
    assert b[i] == cut[0];
    if |e| == 6 {
      HexOfControl(c);
      assert b[i + 1] == cut[1] && b[i + 2] == cut[2] && b[i + 3] == cut[3] && b[i + 4] == cut[4] && b[i + 5] == cut[5];
    } else if |e| == 2 {
      assert b[i + 1] == cut[1];
    }
  }

  lemma EndsHere(b: Text, i: nat)
    requires i < |b| && b[i] == QUOTE
    ensures StringEnd(b, i) == Some(i + 1)
  {
  }

  lemma CutInTwo(b: Text, i: nat, e: Text, rest: Text)
    requires i + |e + rest| <= |b| && b[i..i + |e + rest|] == e + rest
    ensures b[i..i + |e|] == e && b[i + |e|..i + |e| + |rest|] == rest
  {
    var all := b[i..i + |e + rest|];
    assert b[i..i + |e|] == all[..|e|] && b[i + |e|..i + |e| + |rest|] == all[|e|..];
  }

  lemma {:induction false} QuoteEnds(s: Text, b: Text, i: nat)
    requires i + |Escape(s)| < |b| && b[i..i + |Escape(s)|] == Escape(s) && b[i + |Escape(s)|] == QUOTE
    ensures StringEnd(b, i) == Some(i + |Escape(s)| + 1)
    decreases |s|
  {
    hide EscapeByte, StringEnd;
    if s == [] {
      assert b[i] == QUOTE;
      EndsHere(b, i);
    } else {
      var e, rest := EscapeByte(s[0]), Escape(s[1..]);
      assert Escape(s) == e + rest;
      CutInTwo(b, i, e, rest);
      EscapedByte(s[0], b, i);
      QuoteEnds(s[1..], b, i + |e|);
    }
  }

  /** A written string is a value and denotes what was written. */
  lemma QuoteIsValue(s: Text)
    ensures String(Quote(s), 0) == Some(|Quote(s)|) && IsValue(Quote(s))
    ensures StringValue(Quote(s)) == Some(s)
  {
    hide String, Quote, Unescape, Escape, Object, Elements;
    QuoteIsString(s);
    QuoteInside(s);
    UnescapeEscape(s);
  }

  lemma QuoteIsString(s: Text)
    ensures String(Quote(s), 0) == Some(|Quote(s)|) && At(Quote(s), 0, QUOTE)
  {
    hide StringEnd, Escape;
    var q := Quote(s);
    assert q[1..1 + |Escape(s)|] == Escape(s);
    QuoteEnds(s, q, 1);
  }

  lemma QuoteInside(s: Text)
    ensures Quote(s)[1..|Quote(s)| - 1] == Escape(s)
  {
    hide Escape;
  }
}
