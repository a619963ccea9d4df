/** Values shared by every component: bytes, text, options, the order on keys
    and the sort that the source gets from its standard library. */
module Basics {

  newtype byte = x: int | 0 <= x < 256

  /** A `&str` or a `&[u8]`: text is its UTF-8 bytes. */
  type Text = seq<byte>

  datatype Option<+T> = None | Some(value: T)

  datatype Result<+T, +E> = Ok(value: T) | Err(error: E)

  function Min(a: int, b: int): int {
    if a < b then a else b
  }

  function Max(a: int, b: int): int {
    if a < b then b else a
  }

  // ----- numbers and bytes

  const I64_MAX: nat := 0x7FFF_FFFF_FFFF_FFFF
  const U64_MAX: nat := 0xFFFF_FFFF_FFFF_FFFF
  const USIZE_MAX: nat := U64_MAX

  const COMMA: byte := 44
  const COLON: byte := 58

  predicate IsDigit(c: byte) {
    48 <= c <= 57
  }

  /** Optional white space (section 5.6.3 of RFC 9110). */
  predicate IsBlank(c: byte) {
    c == 32 || c == 9
  }

  function Trim(t: Text): Text {
    if t != [] && IsBlank(t[0]) then Trim(t[1..])
    else if t != [] && IsBlank(t[|t| - 1]) then Trim(t[..|t| - 1])
    else t
  }

  /** ASCII lower case. */
  function Lower(t: Text): Text {
    seq(|t|, i requires 0 <= i < |t| => if 65 <= t[i] <= 90 then t[i] + 32 else t[i])
  }

  /** The characters of ASCII text. */
  function Chars(t: Text): string {
    seq(|t|, i requires 0 <= i < |t| => t[i] as int as char)
  }

  // ----- words of the request formats

  const MODEL: Text := [109, 111, 100, 101, 108]
  const STREAM: Text := [115, 116, 114, 101, 97, 109]
  const TRUE: Text := [116, 114, 117, 101]
  const FALSE: Text := [102, 97, 108, 115, 101]

  // ----- UTF-8 (section 4 of RFC 3629)

  /** A byte that goes on with a character. */
  predicate Continues(b: Text, i: nat) {
    i < |b| && 0x80 <= b[i] <= 0xBF
  }

  /** Length of the first character; zero if it is malformed. */
  function CharLength(b: Text): (n: nat)
    requires b != []
    ensures n <= |b|
  {
    if b[0] < 0x80 then 1
    else if 0xC2 <= b[0] <= 0xDF && Continues(b, 1) then 2
    else if 0xE0 <= b[0] <= 0xEF && Continues(b, 1) && Continues(b, 2)
            && (b[0] == 0xE0 ==> b[1] >= 0xA0) && (b[0] == 0xED ==> b[1] <= 0x9F) then 3
    else if 0xF0 <= b[0] <= 0xF4 && Continues(b, 1) && Continues(b, 2) && Continues(b, 3)
            && (b[0] == 0xF0 ==> b[1] >= 0x90) && (b[0] == 0xF4 ==> b[1] <= 0x8F) then 4
    else 0
  }

  predicate IsUtf8(b: Text) {
    b == [] || (CharLength(b) > 0 && IsUtf8(b[CharLength(b)..]))
  }

  lemma Assoc<T>(a: seq<T>, b: seq<T>, c: seq<T>)
    ensures a + b + c == a + (b + c)
  {
  }

  // ----- sequences with elements left out

  /** `a` is `b` with some elements left out. */
  ghost predicate Subsequence<T>(a: seq<T>, b: seq<T>) {
    a == [] || (b != [] && (Subsequence(a, b[1..]) || (a[0] == b[0] && Subsequence(a[1..], b[1..]))))
  }

  lemma NothingFromNothing<T>(a: seq<T>)
    ensures Subsequence(a, []) ==> a == []
    ensures Subsequence([], a)
  {
  }

  lemma {:induction false} SubsequenceSelf<T>(a: seq<T>)
    ensures Subsequence(a, a)
  {
    if a != [] {
      SubsequenceSelf(a[1..]);
    }
  }

  /** More in front changes nothing. */
  lemma {:induction false} SubsequenceBehind<T>(a: seq<T>, front: seq<T>, b: seq<T>)
    requires Subsequence(a, b)
    ensures Subsequence(a, front + b)
  {
    if front == [] {
      assert front + b == b;
    } else {
      assert (front + b)[1..] == front[1..] + b;
      SubsequenceBehind(a, front[1..], b);
    }
  }

  lemma {:induction false} SubsequenceJoined<T>(a: seq<T>, b: seq<T>, c: seq<T>, d: seq<T>)
    requires Subsequence(a, b) && Subsequence(c, d)
    ensures Subsequence(a + c, b + d)
    decreases |b|
  {
    if a == [] {
      assert a + c == c;
      SubsequenceBehind(c, b, d);
    } else {
      assert (b + d)[1..] == b[1..] + d && (a + c)[1..] == a[1..] + c;
      if Subsequence(a, b[1..]) {
        SubsequenceJoined(a, b[1..], c, d);
      } else {
        SubsequenceJoined(a[1..], b[1..], c, d);
      }
    }
  }

  lemma {:induction false} SubsequenceTransitive<T>(a: seq<T>, b: seq<T>, c: seq<T>)
    requires Subsequence(a, b) && Subsequence(b, c)
    ensures Subsequence(a, c)
    decreases |c|
  {
    if a != [] {
      if Subsequence(b, c[1..]) {
        SubsequenceTransitive(a, b, c[1..]);
      } else if Subsequence(a, b[1..]) {
        SubsequenceTransitive(a, b[1..], c[1..]);
      } else {
        SubsequenceTransitive(a[1..], b[1..], c[1..]);
      }
    }
  }

  lemma {:induction false} SubsequenceLength<T>(a: seq<T>, b: seq<T>)
    requires Subsequence(a, b)
    ensures |a| <= |b| && (|a| == |b| ==> a == b)
  {
    if a != [] {
      if Subsequence(a, b[1..]) {
        SubsequenceLength(a, b[1..]);
      } else {
        SubsequenceLength(a[1..], b[1..]);
        assert a == [a[0]] + a[1..] && b == [b[0]] + b[1..];
      }
    }
  }

  // ----- the order on text and on keys

  /** Byte-wise lexicographic order, the `Ord` of `str`. */
  predicate LexLess(a: Text, b: Text) {
    b != [] && (a == [] || a[0] < b[0] || (a[0] == b[0] && LexLess(a[1..], b[1..])))
  }

  lemma {:induction false} LexTotal(a: Text, b: Text)
    ensures !(LexLess(a, b) && LexLess(b, a))
    ensures a != b ==> LexLess(a, b) || LexLess(b, a)
    ensures a == b ==> !LexLess(a, b)
  {
    if a != [] && b != [] {
      LexTotal(a[1..], b[1..]);
      assert a == [a[0]] + a[1..] && b == [b[0]] + b[1..];
    }
  }

  lemma {:induction false} LexTransitive(a: Text, b: Text, c: Text)
    requires LexLess(a, b) && LexLess(b, c)
    ensures LexLess(a, c)
  {
    if a != [] && a[0] == b[0] && b[0] == c[0] {
      LexTransitive(a[1..], b[1..], c[1..]);
    }
  }

  /** A sort key: a number, then a name. */
  datatype Key = Key(rank: int, name: Text)

  predicate KeyLess(a: Key, b: Key) {
    a.rank < b.rank || (a.rank == b.rank && LexLess(a.name, b.name))
  }

  lemma KeyTotal(a: Key, b: Key)
    ensures !(KeyLess(a, b) && KeyLess(b, a))
    ensures a != b ==> KeyLess(a, b) || KeyLess(b, a)
    ensures !KeyLess(a, a)
  {
    LexTotal(a.name, b.name);
    LexTotal(a.name, a.name);
  }

  lemma KeyTransitive(a: Key, b: Key, c: Key)
    requires KeyLess(a, b) && KeyLess(b, c)
    ensures KeyLess(a, c)
  {
    if a.rank == b.rank == c.rank {
      LexTransitive(a.name, b.name, c.name);
    }
  }

  // ----- sorting

  /** Puts `x` in front of the first element whose key is not smaller. */
  function Insert<T>(x: T, xs: seq<T>, key: T -> Key): (r: seq<T>)
    ensures multiset(r) == multiset{x} + multiset(xs)
  {
    if xs == [] || !KeyLess(key(xs[0]), key(x)) then
      [x] + xs
    else
      assert xs == [xs[0]] + xs[1..];
      [xs[0]] + Insert(x, xs[1..], key)
  }

  /** `slice::sort_by` on a key: stable and ascending. */
  function StableSort<T>(xs: seq<T>, key: T -> Key): (r: seq<T>)
    ensures multiset(r) == multiset(xs)
    ensures |r| == |xs|
  {
    if xs == [] then []
    else
      assert xs == [xs[0]] + xs[1..];
      var r := Insert(xs[0], StableSort(xs[1..], key), key);
      assert |multiset(r)| == |multiset(xs)|;
      r
  }

  ghost predicate Ascending<T>(xs: seq<T>, key: T -> Key) {
    forall i, j | 0 <= i < j < |xs| :: !KeyLess(key(xs[j]), key(xs[i]))
  }

  ghost predicate StrictlyAscending<T>(xs: seq<T>, key: T -> Key) {
    forall i, j | 0 <= i < j < |xs| :: KeyLess(key(xs[i]), key(xs[j]))
  }

  ghost predicate DistinctKeys<T>(xs: seq<T>, key: T -> Key) {
    forall i, j | 0 <= i < j < |xs| :: key(xs[i]) != key(xs[j])
  }

  lemma MembersOf<T>(xs: seq<T>, ys: seq<T>)
    requires multiset(xs) == multiset(ys)
    ensures forall x :: x in xs <==> x in ys
  {
    forall x
      ensures x in xs <==> x in ys
    {
      assert x in xs <==> x in multiset(xs);
      assert x in ys <==> x in multiset(ys);
    }
  }

  lemma {:induction false} InsertAscending<T>(x: T, xs: seq<T>, key: T -> Key)
    requires Ascending(xs, key)
    ensures Ascending(Insert(x, xs, key), key)
  {
    var r := Insert(x, xs, key);
    if xs == [] {
    } else if !KeyLess(key(xs[0]), key(x)) {
      forall i | 0 <= i < |xs|
        ensures !KeyLess(key(xs[i]), key(x))
      {
        if KeyLess(key(xs[i]), key(x)) {
          KeyTotal(key(xs[0]), key(x));
          if key(xs[0]) != key(x) && i > 0 {
            KeyTransitive(key(xs[i]), key(x), key(xs[0]));
          }
          assert false;
        }
      }
    } else {
      var tail := Insert(x, xs[1..], key);
      InsertAscending(x, xs[1..], key);
      assert r == [xs[0]] + tail;
      forall j | 0 <= j < |tail|
        ensures !KeyLess(key(tail[j]), key(xs[0]))
      {
        assert tail[j] in multiset(tail);
        if tail[j] == x {
          KeyTotal(key(xs[0]), key(x));
        } else {
          assert tail[j] in xs[1..];
        }
      }
    }
  }

  lemma {:induction false} SortAscending<T>(xs: seq<T>, key: T -> Key)
    ensures Ascending(StableSort(xs, key), key)
  {
    if xs != [] {
      SortAscending(xs[1..], key);
      InsertAscending(xs[0], StableSort(xs[1..], key), key);
    }
  }

  lemma {:induction false} DistinctKeysOfPermutation<T>(xs: seq<T>, ys: seq<T>, key: T -> Key)
    requires multiset(xs) == multiset(ys)
    requires DistinctKeys(xs, key)
    ensures DistinctKeys(ys, key)
  {
    MembersOf(xs, ys);
    forall i, j | 0 <= i < j < |ys|
      ensures key(ys[i]) != key(ys[j])
    {
      assert ys[i] in xs && ys[j] in xs;
      var p :| 0 <= p < |xs| && xs[p] == ys[i];
      var q :| 0 <= q < |xs| && xs[q] == ys[j];
      OccursOnce(xs, p, key);
      if ys[i] == ys[j] {
        OccursTwice(ys, i, j);
      }
    }
  }

  lemma OccursTwice<T>(xs: seq<T>, i: nat, j: nat)
    requires i < j < |xs| && xs[i] == xs[j]
    ensures multiset(xs)[xs[i]] >= 2
  {
    assert xs == xs[..j] + xs[j..];
    assert xs[i] in xs[..j] && xs[j] in xs[j..];
  }

  lemma {:induction false} OccursOnce<T>(xs: seq<T>, p: nat, key: T -> Key)
    requires p < |xs| && DistinctKeys(xs, key)
    ensures multiset(xs)[xs[p]] == 1
  {
    assert xs == xs[..p] + [xs[p]] + xs[p + 1..];
    assert xs[p] !in xs[..p];
    assert xs[p] !in xs[p + 1..];
  }

  /** Distinct keys come out in strictly ascending order. */
  lemma SortStrict<T>(xs: seq<T>, key: T -> Key)
    requires DistinctKeys(xs, key)
    ensures StrictlyAscending(StableSort(xs, key), key)
  {
    var r := StableSort(xs, key);
    SortAscending(xs, key);
    DistinctKeysOfPermutation(xs, r, key);
    forall i, j | 0 <= i < j < |r|
      ensures KeyLess(key(r[i]), key(r[j]))
    {
      KeyTotal(key(r[i]), key(r[j]));
    }
  }

  lemma SameLeast<T>(xs: seq<T>, ys: seq<T>, key: T -> Key)
    requires StrictlyAscending(xs, key) && StrictlyAscending(ys, key)
    requires xs != [] && ys != [] && xs[0] in ys && ys[0] in xs
    ensures xs[0] == ys[0]
  {
    var p :| 0 <= p < |ys| && ys[p] == xs[0];
    var q :| 0 <= q < |xs| && xs[q] == ys[0];
    KeyTotal(key(xs[0]), key(ys[0]));
  }

  /** There is only one strictly ascending arrangement of given elements. */
  lemma {:induction false} StrictlyAscendingUnique<T>(xs: seq<T>, ys: seq<T>, key: T -> Key)
    requires StrictlyAscending(xs, key) && StrictlyAscending(ys, key)
    requires multiset(xs) == multiset(ys)
    ensures xs == ys
    decreases |xs|
  {
    hide StrictlyAscending;
    assert |xs| == |multiset(xs)| && |ys| == |multiset(ys)|;
    if xs != [] {
      MembersOf(xs, ys);
      assert xs[0] in ys && ys[0] in xs;
      SameLeast(xs, ys, key);
      TailAscends(xs, key);
      TailAscends(ys, key);
      SameTails(xs, ys);
      StrictlyAscendingUnique(xs[1..], ys[1..], key);
      assert xs == [xs[0]] + xs[1..] && ys == [ys[0]] + ys[1..];
    }
  }

  lemma TailAscends<T>(xs: seq<T>, key: T -> Key)
    requires StrictlyAscending(xs, key) && xs != []
    ensures StrictlyAscending(xs[1..], key)
  {
    hide KeyLess;
  }

  lemma SameTails<T>(xs: seq<T>, ys: seq<T>)
    requires xs != [] && ys != [] && xs[0] == ys[0] && multiset(xs) == multiset(ys)
    ensures multiset(xs[1..]) == multiset(ys[1..])
  {
    assert xs == [xs[0]] + xs[1..] && ys == [ys[0]] + ys[1..];
    assert multiset(xs[1..]) == multiset(xs) - multiset{xs[0]};
    assert multiset(ys[1..]) == multiset(ys) - multiset{ys[0]};
  }

  /** Sorting forgets the arrangement when the keys are distinct. */
  lemma SortOfPermutation<T>(xs: seq<T>, ys: seq<T>, key: T -> Key)
    requires multiset(xs) == multiset(ys) && DistinctKeys(xs, key)
    ensures StableSort(xs, key) == StableSort(ys, key)
  {
    DistinctKeysOfPermutation(xs, ys, key);
    SortStrict(xs, key);
    SortStrict(ys, key);
    StrictlyAscendingUnique(StableSort(xs, key), StableSort(ys, key), key);
  }

  // ----- splitting at a separator

  /** `split(sep)`: always at least one piece, empty pieces kept. */
  function Split(s: Text, sep: byte): (pieces: seq<Text>)
    ensures |pieces| > 0
  {
    if s == [] then [[]]
    else
      var rest := Split(s[1..], sep);
      if s[0] == sep then [[]] + rest else [[s[0]] + rest[0]] + rest[1..]
  }

  /** Splitting a joined text splits its two sides. */
  lemma {:induction false} SplitJoined(a: Text, sep: byte, b: Text)
    ensures Split(a + [sep] + b, sep) == Split(a, sep) + Split(b, sep)
  {
    var s := a + [sep] + b;
    if a == [] {
      assert s[1..] == b;
    } else {
      assert s[1..] == a[1..] + [sep] + b;
      SplitJoined(a[1..], sep, b);
    }
  }

  lemma {:induction false} SplitUnseparated(a: Text, sep: byte)
    requires sep !in a
    ensures Split(a, sep) == [a]
  {
    if a != [] {
      SplitUnseparated(a[1..], sep);
      assert a == [a[0]] + a[1..];
    }
  }
}
