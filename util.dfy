/** Strings, numerals and ordering as the decision engine's Python code uses them:
    `str.strip`, `str.find`, `str.count`, `str.replace(old, new, 1)`, `str.split("\n")`,
    `"\n".join`, `int()`, `f"{n:03d}"` and `sorted()` over identifiers. */
module Util {

  datatype Option<+T> = None | Some(value: T)

  datatype Result<+T, +E> = Ok(value: T) | Err(error: E)

  function Elems<T>(s: seq<T>): set<T> {
    set x | x in s
  }

  // ---------------------------------------------------------------------------
  // Characters
  // ---------------------------------------------------------------------------

  /** The whitespace of `str.strip()` and of the regex class `\s`, restricted to ASCII. */
  predicate IsSpace(c: char) {
    c == ' ' || c == '\t' || c == '\n' || c == '\r' || c == '\U{0B}' || c == '\U{0C}'
    || c == '\U{1C}' || c == '\U{1D}' || c == '\U{1E}' || c == '\U{1F}'
  }

  predicate IsDigit(c: char) {
    '0' <= c <= '9'
  }

  /** The regex class `\w`, restricted to ASCII. */
  predicate IsWordChar(c: char) {
    ('a' <= c <= 'z') || ('A' <= c <= 'Z') || IsDigit(c) || c == '_'
  }

  predicate AllDigits(s: string) {
    forall i :: 0 <= i < |s| ==> IsDigit(s[i])
  }

  /** ASCII lower-casing; `str.lower()` on the words the parser compares with. */
  function LowerChar(c: char): char {
    if 'A' <= c <= 'Z' then (c as int + 32) as char else c
  }

  function Lower(s: string): (r: string)
    ensures |r| == |s|
    ensures forall i :: 0 <= i < |s| ==> r[i] == LowerChar(s[i])
  {
    if s == [] then [] else [LowerChar(s[0])] + Lower(s[1..])
  }

  // ---------------------------------------------------------------------------
  // Stripping
  // ---------------------------------------------------------------------------

  /** `str.lstrip()`. What it removes is stated by `LStripSpec`. */
  function LStrip(s: string): (r: string)
    ensures |r| <= |s|
  {
    if s != [] && IsSpace(s[0]) then LStrip(s[1..]) else s
  }

  /** `str.rstrip()`. What it removes is stated by `RStripSpec`. */
  function RStrip(s: string): (r: string)
    ensures |r| <= |s|
  {
    if s != [] && IsSpace(s[|s| - 1]) then RStrip(s[..|s| - 1]) else s
  }

  /** `lstrip` removes exactly the whitespace at the front: a suffix is left that does not
      start with whitespace. */
  lemma {:induction false} LStripSpec(s: string)
    ensures LStrip(s) == s[|s| - |LStrip(s)|..]
    ensures forall i :: 0 <= i < |s| - |LStrip(s)| ==> IsSpace(s[i])
    ensures LStrip(s) == [] || !IsSpace(LStrip(s)[0])
  {
    if s != [] && IsSpace(s[0]) {
      LStripSpec(s[1..]);
    }
  }

  /** `rstrip` removes exactly the whitespace at the end. */
  lemma {:induction false} RStripSpec(s: string)
    ensures RStrip(s) == s[..|RStrip(s)|]
    ensures forall i :: |RStrip(s)| <= i < |s| ==> IsSpace(s[i])
    ensures RStrip(s) == [] || !IsSpace(RStrip(s)[|RStrip(s)| - 1])
  {
    if s != [] && IsSpace(s[|s| - 1]) {
      RStripSpec(s[..|s| - 1]);
    }
  }

  /** `str.strip()`. */
  function Strip(s: string): string {
    LStrip(RStrip(s))
  }

  /** A string without whitespace at either end is its own strip. */
  lemma StripNoSpace(s: string)
    requires s == [] || (!IsSpace(s[0]) && !IsSpace(s[|s| - 1]))
    ensures Strip(s) == s
  {
  }

  // ---------------------------------------------------------------------------
  // Searching, counting, replacing
  // ---------------------------------------------------------------------------

  predicate StartsWith(s: string, p: string) {
    |p| <= |s| && s[..|p|] == p
  }

  predicate EndsWith(s: string, p: string) {
    |p| <= |s| && s[|s| - |p|..] == p
  }

  /** `sub` occurs in `s` at index `i`. */
  predicate OccursAt(s: string, sub: string, i: nat) {
    i + |sub| <= |s| && s[i..i + |sub|] == sub
  }

  /** `sub in s`. */
  predicate Contains(s: string, sub: string) {
    exists i :: 0 <= i <= |s| && OccursAt(s, sub, i)
  }

  /** `s.find(sub, from)`: the first index at or after `from` where `sub` occurs. */
  function Find(s: string, sub: string, from: nat): (r: Option<nat>)
    requires from <= |s|
    ensures r.Some? ==> from <= r.value <= |s| && OccursAt(s, sub, r.value)
    ensures r.Some? ==> forall j :: from <= j < r.value ==> !OccursAt(s, sub, j)
    ensures r.None? ==> forall j :: from <= j <= |s| ==> !OccursAt(s, sub, j)
    decreases |s| - from
  {
    if OccursAt(s, sub, from) then Some(from)
    else if from == |s| then None
    else Find(s, sub, from + 1)
  }

  /** An occurrence with none before it (from `from` on) is what `find` returns. */
  lemma FindAt(s: string, sub: string, from: nat, p: nat)
    requires from <= p && OccursAt(s, sub, p)
    requires forall j :: from <= j < p ==> !OccursAt(s, sub, j)
    ensures Find(s, sub, from) == Some(p)
  {
  }

  lemma FindContains(s: string, sub: string)
    ensures Find(s, sub, 0).Some? <==> Contains(s, sub)
  {
  }

  /** Non-overlapping occurrences of a non-empty `sub` at or after `from`, scanning left to right. */
  function CountFrom(s: string, sub: string, from: nat): nat
    requires sub != [] && from <= |s|
    decreases |s| - from
  {
    match Find(s, sub, from)
    case None => 0
    case Some(i) => 1 + CountFrom(s, sub, i + |sub|)
  }

  /** `s.count(sub)`: an empty `sub` is counted at every one of the |s| + 1 positions. */
  function Count(s: string, sub: string): nat {
    if sub == [] then |s| + 1 else CountFrom(s, sub, 0)
  }

  /** `s.replace(pat, repl, 1)`: the first occurrence of `pat` becomes `repl`. */
  function ReplaceFirst(s: string, pat: string, repl: string): string {
    match Find(s, pat, 0)
    case None => s
    case Some(i) => s[..i] + repl + s[i + |pat|..]
  }

  // ---------------------------------------------------------------------------
  // Splitting and joining lines
  // ---------------------------------------------------------------------------

  function IndexOf<T(==)>(s: seq<T>, x: T): (i: nat)
    requires x in s
    ensures i < |s| && s[i] == x && x !in s[..i]
  {
    if s[0] == x then 0 else 1 + IndexOf(s[1..], x)
  }

  /** `sep.join(parts)`. */
  function Join(parts: seq<string>, sep: string): string {
    if |parts| == 0 then ""
    else if |parts| == 1 then parts[0]
    else parts[0] + sep + Join(parts[1..], sep)
  }

  /** `s.split(sep)` for a one-character separator: never empty, and no piece holds `sep`. */
  function Split(s: string, sep: char): (r: seq<string>)
    ensures |r| >= 1
    ensures forall i :: 0 <= i < |r| ==> sep !in r[i]
    decreases |s|
  {
    if sep !in s then [s]
    else
      var i := IndexOf(s, sep);
      [s[..i]] + Split(s[i + 1..], sep)
  }

  /** Joining two non-empty runs of pieces puts one separator between them. */
  lemma {:induction false} JoinAppend(a: seq<string>, b: seq<string>, sep: string)
    requires a != [] && b != []
    ensures Join(a + b, sep) == Join(a, sep) + sep + Join(b, sep)
    decreases |a|
  {
    if |a| == 1 {
      assert (a + b)[1..] == b;
    } else {
      JoinAppend(a[1..], b, sep);
      assert (a + b)[1..] == a[1..] + b;
    }
  }

  /** Joining the pieces of a split gives back the string. */
  lemma {:induction false} JoinSplit(s: string, sep: char)
    ensures Join(Split(s, sep), [sep]) == s
    decreases |s|
  {
    if sep in s {
      var i := IndexOf(s, sep);
      JoinSplit(s[i + 1..], sep);
      var rest := Split(s[i + 1..], sep);
      assert Split(s, sep) == [s[..i]] + rest;
      assert ([s[..i]] + rest)[1..] == rest;
      assert s == s[..i] + [sep] + s[i + 1..];
    }
  }

  /** Splitting a join of separator-free pieces gives back the pieces. */
  lemma {:induction false} SplitJoin(parts: seq<string>, sep: char)
    requires |parts| >= 1
    requires forall i :: 0 <= i < |parts| ==> sep !in parts[i]
    ensures Split(Join(parts, [sep]), sep) == parts
  {
    if |parts| > 1 {
      var s := Join(parts, [sep]);
      var tail := Join(parts[1..], [sep]);
      SplitJoin(parts[1..], sep);
      assert s == parts[0] + [sep] + tail;
      assert s[..|parts[0]|] == parts[0];
      forall j | 0 <= j < |parts[0]| ensures s[j] != sep {
        assert s[j] == parts[0][j];
      }
      IndexOfAt(s, sep, |parts[0]|);
      assert s[|parts[0]| + 1..] == tail;
    }
  }

  /** What one more element of a prefix adds. */
  lemma PrefixStep<T>(s: seq<T>, k: nat)
    requires k < |s|
    ensures forall x :: x in s[..k + 1] <==> x in s[..k] || x == s[k]
  {
    assert s[..k + 1] == s[..k] + [s[k]];
  }

  lemma {:induction false} IndexOfAt<T>(s: seq<T>, x: T, k: nat)
    requires k < |s| && s[k] == x
    requires forall j :: 0 <= j < k ==> s[j] != x
    ensures x in s && IndexOf(s, x) == k
  {
    if k > 0 {
      IndexOfAt(s[1..], x, k - 1);
    }
  }

  // ---------------------------------------------------------------------------
  // Numerals
  // ---------------------------------------------------------------------------

  function DigitChar(d: nat): (c: char)
    requires d < 10
    ensures IsDigit(c) && c as int - '0' as int == d
  {
    ('0' as int + d) as char
  }

  /** The value of a string of decimal digits (leading zeros allowed, as `int()` allows them). */
  function DigitsValue(s: string): nat
    requires AllDigits(s)
  {
    if s == [] then 0 else DigitsValue(s[..|s| - 1]) * 10 + (s[|s| - 1] as int - '0' as int)
  }

  /** `str(n)` for a natural number: its decimal digits, without leading zeros. */
  function NatToString(n: nat): (r: string)
    ensures |r| >= 1 && AllDigits(r)
    ensures |r| > 1 ==> r[0] != '0'
    decreases n
  {
    if n < 10 then [DigitChar(n)] else NatToString(n / 10) + [DigitChar(n % 10)]
  }

  lemma {:induction false} NatToStringValue(n: nat)
    ensures DigitsValue(NatToString(n)) == n
    decreases n
  {
    if n >= 10 {
      NatToStringValue(n / 10);
      var s := NatToString(n);
      assert s[..|s| - 1] == NatToString(n / 10);
    }
  }

  /** Leading zeros do not change the value of a numeral. */
  lemma {:induction false} DigitsValueLeadingZeros(k: nat, s: string)
    requires AllDigits(s)
    ensures AllDigits(Zeros(k) + s) && DigitsValue(Zeros(k) + s) == DigitsValue(s)
    decreases |s|
  {
    ZerosDigits(k);
    if s == [] {
      ZerosValue(k);
      assert Zeros(k) + s == Zeros(k);
    } else {
      var t := Zeros(k) + s;
      assert t[..|t| - 1] == Zeros(k) + s[..|s| - 1];
      DigitsValueLeadingZeros(k, s[..|s| - 1]);
    }
  }

  function Zeros(k: nat): (r: string)
    ensures |r| == k
  {
    if k == 0 then [] else ['0'] + Zeros(k - 1)
  }

  lemma ZerosDigits(k: nat)
    ensures AllDigits(Zeros(k))
  {
  }

  lemma {:induction false} ZerosValue(k: nat)
    ensures AllDigits(Zeros(k)) && DigitsValue(Zeros(k)) == 0
  {
    ZerosDigits(k);
    if k > 0 {
      assert Zeros(k)[..k - 1] == Zeros(k - 1) by {
        ZerosLast(k);
      }
      ZerosValue(k - 1);
    }
  }

  lemma {:induction false} ZerosLast(k: nat)
    requires k > 0
    ensures Zeros(k) == Zeros(k - 1) + ['0']
  {
    if k > 1 {
      ZerosLast(k - 1);
    }
  }

  /** `f"{n:03d}"`: the numeral of `n`, zero-padded to at least three digits. */
  function Pad3(n: nat): (r: string)
    ensures AllDigits(r) && |r| >= 3
    ensures DigitsValue(r) == n
  {
    var d := NatToString(n);
    NatToStringValue(n);
    DigitsValueLeadingZeros(if |d| < 3 then 3 - |d| else 0, d);
    Zeros(if |d| < 3 then 3 - |d| else 0) + d
  }

  /** Two numerals of the same length and value are the same text. */
  lemma {:induction false} SameDigits(a: string, b: string)
    requires AllDigits(a) && AllDigits(b) && |a| == |b| && DigitsValue(a) == DigitsValue(b)
    ensures a == b
  {
    if a != [] {
      var a', b' := a[..|a| - 1], b[..|b| - 1];
      assert AllDigits(a') && AllDigits(b');
      assert DigitsValue(a') == DigitsValue(b') by {
        assert DigitsValue(a) == DigitsValue(a') * 10 + (a[|a| - 1] as int - '0' as int);
        assert DigitsValue(b) == DigitsValue(b') * 10 + (b[|b| - 1] as int - '0' as int);
      }
      SameDigits(a', b');
      assert a == a' + [a[|a| - 1]] && b == b' + [b[|b| - 1]];
    }
  }

  /** `str(n)` has at most one, two or three digits exactly below 10, 100 and 1000. */
  lemma {:induction false} NatToStringWidth(n: nat)
    ensures |NatToString(n)| <= 1 <==> n < 10
    ensures |NatToString(n)| <= 2 <==> n < 100
    ensures |NatToString(n)| <= 3 <==> n < 1000
    decreases n
  {
    if n >= 10 {
      NatToStringWidth(n / 10);
    }
  }

  /** `f"{n:03d}"` is three characters wide exactly when `n` has at most three digits. */
  lemma Pad3Width(n: nat)
    ensures |Pad3(n)| == 3 <==> n < 1000
  {
    NatToStringWidth(n);
  }

  /** `str(i)` for an integer. */
  function IntToString(i: int): string {
    if i < 0 then "-" + NatToString(-i) else NatToString(i)
  }

  /** The digit part of an `int()` literal: ASCII digits, where a single underscore may stand
      between two digits (`1_000`). Read from the end: a digit, after nothing, after a numeral,
      or after an underscore that follows a numeral. */
  predicate IsNumeral(s: string)
    decreases |s|
  {
    s != [] && IsDigit(s[|s| - 1]) &&
    var front := s[..|s| - 1];
    front == [] || IsNumeral(front) || (front[|front| - 1] == '_' && IsNumeral(front[..|front| - 1]))
  }

  /** A numeral's value, its underscores ignored. */
  function NumeralValue(s: string): nat
    requires IsNumeral(s)
    decreases |s|
  {
    var front := s[..|s| - 1];
    var d := s[|s| - 1] as int - '0' as int;
    if front == [] then d
    else if IsNumeral(front) then NumeralValue(front) * 10 + d
    else NumeralValue(front[..|front| - 1]) * 10 + d
  }

  /** `int(s)` for a string without surrounding whitespace: an optional sign and a numeral. */
  function ParseInt(s: string): Option<int> {
    if s != [] && (s[0] == '+' || s[0] == '-') then
      if IsNumeral(s[1..]) then
        var v: int := NumeralValue(s[1..]);
        Some(if s[0] == '-' then -v else v)
      else None
    else if IsNumeral(s) then Some(NumeralValue(s))
    else None
  }

  /** A numeral without underscores is read as its digits. */
  lemma {:induction false} DigitsNumeral(s: string)
    requires s != [] && AllDigits(s)
    ensures IsNumeral(s) && NumeralValue(s) == DigitsValue(s)
    decreases |s|
  {
    var front := s[..|s| - 1];
    if front != [] {
      assert AllDigits(front);
      DigitsNumeral(front);
    }
  }

  /** Reading back the numeral of an integer gives the integer. */
  lemma ParseIntToString(i: int)
    ensures ParseInt(IntToString(i)) == Some(i)
  {
    if i < 0 {
      NatToStringValue(-i);
      ParseIntNegative(NatToString(-i));
    } else {
      NatToStringValue(i);
      DigitsNumeral(NatToString(i));
    }
  }

  /** A digit string after a minus sign reads as the opposite of its value. */
  lemma ParseIntNegative(d: string)
    requires d != [] && AllDigits(d)
    ensures ParseInt("-" + d) == Some(-(DigitsValue(d) as int))
  {
    var s := "-" + d;
    assert s[1..] == d;
    DigitsNumeral(d);
  }

  /** Underscores between digits do not change the value `int()` reads: `1_0` is ten. */
  lemma ParseIntUnderscore(a: string, b: string)
    requires a != [] && AllDigits(a) && b != [] && AllDigits(b)
    ensures ParseInt(a + "_" + b) == ParseInt(a + b) == Some(DigitsValue(a + b) as int)
  {
    UnderscoreNumeral(a, b);
    DigitsNumeral(a + b);
  }

  lemma {:induction false} UnderscoreNumeral(a: string, b: string)
    requires a != [] && AllDigits(a) && b != [] && AllDigits(b)
    ensures IsNumeral(a + "_" + b) && NumeralValue(a + "_" + b) == DigitsValue(a + b)
    decreases |b|
  {
    var s := a + "_" + b;
    var b' := b[..|b| - 1];
    var front := s[..|s| - 1];
    assert front == a + "_" + b';
    assert a + b == (a + b') + [b[|b| - 1]];
    assert (a + b)[..|a + b| - 1] == a + b';
    if b' == [] {
      assert front == a + "_" && front[..|front| - 1] == a;
      DigitsNumeral(a);
    } else {
      UnderscoreNumeral(a, b');
    }
  }

  // ---------------------------------------------------------------------------
  // Ordering of identifiers, as Python compares strings
  // ---------------------------------------------------------------------------

  /** Lexicographic order by code point; a proper prefix comes first. */
  predicate Less(a: string, b: string)
    decreases |a|
  {
    if a == [] then b != []
    else if b == [] then false
    else if a[0] != b[0] then a[0] < b[0]
    else Less(a[1..], b[1..])
  }

  lemma {:induction false} LessIrreflexive(a: string)
    ensures !Less(a, a)
    decreases |a|
  {
    if a != [] {
      LessIrreflexive(a[1..]);
    }
  }

  lemma {:induction false} LessAsymmetric(a: string, b: string)
    ensures Less(a, b) ==> !Less(b, a)
    decreases |a|
  {
    if a != [] && b != [] && a[0] == b[0] {
      LessAsymmetric(a[1..], b[1..]);
    }
  }

  lemma {:induction false} LessTransitive(a: string, b: string, c: string)
    requires Less(a, b) && Less(b, c)
    ensures Less(a, c)
    decreases |a|
  {
    if a != [] && b != [] && c != [] && a[0] == b[0] && b[0] == c[0] {
      LessTransitive(a[1..], b[1..], c[1..]);
    }
  }

  lemma {:induction false} LessTotal(a: string, b: string)
    requires a != b
    ensures Less(a, b) || Less(b, a)
    decreases |a|
  {
    if a != [] && b != [] && a[0] == b[0] {
      assert a == [a[0]] + a[1..] && b == [b[0]] + b[1..];
      LessTotal(a[1..], b[1..]);
    }
  }

  predicate StrictlySorted(s: seq<string>) {
    forall i, j :: 0 <= i < j < |s| ==> Less(s[i], s[j])
  }

  /** Insertion of `x` into a strictly sorted sequence (no effect when `x` is already there). */
  function Insert(x: string, s: seq<string>): seq<string> {
    if s == [] then [x]
    else if x == s[0] then s
    else if Less(x, s[0]) then [x] + s
    else [s[0]] + Insert(x, s[1..])
  }

  lemma {:induction false} InsertSorted(x: string, s: seq<string>)
    requires StrictlySorted(s)
    ensures StrictlySorted(Insert(x, s))
    ensures forall y :: y in Insert(x, s) <==> y == x || y in s
  {
    if s != [] && x != s[0] && !Less(x, s[0]) {
      LessTotal(x, s[0]);
      InsertSorted(x, s[1..]);
      var r := Insert(x, s[1..]);
      forall j | 0 < j < |[s[0]] + r| ensures Less(s[0], ([s[0]] + r)[j]) {
        var y := r[j - 1];
        assert y == x || y in s[1..];
        if y != x {
          var k :| 0 <= k < |s[1..]| && s[1..][k] == y;
          assert s[k + 1] == y;
        }
      }
    } else if s != [] && x != s[0] {
      forall j | 0 < j < |s| ensures Less(x, s[j]) {
        LessTransitive(x, s[0], s[j]);
      }
    }
  }

  /** The elements of a finite set of identifiers in ascending order — what `sorted(ids)` gives. */
  ghost function SortSet(s: set<string>): (r: seq<string>)
    ensures StrictlySorted(r)
    ensures forall x :: x in r <==> x in s
    decreases |s|
  {
    if s == {} then []
    else
      var x :| x in s;
      var rest := SortSet(s - {x});
      InsertSorted(x, rest);
      Insert(x, rest)
  }

  /** Two strictly sorted sequences with the same elements are equal: sorting is deterministic. */
  lemma {:induction false} SortedUnique(a: seq<string>, b: seq<string>)
    requires StrictlySorted(a) && StrictlySorted(b)
    requires forall x :: x in a <==> x in b
    ensures a == b
    decreases |a|
  {
    assert b != [] ==> b[0] in a;
    if a != [] {
      assert a[0] in b;
      SortedFirstLeast(a, b[0]);
      SortedFirstLeast(b, a[0]);
      LessAsymmetric(a[0], b[0]);
      assert a[0] == b[0];
      LessIrreflexive(a[0]);
      forall x | x in a[1..] ensures x in b[1..] {
        var i :| 0 <= i < |a[1..]| && a[1..][i] == x;
        assert Less(a[0], a[i + 1]) && a[i + 1] == x && x in b;
        var j :| 0 <= j < |b| && b[j] == x;
        assert b[1..][j - 1] == x;
      }
      forall x | x in b[1..] ensures x in a[1..] {
        var j :| 0 <= j < |b[1..]| && b[1..][j] == x;
        assert Less(b[0], b[j + 1]) && b[j + 1] == x && x in a;
        var i :| 0 <= i < |a| && a[i] == x;
        assert a[1..][i - 1] == x;
      }
      SortedUnique(a[1..], b[1..]);
      assert a == [a[0]] + a[1..] && b == [b[0]] + b[1..];
    }
  }

  /** The first element of a strictly sorted sequence is its least. */
  lemma SortedFirstLeast(s: seq<string>, y: string)
    requires StrictlySorted(s) && y in s
    ensures y == s[0] || Less(s[0], y)
  {
  }

  lemma LessIrreflexiveAt(s: seq<string>, i: nat)
    requires StrictlySorted(s) && 0 < i < |s|
    ensures s[i] != s[0]
  {
    LessIrreflexive(s[0]);
  }

  /** A strictly sorted sequence lists each of its elements once. */
  lemma {:induction false} SortedCard(r: seq<string>)
    requires StrictlySorted(r)
    ensures |Elems(r)| == |r|
  {
    if r != [] {
      var n := |r| - 1;
      var front := r[..n];
      assert r == front + [r[n]];
      assert Elems(r) == Elems(front) + {r[n]};
      assert r[n] !in Elems(front) by {
        if r[n] in front {
          var i :| 0 <= i < n && front[i] == r[n];
          assert Less(r[i], r[n]);
          LessIrreflexive(r[n]);
        }
      }
      SortedCard(front);
    }
  }

  /** `sorted(s)` for a set of identifiers. */
  method SortedElements(s: set<string>) returns (r: seq<string>)
    ensures r == SortSet(s)
  {
    r := [];
    var rest := s;
    while rest != {}
      invariant rest <= s
      invariant StrictlySorted(r)
      invariant forall x :: x in r <==> x in s && x !in rest
      decreases |rest|
    {
      var x :| x in rest;
      InsertSorted(x, r);
      r := Insert(x, r);
      rest := rest - {x};
    }
    SortedUnique(r, SortSet(s));
  }

  /** The elements of a set in some order, each once: how Python iterates over a `set`. */
  method Enumerate<T>(s: set<T>) returns (r: seq<T>)
    ensures forall x :: x in r <==> x in s
  {
    r := [];
    var rest := s;
    while rest != {}
      invariant rest <= s
      invariant forall x :: x in r <==> x in s && x !in rest
      decreases |rest|
    {
      var x :| x in rest;
      r := r + [x];
      rest := rest - {x};
    }
  }
}
