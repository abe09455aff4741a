/** The pieces of Python's `str` that the server relies on: `strip()`, `upper()`,
    the `{n:03d}` format, the `<` order on strings, and the stable `sort(key=…)`. */
module Text {

  // ---------------------------------------------------------------- strip()

  /** The characters `str.isspace()` accepts, which `str.strip()` removes. */
  predicate IsPySpace(c: char) {
    || (9 <= c as int <= 13)
    || (0x1c <= c as int <= 0x20)
    || c as int == 0x85 || c as int == 0xa0 || c as int == 0x1680
    || (0x2000 <= c as int <= 0x200a)
    || c as int == 0x2028 || c as int == 0x2029 || c as int == 0x202f
    || c as int == 0x205f || c as int == 0x3000
  }

  predicate AllSpace(s: string) {
    forall i :: 0 <= i < |s| ==> IsPySpace(s[i])
  }

  /** `s.lstrip()`. */
  function StripStart(s: string): string {
    if s == [] || !IsPySpace(s[0]) then s else StripStart(s[1..])
  }

  /** `s.rstrip()`. */
  function StripEnd(s: string): string {
    if s == [] || !IsPySpace(s[|s| - 1]) then s else StripEnd(s[..|s| - 1])
  }

  /** `s.strip()`. */
  function Strip(s: string): string {
    StripEnd(StripStart(s))
  }

  /** `lstrip()` keeps the longest suffix that does not start with white space. */
  lemma {:induction false} StripStartSpec(s: string)
    ensures var r := StripStart(s);
      && |r| <= |s| && r == s[|s| - |r|..]
      && AllSpace(s[..|s| - |r|])
      && (r == [] || !IsPySpace(r[0]))
  {
    if s != [] && IsPySpace(s[0]) {
      StripStartSpec(s[1..]);
      var r := StripStart(s[1..]);
      assert s[..|s| - |r|] == [s[0]] + s[1..][..|s| - 1 - |r|];
    }
  }

  /** `rstrip()` keeps the longest prefix that does not end with white space. */
  lemma {:induction false} StripEndSpec(s: string)
    ensures var r := StripEnd(s);
      && |r| <= |s| && r == s[..|r|]
      && AllSpace(s[|r|..])
      && (r == [] || !IsPySpace(r[|r| - 1]))
  {
    if s != [] && IsPySpace(s[|s| - 1]) {
      StripEndSpec(s[..|s| - 1]);
      var r := StripEnd(s[..|s| - 1]);
      assert s[|r|..] == s[..|s| - 1][|r|..] + [s[|s| - 1]];
    }
  }

  /** `strip()` cuts white space, and only white space, from both ends, and
      stops at a character that is not white space. */
  lemma StripSpec(s: string)
    ensures exists i, j :: 0 <= i <= j <= |s| && Strip(s) == s[i..j] && AllSpace(s[..i]) && AllSpace(s[j..])
    ensures Strip(s) == [] || (!IsPySpace(Strip(s)[0]) && !IsPySpace(Strip(s)[|Strip(s)| - 1]))
  {
    var t := StripStart(s);
    var r := StripEnd(t);
    StripStartSpec(s);
    StripEndSpec(t);
    var i := |s| - |t|;
    assert r == s[i..i + |r|];
    assert s[i + |r|..] == t[|r|..];
  }

  /** A name is blank after `strip()` exactly when it is all white space. */
  lemma StripBlank(s: string)
    ensures Strip(s) == [] <==> AllSpace(s)
  {
    StripSpec(s);
    if Strip(s) == [] {
      var i, j :| 0 <= i <= j <= |s| && Strip(s) == s[i..j] && AllSpace(s[..i]) && AllSpace(s[j..]);
      assert i == j;
      forall k | 0 <= k < |s| ensures IsPySpace(s[k]) {
        if k < i { assert s[k] == s[..i][k]; } else { assert s[k] == s[j..][k - j]; }
      }
    } else {
      assert !IsPySpace(Strip(s)[0]);
      var i, j :| 0 <= i <= j <= |s| && Strip(s) == s[i..j] && AllSpace(s[..i]) && AllSpace(s[j..]);
      assert s[i] == Strip(s)[0];
    }
  }

  /** Stripping twice cuts nothing more. */
  lemma StripIdempotent(s: string)
    ensures Strip(Strip(s)) == Strip(s)
  {
    var r := Strip(s);
    StripSpec(s);
    assert StripStart(r) == r;
    StripStartSpec(r);
    assert StripEnd(r) == r;
  }

  // ---------------------------------------------------------------- upper()

  /** `c.upper()` for one character of the Latin-1 range; other characters are
      returned as they are. */
  function UpperChar(c: char): (r: string)
    ensures 1 <= |r| <= 2
    ensures 'a' <= c <= 'z' ==> r == [(c as int - 32) as char]
    ensures !('a' <= c <= 'z') && c as int < 0xb5 ==> r == [c]
  {
    var n := c as int;
    if 'a' <= c <= 'z' then [(n - 32) as char]
    else if n == 0xb5 then [0x39c as char]
    else if n == 0xdf then "SS"
    else if 0xe0 <= n <= 0xfe && n != 0xf7 then [(n - 32) as char]
    else if n == 0xff then [0x178 as char]
    else [c]
  }

  /** `s.upper()`. */
  function Upper(s: string): (r: string)
    ensures |s| <= |r| <= 2 * |s|
    ensures forall i :: 0 <= i < |r| ==> !('a' <= r[i] <= 'z')
  {
    if s == [] then []
    else
      var r := UpperChar(s[0]) + Upper(s[1..]);
      assert forall i :: 0 <= i < |UpperChar(s[0])| ==> r[i] == UpperChar(s[0])[i];
      r
  }

  lemma {:induction false} UpperAppend(a: string, b: string)
    ensures Upper(a + b) == Upper(a) + Upper(b)
    decreases |a|
  {
    if a != [] {
      assert (a + b)[1..] == a[1..] + b;
      UpperAppend(a[1..], b);
    } else {
      assert a + b == b;
    }
  }

  lemma UpperCharFixed(c: char)
    ensures Upper(UpperChar(c)) == UpperChar(c)
  {
    var u := UpperChar(c);
    if |u| == 1 {
      assert Upper(u) == UpperChar(u[0]) + Upper([]);
    } else {
      assert u == "SS";
      assert Upper(u) == UpperChar('S') + Upper(u[1..]);
      assert u[1..] == "S";
    }
  }

  /** Upper-casing an upper-cased string changes nothing. */
  lemma {:induction false} UpperIdempotent(s: string)
    ensures Upper(Upper(s)) == Upper(s)
  {
    if s != [] {
      UpperAppend(UpperChar(s[0]), Upper(s[1..]));
      UpperCharFixed(s[0]);
      UpperIdempotent(s[1..]);
    }
  }

  // ---------------------------------------------------------- f"{n:03d}"

  function DigitChar(d: nat): (c: char)
    requires d < 10
    ensures '0' <= c <= '9'
  {
    ('0' as int + d) as char
  }

  predicate AllDigits(s: string) {
    forall i :: 0 <= i < |s| ==> '0' <= s[i] <= '9'
  }

  /** `str(n)` for a natural number: its decimal digits, most significant first. */
  function Decimal(n: nat): (s: string)
    ensures 1 <= |s| && AllDigits(s)
    ensures (|s| > 1) == (n >= 10)
  {
    if n < 10 then [DigitChar(n)] else Decimal(n / 10) + [DigitChar(n % 10)]
  }

  function Zeros(k: nat): (s: string)
    ensures |s| == k && AllDigits(s)
    ensures forall i :: 0 <= i < k ==> s[i] == '0'
  {
    if k == 0 then [] else Zeros(k - 1) + ['0']
  }

  /** `f"{n:03d}"`: the decimal digits of `n`, padded on the left with `0` to at
      least three characters. */
  function Pad3(n: nat): (s: string)
    ensures |s| >= 3 && AllDigits(s)
    ensures n < 1000 ==> |s| == 3
  {
    var d := Decimal(n);
    DecimalLength(n);
    if |d| < 3 then Zeros(3 - |d|) + d else d
  }

  lemma {:induction false} DecimalLength(n: nat)
    ensures n < 1000 ==> |Decimal(n)| <= 3
  {
    if 10 <= n < 1000 {
      if n >= 100 {
        assert n / 10 >= 10 && n / 10 / 10 < 10;
      }
      DecimalLength(n / 10);
      if n / 10 >= 10 {
        assert Decimal(n / 10) == Decimal(n / 10 / 10) + [DigitChar(n / 10 % 10)];
      }
    }
  }

  /** The number a string of decimal digits denotes (`int(s)`). */
  function DecimalValue(s: string): nat
    requires AllDigits(s)
  {
    if s == [] then 0 else DecimalValue(s[..|s| - 1]) * 10 + (s[|s| - 1] as int - '0' as int)
  }

  lemma {:induction false} DecimalValueOf(n: nat)
    ensures DecimalValue(Decimal(n)) == n
  {
    if n >= 10 {
      var d := Decimal(n);
      assert d[..|d| - 1] == Decimal(n / 10);
      DecimalValueOf(n / 10);
    }
  }

  lemma {:induction false} LeadingZeros(k: nat, s: string)
    requires AllDigits(s)
    ensures AllDigits(Zeros(k) + s) && DecimalValue(Zeros(k) + s) == DecimalValue(s)
    decreases |s|
  {
    var z := Zeros(k) + s;
    if s == [] {
      assert z == Zeros(k);
      ZerosValue(k);
    } else {
      assert z[..|z| - 1] == Zeros(k) + s[..|s| - 1];
      LeadingZeros(k, s[..|s| - 1]);
    }
  }

  lemma {:induction false} ZerosValue(k: nat)
    ensures DecimalValue(Zeros(k)) == 0
  {
    if k > 0 {
      assert Zeros(k)[..k - 1] == Zeros(k - 1);
      ZerosValue(k - 1);
    }
  }

  /** Reading the padded number back gives the number. */
  lemma Pad3Value(n: nat)
    ensures DecimalValue(Pad3(n)) == n
  {
    var d := Decimal(n);
    DecimalValueOf(n);
    if |d| < 3 {
      LeadingZeros(3 - |d|, d);
    }
  }

  /** Different numbers are formatted differently. */
  lemma Pad3Injective(m: nat, n: nat)
    ensures Pad3(m) == Pad3(n) ==> m == n
  {
    Pad3Value(m);
    Pad3Value(n);
  }

  // ------------------------------------------------------------- str order

  /** Python's `a < b` on `str`: code point by code point, a proper prefix first. */
  predicate Less(a: string, b: string) {
    if a == [] then b != []
    else if b == [] then false
    else if a[0] != b[0] then a[0] < b[0]
    else Less(a[1..], b[1..])
  }

  predicate LessEq(a: string, b: string) {
    a == b || Less(a, b)
  }

  lemma {:induction false} LessIrreflexive(a: string)
    ensures !Less(a, a)
  {
    if a != [] {
      LessIrreflexive(a[1..]);
    }
  }

  lemma {:induction false} LessTransitive(a: string, b: string, c: string)
    requires Less(a, b) && Less(b, c)
    ensures Less(a, c)
  {
    if a != [] && a[0] == b[0] && b[0] == c[0] {
      LessTransitive(a[1..], b[1..], c[1..]);
    }
  }

  lemma {:induction false} LessTotal(a: string, b: string)
    ensures a == b || Less(a, b) || Less(b, a)
  {
    if a != [] && b != [] && a[0] == b[0] {
      LessTotal(a[1..], b[1..]);
      if a[1..] == b[1..] {
        assert a == [a[0]] + a[1..] && b == [b[0]] + b[1..];
      }
    }
  }

  lemma LessAsymmetric(a: string, b: string)
    requires Less(a, b)
    ensures !Less(b, a)
  {
    if Less(b, a) {
      LessTransitive(a, b, a);
      LessIrreflexive(a);
    }
  }

  // -------------------------------------------------- list.sort(key=…)

  predicate SortedBy<T>(s: seq<T>, key: T -> string) {
    forall i, j :: 0 <= i < j < |s| ==> LessEq(key(s[i]), key(s[j]))
  }

  /** The elements of `s` whose key is `k`, in their order in `s`. */
  function WithKey<T>(s: seq<T>, key: T -> string, k: string): seq<T> {
    if s == [] then []
    else if key(s[0]) == k then [s[0]] + WithKey(s[1..], key, k)
    else WithKey(s[1..], key, k)
  }

  /** Puts `x` in front of the first element whose key is not below its own. */
  function Insert<T>(x: T, s: seq<T>, key: T -> string): seq<T> {
    if s == [] || LessEq(key(x), key(s[0])) then [x] + s
    else [s[0]] + Insert(x, s[1..], key)
  }

  /** `sorted(s, key=key)`: Python's sort is stable, and insertion from the
      back keeps earlier elements before later ones with an equal key. */
  function SortBy<T>(s: seq<T>, key: T -> string): seq<T> {
    if s == [] then [] else Insert(s[0], SortBy(s[1..], key), key)
  }

  lemma {:induction false} InsertSorted<T>(x: T, s: seq<T>, key: T -> string)
    requires SortedBy(s, key)
    ensures SortedBy(Insert(x, s, key), key)
    ensures multiset(Insert(x, s, key)) == multiset(s) + multiset{x}
  {
    if s == [] || LessEq(key(x), key(s[0])) {
      InsertFront(x, s, key);
    } else {
      InsertSorted(x, s[1..], key);
      LessTotal(key(x), key(s[0]));
      InsertBehind(x, s, key);
    }
  }

  /** `x` goes in front of a sorted list whose first key is not below its own. */
  lemma InsertFront<T>(x: T, s: seq<T>, key: T -> string)
    requires SortedBy(s, key)
    requires s == [] || LessEq(key(x), key(s[0]))
    ensures SortedBy([x] + s, key)
  {
    var r := [x] + s;
    forall i, j | 0 <= i < j < |r| ensures LessEq(key(r[i]), key(r[j])) {
      if i == 0 && j > 1 && key(x) != key(s[0]) && key(s[0]) != key(s[j - 1]) {
        LessTransitive(key(x), key(s[0]), key(s[j - 1]));
      }
    }
  }

  /** The first element stays in front when `x` goes further in. */
  lemma InsertBehind<T>(x: T, s: seq<T>, key: T -> string)
    requires SortedBy(s, key) && s != [] && Less(key(s[0]), key(x))
    requires SortedBy(Insert(x, s[1..], key), key)
    requires multiset(Insert(x, s[1..], key)) == multiset(s[1..]) + multiset{x}
    ensures SortedBy([s[0]] + Insert(x, s[1..], key), key)
    ensures multiset([s[0]] + Insert(x, s[1..], key)) == multiset(s) + multiset{x}
  {
    var t := Insert(x, s[1..], key);
    forall j | 0 <= j < |t| ensures LessEq(key(s[0]), key(t[j])) {
      assert t[j] in multiset(t);
      if t[j] != x {
        assert t[j] in multiset(s[1..]);
        var k :| 0 <= k < |s[1..]| && s[1..][k] == t[j];
        assert s[k + 1] == t[j];
      }
    }
    assert s == [s[0]] + s[1..];
  }

  /** The sort puts the elements in key order and keeps each element as often as
      it occurs. */
  lemma {:induction false} SortBySorted<T>(s: seq<T>, key: T -> string)
    ensures SortedBy(SortBy(s, key), key)
    ensures multiset(SortBy(s, key)) == multiset(s)
  {
    if s != [] {
      SortBySorted(s[1..], key);
      InsertSorted(s[0], SortBy(s[1..], key), key);
      assert s == [s[0]] + s[1..];
    }
  }

  lemma {:induction false} WithKeyAppend<T>(a: seq<T>, b: seq<T>, key: T -> string, k: string)
    ensures WithKey(a + b, key, k) == WithKey(a, key, k) + WithKey(b, key, k)
    decreases |a|
  {
    if a != [] {
      assert (a + b)[1..] == a[1..] + b;
      WithKeyAppend(a[1..], b, key, k);
    } else {
      assert a + b == b;
    }
  }

  lemma {:induction false} InsertStable<T>(x: T, s: seq<T>, key: T -> string, k: string)
    requires SortedBy(s, key)
    ensures WithKey(Insert(x, s, key), key, k) == WithKey([x] + s, key, k)
  {
    if s != [] && !LessEq(key(x), key(s[0])) {
      InsertStable(x, s[1..], key, k);
      LessTotal(key(x), key(s[0]));
      WithKeyAppend([s[0]], Insert(x, s[1..], key), key, k);
      WithKeyAppend([x], s[1..], key, k);
      WithKeyAppend([s[0]], s[1..], key, k);
      WithKeyAppend([x], s, key, k);
      assert s == [s[0]] + s[1..];
      assert [s[0]] + Insert(x, s[1..], key) == Insert(x, s, key);
      assert WithKey([x] + s[1..], key, k) == WithKey([x], key, k) + WithKey(s[1..], key, k);
      if key(x) == k {
        assert key(s[0]) != k;
      }
    }
  }

  /** Stability: for every key, the elements carrying it come out in the order
      they went in. */
  lemma {:induction false} SortByStable<T>(s: seq<T>, key: T -> string, k: string)
    ensures WithKey(SortBy(s, key), key, k) == WithKey(s, key, k)
  {
    if s != [] {
      SortBySorted(s[1..], key);
      InsertStable(s[0], SortBy(s[1..], key), key, k);
      SortByStable(s[1..], key, k);
      WithKeyAppend([s[0]], SortBy(s[1..], key), key, k);
      WithKeyAppend([s[0]], s[1..], key, k);
      assert s == [s[0]] + s[1..];
    }
  }
}
