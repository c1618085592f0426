// Strings as the HTTP code uses them: std::string::find and substr, the order
// of std::less<std::string>, std::to_string, sscanf("%zd") and std::stoi.
// A byte is a char with a code below 256; every statement holds for all chars.
module Text {
  import opened Wrappers

  // ---------------------------------------------------------------- find

  /** The two-character pattern ab stands at position i of s. */
  predicate PairAt(s: string, a: char, b: char, i: nat) {
    i + 1 < |s| && s[i] == a && s[i + 1] == b
  }

  ghost predicate NoPair(s: string, a: char, b: char) {
    forall i: nat :: !PairAt(s, a, b, i)
  }

  /** s.find("ab", from) */
  function FindPair(s: string, a: char, b: char, from: nat): (r: Option<nat>)
    ensures r.Some? ==> from <= r.value && PairAt(s, a, b, r.value)
    decreases |s| - from
  {
    if |s| <= from + 1 then None
    else if PairAt(s, a, b, from) then Some(from)
    else FindPair(s, a, b, from + 1)
  }

  /** s.find("c", from) */
  function FindChar(s: string, c: char, from: nat): (r: Option<nat>)
    ensures r.Some? ==> from <= r.value < |s| && s[r.value] == c
    decreases |s| - from
  {
    if |s| <= from then None
    else if s[from] == c then Some(from)
    else FindChar(s, c, from + 1)
  }

  /** find returns the first occurrence, and npos only if there is none. */
  lemma {:induction false} FindPairFirst(s: string, a: char, b: char, from: nat)
    ensures var r := FindPair(s, a, b, from);
            && (r.Some? ==> forall i: nat | from <= i < r.value :: !PairAt(s, a, b, i))
            && (r.None? ==> forall i: nat | from <= i :: !PairAt(s, a, b, i))
    decreases |s| - from
  {
    if from + 1 < |s| && !PairAt(s, a, b, from) {
      FindPairFirst(s, a, b, from + 1);
    }
  }

  lemma {:induction false} FindCharFirst(s: string, c: char, from: nat)
    ensures var r := FindChar(s, c, from);
            && (r.Some? ==> forall i | from <= i < r.value :: s[i] != c)
            && (r.None? ==> forall i | from <= i < |s| :: s[i] != c)
    decreases |s| - from
  {
    if from < |s| && s[from] != c {
      FindCharFirst(s, c, from + 1);
    }
  }

  /** x stands at position i of s. */
  ghost predicate StandsAt(s: string, x: string, i: nat) {
    i + |x| <= |s| && s[i..i + |x|] == x
  }

  /** find, in terms of the text alone: the first place from there on, or none. */
  lemma FindPairExactly(s: string, a: char, b: char, from: nat, i: nat)
    ensures FindPair(s, a, b, from) == Some(i) <==>
            from <= i && StandsAt(s, [a, b], i) && forall k: nat | from <= k < i :: !StandsAt(s, [a, b], k)
    ensures FindPair(s, a, b, from) == None <==> forall k: nat | from <= k :: !StandsAt(s, [a, b], k)
  {
    FindPairFirst(s, a, b, from);
    forall k: nat ensures PairAt(s, a, b, k) <==> StandsAt(s, [a, b], k) {
      if k + 2 <= |s| { assert s[k..k + 2] == [s[k], s[k + 1]]; }
    }
  }

  /** A piece without the pattern, followed by the pattern, is found whole. */
  lemma FindPairAfter(s: string, from: nat, line: string, a: char, b: char, post: string)
    requires from <= |s| && s[from..] == line + [a, b] + post
    requires NoPair(line, a, b) && a != b
    ensures FindPair(s, a, b, from) == Some(from + |line|)
    ensures s[from..from + |line|] == line && s[from + |line| + 2..] == post
  {
    var t := s[from..];
    var n := |line|;
    FindPairFirst(s, a, b, from);
    assert t[n] == a && t[n + 1] == b;
    assert PairAt(s, a, b, from + n);
    forall i: nat | from <= i < from + n ensures !PairAt(s, a, b, i) {
      assert !PairAt(line, a, b, i - from);
      assert s[i] == t[i - from] == line[i - from];
      assert i + 1 < from + n ==> s[i + 1] == t[i + 1 - from] == line[i + 1 - from];
    }
    assert s[from + n + 2..] == t[n + 2..];
    assert s[from..from + n] == t[..n];
  }

  lemma FindCharAt(s: string, from: nat, to: nat, c: char)
    requires from <= to < |s| && s[to] == c && c !in s[from..to]
    ensures FindChar(s, c, from) == Some(to)
  {
    FindCharFirst(s, c, from);
    forall i | from <= i < to ensures s[i] != c {
      assert s[i] == s[from..to][i - from];
    }
  }

  /** Cutting a suffix at a position. */
  lemma CutAt(s: string, lo: nat, hi: nat)
    requires lo <= hi < |s|
    ensures s[lo..] == s[lo..hi] + [s[hi]] + s[hi + 1..]
  {}

  lemma CutPairAt(s: string, lo: nat, hi: nat)
    requires lo <= hi < |s| - 1
    ensures s[lo..] == s[lo..hi] + [s[hi], s[hi + 1]] + s[hi + 2..]
  {}

  /** Gluing two pieces creates no pattern when neither edge can start or end one. */
  lemma NoPairConcat(x: string, y: string, a: char, b: char)
    ensures NoPair(x + y, a, b) ==> NoPair(x, a, b) && NoPair(y, a, b)
    ensures NoPair(x, a, b) && NoPair(y, a, b) && (x == "" || y == "" || x[|x| - 1] != a || y[0] != b)
            ==> NoPair(x + y, a, b)
  {
    var s := x + y;
    if NoPair(s, a, b) {
      forall i: nat ensures !PairAt(x, a, b, i) && !PairAt(y, a, b, i) {
        assert !PairAt(s, a, b, i) && !PairAt(s, a, b, i + |x|);
      }
    }
    if NoPair(x, a, b) && NoPair(y, a, b) && (x == "" || y == "" || x[|x| - 1] != a || y[0] != b) {
      forall i: nat ensures !PairAt(s, a, b, i) {
        assert !PairAt(x, a, b, i);
        if i >= |x| {
          assert !PairAt(y, a, b, i - |x|);
        }
      }
    }
  }

  // ---------------------------------------------------------------- order

  /** std::less<std::string>: lexicographic by character code. */
  predicate Before(x: string, y: string) {
    y != "" && (x == "" || x[0] < y[0] || (x[0] == y[0] && Before(x[1..], y[1..])))
  }

  lemma {:induction false} BeforeTrichotomy(x: string, y: string)
    ensures Before(x, y) || x == y || Before(y, x)
    ensures !(Before(x, y) && Before(y, x))
    ensures !Before(x, x)
  {
    if x != "" {
      BeforeTrichotomy(x[1..], if y == "" then y else y[1..]);
      if y != "" && x[0] == y[0] && x[1..] == y[1..] {
        assert x == [x[0]] + x[1..] && y == [y[0]] + y[1..];
      }
    }
  }

  lemma {:induction false} BeforeTransitive(x: string, y: string, z: string)
    requires Before(x, y) && Before(y, z)
    ensures Before(x, z)
  {
    if x != "" && x[0] == y[0] && y[0] == z[0] {
      BeforeTransitive(x[1..], y[1..], z[1..]);
    }
  }

  /** The first difference decides, and a prefix comes first. */
  lemma {:induction false} BeforeExactly(x: string, y: string)
    ensures Before(x, y) <==> exists i | 0 <= i <= |x| :: DiffersAt(x, y, i)
  {
    if x == "" {
      assert y != "" ==> DiffersAt(x, y, 0);
    } else if y != "" {
      if x[0] == y[0] {
        BeforeExactly(x[1..], y[1..]);
        DiffersSomewhereLater(x, y);
      } else {
        assert x[0] < y[0] ==> DiffersAt(x, y, 0);
        assert forall i | 1 <= i <= |x| :: DiffersAt(x, y, i) ==> x[..i][0] == y[..i][0];
      }
    }
  }

  /** x and y agree up to i, where x ends or has the smaller character. */
  ghost predicate DiffersAt(x: string, y: string, i: nat)
    requires i <= |x|
  {
    i < |y| && x[..i] == y[..i] && (i == |x| || x[i] < y[i])
  }

  lemma DiffersLater(x: string, y: string, i: nat)
    requires x != "" && y != "" && x[0] == y[0] && i < |x|
    ensures DiffersAt(x[1..], y[1..], i) <==> DiffersAt(x, y, i + 1)
  {
    if i + 1 < |y| {
      assert x[..i + 1] == [x[0]] + x[1..][..i] && y[..i + 1] == [y[0]] + y[1..][..i];
    }
  }

  lemma DiffersSomewhereLater(x: string, y: string)
    requires x != "" && y != "" && x[0] == y[0]
    ensures (exists i | 0 <= i <= |x| :: DiffersAt(x, y, i)) <==>
            (exists i | 0 <= i <= |x[1..]| :: DiffersAt(x[1..], y[1..], i))
  {
    if i :| 0 <= i <= |x| && DiffersAt(x, y, i) {
      assert i > 0;
      DiffersLater(x, y, i - 1);
    }
    if i :| 0 <= i <= |x[1..]| && DiffersAt(x[1..], y[1..], i) {
      DiffersLater(x, y, i);
    }
  }

  ghost predicate IsLeast(k: string, keys: set<string>) {
    k in keys && forall j | j in keys && j != k :: Before(k, j)
  }

  lemma {:induction false} LeastExists(keys: set<string>)
    requires keys != {}
    ensures exists k :: IsLeast(k, keys)
    decreases |keys|
  {
    var x :| x in keys;
    if keys == {x} {
      assert IsLeast(x, keys);
    } else {
      var others := keys - {x};
      assert others != {};
      LeastExists(others);
      var k :| IsLeast(k, others);
      BeforeTrichotomy(x, k);
      if Before(x, k) {
        forall j | j in keys && j != x ensures Before(x, j) {
          if j != k { BeforeTransitive(x, k, j); }
        }
        assert IsLeast(x, keys);
      } else {
        assert IsLeast(k, keys);
      }
    }
  }

  /** The order in which a std::map with these keys is traversed. */
  ghost function SortedKeys(keys: set<string>): (r: seq<string>)
    ensures forall i, j | 0 <= i < j < |r| :: Before(r[i], r[j])
    ensures forall k :: k in r <==> k in keys
    decreases |keys|
  {
    if keys == {} then []
    else
      LeastExists(keys);
      var k :| IsLeast(k, keys);
      var rest := SortedKeys(keys - {k});
      assert forall j | 0 <= j < |rest| :: rest[j] in keys - {k};
      [k] + rest
  }

  /** There is only one way to list a set in increasing order. */
  lemma {:induction false} SortedIsUnique(a: seq<string>, b: seq<string>)
    requires forall i, j | 0 <= i < j < |a| :: Before(a[i], a[j])
    requires forall i, j | 0 <= i < j < |b| :: Before(b[i], b[j])
    requires forall k :: k in a <==> k in b
    ensures a == b
  {
    if a == [] {
      assert forall i | 0 <= i < |b| :: b[i] in b;
    } else {
      assert a[0] in b && b != [] && b[0] in a;
      BeforeTrichotomy(a[0], b[0]);
      assert a[0] == b[0];
      forall k ensures k in a[1..] <==> k in b[1..] {
        BeforeTrichotomy(a[0], a[0]);
        assert k in a <==> k in b;
      }
      SortedIsUnique(a[1..], b[1..]);
      assert a == [a[0]] + a[1..] && b == [b[0]] + b[1..];
    }
  }

  // ---------------------------------------------------------------- numbers

  const TWO_31 := 0x8000_0000
  const TWO_63 := 0x8000_0000_0000_0000
  const TWO_64 := 0x1_0000_0000_0000_0000

  predicate IsDigit(c: char) {
    '0' <= c <= '9'
  }

  predicate AllDigits(s: string) {
    forall i | 0 <= i < |s| :: IsDigit(s[i])
  }

  function DigitValue(c: char): nat
    requires IsDigit(c)
  {
    c as int - '0' as int
  }

  /** std::to_string of an unsigned value */
  function Decimal(n: nat): (r: string)
    ensures r != "" && AllDigits(r)
  {
    var digit := [('0' as int + n % 10) as char];
    if n < 10 then digit else Decimal(n / 10) + digit
  }

  /** std::to_string of a signed value */
  function SignedDecimal(n: int): string {
    if n < 0 then "-" + Decimal(-n) else Decimal(n)
  }

  /** The value of the longest run of digits at the front of s, after acc. */
  function ScanDigits(s: string, acc: nat): nat {
    if s == "" || !IsDigit(s[0]) then acc
    else ScanDigits(s[1..], 10 * acc + DigitValue(s[0]))
  }

  predicate IsSpace(c: char) {
    c == ' ' || ('\t' <= c <= '\r')
  }

  function SkipSpaces(s: string): string {
    if s != "" && IsSpace(s[0]) then SkipSpaces(s[1..]) else s
  }

  /** strtol, base 10, before any range check: None when no digit is found. */
  function ScanInteger(s: string): (r: Option<int>) {
    var t := SkipSpaces(s);
    var u := if t != "" && (t[0] == '-' || t[0] == '+') then t[1..] else t;
    if u == "" || !IsDigit(u[0]) then None
    else if t[0] == '-' then Some(0 - (ScanDigits(u, 0) as int))
    else Some(ScanDigits(u, 0))
  }

  /**
   * size_t n = 0; sscanf(s, "%zd", &n): n stays 0 when nothing matches, the
   * signed value saturates at 64 bits and is then read as unsigned.
   */
  function ScanSize(s: string): nat {
    match ScanInteger(s)
    case None => 0
    case Some(v) =>
      if v >= TWO_63 then TWO_63 - 1
      else if v < -TWO_63 then TWO_63
      else v % TWO_64
  }

  lemma {:induction false} ScanDigitsConcat(a: string, b: string, acc: nat)
    requires AllDigits(a)
    ensures ScanDigits(a + b, acc) == ScanDigits(b, ScanDigits(a, acc))
  {
    if a == "" {
      assert a + b == b;
    } else {
      assert (a + b)[1..] == a[1..] + b;
      ScanDigitsConcat(a[1..], b, 10 * acc + DigitValue(a[0]));
    }
  }

  lemma {:induction false} ScanDecimal(n: nat)
    ensures ScanDigits(Decimal(n), 0) == n
  {
    var c := ('0' as int + n % 10) as char;
    assert ScanDigits([c], n / 10) == n by {
      assert [c][1..] == "";
      assert DigitValue(c) == n % 10;
    }
    if n < 10 {
      assert n / 10 == 0;
    } else {
      ScanDecimal(n / 10);
      ScanDigitsConcat(Decimal(n / 10), [c], 0);
    }
  }

  /** Reading back what std::to_string printed. */
  lemma ScanSignedDecimal(n: int)
    ensures ScanInteger(SignedDecimal(n)) == Some(n)
  {
    if n < 0 {
      ScanDecimal(-n);
      assert SignedDecimal(n)[1..] == Decimal(-n);
    } else {
      ScanDecimal(n);
    }
  }

  lemma ScanSizeOfDecimal(n: nat)
    ensures ScanSize(Decimal(n)) == n <==> n < TWO_63
  {
    ScanSignedDecimal(n);
  }

  // ---------------------------------------------------------------- numbers, in terms of the text

  /** The positional value: one more digit multiplies by ten, anything else ends the number. */
  lemma {:induction false} OneMoreDigit(s: string, c: char, rest: string)
    requires forall i | 0 <= i < |s| :: '0' <= s[i] <= '9'
    ensures '0' <= c <= '9' ==> ScanDigits(s + [c], 0) == 10 * ScanDigits(s, 0) + (c as int - '0' as int)
    ensures !('0' <= c <= '9') ==> ScanDigits(s + [c] + rest, 0) == ScanDigits(s, 0)
    ensures ScanDigits("", 0) == 0
  {
    ScanDigitsConcat(s, [c], 0);
    assert [c][1..] == "";
    assert s + [c] + rest == s + ([c] + rest);
    ScanDigitsConcat(s, [c] + rest, 0);
  }

  /** std::to_string: decimal digits without a leading zero, and a minus sign exactly for what is negative. */
  lemma {:induction false} DecimalIsCanonical(n: nat)
    ensures forall i | 0 <= i < |Decimal(n)| :: '0' <= Decimal(n)[i] <= '9'
    ensures |Decimal(n)| >= 1 && (Decimal(n)[0] == '0' <==> n == 0)
    ensures n == 0 ==> Decimal(n) == "0"
    ensures SignedDecimal(n as int) == Decimal(n) && (n > 0 ==> SignedDecimal(0 - n) == "-" + Decimal(n))
  {
    assert forall i | 0 <= i < |Decimal(n)| :: IsDigit(Decimal(n)[i]);
    if n >= 10 {
      DecimalIsCanonical(n / 10);
    }
  }

  /** No other text of digits without a leading zero has that value. */
  lemma {:induction false} DecimalIsUnique(n: nat, s: string)
    requires s != "" && forall i | 0 <= i < |s| :: '0' <= s[i] <= '9'
    requires ScanDigits(s, 0) == n && (s[0] == '0' ==> s == "0")
    ensures s == Decimal(n)
    decreases |s|
  {
    var front, c := s[..|s| - 1], s[|s| - 1];
    assert s == front + [c];
    OneMoreDigit(front, c, "");
    if front != "" {
      PositiveWithoutZero(front);
      DecimalIsUnique(n / 10, front);
    }
  }

  lemma {:induction false} PositiveWithoutZero(s: string)
    requires s != "" && s[0] != '0' && forall i | 0 <= i < |s| :: '0' <= s[i] <= '9'
    ensures ScanDigits(s, 0) > 0
    decreases |s|
  {
    var front, c := s[..|s| - 1], s[|s| - 1];
    assert s == front + [c];
    OneMoreDigit(front, c, "");
    if front != "" {
      PositiveWithoutZero(front);
    }
  }

  /** White space, a sign, digits, and whatever does not go on with a digit. */
  ghost predicate IsInteger(s: string, spaces: string, sign: string, digits: string, rest: string) {
    && s == spaces + sign + digits + rest
    && (forall i | 0 <= i < |spaces| :: spaces[i] in {' ', '\t', '\n', '\U{0B}', '\U{0C}', '\r'})
    && sign in {"", "+", "-"}
    && digits != "" && (forall i | 0 <= i < |digits| :: '0' <= digits[i] <= '9')
    && (rest != "" ==> !('0' <= rest[0] <= '9'))
  }

  lemma {:induction false} SkipsSpaces(spaces: string, t: string)
    requires forall i | 0 <= i < |spaces| :: IsSpace(spaces[i])
    requires t != "" ==> !IsSpace(t[0])
    ensures SkipSpaces(spaces + t) == t
  {
    if spaces == "" {
      assert spaces + t == t;
    } else {
      assert (spaces + t)[1..] == spaces[1..] + t;
      SkipsSpaces(spaces[1..], t);
    }
  }

  lemma ScanDigitsOf(digits: string, rest: string)
    requires AllDigits(digits) && (rest != "" ==> !IsDigit(rest[0]))
    ensures ScanDigits(digits + rest, 0) == ScanDigits(digits, 0)
  {
    ScanDigitsConcat(digits, rest, 0);
  }

  /** The digits are read as the number they spell. */
  lemma IntegerIsRead(s: string, spaces: string, sign: string, digits: string, rest: string)
    requires IsInteger(s, spaces, sign, digits, rest)
    ensures ScanInteger(s) == Some(if sign == "-" then 0 - (ScanDigits(digits, 0) as int) else ScanDigits(digits, 0))
  {
    var u := digits + rest;
    var t := sign + u;
    FourPieces(spaces, sign, digits, rest);
    SpacesAre(spaces);
    assert AllDigits(digits) && u[0] == digits[0] && IsDigit(u[0]);
    ScanDigitsOf(digits, rest);
    if sign == "" {
      assert t == u;
    } else {
      assert t[0] == sign[0] && t[1..] == u;
    }
    SkipsSpaces(spaces, t);
  }

  lemma {:induction false} SpacesInFront(s: string) returns (spaces: string)
    ensures s == spaces + SkipSpaces(s)
    ensures forall i | 0 <= i < |spaces| :: IsSpace(spaces[i])
  {
    if s != "" && IsSpace(s[0]) {
      var more := SpacesInFront(s[1..]);
      spaces := [s[0]] + more;
      assert s == [s[0]] + s[1..];
    } else {
      spaces := "";
    }
  }

  lemma {:induction false} DigitsInFront(s: string) returns (digits: string, rest: string)
    ensures s == digits + rest && AllDigits(digits) && (rest != "" ==> !IsDigit(rest[0]))
    ensures s != "" && IsDigit(s[0]) ==> digits != ""
  {
    if s != "" && IsDigit(s[0]) {
      digits, rest := DigitsInFront(s[1..]);
      digits := [s[0]] + digits;
      assert s == [s[0]] + s[1..];
    } else {
      digits, rest := "", s;
    }
  }

  lemma IntegerInFront(s: string) returns (spaces: string, sign: string, digits: string, rest: string)
    requires ScanInteger(s).Some?
    ensures IsInteger(s, spaces, sign, digits, rest)
  {
    spaces := SpacesInFront(s);
    var t := SkipSpaces(s);
    sign := if t[0] == '-' || t[0] == '+' then [t[0]] else "";
    var u := t[|sign|..];
    assert t == sign + u;
    digits, rest := DigitsInFront(u);
    FourPieces(spaces, sign, digits, rest);
    SpacesAre(spaces);
  }

  lemma FourPieces(a: string, b: string, c: string, d: string)
    ensures a + b + c + d == a + (b + (c + d))
  {}

  lemma SpacesAre(s: string)
    ensures (forall i | 0 <= i < |s| :: IsSpace(s[i])) <==>
            forall i | 0 <= i < |s| :: s[i] in {' ', '\t', '\n', '\U{0B}', '\U{0C}', '\r'}
  {}

  /** A number is read exactly from a text that starts with one. */
  lemma ScansExactly(s: string)
    ensures ScanInteger(s).Some? <==>
            exists spaces, sign, digits, rest :: IsInteger(s, spaces, sign, digits, rest)
  {
    if ScanInteger(s).Some? {
      var spaces, sign, digits, rest := IntegerInFront(s);
    }
    if spaces, sign, digits, rest :| IsInteger(s, spaces, sign, digits, rest) {
      IntegerIsRead(s, spaces, sign, digits, rest);
    }
  }

  /** As a size, a number is itself within 63 bits; what is too large or negative is 2^63 - 1 or more. */
  lemma SizeOfInteger(s: string)
    ensures ScanInteger(s).None? ==> ScanSize(s) == 0
    ensures ScanInteger(s).Some? ==>
              var v := ScanInteger(s).value;
              && (0 <= v < 9_223_372_036_854_775_808 ==> ScanSize(s) == v)
              && (v >= 9_223_372_036_854_775_808 ==> ScanSize(s) == 9_223_372_036_854_775_807)
              && (-9_223_372_036_854_775_808 <= v < 0 ==> ScanSize(s) == 18_446_744_073_709_551_616 + v)
              && (v < -9_223_372_036_854_775_808 ==> ScanSize(s) == 9_223_372_036_854_775_808)
  {}
}
