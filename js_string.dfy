/**
 * The JavaScript string built-ins the sources rely on: the `\s` character
 * class, the ASCII case folding of a regular expression's `i` flag,
 * `String.prototype.includes`, `String(n)` for a non-negative integer and
 * `parseInt(s, 10)`. A `char` stands for one UTF-16 code unit.
 */
module JsString {
  import opened Wrappers

  /** The `\s` class of a JavaScript regular expression (WhiteSpace and
      LineTerminator), which is also the set `parseInt` trims. */
  predicate IsJsSpace(c: char) {
    || c == ' ' || c == '\t' || c == '\n' || c == '\r'
    || c as int == 0x0B || c as int == 0x0C || c as int == 0xA0
    || c as int == 0x1680 || (0x2000 <= c as int <= 0x200A)
    || c as int == 0x2028 || c as int == 0x2029 || c as int == 0x202F
    || c as int == 0x205F || c as int == 0x3000 || c as int == 0xFEFF
  }

  /** The class `[a-z]`, which the `i` flag widens to `[A-Za-z]`. */
  predicate IsAsciiLetter(c: char) {
    ('a' <= c <= 'z') || ('A' <= c <= 'Z')
  }

  predicate IsDigit(c: char) {
    '0' <= c <= '9'
  }

  /** Canonical form of a character under the `i` flag, restricted to ASCII. */
  function Upper(c: char): (u: char)
    ensures IsAsciiLetter(c) <==> 'A' <= u <= 'Z'
    ensures !('a' <= c <= 'z') ==> u == c
  {
    if 'a' <= c <= 'z' then (c as int - 32) as char else c
  }

  /** Equality of two characters, case-insensitive when `fold` is set. */
  predicate SameChar(a: char, b: char, fold: bool) {
    if fold then Upper(a) == Upper(b) else a == b
  }

  lemma SameCharNonLetter(a: char, b: char, fold: bool)
    requires !IsAsciiLetter(b)
    ensures SameChar(a, b, fold) <==> a == b
  {
  }

  /** The literal `w` occurs in `s` at index `k`. */
  predicate WordAt(s: string, k: nat, w: string, fold: bool) {
    k + |w| <= |s| && forall j :: 0 <= j < |w| ==> SameChar(s[k + j], w[j], fold)
  }

  /** The first index at or after `from` where `w` occurs: the search a lazy
      `[\s\S]*?` followed by the literal `w` performs. */
  function Find(s: string, w: string, from: nat, fold: bool): (r: Option<nat>)
    decreases |s| - from
    ensures r.Some? ==> from <= r.value && WordAt(s, r.value, w, fold)
    ensures r.Some? ==> forall k :: from <= k < r.value ==> !WordAt(s, k, w, fold)
    ensures r.None? ==> forall k :: from <= k ==> !WordAt(s, k, w, fold)
  {
    if from + |w| > |s| then None
    else if WordAt(s, from, w, fold) then Some(from)
    else Find(s, w, from + 1, fold)
  }

  lemma WordAtIsSlice(s: string, k: nat, w: string)
    ensures WordAt(s, k, w, false) <==> k + |w| <= |s| && s[k..k + |w|] == w
  {
    if k + |w| <= |s| && s[k..k + |w|] == w {
      forall j | 0 <= j < |w| ensures s[k + j] == w[j] {
        assert s[k..k + |w|][j] == w[j];
      }
    }
  }

  /** A mismatch at one position rules an occurrence out. */
  lemma NotWordAt(s: string, k: nat, w: string, fold: bool, j: nat)
    requires j < |w| && k + j < |s| && !SameChar(s[k + j], w[j], fold)
    ensures !WordAt(s, k, w, fold)
  {
  }

  /** `Find` returns `k` when `w` occurs at `k` and nowhere between `from` and `k`. */
  lemma FindAt(s: string, w: string, from: nat, k: nat, fold: bool)
    requires from <= k && WordAt(s, k, w, fold)
    requires forall j :: from <= j < k ==> !WordAt(s, j, w, fold)
    ensures Find(s, w, from, fold) == Some(k)
  {
  }

  /** No occurrence of `w` starts in `[from, to)` when its `j`-th character, not a
      letter, is absent from the stretch of `s` those occurrences would put it on. */
  lemma NoWordBetween(s: string, w: string, fold: bool, from: nat, to: nat, j: nat)
    requires j < |w| && !IsAsciiLetter(w[j]) && from <= to && to + j <= |s|
    requires forall i :: from + j <= i < to + j ==> s[i] != w[j]
    ensures forall k :: from <= k < to ==> !WordAt(s, k, w, fold)
  {
    forall k | from <= k < to ensures !WordAt(s, k, w, fold) {
      SameCharNonLetter(s[k + j], w[j], fold);
      NotWordAt(s, k, w, fold, j);
    }
  }

  /** The first index at or after `from` holding the character `c`: the search a
      pattern performs for a literal character after a lazy `[\s\S]*?`, or the
      end of a greedy `[^c]*`. */
  function FindChar(s: string, c: char, from: nat): (r: Option<nat>)
    decreases |s| - from
    ensures r.Some? ==> from <= r.value < |s| && s[r.value] == c
    ensures r.Some? ==> forall j :: from <= j < r.value ==> s[j] != c
    ensures r.None? ==> forall j :: from <= j < |s| ==> s[j] != c
  {
    if from >= |s| then None
    else if s[from] == c then Some(from)
    else FindChar(s, c, from + 1)
  }

  /** `w` occurs in `s` at index `k`, stated with a slice. */
  predicate SliceAt(s: string, k: nat, w: string) {
    k + |w| <= |s| && s[k..k + |w|] == w
  }

  /** `s.includes(w)`. */
  function Includes(s: string, w: string): (r: bool)
    ensures r <==> exists k: nat :: SliceAt(s, k, w)
  {
    assert forall k: nat :: SliceAt(s, k, w) <==> WordAt(s, k, w, false) by {
      forall k: nat ensures SliceAt(s, k, w) <==> WordAt(s, k, w, false) {
        WordAtIsSlice(s, k, w);
      }
    }
    Find(s, w, 0, false).Some?
  }

  /** A string shorter than `w` cannot contain it. */
  lemma ShorterExcludes(s: string, w: string)
    requires |s| < |w|
    ensures !Includes(s, w)
  {
  }

  // ---------------------------------------------------------------------
  // Subsequences: what deleting spans leaves behind.

  /** `a` is obtained from `b` by deleting characters. */
  predicate IsSubsequence(a: string, b: string)
    decreases |b|
  {
    if a == [] then true
    else if b == [] then false
    else (a[0] == b[0] && IsSubsequence(a[1..], b[1..])) || IsSubsequence(a, b[1..])
  }

  lemma {:induction false} SubsequenceReflexive(a: string)
    ensures IsSubsequence(a, a)
    decreases |a|
  {
    if a != [] {
      SubsequenceReflexive(a[1..]);
    }
  }

  lemma {:induction false} SubsequenceLength(a: string, b: string)
    requires IsSubsequence(a, b)
    ensures |a| <= |b|
    decreases |b|
  {
    if a != [] {
      if a[0] == b[0] && IsSubsequence(a[1..], b[1..]) {
        SubsequenceLength(a[1..], b[1..]);
      } else {
        SubsequenceLength(a, b[1..]);
      }
    }
  }

  lemma {:induction false} SubsequenceTransitive(a: string, b: string, c: string)
    requires IsSubsequence(a, b) && IsSubsequence(b, c)
    ensures IsSubsequence(a, c)
    decreases |c|
  {
    if a == [] {
    } else if b[0] == c[0] && IsSubsequence(b[1..], c[1..]) {
      if a[0] == b[0] && IsSubsequence(a[1..], b[1..]) {
        SubsequenceTransitive(a[1..], b[1..], c[1..]);
      } else {
        SubsequenceTransitive(a, b[1..], c[1..]);
      }
    } else {
      SubsequenceTransitive(a, b, c[1..]);
    }
  }

  /** Deleting a prefix keeps a subsequence a subsequence of the whole. */
  lemma {:induction false} SubsequenceOfSuffix(a: string, s: string, i: nat, e: nat)
    requires i <= e <= |s|
    requires IsSubsequence(a, s[e..])
    ensures IsSubsequence(a, s[i..])
    decreases e - i
  {
    if i < e {
      SubsequenceOfSuffix(a, s, i + 1, e);
      assert s[i..][1..] == s[i + 1..];
    }
  }

  // ---------------------------------------------------------------------
  // Decimal digits: `String(n)` and `parseInt(s, 10)`.

  function DigitChar(d: nat): (c: char)
    requires d < 10
    ensures IsDigit(c)
  {
    ('0' as int + d) as char
  }

  function DigitValue(c: char): (d: nat)
    requires IsDigit(c)
    ensures d < 10
  {
    c as int - '0' as int
  }

  predicate AllDigits(s: string) {
    forall i :: 0 <= i < |s| ==> IsDigit(s[i])
  }

  /** `String(n)` for a non-negative integer below 10^21. */
  function DecimalString(n: nat): (s: string)
    ensures |s| > 0 && AllDigits(s)
    ensures n > 0 ==> s[0] != '0'
    decreases n
  {
    if n < 10 then [DigitChar(n)] else DecimalString(n / 10) + [DigitChar(n % 10)]
  }

  /** The number a run of decimal digits denotes. */
  function DigitsValue(d: string): nat
    requires AllDigits(d)
    decreases |d|
  {
    if d == [] then 0 else DigitsValue(d[..|d| - 1]) * 10 + DigitValue(d[|d| - 1])
  }

  lemma {:induction false} DecimalRoundTrip(n: nat)
    ensures DigitsValue(DecimalString(n)) == n
    decreases n
  {
    if n >= 10 {
      DecimalRoundTrip(n / 10);
      var s := DecimalString(n);
      assert s[..|s| - 1] == DecimalString(n / 10);
    }
  }

  /** Leading whitespace removed, as `parseInt` does before reading digits. */
  function TrimStart(s: string): (r: string)
    ensures |r| <= |s| && r == s[|s| - |r|..]
    ensures forall i :: 0 <= i < |s| - |r| ==> IsJsSpace(s[i])
    ensures r == [] || !IsJsSpace(r[0])
    decreases |s|
  {
    if s != [] && IsJsSpace(s[0]) then TrimStart(s[1..]) else s
  }

  /** The longest prefix of digits. */
  function LeadingDigits(s: string): (d: string)
    ensures |d| <= |s| && d == s[..|d|] && AllDigits(d)
    ensures |d| == |s| || !IsDigit(s[|d|])
    decreases |s|
  {
    if s != [] && IsDigit(s[0]) then [s[0]] + LeadingDigits(s[1..]) else []
  }

  /** `parseInt(s, 10)`; `None` stands for NaN. */
  function ParseInt(s: string): Option<int> {
    var t := TrimStart(s);
    var negative := t != [] && t[0] == '-';
    var unsigned := if t != [] && (t[0] == '-' || t[0] == '+') then t[1..] else t;
    var digits := LeadingDigits(unsigned);
    var magnitude: int := if digits == [] then 0 else DigitsValue(digits);
    if digits == [] then None
    else Some(if negative then -magnitude else magnitude)
  }

  lemma {:induction false} TrimStartOf(ws: string, x: string)
    requires forall i :: 0 <= i < |ws| ==> IsJsSpace(ws[i])
    requires x == [] || !IsJsSpace(x[0])
    ensures TrimStart(ws + x) == x
    decreases |ws|
  {
    if ws == [] {
      assert ws + x == x;
    } else {
      assert (ws + x)[0] == ws[0];
      assert (ws + x)[1..] == ws[1..] + x;
      TrimStartOf(ws[1..], x);
    }
  }

  lemma {:induction false} LeadingDigitsOf(digits: string, rest: string)
    requires AllDigits(digits)
    requires rest == [] || !IsDigit(rest[0])
    ensures LeadingDigits(digits + rest) == digits
    decreases |digits|
  {
    if digits == [] {
      assert digits + rest == rest;
    } else {
      assert (digits + rest)[0] == digits[0];
      assert (digits + rest)[1..] == digits[1..] + rest;
      LeadingDigitsOf(digits[1..], rest);
      assert [digits[0]] + digits[1..] == digits;
    }
  }

  /** What `parseInt` reads from whitespace, an optional sign, a maximal run
      of digits and anything after it. */
  lemma ParseIntOf(ws: string, sign: string, digits: string, rest: string)
    requires forall i :: 0 <= i < |ws| ==> IsJsSpace(ws[i])
    requires sign == "" || sign == "+" || sign == "-"
    requires digits != [] && AllDigits(digits)
    requires rest == [] || !IsDigit(rest[0])
    ensures var v: int := DigitsValue(digits);
      ParseInt(ws + sign + digits + rest) == Some(if sign == "-" then -v else v)
  {
    var unsigned := digits + rest;
    var x := sign + unsigned;
    var s := ws + sign + digits + rest;
    assert s == ws + x;
    assert x[0] == (if sign == "" then digits[0] else sign[0]);
    assert !IsJsSpace(x[0]) by {
      NonSpaceStart(x[0]);
    }
    TrimStartOf(ws, x);
    LeadingDigitsOf(digits, rest);
    ParseIntUnsigned(s, x, sign, unsigned, digits);
  }

  lemma NonSpaceStart(c: char)
    requires c == '+' || c == '-' || IsDigit(c)
    ensures !IsJsSpace(c)
  {
  }

  lemma ParseIntUnsigned(s: string, x: string, sign: string, unsigned: string, digits: string)
    requires sign == "" || sign == "+" || sign == "-"
    requires x == sign + unsigned && TrimStart(s) == x
    requires digits != [] && LeadingDigits(unsigned) == digits
    ensures var v: int := DigitsValue(digits);
      ParseInt(s) == Some(if sign == "-" then -v else v)
  {
    var u := if x != [] && (x[0] == '-' || x[0] == '+') then x[1..] else x;
    assert u == unsigned by {
      if sign == "" {
        assert x == unsigned;
        assert x == [] || (x[0] != '-' && x[0] != '+');
      } else {
        assert x[1..] == unsigned;
      }
    }
  }

  /** A run of digits followed by anything else parses to its value. */
  lemma ParseIntOfDigits(digits: string, rest: string)
    requires digits != [] && AllDigits(digits)
    requires rest == [] || !IsDigit(rest[0])
    ensures ParseInt(digits + rest) == Some(DigitsValue(digits))
  {
    var s := digits + rest;
    assert s[0] == digits[0];
    NonSpaceStart(s[0]);
    assert TrimStart(s) == s;
    LeadingDigitsOf(digits, rest);
  }

  /** Text without any digit parses to NaN. */
  lemma ParseIntWithoutDigits(s: string)
    requires forall i :: 0 <= i < |s| ==> !IsDigit(s[i])
    ensures ParseInt(s) == None
  {
    var t := TrimStart(s);
    assert forall i :: 0 <= i < |t| ==> t[i] == s[|s| - |t| + i];
    var unsigned := if t != [] && (t[0] == '-' || t[0] == '+') then t[1..] else t;
    assert unsigned == [] || !IsDigit(unsigned[0]);
  }

  /** `parseInt(String(n), 10) == n`. */
  lemma ParseIntOfDecimal(n: nat)
    ensures ParseInt(DecimalString(n)) == Some(n)
  {
    ParseIntOfDigits(DecimalString(n), "");
    assert DecimalString(n) + "" == DecimalString(n);
    DecimalRoundTrip(n);
  }
}
