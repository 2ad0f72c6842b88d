/**
 * The string operations the address codec relies on: ASCII lower-casing (the
 * model of `str::to_lowercase`), searching and splitting on the `"://"`
 * separator (the model of `str::split("://")`), single-character search and
 * decimal rendering and parsing of port numbers.
 */
module Text {
  import opened Wrappers

  // ---------------------------------------------------------------- case

  /** Lower-cases an ASCII capital and leaves every other character alone. */
  function LowerChar(c: char): char {
    if 'A' <= c <= 'Z' then (c as int + 32) as char else c
  }

  /** A string with no ASCII capital in it. */
  predicate IsLower(s: string) {
    forall i :: 0 <= i < |s| ==> !('A' <= s[i] <= 'Z')
  }

  /** ASCII lower-casing, character by character. */
  function Lower(s: string): (r: string)
    ensures |r| == |s|
    ensures IsLower(r)
    ensures forall i :: 0 <= i < |s| ==> (r[i] == s[i] <==> !('A' <= s[i] <= 'Z'))
    ensures forall i :: 0 <= i < |s| && 'A' <= s[i] <= 'Z' ==> r[i] as int == s[i] as int + 32
  {
    seq(|s|, i requires 0 <= i < |s| => LowerChar(s[i]))
  }

  /** A string that is already lower case is its own lower-casing. */
  lemma LowerOfLower(s: string)
    requires IsLower(s)
    ensures Lower(s) == s
  {
    assert forall i :: 0 <= i < |s| ==> Lower(s)[i] == s[i];
  }

  // ----------------------------------------------------------- separator

  /** The scheme separator. */
  const Sep: string := "://"

  /** The separator occurs in `s` starting at index `i`. */
  predicate SepAt(s: string, i: int) {
    0 <= i && i + 3 <= |s| && s[i] == ':' && s[i + 1] == '/' && s[i + 2] == '/'
  }

  /** The separator does not occur anywhere in `s`. */
  predicate NoSep(s: string) {
    forall i | 0 <= i < |s| :: !SepAt(s, i)
  }

  /** Index `i` is the leftmost occurrence of the separator in `s`. */
  predicate FirstSepAt(s: string, i: int) {
    SepAt(s, i) && forall j | 0 <= j < i :: !SepAt(s, j)
  }

  /** Index `i` is the only occurrence of the separator in `s`. */
  predicate OnlySepAt(s: string, i: int) {
    SepAt(s, i) && forall j | 0 <= j < |s| :: SepAt(s, j) ==> j == i
  }

  /** Text without ':' cannot hold the separator. */
  lemma NoColonNoSep(s: string)
    requires ':' !in s
    ensures NoSep(s)
  {
    assert forall i | 0 <= i < |s| :: s[i] in s;
  }

  /** The leftmost occurrence of the separator at or after `from`, if any. */
  function FindSep(s: string, from: nat): (r: Option<nat>)
    requires from <= |s|
    ensures r.Some? ==> from <= r.value && SepAt(s, r.value)
    ensures r.Some? ==> forall j :: from <= j < r.value ==> !SepAt(s, j)
    ensures r.None? ==> forall j :: from <= j ==> !SepAt(s, j)
    decreases |s| - from
  {
    if from + 3 > |s| then None
    else if SepAt(s, from) then Some(from)
    else FindSep(s, from + 1)
  }

  /** Glues pieces back together with the separator between neighbours. */
  function Join(pieces: seq<string>): string
    requires |pieces| >= 1
  {
    if |pieces| == 1 then pieces[0] else pieces[0] + Sep + Join(pieces[1..])
  }

  /**
   * `str::split("://")`: the pieces between successive leftmost occurrences of
   * the separator. There is always at least one piece, the pieces joined with
   * the separator give back the input, and no piece contains the separator.
   */
  function Split(s: string): (pieces: seq<string>)
    ensures |pieces| >= 1
    ensures Join(pieces) == s
    ensures forall k :: 0 <= k < |pieces| ==> NoSep(pieces[k])
    decreases |s|
  {
    match FindSep(s, 0)
    case None => [s]
    case Some(i) =>
      var rest := Split(s[i + 3..]);
      assert NoSep(s[..i]) by {
        forall j ensures !SepAt(s[..i], j) {
          if SepAt(s[..i], j) {
            assert SepAt(s, j);
          }
        }
      }
      assert s[..i] + Sep + s[i + 3..] == s;
      assert ([s[..i]] + rest)[1..] == rest;
      [s[..i]] + rest
  }

  /** A separator-free string splits into itself alone. */
  lemma SplitNoSep(s: string)
    requires NoSep(s)
    ensures Split(s) == [s]
  {
  }

  /** Splitting peels off the text before the leftmost separator and splits what follows it. */
  lemma SplitAtFirst(s: string, i: int)
    requires FirstSepAt(s, i)
    ensures Split(s) == [s[..i]] + Split(s[i + 3..])
  {
    assert FindSep(s, 0) == Some(i);
  }

  /** When `x` is separator-free, the separator placed after it is the leftmost one. */
  lemma FirstSepAfterPrefix(x: string, y: string)
    requires NoSep(x)
    ensures FirstSepAt(x + Sep + y, |x|)
  {
    var s := x + Sep + y;
    forall j | 0 <= j < |x| ensures !SepAt(s, j) {
      if j + 3 <= |x| {
        assert !SepAt(x, j);
        assert s[j] == x[j] && s[j + 1] == x[j + 1] && s[j + 2] == x[j + 2];
      } else if j == |x| - 1 {
        assert s[j + 1] == ':';
      } else {
        assert s[j + 2] == ':';
      }
    }
  }

  /** Splitting `x + "://" + y` for a separator-free `x` yields `x`, then the pieces of `y`. */
  lemma SplitAfterPrefix(x: string, y: string)
    requires NoSep(x)
    ensures Split(x + Sep + y) == [x] + Split(y)
  {
    var s := x + Sep + y;
    FirstSepAfterPrefix(x, y);
    SplitAtFirst(s, |x|);
    assert s[..|x|] == x;
    assert s[|x| + 3..] == y;
  }

  /** Lower-casing neither creates nor removes a separator: ':' and '/' are not capitals. */
  lemma LowerKeepsSep(s: string)
    ensures NoSep(s) <==> NoSep(Lower(s))
  {
    var t := Lower(s);
    forall k | 0 <= k < |s| ensures (t[k] == ':' <==> s[k] == ':') && (t[k] == '/' <==> s[k] == '/') {
      assert t[k] == LowerChar(s[k]);
    }
    if !NoSep(s) {
      var i :| 0 <= i < |s| && SepAt(s, i);
      assert SepAt(t, i);
    }
    if !NoSep(t) {
      var i :| 0 <= i < |t| && SepAt(t, i);
      assert SepAt(s, i);
    }
  }

  // --------------------------------------------------- character search

  /** The first index of `c` in `s`, if any. */
  function IndexOf(s: string, c: char): (r: Option<nat>)
    ensures r.Some? ==> r.value < |s| && s[r.value] == c && c !in s[..r.value]
    ensures r.None? ==> c !in s
  {
    if |s| == 0 then None
    else if s[0] == c then Some(0)
    else
      var r := IndexOf(s[1..], c);
      if r.None? then None
      else
        assert s[..r.value + 1] == [s[0]] + s[1..][..r.value];
        Some(r.value + 1)
  }

  /** In `x + [c] + y` with `c` absent from `x`, the first `c` is the one after `x`. */
  lemma IndexOfAfter(x: string, c: char, y: string)
    requires c !in x
    ensures IndexOf(x + [c] + y, c) == Some(|x|)
  {
    var s := x + [c] + y;
    assert s[|x|] == c;
    assert forall k :: 0 <= k < |x| ==> s[k] == x[k];
    forall m | |x| < m <= |s| ensures c in s[..m] {
      assert s[..m][|x|] == c;
    }
  }

  // ------------------------------------------------------------- decimal

  predicate IsDigit(c: char) {
    '0' <= c <= '9'
  }

  function DigitChar(d: nat): (c: char)
    requires d < 10
    ensures IsDigit(c)
  {
    (48 + d) as char
  }

  function DigitValue(c: char): (d: nat)
    requires IsDigit(c)
    ensures d < 10 && DigitChar(d) == c
  {
    c as int - 48
  }

  /** Every character of `s` is a decimal digit. */
  predicate IsDigits(s: string) {
    forall c :: c in s ==> IsDigit(c)
  }

  /** The decimal text of `n`, without leading zeros (Rust's `Display` for integers). */
  function Decimal(n: nat): (r: string)
    ensures |r| >= 1 && IsDigits(r)
    decreases n
  {
    if n < 10 then [DigitChar(n)] else Decimal(n / 10) + [DigitChar(n % 10)]
  }

  /** The value of a non-empty string of decimal digits; `None` for anything else. */
  function ParseDecimal(s: string): (r: Option<nat>)
    ensures r.Some? ==> |s| >= 1 && IsDigits(s)
    decreases |s|
  {
    if |s| == 0 || !IsDigit(s[|s| - 1]) then None
    else if |s| == 1 then Some(DigitValue(s[0]))
    else
      var high := ParseDecimal(s[..|s| - 1]);
      if high.None? then None
      else
        assert s == s[..|s| - 1] + [s[|s| - 1]];
        Some(high.value * 10 + DigitValue(s[|s| - 1]))
  }

  /** Parsing the decimal text of a number gives the number back. */
  lemma {:induction false} DecimalRoundTrip(n: nat)
    ensures ParseDecimal(Decimal(n)) == Some(n)
    decreases n
  {
    if n >= 10 {
      DecimalRoundTrip(n / 10);
      var s := Decimal(n);
      assert s[..|s| - 1] == Decimal(n / 10);
      assert DigitValue(DigitChar(n % 10)) == n % 10;
    } else {
      assert DigitValue(DigitChar(n)) == n;
    }
  }
}
