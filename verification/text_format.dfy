/**
 * The two-column text form of a clustering: lines `<item> <cluster>` written
 * with Python's `%d` formatting and read back with `str.split()` and `int()`.
 */
module TextFormat {
  import opened Wrappers

  /** The characters `str.split()` treats as separators. */
  predicate IsSpace(c: char) {
    c == ' ' || c == '\t' || c == '\n' || c == '\r' || c == '\U{000B}' || c == '\U{000C}'
  }

  predicate IsDigit(c: char) {
    '0' <= c <= '9'
  }

  predicate AllDigits(s: string) {
    forall i :: 0 <= i < |s| ==> IsDigit(s[i])
  }

  /** The longest prefix of `s` that holds no separator. */
  function Word(s: string): (w: string)
    ensures |w| <= |s| && w == s[..|w|]
    ensures forall i :: 0 <= i < |w| ==> !IsSpace(w[i])
    ensures |w| < |s| ==> IsSpace(s[|w|])
    ensures s != [] && !IsSpace(s[0]) ==> |w| >= 1
  {
    if s == [] || IsSpace(s[0]) then []
    else [s[0]] + Word(s[1..])
  }

  /** `str.split()` without arguments: the maximal runs of non-separators. */
  function Split(s: string): (r: seq<string>)
    ensures forall k :: 0 <= k < |r| ==> r[k] != [] && forall i :: 0 <= i < |r[k]| ==> !IsSpace(r[k][i])
    ensures r == [] <==> forall i :: 0 <= i < |s| ==> IsSpace(s[i])
    decreases |s|
  {
    if s == [] then []
    else if IsSpace(s[0]) then
      assert forall i :: 1 <= i < |s| ==> s[i] == s[1..][i - 1];
      Split(s[1..])
    else
      var w := Word(s);
      [w] + Split(s[|w|..])
  }

  /** The tokens written one after another. */
  function Concat(ts: seq<string>): string {
    if ts == [] then [] else ts[0] + Concat(ts[1..])
  }

  /** The characters of `s` that are not separators, in order. */
  function NonSpace(s: string): string {
    if s == [] then []
    else (if IsSpace(s[0]) then [] else [s[0]]) + NonSpace(s[1..])
  }

  lemma {:induction false} NonSpaceConcat(a: string, b: string)
    ensures NonSpace(a + b) == NonSpace(a) + NonSpace(b)
    decreases |a|
  {
    if a != [] {
      assert (a + b)[0] == a[0] && (a + b)[1..] == a[1..] + b;
      NonSpaceConcat(a[1..], b);
      var head := if IsSpace(a[0]) then [] else [a[0]];
      assert NonSpace(a + b) == head + NonSpace(a[1..] + b);
      assert NonSpace(a) == head + NonSpace(a[1..]);
      assert head + (NonSpace(a[1..]) + NonSpace(b)) == (head + NonSpace(a[1..])) + NonSpace(b);
    } else {
      assert a + b == b;
    }
  }

  lemma {:induction false} NonSpaceOfWord(w: string)
    requires forall i :: 0 <= i < |w| ==> !IsSpace(w[i])
    ensures NonSpace(w) == w
    decreases |w|
  {
    if w != [] {
      NonSpaceOfWord(w[1..]);
    }
  }

  /**
   * The tokens of `split()`, written one after another, are exactly the
   * non-separator characters of the line: nothing is lost, added or moved.
   */
  lemma {:induction false} SplitKeepsText(s: string)
    ensures Concat(Split(s)) == NonSpace(s)
    decreases |s|
  {
    if s != [] {
      if IsSpace(s[0]) {
        SplitKeepsText(s[1..]);
      } else {
        var w := Word(s);
        var rest := s[|w|..];
        SplitKeepsText(rest);
        assert ([w] + Split(rest))[1..] == Split(rest);
        assert s == w + rest;
        NonSpaceConcat(w, rest);
        NonSpaceOfWord(w);
      }
    }
  }

  function DigitChar(d: nat): char
    requires d < 10
  {
    "0123456789"[d]
  }

  function DigitValue(c: char): nat
    requires IsDigit(c)
  {
    c as int - '0' as int
  }

  /** `'%d' % n` for a non-negative `n`. */
  function ShowNat(n: nat): (s: string)
    ensures s != [] && AllDigits(s)
  {
    if n < 10 then [DigitChar(n)]
    else ShowNat(n / 10) + [DigitChar(n % 10)]
  }

  /** `'%d' % i`: a minus sign for negative numbers, then the decimal digits. */
  function ShowInt(i: int): string {
    if i < 0 then "-" + ShowNat(-i) else ShowNat(i)
  }

  /** The value of a run of decimal digits, read left to right. */
  function DigitsValue(s: string): nat
    requires AllDigits(s)
  {
    if s == [] then 0
    else DigitsValue(s[..|s| - 1]) * 10 + DigitValue(s[|s| - 1])
  }

  /** `int(token)`: an optional sign followed by at least one decimal digit; anything else is a ValueError. */
  function ParseInt(tok: string): (r: Option<int>)
    ensures r.Some? ==> |tok| >= 1 && forall k :: 0 <= k < |tok| ==>
      IsDigit(tok[k]) || (k == 0 && |tok| >= 2 && (tok[k] == '-' || tok[k] == '+'))
    ensures tok != [] && AllDigits(tok) ==> r.Some? && r.value >= 0
    ensures |tok| >= 2 && (tok[0] == '-' || tok[0] == '+') && AllDigits(tok[1..]) ==> r.Some?
    ensures r.Some? && r.value < 0 ==> tok[0] == '-'
  {
    if tok != [] && (tok[0] == '-' || tok[0] == '+') then
      if |tok| >= 2 && AllDigits(tok[1..]) then
        var n: int := DigitsValue(tok[1..]);
        Some(if tok[0] == '-' then -n else n)
      else None
    else if tok != [] && AllDigits(tok) then Some(DigitsValue(tok))
    else None
  }

  /** One output line: `'%d<sep>%d\n' % (key, value)`. */
  function FormatLine(key: int, sep: char, value: int): string {
    ShowInt(key) + [sep] + ShowInt(value) + "\n"
  }

  lemma {:induction false} DigitRoundTrip(d: nat)
    requires d < 10
    ensures IsDigit(DigitChar(d)) && DigitValue(DigitChar(d)) == d
  {
  }

  /** Reading back the digits written for `n` gives `n`. */
  lemma {:induction false} ShowNatRoundTrip(n: nat)
    ensures DigitsValue(ShowNat(n)) == n
  {
    DigitRoundTrip(n % 10);
    if n >= 10 {
      ShowNatRoundTrip(n / 10);
      var s := ShowNat(n / 10) + [DigitChar(n % 10)];
      assert s[..|s| - 1] == ShowNat(n / 10);
    } else {
      var s := [DigitChar(n)];
      assert s[..0] == [];
    }
  }

  /** `int('%d' % i) == i` for every integer. */
  lemma {:induction false} ParseShowInt(i: int)
    ensures ParseInt(ShowInt(i)) == Some(i)
  {
    if i < 0 {
      ParseShowNegative(i);
    } else {
      ShowNatRoundTrip(i);
      ParseDigits(ShowNat(i));
    }
  }

  lemma {:induction false} ParseShowNegative(i: int)
    requires i < 0
    ensures ParseInt(ShowInt(i)) == Some(i)
  {
    var digits := ShowNat(-i);
    ShowNatRoundTrip(-i);
    ParseNegative(digits, -i);
    assert ShowInt(i) == "-" + digits;
  }

  /** A minus sign and a run of digits of value `n` parse to `-n`. */
  lemma {:induction false} ParseNegative(digits: string, n: nat)
    requires digits != [] && AllDigits(digits) && DigitsValue(digits) == n
    ensures ParseInt("-" + digits) == Some(-(n as int))
  {
    var tok := "-" + digits;
    assert tok[0] == '-' && |tok| >= 2 && tok[1..] == digits;
  }

  /** A run of digits parses to its value. */
  lemma {:induction false} ParseDigits(digits: string)
    requires digits != [] && AllDigits(digits)
    ensures ParseInt(digits) == Some(DigitsValue(digits))
  {
    assert IsDigit(digits[0]);
  }

  /** A word followed by a separator (or by nothing) is split off whole. */
  lemma {:induction false} WordOf(w: string, rest: string)
    requires forall i :: 0 <= i < |w| ==> !IsSpace(w[i])
    requires rest == [] || IsSpace(rest[0])
    ensures Word(w + rest) == w
  {
    if w != [] {
      assert (w + rest)[1..] == w[1..] + rest;
      WordOf(w[1..], rest);
    }
  }

  lemma {:induction false} SplitWord(w: string, rest: string)
    requires w != [] && forall i :: 0 <= i < |w| ==> !IsSpace(w[i])
    requires rest == [] || IsSpace(rest[0])
    ensures Split(w + rest) == [w] + Split(rest)
  {
    WordOf(w, rest);
    assert (w + rest)[|w|..] == rest;
  }

  /** A numeral is one word: non-empty and free of separators. */
  lemma {:induction false} ShowIntWord(i: int)
    ensures ShowInt(i) != [] && forall j :: 0 <= j < |ShowInt(i)| ==> !IsSpace(ShowInt(i)[j])
  {
    var digits := if i < 0 then ShowNat(-i) else ShowNat(i);
    assert forall j :: 0 <= j < |digits| ==> IsDigit(digits[j]);
    if i < 0 {
      assert ShowInt(i) == "-" + digits;
      forall j | 0 <= j < |ShowInt(i)| ensures !IsSpace(ShowInt(i)[j]) {
        if j > 0 {
          assert ShowInt(i)[j] == digits[j - 1];
        }
      }
    }
  }

  /** A leading separator is skipped. */
  lemma {:induction false} SplitSpace(sep: char, rest: string)
    requires IsSpace(sep)
    ensures Split([sep] + rest) == Split(rest)
  {
    assert ([sep] + rest)[1..] == rest;
  }

  /** `'%d<sep>%d\n' % (k, v)` splits back into the two numerals when `sep` is a separator. */
  lemma {:induction false} SplitFormatLine(key: int, sep: char, value: int)
    requires IsSpace(sep)
    ensures Split(FormatLine(key, sep, value)) == [ShowInt(key), ShowInt(value)]
  {
    var k, v := ShowInt(key), ShowInt(value);
    ShowIntWord(key);
    ShowIntWord(value);
    var tail := [sep] + (v + "\n");
    assert FormatLine(key, sep, value) == k + tail;
    SplitWord(k, tail);
    SplitSpace(sep, v + "\n");
    SplitWord(v, "\n");
    SplitSpace('\n', []);
    assert "\n" == ['\n'] + [];
  }
}
