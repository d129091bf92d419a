/** Models of the Python string built-ins the transcript assembler relies on:
    `str.strip()`, `str.replace` of one character, `"sep".join`, `str.split`
    on a newline and the decimal rendering of a non-negative `int`. */
module Strings {

  datatype Option<T> = None | Some(value: T)

  // ---------------------------------------------------------------------------
  // Whitespace and str.strip()

  /** Python's `str.isspace` restricted to ASCII: space, the controls
      U+0009..U+000D (tab, newline, vertical tab, form feed, carriage return)
      and the separators U+001C..U+001F. */
  predicate IsWhitespace(c: char) {
    c == ' ' || 9 <= c as int <= 13 || 28 <= c as int <= 31
  }

  predicate AllWhitespace(s: string) {
    forall k :: 0 <= k < |s| ==> IsWhitespace(s[k])
  }

  /** No whitespace at either end (the empty string qualifies). */
  predicate IsTrimmed(s: string) {
    s == [] || (!IsWhitespace(s[0]) && !IsWhitespace(s[|s| - 1]))
  }

  /** The position of the first non-whitespace character at or after `i`,
      or `|s|` if there is none. */
  function TextStart(s: string, i: nat): (k: nat)
    requires i <= |s|
    ensures i <= k <= |s|
    ensures forall j :: i <= j < k ==> IsWhitespace(s[j])
    ensures k < |s| ==> !IsWhitespace(s[k])
    decreases |s| - i
  {
    if i < |s| && IsWhitespace(s[i]) then TextStart(s, i + 1) else i
  }

  /** The position just after the last non-whitespace character of
      `s[lo..hi]`, or `lo` if there is none. */
  function TextEnd(s: string, lo: nat, hi: nat): (k: nat)
    requires lo <= hi <= |s|
    ensures lo <= k <= hi
    ensures forall j :: k <= j < hi ==> IsWhitespace(s[j])
    ensures k > lo ==> !IsWhitespace(s[k - 1])
    decreases hi
  {
    if lo < hi && IsWhitespace(s[hi - 1]) then TextEnd(s, lo, hi - 1) else hi
  }

  /** `s.strip()`: the result has no whitespace at either end, and is empty
      exactly when `s` is all whitespace. */
  function Strip(s: string): (r: string)
    ensures IsTrimmed(r)
    ensures r == [] <==> AllWhitespace(s)
  {
    var i := TextStart(s, 0);
    s[i..TextEnd(s, i, |s|)]
  }

  /** `s` is some whitespace, then `Strip(s)`, then some more whitespace. */
  lemma StripDecomposes(s: string)
    ensures exists i, j | 0 <= i <= j <= |s| ::
      Strip(s) == s[i..j] && AllWhitespace(s[..i]) && AllWhitespace(s[j..])
  {
    var i := TextStart(s, 0);
    var j := TextEnd(s, i, |s|);
    assert AllWhitespace(s[..i]);
    assert AllWhitespace(s[j..]) by {
      forall k | 0 <= k < |s| - j ensures IsWhitespace(s[j..][k]) {
        assert s[j..][k] == s[j + k];
      }
    }
  }

  /** A string that already has no whitespace at either end is left alone,
      so stripping twice is the same as stripping once. */
  lemma StripTrimmed(s: string)
    requires IsTrimmed(s)
    ensures Strip(s) == s
  {
    if s != [] {
      assert TextStart(s, 0) == 0;
      assert TextEnd(s, 0, |s|) == |s|;
    }
  }

  lemma StripIdempotent(s: string)
    ensures Strip(Strip(s)) == Strip(s)
  {
    StripTrimmed(Strip(s));
  }

  // ---------------------------------------------------------------------------
  // str.replace(c, t), counting, str.split('\n') and "sep".join

  /** `s.replace(c, t)` for a one-character pattern `c`. */
  function ReplaceChar(s: string, c: char, t: string): (r: string)
    ensures c !in s ==> r == s
  {
    if s == [] then [] else (if s[0] == c then t else [s[0]]) + ReplaceChar(s[1..], c, t)
  }

  /** `s.count(c)`. */
  function CountChar(s: string, c: char): nat {
    if s == [] then 0 else (if s[0] == c then 1 else 0) + CountChar(s[1..], c)
  }

  lemma {:induction false} CountCharAppend(a: string, b: string, c: char)
    ensures CountChar(a + b, c) == CountChar(a, c) + CountChar(b, c)
  {
    if a == [] {
      assert a + b == b;
    } else {
      assert (a + b)[1..] == a[1..] + b;
      CountCharAppend(a[1..], b, c);
    }
  }

  /** `s.split("\n")`: the pieces between newlines, in order. There is one
      more piece than there are newlines, no piece holds a newline, and
      joining the pieces with newlines gives `s` back. */
  function Lines(s: string): (r: seq<string>)
    ensures |r| == CountChar(s, '\n') + 1
    ensures forall k :: 0 <= k < |r| ==> '\n' !in r[k]
    ensures Join(r, "\n") == s
  {
    if s == [] then [[]]
    else
      var rest := Lines(s[1..]);
      if s[0] == '\n' then
        assert s == "\n" + s[1..];
        [[]] + rest
      else
        var r := [[s[0]] + rest[0]] + rest[1..];
        assert s == [s[0]] + s[1..];
        assert r[1..] == rest[1..];
        r
  }

  /** `sep.join(parts)`. */
  function Join(parts: seq<string>, sep: string): string {
    if |parts| == 0 then []
    else if |parts| == 1 then parts[0]
    else parts[0] + sep + Join(parts[1..], sep)
  }

  /** Joining two non-empty lists is joining each and putting one separator
      between them. */
  lemma {:induction false} JoinAppend(a: seq<string>, b: seq<string>, sep: string)
    requires a != [] && b != []
    ensures Join(a + b, sep) == Join(a, sep) + sep + Join(b, sep)
  {
    if |a| == 1 {
      assert (a + b)[1..] == b;
    } else {
      assert (a + b)[1..] == a[1..] + b;
      JoinAppend(a[1..], b, sep);
    }
  }

  // ---------------------------------------------------------------------------
  // Decimal rendering of a non-negative integer (an f-string `{n}`)

  predicate IsDigit(c: char) {
    '0' <= c <= '9'
  }

  predicate IsDigits(s: string) {
    forall k :: 0 <= k < |s| ==> IsDigit(s[k])
  }

  /** Digits as Python prints an `int`: at least one, no leading zero. */
  predicate IsCanonicalDecimal(s: string) {
    |s| >= 1 && IsDigits(s) && (s[0] == '0' ==> |s| == 1)
  }

  function DigitChar(d: nat): (c: char)
    requires d < 10
    ensures IsDigit(c) && c as int - '0' as int == d
  {
    ('0' as int + d) as char
  }

  /** The value of a string of decimal digits. */
  function DecimalValue(s: string): nat
    requires IsDigits(s)
  {
    if s == [] then 0
    else DecimalValue(s[..|s| - 1]) * 10 + (s[|s| - 1] as int - '0' as int)
  }

  /** `str(n)` for `n >= 0`. */
  function NatToDecimal(n: nat): (r: string)
    ensures IsCanonicalDecimal(r)
    ensures r[0] == '0' <==> n == 0
    ensures |r| == 1 <==> n < 10
  {
    if n < 10 then [DigitChar(n)] else NatToDecimal(n / 10) + [DigitChar(n % 10)]
  }

  /** Reading back what `NatToDecimal` prints gives the number. */
  lemma {:induction false} DecimalValueOfNat(n: nat)
    ensures DecimalValue(NatToDecimal(n)) == n
  {
    if n >= 10 {
      var r := NatToDecimal(n);
      assert r[..|r| - 1] == NatToDecimal(n / 10);
      DecimalValueOfNat(n / 10);
    }
  }

  lemma {:induction false} DecimalValuePositive(s: string)
    requires IsDigits(s) && s != [] && s[0] != '0'
    ensures DecimalValue(s) >= 1
  {
    if |s| > 1 {
      DecimalValuePositive(s[..|s| - 1]);
    }
  }

  /** Every canonical digit string is what `NatToDecimal` prints for its
      value: with `DecimalValueOfNat`, the two are inverse bijections between
      `nat` and canonical digit strings. */
  lemma {:induction false} NatToDecimalOfValue(s: string)
    requires IsCanonicalDecimal(s)
    ensures NatToDecimal(DecimalValue(s)) == s
  {
    if |s| > 1 {
      var init := s[..|s| - 1];
      DecimalValuePositive(init);
      NatToDecimalOfValue(init);
      assert s == init + [s[|s| - 1]];
    }
  }
}
