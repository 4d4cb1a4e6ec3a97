/**
 * The text operations the actuator protocol relies on: Python's `str(int)`,
 * its inverse, ASCII `str.upper()`, and splitting a command line at spaces.
 */
module Text {

  predicate IsDigit(c: char)
  {
    '0' <= c <= '9'
  }

  function DigitChar(d: nat): (c: char)
    requires d < 10
    ensures IsDigit(c) && DigitValue(c) == d
  {
    ['0', '1', '2', '3', '4', '5', '6', '7', '8', '9'][d]
  }

  function DigitValue(c: char): nat
    requires IsDigit(c)
  {
    (c as int - '0' as int) as nat
  }

  /** Decimal digits of a natural number, most significant first, without leading zeros. */
  function NatToString(n: nat): (s: string)
    ensures |s| > 0 && forall i :: 0 <= i < |s| ==> IsDigit(s[i])
    ensures |s| > 1 ==> s[0] != '0'
  {
    if n < 10 then [DigitChar(n)] else NatToString(n / 10) + [DigitChar(n % 10)]
  }

  /** Python's `str(i)` for an integer. */
  function IntToString(i: int): (s: string)
    ensures |s| > 0 && forall k :: 0 <= k < |s| ==> IsDigit(s[k]) || (k == 0 && s[k] == '-')
  {
    if i < 0 then "-" + NatToString(-i) else NatToString(i)
  }

  predicate AllDigits(s: string)
  {
    forall i :: 0 <= i < |s| ==> IsDigit(s[i])
  }

  /** The value of a string of decimal digits. */
  function ParseNat(s: string): nat
    requires AllDigits(s)
  {
    if |s| == 0 then 0 else 10 * ParseNat(s[..|s| - 1]) + DigitValue(s[|s| - 1])
  }

  /** Reads back an optionally signed decimal integer. */
  function ParseInt(s: string): (r: int)
    requires |s| > 0 && (AllDigits(s) || (s[0] == '-' && AllDigits(s[1..])))
  {
    if s[0] == '-' then -(ParseNat(s[1..]) as int) else ParseNat(s)
  }

  /** Decimal rendering of a natural number reads back as that number. */
  lemma {:induction false} NatToStringRoundTrip(n: nat)
    ensures AllDigits(NatToString(n)) && ParseNat(NatToString(n)) == n
  {
    if n >= 10 {
      NatToStringRoundTrip(n / 10);
      var s := NatToString(n);
      assert s[..|s| - 1] == NatToString(n / 10);
    } else {
      assert ParseNat(NatToString(n)) == 10 * ParseNat([]) + n;
    }
  }

  /** `str(i)` reads back as `i`. */
  lemma {:induction false} IntToStringRoundTrip(i: int)
    ensures var s := IntToString(i);
      |s| > 0 && (AllDigits(s) || (s[0] == '-' && AllDigits(s[1..]))) && ParseInt(s) == i
  {
    if i < 0 {
      NatToStringRoundTrip(-i);
      assert IntToString(i)[1..] == NatToString(-i);
    } else {
      NatToStringRoundTrip(i);
    }
  }

  /** Python's `str.upper()` on one character, for ASCII letters. */
  function UpperChar(c: char): (u: char)
    ensures 'a' <= c <= 'z' ==> 'A' <= u <= 'Z' && u as int == c as int - 32
    ensures !('a' <= c <= 'z') ==> u == c
  {
    if 'a' <= c <= 'z' then (c as int - 32) as char else c
  }

  /** Python's `str.upper()` on ASCII text. */
  function Upper(s: string): (r: string)
    ensures |r| == |s| && forall i :: 0 <= i < |s| ==> r[i] == UpperChar(s[i])
  {
    seq(|s|, i requires 0 <= i < |s| => UpperChar(s[i]))
  }

  /** Upper-casing distributes over concatenation. */
  lemma {:induction false} UpperConcat(a: string, b: string)
    ensures Upper(a + b) == Upper(a) + Upper(b)
  {
  }

  /** Text without lower-case letters, such as a rendered integer, is unchanged by upper-casing. */
  lemma {:induction false} UpperKeepsNonLetters(s: string)
    requires forall i :: 0 <= i < |s| ==> !('a' <= s[i] <= 'z')
    ensures Upper(s) == s
  {
  }

  /** Joins words with one space between each two, as a format string `"{} {} {}"` does. */
  function JoinWords(ws: seq<string>): string
  {
    if |ws| == 0 then "" else if |ws| == 1 then ws[0] else ws[0] + " " + JoinWords(ws[1..])
  }

  predicate NoSpace(s: string)
  {
    forall i :: 0 <= i < |s| ==> s[i] != ' '
  }

  /** The words of a line split at single spaces, the inverse of `JoinWords`. */
  function SplitWords(s: string): seq<string>
    decreases |s|
  {
    SplitFrom(s, "")
  }

  /** Splits `s`, where `cur` is the word read so far. */
  function SplitFrom(s: string, cur: string): seq<string>
    decreases |s|
  {
    if |s| == 0 then [cur]
    else if s[0] == ' ' then [cur] + SplitFrom(s[1..], "")
    else SplitFrom(s[1..], cur + [s[0]])
  }

  /** Reading a space-free word into the current one. */
  lemma {:induction false} SplitWordThen(w: string, rest: string, cur: string)
    requires NoSpace(w)
    ensures SplitFrom(w + rest, cur) == SplitFrom(rest, cur + w)
    decreases |w|
  {
    if |w| > 0 {
      assert (w + rest)[0] == w[0];
      assert (w + rest)[1..] == w[1..] + rest;
      assert cur + [w[0]] + w[1..] == cur + w;
      SplitWordThen(w[1..], rest, cur + [w[0]]);
    } else {
      assert w + rest == rest;
      assert cur + w == cur;
    }
  }

  /** Non-empty, space-free words joined by spaces split back into the same words. */
  lemma {:induction false} SplitJoinRoundTrip(ws: seq<string>)
    requires |ws| > 0 && forall i :: 0 <= i < |ws| ==> NoSpace(ws[i])
    ensures SplitWords(JoinWords(ws)) == ws
    decreases |ws|
  {
    if |ws| == 1 {
      SplitWordThen(ws[0], "", "");
      assert ws[0] + "" == ws[0];
      assert "" + ws[0] == ws[0];
      assert SplitFrom("", ws[0]) == [ws[0]];
      assert [ws[0]] == ws;
    } else {
      var rest := JoinWords(ws[1..]);
      assert JoinWords(ws) == ws[0] + (" " + rest);
      SplitWordThen(ws[0], " " + rest, "");
      assert "" + ws[0] == ws[0];
      assert (" " + rest)[0] == ' ' && (" " + rest)[1..] == rest;
      assert SplitFrom(" " + rest, ws[0]) == [ws[0]] + SplitFrom(rest, "");
      SplitJoinRoundTrip(ws[1..]);
      assert [ws[0]] + ws[1..] == ws;
    }
  }
}
