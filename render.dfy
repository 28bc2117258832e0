/**
 * The textual form of the ordered dump: decimal rendering of `int` keys (as a
 * character stream prints them) and the `(key, value) ` entry format.
 * Values are rendered by a caller-supplied `show` function.
 */
module Render {

  predicate IsDigit(c: char) {
    '0' <= c <= '9'
  }

  predicate AllDigits(s: string) {
    forall i :: 0 <= i < |s| ==> IsDigit(s[i])
  }

  /** A decimal numeral: an optional minus sign, then at least one digit. */
  predicate IsNumeral(s: string) {
    if |s| > 0 && s[0] == '-' then |s| > 1 && AllDigits(s[1..]) else |s| > 0 && AllDigits(s)
  }

  function DigitChar(d: nat): (c: char)
    requires d < 10
    ensures IsDigit(c) && c as int - '0' as int == d
  {
    ('0' as int + d) as char
  }

  /** Decimal digits of `n`, most significant first, with no leading zero. */
  function NatToString(n: nat): (s: string)
    ensures |s| > 0 && AllDigits(s)
    ensures s[0] == '0' ==> s == "0"
  {
    if n < 10 then [DigitChar(n)] else NatToString(n / 10) + [DigitChar(n % 10)]
  }

  /** How a character stream prints an `int`: a minus sign for negative values, then the digits. */
  function IntToString(i: int): (s: string)
    ensures IsNumeral(s)
    ensures s[0] == '-' <==> i < 0
    ensures var digits := if i < 0 then s[1..] else s; digits[0] == '0' ==> digits == "0"
  {
    if i < 0 then "-" + NatToString(-i) else NatToString(i)
  }

  /** The value of a string of decimal digits. */
  function DigitsValue(s: string): nat
    requires AllDigits(s)
  {
    if s == [] then 0
    else DigitsValue(s[..|s| - 1]) * 10 + (s[|s| - 1] as int - '0' as int)
  }

  /** The value of a decimal numeral. */
  function ParseInt(s: string): int
    requires IsNumeral(s)
  {
    if s[0] == '-' then -(DigitsValue(s[1..]) as int) else DigitsValue(s)
  }

  lemma {:induction false} NatToStringRoundTrip(n: nat)
    ensures DigitsValue(NatToString(n)) == n
  {
    if n >= 10 {
      NatToStringRoundTrip(n / 10);
      var s := NatToString(n);
      assert s[..|s| - 1] == NatToString(n / 10);
    }
  }

  /** Parsing the printed numeral gives back the key. */
  lemma IntToStringRoundTrip(i: int)
    ensures ParseInt(IntToString(i)) == i
  {
    if i < 0 {
      NatToStringRoundTrip(-i);
      assert IntToString(i)[1..] == NatToString(-i);
    } else {
      NatToStringRoundTrip(i);
    }
  }

  /** One entry of the dump: `(key, value) `, the space included. */
  function Entry<V>(k: int, v: V, show: V -> string): string {
    "(" + IntToString(k) + ", " + show(v) + ") "
  }

  /** The entries of `es`, in order, each in the form of `Entry`. */
  function Entries<V>(es: seq<(int, V)>, show: V -> string): string {
    if es == [] then ""
    else Entries(es[..|es| - 1], show) + Entry(es[|es| - 1].0, es[|es| - 1].1, show)
  }

  lemma EntriesAppend<V>(es: seq<(int, V)>, e: (int, V), show: V -> string)
    ensures Entries(es + [e], show) == Entries(es, show) + Entry(e.0, e.1, show)
  {
    assert (es + [e])[..|es|] == es;
  }

  /** The text written so far once the entries `es` are out: the opening bracket, then the entries. */
  function Opened<V>(es: seq<(int, V)>, show: V -> string): string {
    "[ " + Entries(es, show)
  }

  /** Writing one more entry extends the text by exactly that entry. */
  lemma OpenedAppend<V>(es: seq<(int, V)>, e: (int, V), show: V -> string)
    ensures Opened(es + [e], show) == Opened(es, show) + Entry(e.0, e.1, show)
  {
    EntriesAppend(es, e, show);
  }

  /** The whole dump of an ordered sequence of entries: `[ `, the entries, `]`. */
  function Dump<V>(es: seq<(int, V)>, show: V -> string): (s: string)
    ensures es == [] ==> s == "[ ]"
    ensures |s| >= 3 && s[..2] == "[ " && s[|s| - 1] == ']'
  {
    Opened(es, show) + "]"
  }
}
