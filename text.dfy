/**
 * The pieces of java.lang.String, java.lang.StringBuilder and java.util.LinkedList
 * that the synchroniser relies on.
 */
module Text {

  /** `s.lastIndexOf(c)`: the index of the last `c` in `s`, or -1 when there is none. */
  function LastOccurrence(s: string, c: char): (r: int)
    ensures -1 <= r < |s|
  {
    if |s| == 0 then -1
    else if s[|s| - 1] == c then |s| - 1
    else LastOccurrence(s[..|s| - 1], c)
  }

  /** The index found holds `c`, and no `c` follows it; -1 means `c` does not occur. */
  lemma {:induction false} LastOccurrenceSpec(s: string, c: char)
    ensures var r := LastOccurrence(s, c);
      && (r >= 0 ==> s[r] == c)
      && (forall k :: r < k < |s| ==> s[k] != c)
  {
    if |s| > 0 && s[|s| - 1] != c {
      var t := s[..|s| - 1];
      LastOccurrenceSpec(t, c);
      assert forall k :: 0 <= k < |t| ==> s[k] == t[k];
    }
  }

  /** `s.replace(String.valueOf(c), "")`: every occurrence of `c` removed, the rest kept in order. */
  function RemoveAll(s: string, c: char): (r: string)
    ensures c !in r
    ensures |r| <= |s|
    ensures c !in s ==> r == s
  {
    if |s| == 0 then ""
    else (if s[0] == c then "" else [s[0]]) + RemoveAll(s[1..], c)
  }

  lemma {:induction false} RemoveAllAppend(a: string, b: string, c: char)
    ensures RemoveAll(a + b, c) == RemoveAll(a, c) + RemoveAll(b, c)
  {
    if |a| == 0 {
      assert a + b == b;
    } else {
      assert (a + b)[0] == a[0];
      assert (a + b)[1..] == a[1..] + b;
      RemoveAllAppend(a[1..], b, c);
    }
  }

  /** Re-bracketing a concatenation; loops that append use it to carry their invariant. */
  lemma Regroup<T>(done: seq<T>, next: seq<T>, rest: seq<T>, whole: seq<T>)
    requires done + (next + rest) == whole
    ensures (done + next) + rest == whole
  {
  }

  lemma Assoc<T>(x: seq<T>, y: seq<T>, z: seq<T>)
    ensures x + (y + z) == (x + y) + z
  {
  }

  // ---------------------------------------------------------------------------
  // Decimal printing of integers, as string concatenation of an `int` does in Java

  function DigitChar(d: nat): (ch: char)
    requires d < 10
    ensures '0' <= ch <= '9'
  {
    (48 + d) as char
  }

  function NatToString(n: nat): (r: string)
    ensures |r| > 0
  {
    if n < 10 then [DigitChar(n)] else NatToString(n / 10) + [DigitChar(n % 10)]
  }

  /** `"" + n` for an integer `n`: an optional minus sign followed by decimal digits. */
  function IntToString(n: int): (r: string)
    ensures |r| > 0
  {
    if n < 0 then "-" + NatToString(-n) else NatToString(n)
  }

  lemma {:induction false} NatToStringDigits(n: nat)
    ensures forall i :: 0 <= i < |NatToString(n)| ==> '0' <= NatToString(n)[i] <= '9'
  {
    if n >= 10 {
      NatToStringDigits(n / 10);
    }
  }

  /** The printed number holds only a minus sign and decimal digits. */
  lemma IntToStringChars(n: int)
    ensures forall i :: 0 <= i < |IntToString(n)| ==> IntToString(n)[i] == '-' || '0' <= IntToString(n)[i] <= '9'
  {
    NatToStringDigits(if n < 0 then -n else n);
  }

  /** The value of a string of decimal digits (the inverse of NatToString). */
  function DigitsValue(s: string): int
  {
    if |s| == 0 then 0 else DigitsValue(s[..|s| - 1]) * 10 + (s[|s| - 1] as int - 48)
  }

  /** `Integer.parseInt`, restricted to the strings IntToString produces. */
  function ParseInt(s: string): int
  {
    if |s| > 0 && s[0] == '-' then -DigitsValue(s[1..]) else DigitsValue(s)
  }

  lemma {:induction false} NatToStringRoundTrip(n: nat)
    ensures DigitsValue(NatToString(n)) == n
  {
    if n >= 10 {
      var s := NatToString(n);
      assert s[..|s| - 1] == NatToString(n / 10);
      NatToStringRoundTrip(n / 10);
    }
  }

  /** The printed length of a column reads back as the same number. */
  lemma IntToStringRoundTrip(n: int)
    ensures ParseInt(IntToString(n)) == n
  {
    if n < 0 {
      NatToStringRoundTrip(-n);
      assert IntToString(n)[1..] == NatToString(-n);
    } else {
      NatToStringRoundTrip(n);
      NatToStringDigits(n);
    }
  }

  // ---------------------------------------------------------------------------
  // Mutable builders

  function Min(a: int, b: int): int { if a <= b then a else b }

  /** java.lang.StringBuilder: a text that is appended to and edited in place. */
  class StringBuilder {
    var text: string

    constructor (init: string)
      ensures text == init
    {
      text := init;
    }

    method Append(s: string)
      modifies this
      ensures text == old(text) + s
    {
      text := text + s;
    }

    function LastIndexOf(c: char): int
      reads this
    {
      LastOccurrence(text, c)
    }

    /**
     * `replace(start, end, str)`: the characters in [start, min(end, length)) are replaced
     * by `str`; a negative `start`, a `start` past the end or after `end` throws
     * StringIndexOutOfBoundsException (`ok` is false and nothing changes).
     */
    method Replace(start: int, end: int, str: string) returns (ok: bool)
      modifies this
      ensures ok <==> 0 <= start <= |old(text)| && start <= end
      ensures ok ==> text == old(text)[..start] + str + old(text)[Min(end, |old(text)|)..]
      ensures !ok ==> text == old(text)
    {
      if start < 0 || start > |text| || start > end {
        return false;
      }
      text := text[..start] + str + text[Min(end, |text|)..];
      ok := true;
    }
  }

  /** java.util.LinkedList<String>, as far as `add` and iteration go. */
  class StringList {
    var items: seq<string>

    constructor ()
      ensures items == []
    {
      items := [];
    }

    method Add(s: string)
      modifies this
      ensures items == old(items) + [s]
    {
      items := items + [s];
    }
  }
}
