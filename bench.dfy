// The two helpers shared, identically, by benchmarks/single_threaded.cpp and
// benchmarks/single_threaded_strings.cpp: streq on NUL-terminated strings and
// format_integer, which writes an integer in decimal with thousands commas.
//
// C's `/` and `%` truncate toward zero; they are written out as CQuot10 and
// CRem10 below.
module BenchUtil {

  // ---------------------------------------------------------------------
  // streq

  /** The index of the first NUL of s. */
  function FirstNul(s: seq<char>): (i: nat)
    requires '\0' in s
    ensures i < |s| && s[i] == '\0' && '\0' !in s[..i]
  {
    if s[0] == '\0' then 0
    else
      assert s == [s[0]] + s[1..];
      var j := FirstNul(s[1..]);
      assert s[..j + 1] == [s[0]] + s[1..][..j];
      j + 1
  }

  /** The C string that s holds: its characters before the first NUL. */
  function CStr(s: seq<char>): seq<char>
    requires '\0' in s
  {
    s[..FirstNul(s)]
  }

  /** streq: compares the two strings character by character, stopping with
      true at a NUL both share and with false at the first difference
      (one string ending before the other is a difference). */
  method Streq(a: seq<char>, b: seq<char>) returns (eq: bool)
    requires '\0' in a && '\0' in b
    ensures eq <==> CStr(a) == CStr(b)
  {
    ghost var na, nb := FirstNul(a), FirstNul(b);
    var i := 0;
    while true
      invariant i <= na && i <= nb
      invariant a[..i] == b[..i]
      decreases na - i
    {
      if a[i] == '\0' && b[i] == '\0' {
        break;
      }
      if a[i] == b[i] {
        assert a[..i + 1] == a[..i] + [a[i]] && b[..i + 1] == b[..i] + [b[i]];
        i := i + 1;
        continue;
      } else {
        assert CStr(a) != CStr(b) by {
          if i < na && i < nb {
            assert CStr(a)[i] != CStr(b)[i];
          } else {
            assert |CStr(a)| != |CStr(b)|;
          }
        }
        return false;
      }
    }
    return true;
  }

  // ---------------------------------------------------------------------
  // format_integer

  /** C's n / 10, truncating toward zero. */
  function CQuot10(n: int): int
  {
    if n >= 0 then n / 10 else -((-n) / 10)
  }

  /** C's n % 10: the sign of n, magnitude below 10. */
  function CRem10(n: int): int
  {
    n - 10 * CQuot10(n)
  }

  /** The character `(char) (d + '0')`. */
  function DigitChar(d: int): char
    requires -9 <= d <= 9
  {
    (48 + d) as char
  }

  /** The number of `cpy /= 10` steps that bring n to zero. */
  function NumDigits(n: int): (len: nat)
    ensures n != 0 <==> len > 0
    decreases if n >= 0 then n else -n
  {
    if n == 0 then 0 else 1 + NumDigits(CQuot10(n))
  }

  /** n after j steps of `pNum /= 10`. */
  function Shifted(n: int, j: nat): int
    decreases j
  {
    if j == 0 then n else Shifted(CQuot10(n), j - 1)
  }

  /** The character written for the digit of weight 10^j. */
  function DigitAt(n: int, j: nat): char
  {
    var d := CRem10(Shifted(n, j));
    if -9 <= d <= 9 then DigitChar(d) else '?'
  }

  /** The characters of n's digits, most significant first. */
  function Digits(n: int): (ds: seq<char>)
    ensures |ds| == NumDigits(n)
    decreases if n >= 0 then n else -n
  {
    if n == 0 then [] else Digits(CQuot10(n)) + [DigitChar(CRem10(n))]
  }

  /** Digits with a comma before every full group of three counted from the right. */
  function Group(ds: seq<char>): (r: seq<char>)
    decreases |ds|
  {
    if |ds| <= 3 then ds else Group(ds[..|ds| - 3]) + [','] + ds[|ds| - 3..]
  }

  /** The text format_integer is meant to produce. */
  function FormatSpec(n: int): seq<char>
  {
    if n == 0 then "0" else Group(Digits(n))
  }

  /** The characters other than commas. */
  function StripCommas(s: seq<char>): seq<char>
  {
    if s == [] then []
    else StripCommas(s[..|s| - 1]) + (if s[|s| - 1] == ',' then [] else [s[|s| - 1]])
  }

  /** The number a string of decimal digits denotes. */
  function Value(ds: seq<char>): int
  {
    if ds == [] then 0 else 10 * Value(ds[..|ds| - 1]) + (ds[|ds| - 1] as int - '0' as int)
  }

  /** Digits read back give the number: for n > 0 they are n's decimal digits. */
  lemma {:induction false} DigitsValue(n: nat)
    ensures Value(Digits(n)) == n
    ensures forall i :: 0 <= i < |Digits(n)| ==> '0' <= Digits(n)[i] <= '9'
    ensures n > 0 ==> Digits(n)[0] != '0'
    decreases n
  {
    if n > 0 {
      DigitsValue(n / 10);
      var ds := Digits(n);
      assert ds[..|ds| - 1] == Digits(n / 10);
      if n / 10 > 0 {
        assert ds[0] == Digits(n / 10)[0];
      }
    }
  }

  /** For a negative number the digit characters are '0' or below: C's `%`
      yields a non-positive remainder and no sign is ever written. */
  lemma {:induction false} NegativeDigitsBelowZero(n: int)
    requires n < 0
    ensures forall i :: 0 <= i < |Digits(n)| ==> Digits(n)[i] <= '0'
    ensures Digits(n)[0] < '0'
    decreases -n
  {
    if CQuot10(n) < 0 {
      NegativeDigitsBelowZero(CQuot10(n));
      assert Digits(n)[0] == Digits(CQuot10(n))[0];
    }
  }

  /** Digit positions: the character at distance j from the right end of
      Digits(n) is the digit of weight 10^j. */
  lemma {:induction false} DigitsIndex(n: int, j: nat)
    requires j < NumDigits(n)
    ensures Digits(n)[NumDigits(n) - 1 - j] == DigitAt(n, j)
    decreases j
  {
    if j > 0 {
      DigitsIndex(CQuot10(n), j - 1);
    }
  }

  /** The length of the grouped text. */
  lemma {:induction false} GroupLength(ds: seq<char>)
    ensures |Group(ds)| == |ds| + (if |ds| == 0 then 0 else (|ds| - 1) / 3)
    decreases |ds|
  {
    if |ds| > 3 {
      GroupLength(ds[..|ds| - 3]);
    }
  }

  /** Counted from the right, every fourth character of the grouped text is a
      comma and the others are the digits in order. */
  lemma {:induction false} GroupIndex(ds: seq<char>, m: nat)
    requires m < |Group(ds)|
    ensures 3 * (m / 4) + m % 4 < |ds|
    ensures Group(ds)[|Group(ds)| - 1 - m] == if m % 4 == 3 then ',' else ds[|ds| - 1 - (3 * (m / 4) + m % 4)]
    decreases |ds|
  {
    GroupLength(ds);
    if |ds| > 3 {
      var ds' := ds[..|ds| - 3];
      GroupLength(ds');
      if m >= 4 {
        GroupIndex(ds', m - 4);
      }
    }
  }

  /** Removing the commas of the grouped text gives back the digits. */
  lemma {:induction false} GroupStrip(ds: seq<char>)
    requires ',' !in ds
    ensures StripCommas(Group(ds)) == ds
    decreases |ds|
  {
    if |ds| > 3 {
      var head, tail := ds[..|ds| - 3], ds[|ds| - 3..];
      NoCommaSlice(ds, 0, |ds| - 3);
      NoCommaSlice(ds, |ds| - 3, |ds|);
      GroupStrip(head);
      StripJoin(Group(head), tail);
      assert ds == head + tail;
    } else {
      StripNoComma(ds);
    }
  }

  /** One step of Group: the comma between the groups is stripped. */
  lemma StripJoin(g: seq<char>, tail: seq<char>)
    requires ',' !in tail
    ensures StripCommas(g + [','] + tail) == StripCommas(g) + tail
  {
    var a := g + [','];
    StripAppend(a, tail);
    assert a[..|a| - 1] == g && a[|a| - 1] == ',';
    assert StripCommas(a) == StripCommas(g) + [];
    calc {
      StripCommas(a + tail);
      StripCommas(g) + StripCommas(tail);
      { StripNoComma(tail); }
      StripCommas(g) + tail;
    }
  }

  /** The grouped text of a non-empty digit string does not start with a comma. */
  lemma {:induction false} GroupNoLeadingComma(ds: seq<char>)
    requires ',' !in ds && |ds| > 0
    ensures Group(ds)[0] != ','
    decreases |ds|
  {
    if |ds| > 3 {
      var head := ds[..|ds| - 3];
      NoCommaSlice(ds, 0, |ds| - 3);
      GroupNoLeadingComma(head);
      assert Group(ds)[0] == Group(head)[0];
    }
  }

  lemma NoCommaSlice(ds: seq<char>, lo: nat, hi: nat)
    requires ',' !in ds && lo <= hi <= |ds|
    ensures ',' !in ds[lo..hi]
  {
    var p := ds[lo..hi];
    forall i | 0 <= i < |p| ensures p[i] != ',' {
      assert p[i] == ds[lo + i];
    }
  }

  lemma {:induction false} StripAppend(s: seq<char>, t: seq<char>)
    ensures StripCommas(s + t) == StripCommas(s) + StripCommas(t)
    decreases |t|
  {
    if t != [] {
      var t' := t[..|t| - 1];
      assert (s + t)[..|s + t| - 1] == s + t';
      StripAppend(s, t');
    } else {
      assert s + t == s;
    }
  }

  lemma {:induction false} StripNoComma(s: seq<char>)
    requires ',' !in s
    ensures StripCommas(s) == s
    decreases |s|
  {
    if s != [] {
      NoCommaSlice(s, 0, |s| - 1);
      StripNoComma(s[..|s| - 1]);
    }
  }

  /** What format_integer promises for a non-negative number: no leading
      comma, n's decimal digits once the commas are removed, and length
      len + (len - 1) / 3. */
  lemma FormatSpecMeaning(n: nat)
    ensures FormatSpec(n) != [] && FormatSpec(n)[0] != ','
    ensures Value(StripCommas(FormatSpec(n))) == n
    ensures n == 0 ==> FormatSpec(n) == "0"
    ensures n > 0 ==> |FormatSpec(n)| == NumDigits(n) + (NumDigits(n) - 1) / 3
  {
    if n == 0 {
      assert StripCommas("0") == StripCommas([]) + "0";
      assert Value("0") == 10 * Value([]) + 0;
    } else {
      DigitsValue(n);
      assert ',' !in Digits(n);
      GroupStrip(Digits(n));
      GroupNoLeadingComma(Digits(n));
      GroupLength(Digits(n));
    }
  }

  /** The number of `cpy /= 10` steps: len counts n's digits. */
  method CountDigits(n: int) returns (len: nat)
    ensures len == NumDigits(n)
  {
    var cpy := n;
    len := 0;
    while cpy != 0
      invariant len + NumDigits(cpy) == NumDigits(n)
      decreases if cpy >= 0 then cpy else -cpy
    {
      len, cpy := len + 1, CQuot10(cpy);
    }
  }

  /** The text of the second loop, least significant digit first: position k
      holds a comma when k % 4 == 3 and otherwise the digit of weight
      10^(3 * (k / 4) + k % 4). */
  function RevGrouped(n: int, k: nat): char
  {
    if k % 4 == 3 then ',' else DigitAt(n, 3 * (k / 4) + k % 4)
  }

  /** The loop that writes the digits, least significant first, with a comma
      after every third one except the last. */
  method WriteDigits(n: int, len: nat) returns (res: seq<char>)
    requires len == NumDigits(n) && len > 0
    ensures |res| == len + (len - 1) / 3
    ensures forall k :: 0 <= k < |res| ==> res[k] == RevGrouped(n, k)
  {
    var num := n;
    res := [];
    for i := 0 to len
      invariant num == Shifted(n, i)
      invariant |res| == if i < len then i + i / 3 else len + (len - 1) / 3
      invariant forall k :: 0 <= k < |res| ==> res[k] == RevGrouped(n, k)
    {
      ShiftedStep(n, i);
      var d := CRem10(num);
      num := CQuot10(num);
      res := res + [DigitChar(d)];
      if i % 3 == 2 && i != len - 1 {
        res := res + [','];
      }
    }
  }

  lemma {:induction false} ShiftedStep(n: int, i: nat)
    ensures Shifted(n, i + 1) == CQuot10(Shifted(n, i))
    ensures -9 <= CRem10(Shifted(n, i)) <= 9
    decreases i
  {
    if i > 0 {
      ShiftedStep(CQuot10(n), i - 1);
    }
  }

  /** The final loop: swaps mirrored characters, reversing the text in place. */
  method ReverseInPlace(a: array<char>)
    modifies a
    ensures forall k :: 0 <= k < a.Length ==> a[k] == old(a[a.Length - 1 - k])
  {
    var n := a.Length;
    for i := 0 to n / 2
      invariant forall k :: 0 <= k < i ==> a[k] == old(a[n - 1 - k]) && a[n - 1 - k] == old(a[k])
      invariant forall k :: i <= k < n - i ==> a[k] == old(a[k])
    {
      a[i], a[n - 1 - i] := a[n - 1 - i], a[i];
    }
  }

  /** format_integer: "0" for zero; otherwise the digits with their commas,
      written least significant first and then reversed. */
  method FormatInteger(n: int) returns (r: seq<char>)
    ensures r == FormatSpec(n)
  {
    if n == 0 {
      return "0";
    }
    var len := CountDigits(n);
    var res := WriteDigits(n, len);
    var buf := new char[|res|](k requires 0 <= k < |res| => res[k]);
    ReverseInPlace(buf);
    r := buf[..];
    ReversedIsFormatSpec(n, res, r);
  }

  /** The reversed text of the digit loop is the grouped decimal text. */
  lemma ReversedIsFormatSpec(n: int, res: seq<char>, r: seq<char>)
    requires NumDigits(n) > 0
    requires |res| == NumDigits(n) + (NumDigits(n) - 1) / 3
    requires forall k :: 0 <= k < |res| ==> res[k] == RevGrouped(n, k)
    requires |r| == |res| && forall k :: 0 <= k < |r| ==> r[k] == res[|res| - 1 - k]
    ensures r == FormatSpec(n)
  {
    var ds := Digits(n);
    GroupLength(ds);
    forall k | 0 <= k < |r| ensures r[k] == Group(ds)[k] {
      GroupedFromRight(n, |r| - 1 - k);
    }
  }

  /** Position m from the right of the grouped text is RevGrouped(n, m). */
  lemma GroupedFromRight(n: int, m: nat)
    requires m < |Group(Digits(n))|
    ensures Group(Digits(n))[|Group(Digits(n))| - 1 - m] == RevGrouped(n, m)
  {
    var j := 3 * (m / 4) + m % 4;
    GroupIndex(Digits(n), m);
    if m % 4 != 3 {
      DigitsIndex(n, j);
    }
  }
}
