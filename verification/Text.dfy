/** Strings as the program compares and folds them. */
module Text {

  // ----- Lexicographic order -----

  predicate LexLess(s: string, t: string) {
    t != [] && (s == [] || s[0] < t[0] || (s[0] == t[0] && LexLess(s[1..], t[1..])))
  }

  lemma {:induction false} LexOfConcat(a: string, b: string, c: string, d: string)
    requires |a| == |c|
    ensures LexLess(a + b, c + d) <==> LexLess(a, c) || (a == c && LexLess(b, d))
  {
    if a == [] {
      assert a + b == b && c + d == d;
    } else {
      LexOfConcat(a[1..], b, c[1..], d);
      assert (a + b)[1..] == a[1..] + b && (c + d)[1..] == c[1..] + d;
      assert a == c <==> a[0] == c[0] && a[1..] == c[1..];
    }
  }

  /** Strings are totally ordered. */
  lemma {:induction false} LexTotal(s: string, t: string)
    ensures s == t || LexLess(s, t) || LexLess(t, s)
    ensures !(LexLess(s, t) && LexLess(t, s)) && !LexLess(s, s)
  {
    if s != [] {
      LexTotal(s[1..], s[1..]);
      if t != [] {
        LexTotal(s[1..], t[1..]);
        assert s == t <==> s[0] == t[0] && s[1..] == t[1..];
      }
    }
  }

  lemma {:induction false} LexTransitive(s: string, t: string, u: string)
    requires LexLess(s, t) && LexLess(t, u)
    ensures LexLess(s, u)
  {
    if s != [] && s[0] == t[0] == u[0] {
      LexTransitive(s[1..], t[1..], u[1..]);
    }
  }

  // ----- Decimal text -----

  function Digit(n: int): char
    requires 0 <= n < 10
  {
    ['0', '1', '2', '3', '4', '5', '6', '7', '8', '9'][n]
  }

  /** A number in decimal, padded with zeros on the left to at least `width` characters. */
  function Padded(n: nat, width: nat): string
    decreases n + width
  {
    if n < 10 && width <= 1 then [Digit(n)]
    else Padded(n / 10, if width == 0 then 0 else width - 1) + [Digit(n % 10)]
  }

  /** Different numbers are printed differently. */
  lemma {:induction false} PaddedDiffers(m: nat, n: nat, width: nat)
    requires Padded(m, width) == Padded(n, width)
    ensures m == n
    decreases m + width
  {
    hide Padded, Digit;
    LastDigit(m, width);
    LastDigit(n, width);
    var less := if width == 0 then 0 else width - 1;
    PaddedHasDigits(m / 10, less);
    PaddedHasDigits(n / 10, less);
    DigitsDiffer(m % 10, n % 10);
    if !(width <= 1 && m < 10) && !(width <= 1 && n < 10) {
      PaddedDiffers(m / 10, n / 10, less);
    }
  }

  lemma DigitsDiffer(m: nat, n: nat)
    requires m < 10 && n < 10 && Digit(m) == Digit(n)
    ensures m == n
  {
  }

  lemma LastDigit(n: nat, width: nat)
    ensures var s := Padded(n, width);
            && s != "" && s[|s| - 1] == Digit(n % 10)
            && s[..|s| - 1] == if width <= 1 && n < 10 then ""
                               else Padded(n / 10, if width == 0 then 0 else width - 1)
  {
  }

  lemma PaddedHasDigits(n: nat, width: nat)
    ensures Padded(n, width) != ""
  {
  }

  // ----- Folding -----

  function LowerChar(c: char): char {
    if 'A' <= c <= 'Z' then c - 'A' + 'a' else c
  }

  /** Exactly the 26 capital letters fold, each to its small one. */
  lemma LettersFold(c: char)
    ensures LowerChar(c)
            == if 65 <= c as int <= 90 then "abcdefghijklmnopqrstuvwxyz"[c as int - 65] else c
  {
  }

  function Lower(s: string): (r: string)
    ensures |r| == |s|
    ensures forall i :: 0 <= i < |s| ==> r[i] == LowerChar(s[i])
  {
    if s == "" then "" else [LowerChar(s[0])] + Lower(s[1..])
  }

  function Slashed(s: string): (r: string)
    ensures |r| == |s|
    ensures forall i :: 0 <= i < |s| ==> r[i] == if s[i] == '\\' then '/' else s[i]
  {
    if s == "" then "" else [if s[0] == '\\' then '/' else s[0]] + Slashed(s[1..])
  }

  /** The characters with the Unicode property White_Space. */
  predicate WhiteSpace(c: char) {
    var n := c as int;
    || 0x9 <= n <= 0xD || n == 0x20 || n == 0x85 || n == 0xA0 || n == 0x1680
    || 0x2000 <= n <= 0x200A || n == 0x2028 || n == 0x2029 || n == 0x202F || n == 0x205F
    || n == 0x3000
  }

  function TrimStart(s: string): string {
    if s != "" && WhiteSpace(s[0]) then TrimStart(s[1..]) else s
  }

  function TrimEnd(s: string): string {
    if s != "" && WhiteSpace(s[|s| - 1]) then TrimEnd(s[..|s| - 1]) else s
  }

  function Trim(s: string): string {
    TrimEnd(TrimStart(s))
  }

  predicate EndsWith(s: string, suffix: string) {
    |suffix| <= |s| && s[|s| - |suffix|..] == suffix
  }

  function StripPrefix(s: string, prefix: string): string {
    if prefix <= s then s[|prefix|..] else s
  }

  function StripSuffix(s: string, suffix: string): string {
    if EndsWith(s, suffix) then s[..|s| - |suffix|] else s
  }
}
