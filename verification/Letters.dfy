/** Letter case and numerals against the characters themselves: what StringOps::toLower does to a text,
    and which texts decStrToSize and hexStrToSize read as which number. */
module Letters {
  import opened StringOps

  // ---------- letter case ----------

  /** The same character, or the same letter in the other case. */
  predicate SameLetter(a: char, b: char) {
    || a == b
    || ('A' <= a <= 'Z' && b as int == a as int + 32)
    || ('a' <= a <= 'z' && b as int == a as int - 32)
  }

  /** Two texts that differ in letter case at most. */
  predicate Alike(s: string, t: string) {
    |s| == |t| && forall i | 0 <= i < |s| :: SameLetter(s[i], t[i])
  }

  /** Capitals become the letter 32 codes above, everything else stays. */
  lemma {:induction false} LowerMeans(s: string)
    ensures |ToLower(s)| == |s|
    ensures forall i | 0 <= i < |s| ::
              && !('A' <= ToLower(s)[i] <= 'Z')
              && (if 'A' <= s[i] <= 'Z' then ToLower(s)[i] as int == s[i] as int + 32 else ToLower(s)[i] == s[i])
  {
  }

  lemma {:induction false} LettersMeet(a: char, b: char)
    ensures LowerChar(a) == LowerChar(b) <==> SameLetter(a, b)
  {
  }

  /** Two names fall together exactly if they differ in letter case at most. */
  lemma {:induction false} NamesMeet(s: string, t: string)
    ensures ToLower(s) == ToLower(t) <==> Alike(s, t)
  {
    hide LowerChar, SameLetter;
    forall i | 0 <= i < |s| && |s| == |t| ensures LowerChar(s[i]) == LowerChar(t[i]) <==> SameLetter(s[i], t[i]) {
      LettersMeet(s[i], t[i]);
    }
    if ToLower(s) == ToLower(t) {
      forall i | 0 <= i < |s| ensures SameLetter(s[i], t[i]) {
        assert ToLower(s)[i] == ToLower(t)[i];
      }
    }
  }

  lemma {:induction false} AlikeTurns(s: string, t: string)
    requires Alike(s, t)
    ensures Alike(t, s)
  {
  }

  // ---------- numerals ----------

  const DECIMAL := "0123456789"
  const HEXADECIMAL := "0123456789abcdef"

  function DigitsOf(base: Radix): (d: string)
    ensures |d| == base
  {
    if base == 10 then DECIMAL else HEXADECIMAL
  }

  lemma {:induction false} Division(base: Radix, n: nat)
    ensures n == n / base * base + n % base && (n >= base ==> n / base < n)
  {
    if base == 10 {
      assert n == n / 10 * 10 + n % 10;
    } else {
      assert n == n / 16 * 16 + n % 16;
    }
  }

  lemma {:induction false} Undivided(base: Radix, n: nat, d: nat)
    requires d < base
    ensures (n * base + d) / base == n && (n * base + d) % base == d
  {
    if base == 10 {
      assert (n * 10 + d) / 10 == n;
    } else {
      assert (n * 16 + d) / 16 == n;
    }
  }

  /** A number written with these digits, most significant first. */
  function Numeral(base: Radix, n: nat): string {
    Division(base, n);
    if n < base then [DigitsOf(base)[n]] else Numeral(base, n / base) + [DigitsOf(base)[n % base]]
  }

  function Dec(n: nat): string {
    Numeral(10, n)
  }

  function Hex(n: nat): string {
    Numeral(16, n)
  }

  function Zeros(k: nat): string {
    if k == 0 then "" else "0" + Zeros(k - 1)
  }

  lemma {:induction false} DecimalDigit(d: nat)
    requires d < 10
    ensures DECIMAL[d] as int == '0' as int + d && HEXADECIMAL[d] == DECIMAL[d]
  {
    assert d == 0 || d == 1 || d == 2 || d == 3 || d == 4 || d == 5 || d == 6 || d == 7 || d == 8 || d == 9;
  }

  lemma {:induction false} LetterDigit(d: nat)
    requires 10 <= d < 16
    ensures HEXADECIMAL[d] as int == 'a' as int + d - 10
  {
    assert d == 10 || d == 11 || d == 12 || d == 13 || d == 14 || d == 15;
  }

  /** A character is a digit exactly if it is one of these, in either case; and it counts its place. */
  lemma {:induction false} DigitExactly(base: Radix, c: char, d: nat)
    requires d < base
    ensures Digit(base, c) == Some(d) <==> SameLetter(c, DigitsOf(base)[d])
  {
    if d < 10 {
      DecimalDigit(d);
    } else {
      LetterDigit(d);
    }
  }

  lemma {:induction false} ZerosGrow(k: nat)
    ensures Zeros(k + 1) == Zeros(k) + "0"
  {
    if k > 0 { ZerosGrow(k - 1); }
  }

  lemma {:induction false} AlikeAppends(s: string, t: string, c: char, d: char)
    ensures Alike(s + [c], t + [d]) <==> Alike(s, t) && SameLetter(c, d)
  {
    hide SameLetter;
    if Alike(s + [c], t + [d]) {
      forall i | 0 <= i < |s| ensures SameLetter(s[i], t[i]) {
        assert (s + [c])[i] == s[i] && (t + [d])[i] == t[i];
      }
      assert (s + [c])[|s|] == c && (t + [d])[|t|] == d;
    }
  }

  lemma {:induction false} DigitsAppend(base: Radix, s: string, c: char)
    ensures Digits(base, s + [c]) <==> Digits(base, s) && Digit(base, c).Some?
    ensures Digits(base, s + [c]) ==> Value(base, s + [c]) == Value(base, s) * base + Digit(base, c).value
  {
    hide Digit;
    var t := s + [c];
    assert t[..|t| - 1] == s;
    if Digits(base, t) {
      forall i | 0 <= i < |s| ensures Digit(base, s[i]).Some? {
        assert t[i] == s[i];
      }
      assert t[|s|] == c;
    }
  }

  lemma {:induction false} SingleNumeral(base: Radix, d: nat)
    requires d < base
    ensures Numeral(base, d) == "" + [DigitsOf(base)[d]]
  {
  }

  lemma {:induction false} FirstDigit(base: Radix)
    ensures DigitsOf(base)[0] == '0'
  {
  }

  /** Zeros count nothing. */
  lemma {:induction false} ZerosAreWorthNothing(base: Radix, s: string, k: nat)
    requires Alike(s, Zeros(k))
    ensures Digits(base, s) && Value(base, s) == 0
    decreases k
  {
    hide Digit, SameLetter;
    if k > 0 {
      ZerosGrow(k - 1);
      var front, last := s[..|s| - 1], s[|s| - 1];
      assert s == front + [last];
      AlikeAppends(front, Zeros(k - 1), last, '0');
      ZerosAreWorthNothing(base, front, k - 1);
      FirstDigit(base);
      DigitExactly(base, last, 0);
      DigitsAppend(base, front, last);
    }
  }

  lemma {:induction false} NumeralSplits(base: Radix, n: nat)
    requires n >= base
    ensures Numeral(base, n) == Numeral(base, n / base) + [DigitsOf(base)[n % base]]
  {
    hide DigitsOf;
  }

  lemma {:induction false} NumeralNotEmpty(base: Radix, n: nat)
    ensures Numeral(base, n) != ""
  {
  }

  lemma {:induction false} NumeralWorth(base: Radix, s: string, k: nat, n: nat)
    requires Alike(s, Zeros(k) + Numeral(base, n))
    ensures Digits(base, s) && Value(base, s) == n && s != ""
    decreases n
  {
    hide Digit, SameLetter, Numeral, DigitsOf;
    var digits := DigitsOf(base);
    NumeralNotEmpty(base, n);
    Division(base, n);
    var front, last, d := s[..|s| - 1], s[|s| - 1], n % base;
    assert s == front + [last];
    if n < base {
      SingleNumeral(base, n);
      assert Zeros(k) + ("" + [digits[n]]) == Zeros(k) + [digits[n]];
      AlikeAppends(front, Zeros(k), last, digits[n]);
      ZerosAreWorthNothing(base, front, k);
      DigitExactly(base, last, n);
    } else {
      NumeralSplits(base, n);
      var m := Numeral(base, n / base);
      assert Zeros(k) + (m + [digits[d]]) == Zeros(k) + m + [digits[d]];
      AlikeAppends(front, Zeros(k) + m, last, digits[d]);
      NumeralWorth(base, front, k, n / base);
      DigitExactly(base, last, d);
    }
    DigitsAppend(base, front, last);
  }

  /** Every digit string is zeros before the numeral of its value. */
  lemma {:induction false} WorthNumeral(base: Radix, s: string) returns (k: nat)
    requires Digits(base, s) && s != ""
    ensures Alike(s, Zeros(k) + Numeral(base, Value(base, s)))
    decreases |s|
  {
    hide Digit, SameLetter, Numeral, DigitsOf;
    var digits := DigitsOf(base);
    var front, last := s[..|s| - 1], s[|s| - 1];
    assert s == front + [last];
    DigitsAppend(base, front, last);
    var d := Digit(base, last).value;
    DigitExactly(base, last, d);
    SingleNumeral(base, d);
    if front == "" {
      k := 0;
      AlikeAppends("", "", last, digits[d]);
      assert Zeros(0) + ("" + [digits[d]]) == "" + [digits[d]];
    } else {
      k := WorthNumeral(base, front);
      var v := Value(base, front);
      if v == 0 {
        DecimalDigit(0);
        SingleNumeral(base, 0);
        ZerosGrow(k);
        FirstDigit(base);
        assert Zeros(k) + ("" + [digits[0]]) == Zeros(k + 1);
        AlikeAppends(front, Zeros(k + 1), last, digits[d]);
        assert Zeros(k + 1) + ("" + [digits[d]]) == Zeros(k + 1) + [digits[d]];
        k := k + 1;
      } else {
        Undivided(base, v, d);
        NumeralSplits(base, v * base + d);
        AlikeAppends(front, Zeros(k) + Numeral(base, v), last, digits[d]);
        assert Zeros(k) + (Numeral(base, v) + [digits[d]]) == Zeros(k) + Numeral(base, v) + [digits[d]];
      }
    }
  }

  /** What is read as a number: its numeral, with zeros before it and hexadecimal letters in either case, up
      to the largest 64-bit number. */
  lemma {:induction false} SizeTextExactly(base: Radix, s: string, n: nat)
    ensures ParseSize(base, s) == (true, n) <==>
            n <= 0xFFFF_FFFF_FFFF_FFFF && exists k: nat :: Alike(s, Zeros(k) + Numeral(base, n))
  {
    hide Digits, Value, Alike, Numeral, ParseSize;
    ParseSizeExact(base, s);
    if ParseSize(base, s) == (true, n) {
      var k := WorthNumeral(base, s);
    }
    if k: nat :| Alike(s, Zeros(k) + Numeral(base, n)) {
      NumeralWorth(base, s, k, n);
    }
  }

  lemma {:induction false} AlikeSame(s: string)
    ensures Alike(s, s)
  {
  }

  /** Every number printed with these digits is read back, unless it is too large. */
  lemma {:induction false} NumeralsAreRead(n: nat)
    requires n <= 0xFFFF_FFFF_FFFF_FFFF
    ensures ParseSize(10, Dec(n)) == (true, n)
    ensures forall s | Alike(s, Hex(n)) :: ParseSize(16, s) == (true, n)
  {
    hide ParseSize, Alike;
    AlikeSame(Dec(n));
    assert Zeros(0) + Dec(n) == Dec(n) && Zeros(0) + Hex(n) == Hex(n);
    SizeTextExactly(10, Dec(n), n);
    forall s | Alike(s, Hex(n)) ensures ParseSize(16, s) == (true, n) {
      SizeTextExactly(16, s, n);
    }
  }

  /** In base ten there are no letters to spell differently. */
  lemma {:induction false} DecimalIsPlain(s: string, n: nat)
    requires Alike(s, Dec(n))
    ensures s == Dec(n)
    decreases n
  {
    hide Numeral, SameLetter;
    NumeralNotEmpty(10, n);
    var front, last, d := s[..|s| - 1], s[|s| - 1], n % 10;
    assert s == front + [last];
    DecimalDigit(d);
    NoCase(last, DECIMAL[d]);
    if n < 10 {
      SingleNumeral(10, n);
      AlikeAppends(front, "", last, DECIMAL[n]);
    } else {
      NumeralSplits(10, n);
      AlikeAppends(front, Dec(n / 10), last, DECIMAL[d]);
      DecimalIsPlain(front, n / 10);
    }
  }

  lemma {:induction false} NoCase(a: char, b: char)
    requires '0' <= b <= '9'
    ensures SameLetter(a, b) <==> a == b
  {
  }

  // ---------- characters by their codes ----------

  const UPPER := "ABCDEFGHIJKLMNOPQRSTUVWXYZ"
  const LOWER := "abcdefghijklmnopqrstuvwxyz"

  lemma {:induction false} LettersInOrder(k: nat)
    requires k < 26
    ensures UPPER[k] as int == 65 + k && LOWER[k] as int == 97 + k
  {
    assert k == 0 || k == 1 || k == 2 || k == 3 || k == 4 || k == 5 || k == 6 || k == 7 || k == 8 || k == 9
           || k == 10 || k == 11 || k == 12 || k == 13 || k == 14 || k == 15 || k == 16 || k == 17 || k == 18
           || k == 19 || k == 20 || k == 21 || k == 22 || k == 23 || k == 24 || k == 25;
  }

  /** The code of some character of the text. */
  predicate Among(n: int, text: string) {
    exists i | 0 <= i < |text| :: text[i] as int == n
  }

  lemma {:induction false} AmongBoth(n: int, a: string, b: string)
    ensures Among(n, a + b) <==> Among(n, a) || Among(n, b)
  {
    var t := a + b;
    if Among(n, a) {
      var i :| 0 <= i < |a| && a[i] as int == n;
      assert t[i] == a[i];
    }
    if Among(n, b) {
      var i :| 0 <= i < |b| && b[i] as int == n;
      assert t[|a| + i] == b[i];
    }
    if Among(n, t) {
      var i :| 0 <= i < |t| && t[i] as int == n;
      assert t[i] == if i < |a| then a[i] else b[i - |a|];
    }
  }

  lemma {:induction false} AmongRanges(n: int)
    ensures Among(n, UPPER) <==> 65 <= n <= 90
    ensures Among(n, LOWER) <==> 97 <= n <= 122
    ensures Among(n, DECIMAL) <==> 48 <= n <= 57
  {
    forall k | 0 <= k < 26 ensures UPPER[k] as int == 65 + k && LOWER[k] as int == 97 + k {
      LettersInOrder(k);
    }
    forall k | 0 <= k < 10 ensures DECIMAL[k] as int == 48 + k {
      DecimalDigit(k);
    }
    if 65 <= n <= 90 { assert UPPER[n - 65] as int == n; }
    if 97 <= n <= 122 { assert LOWER[n - 97] as int == n; }
    if 48 <= n <= 57 { assert DECIMAL[n - 48] as int == n; }
  }
}
