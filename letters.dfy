/** The 26-letter codec shared by the letter ciphers: ASCII letter classes,
    `charToNum`/`numToChar`, the `cleanText` filters, and JavaScript's `%`. */
module Letters {

  /** A result that is either a text or the error message the cipher returns. */
  datatype Result<T> = Ok(value: T) | Err(msg: string)

  /** A value, or none (JavaScript's `null`). */
  datatype Option<T> = None | Some(value: T)

  function Abs(x: int): int { if x < 0 then -x else x }

  /** JavaScript's `x % m`: the remainder of division truncated toward zero,
      which takes the sign of the dividend. */
  function JsRem(x: int, m: int): (r: int)
    requires m != 0
    ensures (x - r) % m == 0
    ensures x >= 0 ==> 0 <= r < Abs(m)
    ensures x < 0 ==> -Abs(m) < r <= 0
  {
    if x >= 0 then
      assert x - x % m == m * (x / m);
      ModOfMultiple(m, x / m);
      x % m
    else
      var p := (-x) % m;
      assert -x == m * ((-x) / m) + p;
      assert x + p == m * (-((-x) / m));
      ModOfMultiple(m, -((-x) / m));
      -p
  }

  /** On a non-negative combination `a * x + b * y`, the form every letter
      cipher reduces, JavaScript's `%` is Dafny's. */
  lemma RemOfCombination(a: int, x: int, b: int, y: int)
    requires a >= 0 && x >= 0 && b >= 0 && y >= 0
    ensures a * x + b * y >= 0 && JsRem(a * x + b * y, 26) == (a * x + b * y) % 26
  {
  }

  /** `((x % m) + m) % m` on JavaScript numbers is the Euclidean remainder. */
  lemma NormalizedRem(x: int, m: int)
    requires m > 0
    ensures JsRem(JsRem(x, m) + m, m) == x % m
  {
    var r := JsRem(x, m);
    var q := (x - r) / m;
    assert x - r == m * q;
    assert r + m >= 0;
    var s := (r + m) % m;
    assert r + m == m * ((r + m) / m) + s;
    assert x == m * (q + (r + m) / m - 1) + s;
    DivModUnique(x, m, q + (r + m) / m - 1, s);
  }

  /** The quotient and remainder of Euclidean division are unique. */
  lemma DivModUnique(x: int, m: int, q: int, r: int)
    requires m != 0 && 0 <= r < Abs(m) && x == m * q + r
    ensures x / m == q && x % m == r
  {
    var q0, r0 := x / m, x % m;
    assert m * (q - q0) == r0 - r;
    if m > 0 {
      MulBounds(m, q - q0);
    } else {
      MulBounds(-m, q - q0);
      assert (-m) * (q - q0) == -(m * (q - q0));
    }
  }

  /** A multiple of `m` leaves no remainder. */
  lemma ModOfMultiple(m: int, k: int)
    requires m != 0
    ensures (m * k) % m == 0
  {
    DivModUnique(m * k, m, k, 0);
  }

  lemma {:induction false} MulBounds(m: int, d: int)
    requires m > 0
    ensures d >= 1 ==> m * d >= m
    ensures d <= -1 ==> m * d <= -m
    decreases Abs(d)
  {
    if d > 1 {
      MulBounds(m, d - 1);
      assert m * d == m * (d - 1) + m;
    } else if d < -1 {
      MulBounds(m, d + 1);
      assert m * d == m * (d + 1) - m;
    }
  }

  /** Adding then subtracting a shift modulo 26 (and the reverse) is the
      identity on residues. */
  lemma ShiftCancel(x: int, k: int)
    requires 0 <= x < 26 && 0 <= k < 26
    ensures ((x + k) % 26 - k + 26) % 26 == x
    ensures ((x - k + 26) % 26 + k) % 26 == x
  {
    if x + k < 26 {
      DivModUnique(x + k, 26, 0, x + k);
      DivModUnique(x + 26, 26, 1, x);
    } else {
      DivModUnique(x + k, 26, 1, x + k - 26);
      DivModUnique(x, 26, 0, x);
    }
    if x - k >= 0 {
      DivModUnique(x - k + 26, 26, 1, x - k);
      DivModUnique(x, 26, 0, x);
    } else {
      DivModUnique(x - k + 26, 26, 0, x - k + 26);
      DivModUnique(x + 26, 26, 1, x);
    }
  }

  predicate IsUpper(c: char) { 'A' <= c <= 'Z' }
  predicate IsLower(c: char) { 'a' <= c <= 'z' }
  /** The class `[a-zA-Z]` of the ciphers' regular expressions. */
  predicate IsLetter(c: char) { IsUpper(c) || IsLower(c) }

  predicate AllLetters(s: string) { forall i :: 0 <= i < |s| ==> IsLetter(s[i]) }
  predicate AllLower(s: string) { forall i :: 0 <= i < |s| ==> IsLower(s[i]) }
  predicate HasLetter(s: string) { exists i :: 0 <= i < |s| && IsLetter(s[i]) }

  /** `toLowerCase` on one ASCII character. */
  function Lower(c: char): (r: char)
    ensures IsLetter(c) ==> IsLower(r)
    ensures !IsUpper(c) ==> r == c
  {
    if IsUpper(c) then (c as int + 32) as char else c
  }

  /** `toLowerCase` on a string, restricted to the ASCII letters it changes. */
  function LowerAll(s: string): (r: string)
    ensures |r| == |s|
    ensures forall i :: 0 <= i < |s| ==> r[i] == Lower(s[i])
  {
    seq(|s|, i requires 0 <= i < |s| => Lower(s[i]))
  }

  /** `charToNum`: a letter's position in the alphabet, case folded. */
  function CharToNum(c: char): (n: int)
    requires IsLetter(c)
    ensures 0 <= n < 26
  {
    Lower(c) as int - 'a' as int
  }

  /** `numToChar` of vigenere.ts, autoKeyVigenere.ts and affine.ts:
      `String.fromCharCode((n % 26) + 97)` with JavaScript's `%`, whose
      remainder of a negative `n` is `-((-n) % 26)` (see `NumToCharIsJs`). */
  function NumToChar(n: int): (c: char)
    ensures n >= 0 ==> IsLower(c) && c as int - 'a' as int == n % 26
  {
    if n >= 0 then (n % 26 + 'a' as int) as char
    else ('a' as int - (-n) % 26) as char
  }

  /** `NumToChar` adds JavaScript's remainder to the code of 'a'. */
  lemma NumToCharIsJs(n: int)
    ensures NumToChar(n) as int == JsRem(n, 26) + 'a' as int
  {
  }

  /** `numToChar` inverts `charToNum` up to case. */
  lemma CharToNumToChar(c: char)
    requires IsLetter(c)
    ensures NumToChar(CharToNum(c)) == Lower(c)
  {
    DivModUnique(CharToNum(c), 26, 0, CharToNum(c));
  }

  /** `numToChar` of hill.ts, which normalises the remainder first. */
  function NumToCharNormalized(n: int): (c: char)
    ensures IsLower(c) && c as int - 'a' as int == n % 26
  {
    NormalizedRem(n, 26);
    (JsRem(JsRem(n, 26) + 26, 26) + 'a' as int) as char
  }

  /** `charToNum` inverts `numToChar` on the residues 0..25. */
  lemma NumToCharToNum(n: int)
    requires 0 <= n < 26
    ensures IsLower(NumToChar(n)) && CharToNum(NumToChar(n)) == n
  {
    DivModUnique(n, 26, 0, n);
  }

  /** Lower-casing keeps a letter's position in the alphabet. */
  lemma LowerNum(c: char)
    requires IsLetter(c)
    ensures IsLetter(Lower(c)) && CharToNum(Lower(c)) == CharToNum(c)
  {
  }

  /** Subtracting the shift `k` from a letter shifted by `k` gives the letter
      back, lower-cased. */
  lemma UnshiftNum(c: char, e: int, k: int)
    requires IsLetter(c) && 0 <= k < 26 && e == (CharToNum(c) + k) % 26
    ensures NumToChar((e - k + 26) % 26) == Lower(c)
  {
    ShiftCancel(CharToNum(c), k);
    CharToNumToChar(c);
  }

  /** Adding the shift `k` to a letter shifted back by `k` gives the letter
      back, lower-cased. */
  lemma ReshiftNum(c: char, d: int, k: int)
    requires IsLetter(c) && 0 <= k < 26 && d == (CharToNum(c) - k + 26) % 26
    ensures NumToChar((d + k) % 26) == Lower(c)
  {
    ShiftCancel(CharToNum(c), k);
    CharToNumToChar(c);
  }

  /** `text.replace(/[^a-zA-Z]/g, '')`: keep the ASCII letters, in order. */
  function Clean(s: string): (r: string)
    ensures AllLetters(r)
  {
    if s == [] then []
    else
      var rest := Clean(s[1..]);
      if IsLetter(s[0]) then [s[0]] + rest else rest
  }

  /** Cleaning never lengthens a text and leaves a text of letters alone. */
  lemma {:induction false} CleanShorter(s: string)
    ensures |Clean(s)| <= |s|
    ensures AllLetters(s) ==> Clean(s) == s
  {
    if s != [] {
      CleanShorter(s[1..]);
    }
  }

  /** The cleaned text is empty exactly when the text has no letter. */
  lemma {:induction false} CleanEmpty(s: string)
    ensures Clean(s) == [] <==> !HasLetter(s)
  {
    if s != [] {
      CleanEmpty(s[1..]);
      if HasLetter(s[1..]) {
        var i :| 0 <= i < |s[1..]| && IsLetter(s[1..][i]);
        assert IsLetter(s[i + 1]);
      }
      if HasLetter(s) && !IsLetter(s[0]) {
        var i :| 0 <= i < |s| && IsLetter(s[i]);
        assert IsLetter(s[1..][i - 1]);
      }
    }
  }

  /** The `cleanText` of affine.ts and hill.ts: the letters, lower-cased. */
  function CleanLower(s: string): (r: string)
    ensures AllLower(r) && |r| == |Clean(s)|
    ensures AllLower(s) ==> r == s
  {
    CleanShorter(s);
    LowerAll(Clean(s))
  }

  lemma {:induction false} CleanAppend(a: string, b: string)
    ensures Clean(a + b) == Clean(a) + Clean(b)
  {
    if a == [] {
      assert a + b == b;
    } else {
      assert (a + b)[0] == a[0];
      assert (a + b)[1..] == a[1..] + b;
      CleanAppend(a[1..], b);
    }
  }

  /** Cleaning keeps the letters of `s` and only those, in their order. */
  lemma {:induction false} CleanLowerCase(s: string)
    ensures Clean(LowerAll(s)) == LowerAll(Clean(s))
  {
    if s != [] {
      assert LowerAll(s)[1..] == LowerAll(s[1..]);
      CleanLowerCase(s[1..]);
    }
  }

  /** The length of the complete pairs of a text of length `n`. */
  function PairedLength(n: nat): (r: nat)
    ensures r <= n
  {
    if n < 2 then 0 else PairedLength(n - 2) + 2
  }

  /** The complete pairs have even length. */
  lemma {:induction false} PairedLengthEven(n: nat)
    ensures PairedLength(n) % 2 == 0
  {
    if n >= 2 {
      PairedLengthEven(n - 2);
    }
  }

  /** The complete pairs cover all but the last letter of an odd length. */
  lemma {:induction false} PairedLengthIs(n: nat)
    ensures PairedLength(n) == n - n % 2
  {
    if n >= 2 {
      PairedLengthIs(n - 2);
      DivModUnique(n - 2, 2, (n - 2) / 2, (n - 2) % 2);
      DivModUnique(n, 2, (n - 2) / 2 + 1, (n - 2) % 2);
    }
  }
}
