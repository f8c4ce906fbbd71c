/** The affine cipher over the 26-letter alphabet (affine.ts): letter `x`
    becomes `(a * x + b) mod 26`, and is recovered with the inverse of `a`
    modulo 26. */
module Affine {
  import opened Letters
  import opened Modular

  /** The message both operations return when `a` fails the coprimality test. */
  const CoprimeError: string := "Error: 'a' must be coprime with 26"

  /** `numToChar((a * x + b) % 26)`, with JavaScript's `%`. */
  function EncryptLetter(c: char, a: int, b: int): char
    requires IsLetter(c)
  {
    NumToChar(JsRem(a * CharToNum(c) + b, 26))
  }

  /** `numToChar((aInverse * (y - b + 26)) % 26)`, with JavaScript's `%`. */
  function DecryptLetter(c: char, aInverse: int, b: int): char
    requires IsLetter(c)
  {
    NumToChar(JsRem(aInverse * (CharToNum(c) - b + 26), 26))
  }

  /** Every letter encrypted; for non-negative `a` and `b` the results are
      lower-case letters. */
  function AffineForward(letters: string, a: int, b: int): (r: string)
    requires AllLetters(letters)
    ensures |r| == |letters|
    ensures a >= 0 && b >= 0 ==> AllLower(r)
  {
    seq(|letters|, i requires 0 <= i < |letters| => EncryptLetter(letters[i], a, b))
  }

  /** Every letter decrypted with `aInverse`. */
  function AffineBack(letters: string, aInverse: int, b: int): (r: string)
    requires AllLetters(letters)
    ensures |r| == |letters|
    ensures aInverse >= 0 && b <= 25 ==> AllLower(r)
  {
    seq(|letters|, i requires 0 <= i < |letters| => DecryptLetter(letters[i], aInverse, b))
  }

  /** What `encryptAffine(plaintext, a, b)` returns. */
  function Encrypted(plaintext: string, a: int, b: int): (r: Result<string>)
    ensures !IsCoprime(a, 26) ==> r == Err(CoprimeError)
    ensures IsCoprime(a, 26) ==> r.Ok? && |r.value| == |Clean(plaintext)|
  {
    if !IsCoprime(a, 26) then Err(CoprimeError)
    else Ok(AffineForward(CleanLower(plaintext), a, b))
  }

  /** What `decryptAffine(ciphertext, a, b)` returns. */
  function Decrypted(ciphertext: string, a: int, b: int): (r: Result<string>)
    ensures !IsCoprime(a, 26) ==> r == Err(CoprimeError)
    ensures IsCoprime(a, 26) ==> r.Ok? && |r.value| == |Clean(ciphertext)|
  {
    if !IsCoprime(a, 26) then Err(CoprimeError)
    else Ok(AffineBack(CleanLower(ciphertext), Inverse(a, 26), b))
  }

  /** `encryptAffine`: the coprimality test, then one letter per letter. */
  method Encrypt(plaintext: string, a: int, b: int) returns (result: Result<string>)
    ensures result == Encrypted(plaintext, a, b)
  {
    if !IsCoprime(a, 26) {
      return Err(CoprimeError);
    }
    var cleaned := CleanLower(plaintext);
    var text := "";
    var i := 0;
    while i < |cleaned|
      invariant 0 <= i <= |cleaned|
      invariant text == AffineForward(cleaned, a, b)[..i]
    {
      var x := CharToNum(cleaned[i]);
      var encryptedNum := JsRem(a * x + b, 26);
      text := text + [NumToChar(encryptedNum)];
      i := i + 1;
    }
    assert text == AffineForward(cleaned, a, b);
    return Ok(text);
  }

  /** `decryptAffine`: the coprimality test, the search for the inverse of
      `a`, then one letter per letter. */
  method Decrypt(ciphertext: string, a: int, b: int) returns (result: Result<string>)
    ensures result == Decrypted(ciphertext, a, b)
  {
    if !IsCoprime(a, 26) {
      return Err(CoprimeError);
    }
    var aInverse := ModInverse(a, 26);
    var cleaned := CleanLower(ciphertext);
    var text := "";
    var i := 0;
    while i < |cleaned|
      invariant 0 <= i <= |cleaned|
      invariant text == AffineBack(cleaned, aInverse, b)[..i]
    {
      var y := CharToNum(cleaned[i]);
      var decryptedNum := JsRem(aInverse * (y - b + 26), 26);
      text := text + [NumToChar(decryptedNum)];
      i := i + 1;
    }
    assert text == AffineBack(cleaned, aInverse, b);
    return Ok(text);
  }

  /** For a coprime non-negative `a`, the search finds an inverse in [1, 25],
      and it is the only one there. */
  lemma InverseOfCoprime(a: int)
    requires a >= 0 && IsCoprime(a, 26)
    ensures 1 <= Inverse(a, 26) < 26 && (a * Inverse(a, 26)) % 26 == 1
    ensures forall j :: 1 <= j < 26 && (a * j) % 26 == 1 ==> j == Inverse(a, 26)
  {
    CoprimeIffInverse26(a);
    var r := Inverse(a, 26);
    forall j | 1 <= j < 26 && (a * j) % 26 == 1 ensures j == r {
      InverseUnique(a, j, r, 26);
      DivModUnique(j, 26, 0, j);
      DivModUnique(r, 26, 0, r);
    }
  }

  /** The residue arithmetic of decrypting an encrypted letter. */
  lemma ResidueRoundTrip(x: int, a: int, b: int, inv: int)
    requires 0 <= x < 26 && a >= 0 && 0 <= b <= 25 && inv >= 0 && (a * inv) % 26 == 1
    ensures var e := (a * x + b) % 26; (inv * (e - b + 26)) % 26 == x
  {
    var e := (a * x + b) % 26;
    var q := (a * x + b) / 26;
    var t := e - b + 26;
    assert t == a * x + 26 * (1 - q);
    assert inv * t == (inv * a) * x + 26 * (inv * (1 - q));
    AddMultipleMod((inv * a) * x, inv * (1 - q), 26);
    assert (a * inv) == (inv * a);
    MulAddMod(inv * a, x, 0, 26);
    DivModUnique(x, 26, 0, x);
  }

  /** The residue arithmetic of encrypting a decrypted letter. */
  lemma ResidueRoundTripInverse(y: int, a: int, b: int, inv: int)
    requires 0 <= y < 26 && a >= 0 && 0 <= b <= 25 && inv >= 0 && (a * inv) % 26 == 1
    ensures var d := (inv * (y - b + 26)) % 26; (a * d + b) % 26 == y
  {
    var t := y - b + 26;
    var d := (inv * t) % 26;
    var q := (inv * t) / 26;
    assert a * d + b == (a * inv) * t + b + 26 * (-(a * q));
    AddMultipleMod((a * inv) * t + b, -(a * q), 26);
    MulAddMod(a * inv, t, b, 26);
    assert t + b == y + 26 * 1;
    AddMultipleMod(y, 1, 26);
    DivModUnique(y, 26, 0, y);
  }

  /** Decrypting an encrypted letter gives the letter back, lower-cased. */
  lemma LetterRoundTrip(c: char, a: int, b: int, inv: int)
    requires IsLetter(c) && a >= 0 && 0 <= b <= 25 && inv >= 0 && (a * inv) % 26 == 1
    ensures IsLetter(EncryptLetter(c, a, b))
    ensures DecryptLetter(EncryptLetter(c, a, b), inv, b) == Lower(c)
  {
    var x := CharToNum(c);
    RemOfCombination(a, x, 0, 0);
    var n := (a * x + b) % 26;
    var e := EncryptLetter(c, a, b);
    assert e == NumToChar(n);
    NumToCharToNum(n);
    ResidueRoundTrip(x, a, b, inv);
    RemOfCombination(inv, n - b + 26, 0, 0);
    assert DecryptLetter(e, inv, b) == NumToChar(x);
    CharToNumToChar(c);
  }

  /** Encrypting a decrypted letter gives the letter back, lower-cased. */
  lemma LetterRoundTripInverse(c: char, a: int, b: int, inv: int)
    requires IsLetter(c) && a >= 0 && 0 <= b <= 25 && inv >= 0 && (a * inv) % 26 == 1
    ensures IsLetter(DecryptLetter(c, inv, b))
    ensures EncryptLetter(DecryptLetter(c, inv, b), a, b) == Lower(c)
  {
    var y := CharToNum(c);
    RemOfCombination(inv, y - b + 26, 0, 0);
    var n := (inv * (y - b + 26)) % 26;
    var d := DecryptLetter(c, inv, b);
    assert d == NumToChar(n);
    NumToCharToNum(n);
    ResidueRoundTripInverse(y, a, b, inv);
    RemOfCombination(a, n, 0, 0);
    assert EncryptLetter(d, a, b) == NumToChar(y);
    CharToNumToChar(c);
  }

  /** Decryption with an inverse of `a` undoes encryption, up to case. */
  lemma {:induction false} BackUndoesForward(letters: string, a: int, b: int, inv: int)
    requires AllLetters(letters) && a >= 0 && 0 <= b <= 25 && inv >= 0 && (a * inv) % 26 == 1
    ensures AllLetters(AffineForward(letters, a, b))
    ensures AffineBack(AffineForward(letters, a, b), inv, b) == LowerAll(letters)
  {
    var e := AffineForward(letters, a, b);
    forall i | 0 <= i < |letters| ensures IsLetter(e[i]) {
      LetterRoundTrip(letters[i], a, b, inv);
    }
    var d := AffineBack(e, inv, b);
    forall i | 0 <= i < |letters| ensures d[i] == Lower(letters[i]) {
      LetterRoundTrip(letters[i], a, b, inv);
    }
  }

  /** Encryption undoes decryption with an inverse of `a`, up to case. */
  lemma {:induction false} ForwardUndoesBack(letters: string, a: int, b: int, inv: int)
    requires AllLetters(letters) && a >= 0 && 0 <= b <= 25 && inv >= 0 && (a * inv) % 26 == 1
    ensures AllLetters(AffineBack(letters, inv, b))
    ensures AffineForward(AffineBack(letters, inv, b), a, b) == LowerAll(letters)
  {
    var d := AffineBack(letters, inv, b);
    forall i | 0 <= i < |letters| ensures IsLetter(d[i]) {
      LetterRoundTripInverse(letters[i], a, b, inv);
    }
    var e := AffineForward(d, a, b);
    forall i | 0 <= i < |letters| ensures e[i] == Lower(letters[i]) {
      LetterRoundTripInverse(letters[i], a, b, inv);
    }
  }

  /** For a coprime `a >= 0` and `0 <= b <= 25`, decryption inverts encryption:
      it gives back the plaintext's letters, lower-cased. */
  lemma RoundTrip(plaintext: string, a: int, b: int)
    requires a >= 0 && 0 <= b <= 25 && IsCoprime(a, 26)
    ensures Decrypted(Encrypted(plaintext, a, b).value, a, b) == Ok(CleanLower(plaintext))
  {
    InverseOfCoprime(a);
    var inv := Inverse(a, 26);
    var p := CleanLower(plaintext);
    var e := AffineForward(p, a, b);
    assert Encrypted(plaintext, a, b) == Ok(e);
    CleanShorter(e);
    assert CleanLower(e) == e;
    BackUndoesForward(p, a, b, inv);
    assert LowerAll(p) == p;
  }

  /** Under the same conditions, encrypting a decryption gives back the
      ciphertext's letters, lower-cased. */
  lemma RoundTripInverse(ciphertext: string, a: int, b: int)
    requires a >= 0 && 0 <= b <= 25 && IsCoprime(a, 26)
    ensures Encrypted(Decrypted(ciphertext, a, b).value, a, b) == Ok(CleanLower(ciphertext))
  {
    InverseOfCoprime(a);
    var inv := Inverse(a, 26);
    var c := CleanLower(ciphertext);
    var d := AffineBack(c, inv, b);
    assert Decrypted(ciphertext, a, b) == Ok(d);
    CleanShorter(d);
    assert CleanLower(d) == d;
    ForwardUndoesBack(c, a, b, inv);
    assert LowerAll(c) == c;
  }

  /** gcd(5, 26) = 1. */
  lemma FiveIsCoprime()
    ensures IsCoprime(5, 26)
  {
    DivModUnique(5, 26, 0, 5);
    DivModUnique(26, 5, 5, 1);
    DivModUnique(5, 1, 5, 0);
    assert Gcd(1, 0) == 1;
    assert Gcd(5, 1) == 1;
    assert Gcd(26, 5) == 1;
  }

  /** A letter whose value under `a * x + b` is `26 * q + n`. */
  lemma EncryptLetterIs(c: char, a: int, b: int, q: int, n: int)
    requires IsLetter(c) && 0 <= n < 26 && q >= 0 && a * CharToNum(c) + b == 26 * q + n
    ensures EncryptLetter(c, a, b) == NumToChar(n)
  {
    DivModUnique(26 * q + n, 26, q, n);
  }

  /** The first two letters of the "HELLO" example. */
  lemma HelloHead(e: string)
    requires e == AffineForward("hello", 5, 8)
    ensures e[0] == 'r' && e[1] == 'c'
  {
    assert e[0] == 'r' by { EncryptLetterIs('h', 5, 8, 1, 17); }
    assert e[1] == 'c' by { EncryptLetterIs('e', 5, 8, 1, 2); }
  }

  /** The last three letters of the "HELLO" example. */
  lemma HelloTail(e: string)
    requires e == AffineForward("hello", 5, 8)
    ensures e[2] == 'l' && e[3] == 'l' && e[4] == 'a'
  {
    assert e[2] == 'l' && e[3] == 'l' by { EncryptLetterIs('l', 5, 8, 2, 11); }
    assert e[4] == 'a' by { EncryptLetterIs('o', 5, 8, 3, 0); }
  }

  /** The letters of the "HELLO" example with a = 5 and b = 8. */
  lemma HelloLetters(e: string)
    requires e == AffineForward("hello", 5, 8)
    ensures e == "rclla"
  {
    HelloHead(e);
    HelloTail(e);
  }

  /** "HELLO" with a = 5 and b = 8 encrypts to "rclla", which decrypts to
      "hello". */
  lemma EncryptHello()
    ensures Encrypted("HELLO", 5, 8) == Ok("rclla")
    ensures Decrypted("rclla", 5, 8) == Ok("hello")
  {
    FiveIsCoprime();
    CleanShorter("HELLO");
    assert LowerAll("HELLO") == "hello";
    assert CleanLower("HELLO") == "hello";
    HelloLetters(AffineForward("hello", 5, 8));
    RoundTrip("HELLO", 5, 8);
  }

  /** The test is the source's recursion, not coprimality: -3 is a unit
      modulo 26 (-3 * 17 = -51 = 1 - 2 * 26), yet the recursion ends in -1,
      so -3 is refused. */
  lemma MinusThreeRefused()
    ensures ((-3) * 17) % 26 == 1
    ensures Gcd(-3, 26) == -1
    ensures forall text, b :: Encrypted(text, -3, b) == Err(CoprimeError)
  {
    DivModUnique(-51, 26, -2, 1);
    DivModUnique(3, 26, 0, 3);
    assert JsRem(-3, 26) == -3;
    DivModUnique(26, -3, -8, 2);
    assert JsRem(26, -3) == 2;
    DivModUnique(3, 2, 1, 1);
    assert JsRem(-3, 2) == -1;
    DivModUnique(2, -1, -2, 0);
    assert JsRem(2, -1) == 0;
    assert Gcd(-1, 0) == -1;
    assert Gcd(2, -1) == -1;
    assert Gcd(-3, 2) == -1;
    assert Gcd(26, -3) == -1;
  }

  /** -5 passes the test: the recursion (-5, 26), (26, -5), (-5, 1), (1, 0)
      ends in 1. */
  lemma MinusFiveAccepted()
    ensures IsCoprime(-5, 26)
  {
    DivModUnique(5, 26, 0, 5);
    assert JsRem(-5, 26) == -5;
    DivModUnique(26, -5, -5, 1);
    assert JsRem(26, -5) == 1;
    DivModUnique(5, 1, 5, 0);
    assert JsRem(-5, 1) == 0;
    assert Gcd(1, 0) == 1;
    assert Gcd(-5, 1) == 1;
    assert Gcd(26, -5) == 1;
  }

  /** With `a = -5`, `b = 0`, the letter 'b' (1) has the remainder -5 and
      maps to the character five below 'a'. */
  lemma MinusFiveMapsBelowA()
    ensures AffineForward("b", -5, 0) == "\\"
  {
    assert EncryptLetter('b', -5, 0) == '\\' by {
      assert CharToNum('b') == 1;
      DivModUnique(5, 26, 0, 5);
      assert JsRem(-5, 26) == -5;
    }
  }

  /** A negative `a` that passes the test breaks the round trip: "b"
      encrypts to a non-letter, which decryption then drops. */
  lemma MinusFiveBreaksRoundTrip()
    ensures Encrypted("b", -5, 0) == Ok("\\")
    ensures Decrypted("\\", -5, 0) == Ok([])
  {
    MinusFiveAccepted();
    MinusFiveMapsBelowA();
    assert CleanLower("b") == "b";
    assert Clean("\\") == [] by { assert !IsLetter('\\'); }
  }
}
