/** Standard Vigenère over the 26-letter alphabet (vigenere.ts). */
module Vigenere {
  import opened Letters

  /** The residue of key letter `i`, repeating the cleaned key. */
  function KeyNum(cleanKey: string, i: nat): (k: int)
    requires cleanKey != [] && AllLetters(cleanKey)
    ensures 0 <= k < 26
  {
    CharToNum(cleanKey[i % |cleanKey|])
  }

  /** Each letter of `letters` shifted forward by the repeating key. */
  function ShiftedForward(letters: string, cleanKey: string): (r: string)
    requires AllLetters(letters) && AllLetters(cleanKey) && cleanKey != []
    ensures |r| == |letters| && AllLower(r)
  {
    seq(|letters|, i requires 0 <= i < |letters| =>
      NumToChar((CharToNum(letters[i]) + KeyNum(cleanKey, i)) % 26))
  }

  /** Each letter of `letters` shifted back by the repeating key. */
  function ShiftedBack(letters: string, cleanKey: string): (r: string)
    requires AllLetters(letters) && AllLetters(cleanKey) && cleanKey != []
    ensures |r| == |letters| && AllLower(r)
  {
    seq(|letters|, i requires 0 <= i < |letters| =>
      NumToChar((CharToNum(letters[i]) - KeyNum(cleanKey, i) + 26) % 26))
  }

  /** What `encryptVigenere(plaintext, key)` returns: the text unchanged when
      the key has no letter, else its letters shifted forward. */
  function Encrypted(plaintext: string, key: string): (r: string)
    ensures Clean(key) == [] ==> r == plaintext
    ensures Clean(key) != [] ==> |r| == |Clean(plaintext)| && AllLower(r)
  {
    if Clean(key) == [] then plaintext
    else ShiftedForward(Clean(plaintext), Clean(key))
  }

  /** What `decryptVigenere(ciphertext, key)` returns. */
  function Decrypted(ciphertext: string, key: string): (r: string)
    ensures Clean(key) == [] ==> r == ciphertext
    ensures Clean(key) != [] ==> |r| == |Clean(ciphertext)| && AllLower(r)
  {
    if Clean(key) == [] then ciphertext
    else ShiftedBack(Clean(ciphertext), Clean(key))
  }

  /** `encryptVigenere`: the loop that appends one letter per plaintext letter. */
  method Encrypt(plaintext: string, key: string) returns (result: string)
    ensures result == Encrypted(plaintext, key)
  {
    if key == [] { return plaintext; }
    var cleanPlaintext := Clean(plaintext);
    var cleanKey := Clean(key);
    if cleanKey == [] { return plaintext; }
    result := "";
    var i := 0;
    while i < |cleanPlaintext|
      invariant 0 <= i <= |cleanPlaintext|
      invariant result == ShiftedForward(cleanPlaintext, cleanKey)[..i]
    {
      var charCode := CharToNum(cleanPlaintext[i]);
      var keyCode := CharToNum(cleanKey[i % |cleanKey|]);
      // Both codes are non-negative, so Dafny's `%` is JavaScript's here.
      var encryptedCharCode := (charCode + keyCode) % 26;
      result := result + [NumToChar(encryptedCharCode)];
      i := i + 1;
    }
    assert result == ShiftedForward(cleanPlaintext, cleanKey);
  }

  /** `decryptVigenere`: the mirror loop, subtracting the key. */
  method Decrypt(ciphertext: string, key: string) returns (result: string)
    ensures result == Decrypted(ciphertext, key)
  {
    if key == [] { return ciphertext; }
    var cleanCiphertext := Clean(ciphertext);
    var cleanKey := Clean(key);
    if cleanKey == [] { return ciphertext; }
    result := "";
    var i := 0;
    while i < |cleanCiphertext|
      invariant 0 <= i <= |cleanCiphertext|
      invariant result == ShiftedBack(cleanCiphertext, cleanKey)[..i]
    {
      var charCode := CharToNum(cleanCiphertext[i]);
      var keyCode := CharToNum(cleanKey[i % |cleanKey|]);
      // `charCode - keyCode + 26` is positive.
      var decryptedCharCode := (charCode - keyCode + 26) % 26;
      result := result + [NumToChar(decryptedCharCode)];
      i := i + 1;
    }
    assert result == ShiftedBack(cleanCiphertext, cleanKey);
  }

  /** Position `i` of the ciphertext is the letter at `i` advanced by the key
      letter at `i mod |key|`. */
  lemma ShiftedForwardAt(letters: string, cleanKey: string, i: int)
    requires AllLetters(letters) && AllLetters(cleanKey) && cleanKey != []
    requires 0 <= i < |letters|
    ensures IsLower(ShiftedForward(letters, cleanKey)[i])
    ensures CharToNum(ShiftedForward(letters, cleanKey)[i])
         == (CharToNum(letters[i]) + CharToNum(cleanKey[i % |cleanKey|])) % 26
  {
    var e := ShiftedForward(letters, cleanKey);
    assert e[i] == NumToChar((CharToNum(letters[i]) + KeyNum(cleanKey, i)) % 26);
  }

  /** Position `i` of the plaintext is the letter at `i` moved back by the key
      letter at `i mod |key|`. */
  lemma ShiftedBackAt(letters: string, cleanKey: string, i: int)
    requires AllLetters(letters) && AllLetters(cleanKey) && cleanKey != []
    requires 0 <= i < |letters|
    ensures IsLower(ShiftedBack(letters, cleanKey)[i])
    ensures CharToNum(ShiftedBack(letters, cleanKey)[i])
         == (CharToNum(letters[i]) - CharToNum(cleanKey[i % |cleanKey|]) + 26) % 26
  {
    var d := ShiftedBack(letters, cleanKey);
    assert d[i] == NumToChar((CharToNum(letters[i]) - KeyNum(cleanKey, i) + 26) % 26);
  }

  /** Shifting back undoes shifting forward, up to case. */
  lemma {:induction false} BackUndoesForward(letters: string, cleanKey: string)
    requires AllLetters(letters) && AllLetters(cleanKey) && cleanKey != []
    ensures ShiftedBack(ShiftedForward(letters, cleanKey), cleanKey) == LowerAll(letters)
  {
    var e := ShiftedForward(letters, cleanKey);
    var d := ShiftedBack(e, cleanKey);
    forall i | 0 <= i < |letters| ensures d[i] == Lower(letters[i]) {
      ShiftedForwardAt(letters, cleanKey, i);
      assert d[i] == NumToChar((CharToNum(e[i]) - KeyNum(cleanKey, i) + 26) % 26);
      UnshiftNum(letters[i], CharToNum(e[i]), KeyNum(cleanKey, i));
    }
  }

  /** Shifting forward undoes shifting back, up to case. */
  lemma {:induction false} ForwardUndoesBack(letters: string, cleanKey: string)
    requires AllLetters(letters) && AllLetters(cleanKey) && cleanKey != []
    ensures ShiftedForward(ShiftedBack(letters, cleanKey), cleanKey) == LowerAll(letters)
  {
    var d := ShiftedBack(letters, cleanKey);
    var e := ShiftedForward(d, cleanKey);
    forall i | 0 <= i < |letters| ensures e[i] == Lower(letters[i]) {
      ShiftedBackAt(letters, cleanKey, i);
      assert e[i] == NumToChar((CharToNum(d[i]) + KeyNum(cleanKey, i)) % 26);
      ReshiftNum(letters[i], CharToNum(d[i]), KeyNum(cleanKey, i));
    }
  }

  /** Decrypting the ciphertext with the same key gives back the plaintext's
      letters, lower-cased. */
  lemma RoundTrip(plaintext: string, key: string)
    requires Clean(key) != []
    ensures Decrypted(Encrypted(plaintext, key), key) == CleanLower(plaintext)
  {
    var cp, ck := Clean(plaintext), Clean(key);
    var c := ShiftedForward(cp, ck);
    assert Encrypted(plaintext, key) == c;
    CleanShorter(c);
    BackUndoesForward(cp, ck);
  }

  /** Encrypting a decryption gives back the ciphertext's letters, lower-cased. */
  lemma RoundTripInverse(ciphertext: string, key: string)
    requires Clean(key) != []
    ensures Encrypted(Decrypted(ciphertext, key), key) == CleanLower(ciphertext)
  {
    var cc, ck := Clean(ciphertext), Clean(key);
    var p := ShiftedBack(cc, ck);
    assert Decrypted(ciphertext, key) == p;
    CleanShorter(p);
    ForwardUndoesBack(cc, ck);
  }

  /** Encryption then decryption is the identity on lower-case letter strings. */
  lemma RoundTripLower(plaintext: string, key: string)
    requires Clean(key) != [] && AllLower(plaintext)
    ensures Decrypted(Encrypted(plaintext, key), key) == plaintext
  {
    RoundTrip(plaintext, key);
  }

  /** Shifting depends only on the letters' positions in the alphabet. */
  lemma ShiftedCaseInsensitive(letters: string, letters': string, cleanKey: string, cleanKey': string)
    requires AllLetters(letters) && AllLetters(cleanKey) && cleanKey != []
    requires AllLetters(letters') && AllLetters(cleanKey') && cleanKey' != []
    requires LowerAll(letters) == LowerAll(letters') && LowerAll(cleanKey) == LowerAll(cleanKey')
    ensures ShiftedForward(letters, cleanKey) == ShiftedForward(letters', cleanKey')
    ensures ShiftedBack(letters, cleanKey) == ShiftedBack(letters', cleanKey')
  {
    assert |cleanKey| == |cleanKey'|;
    forall i | 0 <= i < |letters| ensures CharToNum(letters[i]) == CharToNum(letters'[i]) {
      assert LowerAll(letters)[i] == LowerAll(letters')[i];
    }
    forall i | 0 <= i < |cleanKey| ensures CharToNum(cleanKey[i]) == CharToNum(cleanKey'[i]) {
      assert LowerAll(cleanKey)[i] == LowerAll(cleanKey')[i];
    }
  }

  /** Upper- and lower-case versions of a text or key give the same result. */
  lemma CaseInsensitive(text: string, text': string, key: string, key': string)
    requires LowerAll(text) == LowerAll(text') && LowerAll(key) == LowerAll(key')
    requires Clean(key) != []
    ensures Clean(key') != []
    ensures Encrypted(text, key) == Encrypted(text', key')
    ensures Decrypted(text, key) == Decrypted(text', key')
  {
    CleanLowerCase(text); CleanLowerCase(text');
    CleanLowerCase(key); CleanLowerCase(key');
    var cp, cp' := Clean(text), Clean(text');
    var ck, ck' := Clean(key), Clean(key');
    assert LowerAll(cp) == LowerAll(cp');
    assert LowerAll(ck) == LowerAll(ck');
    assert |ck| == |ck'|;
    ShiftedCaseInsensitive(cp, cp', ck, ck');
  }

  /** The letters of the "HELLO" example, one by one. */
  lemma HelloLetters(e: string)
    requires e == ShiftedForward("HELLO", "key")
    ensures e == "rijvs"
  {
    var p, k := "HELLO", "key";
    assert e[0] == NumToChar(17);
    assert e[1] == NumToChar(8);
    assert CharToNum(p[2]) == 11 && KeyNum(k, 2) == 24;
    DivModUnique(11 + 24, 26, 1, 9);
    assert e[2] == NumToChar(9);
    assert CharToNum(p[3]) == 11 && KeyNum(k, 3) == 10;
    assert e[3] == NumToChar(21);
    assert e[4] == NumToChar(18);
  }

  /** encryptVigenere("HELLO", "key") = "rijvs". */
  lemma EncryptHello()
    ensures Encrypted("HELLO", "key") == "rijvs"
  {
    var p, k := "HELLO", "key";
    assert AllLetters(p) && AllLetters(k);
    CleanShorter(p);
    CleanShorter(k);
    var e := ShiftedForward(p, k);
    assert Encrypted(p, k) == e;
    HelloLetters(e);
  }
}
