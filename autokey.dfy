/** Auto-key Vigenère (autoKeyVigenere.ts): the key stream is the cleaned key
    followed by the plaintext itself. */
module AutoKey {
  import opened Letters

  /** The key letter used at plaintext position `i`: first the key itself,
      then the plaintext, `|cleanKey|` letters behind. */
  function StreamLetter(letters: string, cleanKey: string, i: int): (c: char)
    requires AllLetters(letters) && AllLetters(cleanKey) && 0 <= i < |letters|
    ensures IsLetter(c)
    ensures i < |cleanKey| ==> c == cleanKey[i]
    ensures i >= |cleanKey| ==> c == letters[i - |cleanKey|]
  {
    if i < |cleanKey| then cleanKey[i] else letters[i - |cleanKey|]
  }

  /** Each letter advanced by its key-stream letter. */
  function AutoForward(letters: string, cleanKey: string): (r: string)
    requires AllLetters(letters) && AllLetters(cleanKey)
    ensures |r| == |letters| && AllLower(r)
  {
    seq(|letters|, i requires 0 <= i < |letters| =>
      NumToChar((CharToNum(letters[i]) + CharToNum(StreamLetter(letters, cleanKey, i))) % 26))
  }

  /** Letter `i` of a decryption whose key is the cleaned key followed by the
      decrypted letters themselves, `lag` positions behind. */
  function BackAt(letters: string, cleanKey: string, lag: int, i: int): (c: char)
    requires AllLetters(letters) && AllLetters(cleanKey) && 1 <= lag <= |cleanKey|
    requires 0 <= i < |letters|
    ensures IsLower(c)
    decreases i
  {
    var k := if i < |cleanKey| then cleanKey[i] else BackAt(letters, cleanKey, lag, i - lag);
    NumToChar((CharToNum(letters[i]) - CharToNum(k) + 26) % 26)
  }

  /** The whole decryption with key lag `lag`. The source's decryption has
      lag 1; the lag that mirrors the encryption's key stream is `|cleanKey|`. */
  function AutoBack(letters: string, cleanKey: string, lag: int): (r: string)
    requires AllLetters(letters) && AllLetters(cleanKey) && 1 <= lag <= |cleanKey|
    ensures |r| == |letters| && AllLower(r)
  {
    seq(|letters|, i requires 0 <= i < |letters| => BackAt(letters, cleanKey, lag, i))
  }

  /** Letter `i` of the whole decryption. */
  lemma AutoBackAt(letters: string, cleanKey: string, lag: int, i: int)
    requires AllLetters(letters) && AllLetters(cleanKey) && 1 <= lag <= |cleanKey|
    requires 0 <= i < |letters|
    ensures AutoBack(letters, cleanKey, lag)[i] == BackAt(letters, cleanKey, lag, i)
  {
  }

  /** What `encryptAutoKeyVigenere(plaintext, key)` returns. */
  function Encrypted(plaintext: string, key: string): (r: string)
    ensures Clean(key) == [] ==> r == plaintext
    ensures Clean(key) != [] ==> |r| == |Clean(plaintext)| && AllLower(r)
  {
    if Clean(key) == [] then plaintext
    else AutoForward(Clean(plaintext), Clean(key))
  }

  /** What `decryptAutoKeyVigenere(ciphertext, key)` returns: past the key,
      the key letter is the previously decrypted letter. */
  function Decrypted(ciphertext: string, key: string): (r: string)
    ensures Clean(key) == [] ==> r == ciphertext
    ensures Clean(key) != [] ==> |r| == |Clean(ciphertext)| && AllLower(r)
  {
    if Clean(key) == [] then ciphertext
    else AutoBack(Clean(ciphertext), Clean(key), 1)
  }

  /** Auto-key decryption as intended: past the key, the key letter is the
      decrypted letter `|key|` positions back, as in the encryption. */
  function DecryptedIntended(ciphertext: string, key: string): (r: string)
    ensures Clean(key) == [] ==> r == ciphertext
    ensures Clean(key) != [] ==> |r| == |Clean(ciphertext)| && AllLower(r)
  {
    if Clean(key) == [] then ciphertext
    else AutoBack(Clean(ciphertext), Clean(key), |Clean(key)|)
  }

  /** `encryptAutoKeyVigenere`: the loop that extends `fullKey` with the
      plaintext letter `|key|` positions back. */
  method Encrypt(plaintext: string, key: string) returns (result: string)
    ensures result == Encrypted(plaintext, key)
  {
    if key == [] { return plaintext; }
    var cleanPlaintext := Clean(plaintext);
    var cleanKey := Clean(key);
    if cleanKey == [] { return plaintext; }
    result := "";
    var fullKey := cleanKey;
    var i := 0;
    while i < |cleanPlaintext|
      invariant 0 <= i <= |cleanPlaintext|
      invariant StreamKeyAt(cleanPlaintext, cleanKey, fullKey, i)
      invariant result == AutoForward(cleanPlaintext, cleanKey)[..i]
    {
      ghost var prev := fullKey;
      if i >= |cleanKey| && i - |cleanKey| < |cleanPlaintext| {
        fullKey := fullKey + [cleanPlaintext[i - |cleanKey|]];
      }
      StreamKeyGrown(cleanPlaintext, cleanKey, prev, fullKey, i);
      var charCode := CharToNum(cleanPlaintext[i]);
      var keyCode := CharToNum(fullKey[i]);
      var encryptedCharCode := (charCode + keyCode) % 26;
      result := result + [NumToChar(encryptedCharCode)];
      i := i + 1;
    }
    assert result == AutoForward(cleanPlaintext, cleanKey);
  }

  /** `decryptAutoKeyVigenere`: the loop that extends `fullKey` with each
      decrypted letter from position `|key| - 1` on, except in the last round. */
  method Decrypt(ciphertext: string, key: string) returns (result: string)
    ensures result == Decrypted(ciphertext, key)
  {
    if key == [] { return ciphertext; }
    var cleanCiphertext := Clean(ciphertext);
    var cleanKey := Clean(key);
    if cleanKey == [] { return ciphertext; }
    result := "";
    var fullKey := cleanKey;
    var i := 0;
    while i < |cleanCiphertext|
      invariant 0 <= i <= |cleanCiphertext|
      invariant result == AutoBack(cleanCiphertext, cleanKey, 1)[..i]
      invariant BackKeyAt(cleanKey, result, fullKey, |cleanCiphertext|)
    {
      DecryptRound(cleanCiphertext, cleanKey, result, fullKey, i);
      var charCode := CharToNum(cleanCiphertext[i]);
      var keyCode := CharToNum(fullKey[i]);
      var decryptedCharCode := (charCode - keyCode + 26) % 26;
      var decryptedChar := NumToChar(decryptedCharCode);
      ghost var prev := fullKey;
      if i >= |cleanKey| - 1 && i < |cleanCiphertext| - 1 {
        fullKey := fullKey + [decryptedChar];
      }
      BackKeyGrown(cleanKey, result, decryptedChar, prev, fullKey, |cleanCiphertext|);
      result := result + [decryptedChar];
      i := i + 1;
    }
    assert result == AutoBack(cleanCiphertext, cleanKey, 1);
  }

  /** The encryption loop's `fullKey` before round `i`: the key, then the
      plaintext letters already used as key. */
  predicate StreamKeyAt(letters: string, cleanKey: string, fullKey: string, i: int)
    requires 0 <= i <= |letters|
  {
    && (i <= |cleanKey| ==> fullKey == cleanKey)
    && (i >= |cleanKey| ==> fullKey == cleanKey + letters[..i - |cleanKey|])
  }

  /** Round `i` of the encryption loop extends `fullKey` so that its letter
      `i` is the key-stream letter. */
  lemma StreamKeyGrown(letters: string, cleanKey: string, prev: string, fullKey: string, i: int)
    requires AllLetters(letters) && AllLetters(cleanKey) && 0 <= i < |letters|
    requires StreamKeyAt(letters, cleanKey, prev, i)
    requires fullKey == if i >= |cleanKey| then prev + [letters[i - |cleanKey|]] else prev
    ensures StreamKeyAt(letters, cleanKey, fullKey, i + 1)
    ensures i < |fullKey| && fullKey[i] == StreamLetter(letters, cleanKey, i)
  {
    if i >= |cleanKey| {
      assert letters[..i + 1 - |cleanKey|] == letters[..i - |cleanKey|] + [letters[i - |cleanKey|]];
    }
  }

  /** The decryption loop's `fullKey` before round `|done|`, for a text of
      `n` letters: the key, then the decrypted letters from position
      `|key| - 1` on. */
  predicate BackKeyAt(cleanKey: string, done: string, fullKey: string, n: int) {
    && cleanKey != []
    && (|done| <= |cleanKey| - 1 ==> fullKey == cleanKey)
    && (|cleanKey| - 1 <= |done| < n ==> fullKey == cleanKey + done[|cleanKey| - 1..])
  }

  /** Before round `n` of the decryption loop, `fullKey` holds the key
      letter there, then the letter decrypted in the round before. */
  lemma BackKeyRead(cleanKey: string, done: string, fullKey: string, n: int, len: int)
    requires n == |done| < len && BackKeyAt(cleanKey, done, fullKey, len)
    ensures n < |fullKey|
    ensures n < |cleanKey| ==> fullKey[n] == cleanKey[n]
    ensures n >= |cleanKey| ==> fullKey[n] == done[n - 1]
  {
  }

  /** Letter `j` of a decrypted prefix. */
  lemma BackPrefixAt(letters: string, cleanKey: string, lag: int, done: string, j: int)
    requires AllLetters(letters) && AllLetters(cleanKey) && 1 <= lag <= |cleanKey|
    requires |done| <= |letters| && done == AutoBack(letters, cleanKey, lag)[..|done|]
    requires 0 <= j < |done|
    ensures done[j] == BackAt(letters, cleanKey, lag, j)
  {
    AutoBackAt(letters, cleanKey, lag, j);
  }

  /** Appending letter `n` of the decryption extends the decrypted prefix. */
  lemma BackRound(letters: string, cleanKey: string, lag: int, done: string, n: int)
    requires AllLetters(letters) && AllLetters(cleanKey) && 1 <= lag <= |cleanKey|
    requires n == |done| < |letters|
    requires done == AutoBack(letters, cleanKey, lag)[..n]
    ensures done + [BackAt(letters, cleanKey, lag, n)] == AutoBack(letters, cleanKey, lag)[..n + 1]
  {
    var a := AutoBack(letters, cleanKey, lag);
    assert a[..n + 1] == a[..n] + [a[n]];
  }

  /** Round `n` of the decryption loop appends letter `n` of the specified
      decryption. */
  lemma DecryptRound(letters: string, cleanKey: string, done: string, fullKey: string, n: int)
    requires AllLetters(letters) && AllLetters(cleanKey) && cleanKey != []
    requires n == |done| < |letters|
    requires done == AutoBack(letters, cleanKey, 1)[..n]
    requires BackKeyAt(cleanKey, done, fullKey, |letters|)
    ensures n < |fullKey| && IsLetter(fullKey[n])
    ensures done + [NumToChar((CharToNum(letters[n]) - CharToNum(fullKey[n]) + 26) % 26)]
         == AutoBack(letters, cleanKey, 1)[..n + 1]
  {
    BackKeyRead(cleanKey, done, fullKey, n, |letters|);
    if n >= |cleanKey| {
      BackPrefixAt(letters, cleanKey, 1, done, n - 1);
    }
    assert NumToChar((CharToNum(letters[n]) - CharToNum(fullKey[n]) + 26) % 26)
        == BackAt(letters, cleanKey, 1, n);
    BackRound(letters, cleanKey, 1, done, n);
  }

  /** Appending the decrypted letter `d`, and to `fullKey` from position
      `|key| - 1` on but not in the last round, keeps `fullKey` in step. */
  lemma BackKeyGrown(cleanKey: string, done: string, d: char, prev: string, fullKey: string, n: int)
    requires |done| < n && BackKeyAt(cleanKey, done, prev, n)
    requires fullKey == if |done| >= |cleanKey| - 1 && |done| < n - 1 then prev + [d] else prev
    ensures BackKeyAt(cleanKey, done + [d], fullKey, n)
  {
    if |cleanKey| - 1 <= |done| < n - 1 {
      assert (done + [d])[|cleanKey| - 1..] == done[|cleanKey| - 1..] + [d];
    }
  }

  /** Position `i` of the ciphertext is the letter at `i` advanced by the
      key-stream letter at `i`. */
  lemma AutoForwardAt(letters: string, cleanKey: string, i: int)
    requires AllLetters(letters) && AllLetters(cleanKey) && 0 <= i < |letters|
    ensures AutoForward(letters, cleanKey)[i]
         == NumToChar((CharToNum(letters[i]) + CharToNum(StreamLetter(letters, cleanKey, i))) % 26)
    ensures CharToNum(AutoForward(letters, cleanKey)[i])
         == (CharToNum(letters[i]) + CharToNum(StreamLetter(letters, cleanKey, i))) % 26
  {
    var e := AutoForward(letters, cleanKey);
    assert e[i] == NumToChar((CharToNum(letters[i]) + CharToNum(StreamLetter(letters, cleanKey, i))) % 26);
  }

  /** Decrypting with lag `lag` inverts the encryption at every position when
      the lag is the key length, or when the text is no longer than the key
      (then only key letters are used). */
  lemma {:induction false} BackUndoesForward(letters: string, cleanKey: string, lag: int, i: int)
    requires AllLetters(letters) && AllLetters(cleanKey) && 1 <= lag <= |cleanKey|
    requires lag == |cleanKey| || |letters| <= |cleanKey|
    requires 0 <= i < |letters|
    ensures BackAt(AutoForward(letters, cleanKey), cleanKey, lag, i) == Lower(letters[i])
    decreases i
  {
    var e := AutoForward(letters, cleanKey);
    var s := StreamLetter(letters, cleanKey, i);
    var k := if i < |cleanKey| then cleanKey[i] else BackAt(e, cleanKey, lag, i - lag);
    assert BackAt(e, cleanKey, lag, i) == NumToChar((CharToNum(e[i]) - CharToNum(k) + 26) % 26);
    if i >= |cleanKey| {
      BackUndoesForward(letters, cleanKey, lag, i - lag);
      LowerNum(s);
    }
    AutoForwardAt(letters, cleanKey, i);
    UnshiftNum(letters[i], CharToNum(e[i]), CharToNum(s));
  }

  /** Encrypting with the key stream read off a decryption with lag `|key|`
      gives back the ciphertext at every position. */
  lemma ForwardUndoesBack(letters: string, cleanKey: string, i: int)
    requires AllLetters(letters) && AllLetters(cleanKey) && cleanKey != []
    requires 0 <= i < |letters|
    ensures AutoForward(AutoBack(letters, cleanKey, |cleanKey|), cleanKey)[i] == Lower(letters[i])
  {
    var d := AutoBack(letters, cleanKey, |cleanKey|);
    var k := StreamLetter(d, cleanKey, i);
    var n := (CharToNum(letters[i]) - CharToNum(k) + 26) % 26;
    assert d[i] == BackAt(letters, cleanKey, |cleanKey|, i);
    if i >= |cleanKey| {
      assert k == BackAt(letters, cleanKey, |cleanKey|, i - |cleanKey|);
    }
    assert d[i] == NumToChar(n);
    NumToCharToNum(n);
    AutoForwardAt(d, cleanKey, i);
    ReshiftNum(letters[i], CharToNum(d[i]), CharToNum(k));
  }

  /** The intended decryption inverts the encryption: it gives back the
      plaintext's letters, lower-cased. */
  lemma RoundTripIntended(plaintext: string, key: string)
    requires Clean(key) != []
    ensures DecryptedIntended(Encrypted(plaintext, key), key) == CleanLower(plaintext)
  {
    var cp, ck := Clean(plaintext), Clean(key);
    var e := AutoForward(cp, ck);
    CleanShorter(e);
    var d := AutoBack(e, ck, |ck|);
    forall i | 0 <= i < |cp| ensures d[i] == Lower(cp[i]) {
      BackUndoesForward(cp, ck, |ck|, i);
    }
  }

  /** Encrypting the intended decryption gives back the ciphertext's letters,
      lower-cased. */
  lemma RoundTripIntendedInverse(ciphertext: string, key: string)
    requires Clean(key) != []
    ensures Encrypted(DecryptedIntended(ciphertext, key), key) == CleanLower(ciphertext)
  {
    var cc, ck := Clean(ciphertext), Clean(key);
    var d := AutoBack(cc, ck, |ck|);
    CleanShorter(d);
    var e := AutoForward(d, ck);
    forall i | 0 <= i < |cc| ensures e[i] == Lower(cc[i]) {
      ForwardUndoesBack(cc, ck, i);
    }
  }

  /** The source's decryption inverts the encryption when the key has a
      single letter or the text is no longer than the key. */
  lemma RoundTripAsWritten(plaintext: string, key: string)
    requires Clean(key) != []
    requires |Clean(key)| == 1 || |Clean(plaintext)| <= |Clean(key)|
    ensures Decrypted(Encrypted(plaintext, key), key) == CleanLower(plaintext)
  {
    var cp, ck := Clean(plaintext), Clean(key);
    var e := AutoForward(cp, ck);
    CleanShorter(e);
    var d := AutoBack(e, ck, 1);
    forall i | 0 <= i < |cp| ensures d[i] == Lower(cp[i]) {
      BackUndoesForward(cp, ck, 1, i);
    }
  }

  /** The "abc" example, encrypted letter by letter. */
  lemma AbcEncrypted(e: string)
    requires e == AutoForward("abc", "bc")
    ensures e == "bdc"
  {
    assert e[0] == NumToChar(1) && e[1] == NumToChar(3) && e[2] == NumToChar(2);
  }

  /** The first two letters of "bdc" decrypted with key "bc" use key letters
      only. */
  lemma BdcKeyLetters(lag: int)
    requires lag == 1 || lag == 2
    ensures BackAt("bdc", "bc", lag, 0) == 'a' && BackAt("bdc", "bc", lag, 1) == 'b'
  {
    DivModUnique(1 - 1 + 26, 26, 1, 0);
    DivModUnique(3 - 2 + 26, 26, 1, 1);
    assert BackAt("bdc", "bc", lag, 0) == NumToChar(0);
    assert BackAt("bdc", "bc", lag, 1) == NumToChar(1);
  }

  /** "bdc" decrypted with lag 1, letter by letter. */
  lemma BdcDecryptedLag1(d: string)
    requires d == AutoBack("bdc", "bc", 1)
    ensures d == "abb"
  {
    BdcKeyLetters(1);
    DivModUnique(2 - 1 + 26, 26, 1, 1);
    assert d[0] == 'a' && d[1] == 'b';
    assert d[2] == BackAt("bdc", "bc", 1, 2) == NumToChar(1);
  }

  /** "bdc" decrypted with lag 2, letter by letter. */
  lemma BdcDecryptedLag2(d: string)
    requires d == AutoBack("bdc", "bc", 2)
    ensures d == "abc"
  {
    BdcKeyLetters(2);
    DivModUnique(2 - 0 + 26, 26, 1, 2);
    assert d[0] == 'a' && d[1] == 'b';
    assert d[2] == BackAt("bdc", "bc", 2, 2) == NumToChar(2);
  }

  /** With key "bc", "abc" encrypts to "bdc", which the source decrypts to
      "abb": from the third letter on it uses the wrong key letter. */
  lemma DecryptAsWrittenLosesText()
    ensures Encrypted("abc", "bc") == "bdc"
    ensures Decrypted("bdc", "bc") == "abb"
    ensures DecryptedIntended("bdc", "bc") == "abc"
  {
    assert AllLetters("abc") && AllLetters("bc") && AllLetters("bdc");
    CleanShorter("abc");
    CleanShorter("bc");
    CleanShorter("bdc");
    AbcEncrypted(AutoForward("abc", "bc"));
    BdcDecryptedLag1(AutoBack("bdc", "bc", 1));
    BdcDecryptedLag2(AutoBack("bdc", "bc", 2));
  }
}
