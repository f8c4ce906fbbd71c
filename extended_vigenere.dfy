/** Extended Vigenère over UTF-16 code units (extendedVigenere.ts): each unit
    of the text is shifted by the repeating key modulo 256. Texts and keys are
    sequences of code units, as `charCodeAt` sees them. */
module ExtendedVigenere {
  import opened Letters
  import opened Modular

  /** A UTF-16 code unit, what `charCodeAt` returns. */
  type CodeUnit = x: int | 0 <= x < 0x1_0000

  /** A text of code units. */
  type Units = seq<CodeUnit>

  /** Every unit is below 256, the range the cipher's comments call ASCII. */
  predicate Below256(s: Units) {
    forall i :: 0 <= i < |s| ==> s[i] < 256
  }

  /** `String.fromCharCode(x)` keeps `x` modulo 2^16. */
  function FromCharCode(x: int): (u: CodeUnit) {
    x % 0x1_0000
  }

  /** Unit `i` encrypted: `(p + k) % 256` with non-negative operands. */
  function EncryptUnit(p: CodeUnit, k: CodeUnit): (u: CodeUnit)
    ensures u < 256
  {
    (p + k) % 256
  }

  /** Unit `i` decrypted: `(c - k + 256) % 256` with JavaScript's `%`, which
      is negative when `k > c + 256`, then `String.fromCharCode`. */
  function DecryptUnit(c: CodeUnit, k: CodeUnit): (u: CodeUnit) {
    FromCharCode(JsRem(c - k + 256, 256))
  }

  /** Each unit of `text` encrypted with the repeating key. */
  function Shifted(text: Units, key: Units): (r: Units)
    requires key != []
    ensures |r| == |text| && Below256(r)
  {
    seq(|text|, i requires 0 <= i < |text| => EncryptUnit(text[i], key[i % |key|]))
  }

  /** Each unit of `text` decrypted with the repeating key. */
  function Unshifted(text: Units, key: Units): (r: Units)
    requires key != []
    ensures |r| == |text|
  {
    seq(|text|, i requires 0 <= i < |text| => DecryptUnit(text[i], key[i % |key|]))
  }

  /** What `encryptExtendedVigenere(plaintext, key)` returns. */
  function Encrypted(plaintext: Units, key: Units): (r: Units)
    ensures key == [] ==> r == plaintext
    ensures |r| == |plaintext|
    ensures key != [] ==> Below256(r)
  {
    if key == [] then plaintext else Shifted(plaintext, key)
  }

  /** What `decryptExtendedVigenere(ciphertext, key)` returns. */
  function Decrypted(ciphertext: Units, key: Units): (r: Units)
    ensures key == [] ==> r == ciphertext
    ensures |r| == |ciphertext|
  {
    if key == [] then ciphertext else Unshifted(ciphertext, key)
  }

  /** `encryptExtendedVigenere`: one unit appended per plaintext unit. */
  method Encrypt(plaintext: Units, key: Units) returns (result: Units)
    ensures result == Encrypted(plaintext, key)
  {
    if key == [] { return plaintext; }
    result := [];
    var i := 0;
    while i < |plaintext|
      invariant 0 <= i <= |plaintext|
      invariant result == Shifted(plaintext, key)[..i]
    {
      var plainCharCode: int := plaintext[i];
      var keyCharCode: int := key[i % |key|];
      var encryptedCharCode := (plainCharCode + keyCharCode) % 256;
      result := result + [FromCharCode(encryptedCharCode)];
      i := i + 1;
    }
    assert result == Shifted(plaintext, key);
  }

  /** `decryptExtendedVigenere`: the mirror loop. */
  method Decrypt(ciphertext: Units, key: Units) returns (result: Units)
    ensures result == Decrypted(ciphertext, key)
  {
    if key == [] { return ciphertext; }
    result := [];
    var i := 0;
    while i < |ciphertext|
      invariant 0 <= i <= |ciphertext|
      invariant result == Unshifted(ciphertext, key)[..i]
    {
      var cipherCharCode: int := ciphertext[i];
      var keyCharCode: int := key[i % |key|];
      var decryptedCharCode := JsRem(cipherCharCode - keyCharCode + 256, 256);
      result := result + [FromCharCode(decryptedCharCode)];
      i := i + 1;
    }
    assert result == Unshifted(ciphertext, key);
  }

  /** With a key unit below 256, decryption undoes encryption of a unit
      below 256. */
  lemma UnitRoundTrip(p: CodeUnit, k: CodeUnit)
    requires p < 256 && k < 256
    ensures DecryptUnit(EncryptUnit(p, k), k) == p
  {
    var e := EncryptUnit(p, k);
    var q := (p + k) / 256;
    assert e - k + 256 == p + 256 * (1 - q);
    assert e - k + 256 >= 0;
    AddMultipleMod(p, 1 - q, 256);
    DivModUnique(p, 256, 0, p);
    DivModUnique(p, 0x1_0000, 0, p);
  }

  /** Encryption undoes decryption of a unit below 256, whatever the key unit:
      JavaScript's negative remainder is wrapped by `String.fromCharCode` to a
      value congruent modulo 256. */
  lemma UnitRoundTripInverse(c: CodeUnit, k: CodeUnit)
    requires c < 256
    ensures EncryptUnit(DecryptUnit(c, k), k) == c
  {
    var x := c - k + 256;
    var r := JsRem(x, 256);
    var d := DecryptUnit(c, k);
    // x - r is a multiple of 256, and so is d - r.
    var s := (x - r) / 256;
    DivModUnique(x - r, 256, s, 0);
    var w := (r - r % 0x1_0000) / 0x1_0000;
    DivModUnique(r, 0x1_0000, w, r % 0x1_0000);
    assert d == r - 0x1_0000 * w;
    assert d + k == c + 256 * (1 - s - 256 * w);
    AddMultipleMod(c, 1 - s - 256 * w, 256);
    DivModUnique(c, 256, 0, c);
  }

  /** Decrypting the ciphertext gives back the plaintext exactly, when every
      text and key unit is below 256. */
  lemma RoundTrip(plaintext: Units, key: Units)
    requires Below256(plaintext) && Below256(key)
    ensures Decrypted(Encrypted(plaintext, key), key) == plaintext
  {
    if key != [] {
      var e := Shifted(plaintext, key);
      var d := Unshifted(e, key);
      forall i | 0 <= i < |plaintext| ensures d[i] == plaintext[i] {
        assert e[i] == EncryptUnit(plaintext[i], key[i % |key|]);
        UnitRoundTrip(plaintext[i], key[i % |key|]);
      }
    }
  }

  /** Encrypting a decryption gives back a ciphertext whose units are below
      256, for any key. */
  lemma RoundTripInverse(ciphertext: Units, key: Units)
    requires Below256(ciphertext)
    ensures Encrypted(Decrypted(ciphertext, key), key) == ciphertext
  {
    if key != [] {
      var d := Unshifted(ciphertext, key);
      var e := Shifted(d, key);
      forall i | 0 <= i < |ciphertext| ensures e[i] == ciphertext[i] {
        assert d[i] == DecryptUnit(ciphertext[i], key[i % |key|]);
        UnitRoundTripInverse(ciphertext[i], key[i % |key|]);
      }
    }
  }

  /** A key unit above 256 can break the round trip: unit 1 under key unit
      600 encrypts to 89, and 89 - 600 + 256 = -255 comes back as 65281. */
  lemma WideKeyBreaksRoundTrip()
    ensures Encrypted([1], [600]) == [89]
    ensures Decrypted([89], [600]) == [65281]
  {
    DivModUnique(601, 256, 2, 89);
    var e := Shifted([1], [600]);
    assert e[0] == 89;
    DivModUnique(255, 256, 0, 255);
    assert JsRem(-255, 256) == -255;
    DivModUnique(-255, 0x1_0000, -1, 65281);
    var d := Unshifted([89], [600]);
    assert d[0] == 65281;
  }
}
