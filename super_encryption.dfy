/** Super encryption (the exported half of superEncryption.ts): extended
    Vigenère with one key, then columnar transposition with another. */
module SuperEncryption {
  import ExtendedVigenere
  import Transposition

  type Units = ExtendedVigenere.Units

  /** What `encryptSuperEncryption(plaintext, key1, key2)` returns. */
  function Encrypted(plaintext: Units, key1: Units, key2: Units): (r: Units)
    ensures key1 == [] || key2 == [] ==> r == plaintext
  {
    if key1 == [] || key2 == [] then plaintext
    else Transposition.Encrypted(ExtendedVigenere.Encrypted(plaintext, key1), key2)
  }

  /** What `decryptSuperEncryption(ciphertext, key1, key2)` returns. */
  function Decrypted(ciphertext: Units, key1: Units, key2: Units): (r: Units)
    ensures key1 == [] || key2 == [] ==> r == ciphertext
  {
    if key1 == [] || key2 == [] then ciphertext
    else ExtendedVigenere.Decrypted(Transposition.Decrypted(ciphertext, key2), key1)
  }

  /** Decryption with the corrected columnar step. */
  function DecryptedIntended(ciphertext: Units, key1: Units, key2: Units): (r: Units)
    ensures key1 == [] || key2 == [] ==> r == ciphertext
  {
    if key1 == [] || key2 == [] then ciphertext
    else ExtendedVigenere.Decrypted(Transposition.DecryptedIntended(ciphertext, key2), key1)
  }

  /** `encryptSuperEncryption`. */
  method Encrypt(plaintext: Units, key1: Units, key2: Units) returns (result: Units)
    ensures result == Encrypted(plaintext, key1, key2)
  {
    if key1 == [] || key2 == [] { return plaintext; }
    var vigenereCiphertext := ExtendedVigenere.Encrypt(plaintext, key1);
    result := Transposition.Encrypt(vigenereCiphertext, key2);
  }

  /** `decryptSuperEncryption`. */
  method Decrypt(ciphertext: Units, key1: Units, key2: Units) returns (result: Units)
    ensures result == Decrypted(ciphertext, key1, key2)
  {
    if key1 == [] || key2 == [] { return ciphertext; }
    var transpositionPlaintext := Transposition.Decrypt(ciphertext, key2);
    result := ExtendedVigenere.Decrypt(transpositionPlaintext, key1);
  }

  /** With both keys given, every ciphertext unit is below 256: transposition
      only moves the units the Vigenère step produced. */
  lemma CiphertextBelow256(plaintext: Units, key1: Units, key2: Units)
    requires key1 != [] && key2 != []
    ensures ExtendedVigenere.Below256(Encrypted(plaintext, key1, key2))
  {
    var v := ExtendedVigenere.Encrypted(plaintext, key1);
    Transposition.EncryptedUnitsFrom(v, key2);
    var e := Transposition.Encrypted(v, key2);
    forall k | 0 <= k < |e| ensures e[k] < 256 {
      assert e[k] in v;
    }
  }

  /** For a second key without repeats, the ciphertext is as long as the
      plaintext. */
  lemma EncryptedLength(plaintext: Units, key1: Units, key2: Units)
    requires Transposition.Distinct(key2)
    ensures |Encrypted(plaintext, key1, key2)| == |plaintext|
  {
    Transposition.EncryptedLength(ExtendedVigenere.Encrypted(plaintext, key1), key2);
  }

  /** For a second key without repeats, decryption as written keeps the
      length of any ciphertext. */
  lemma DecryptedLength(ciphertext: Units, key1: Units, key2: Units)
    requires Transposition.Distinct(key2)
    ensures |Decrypted(ciphertext, key1, key2)| == |ciphertext|
  {
    Transposition.DecryptedLength(ciphertext, key2);
  }

  /** The corrected decryption undoes encryption when the plaintext and the
      first key are below 256 and the second key has no repeats. */
  lemma RoundTripIntended(plaintext: Units, key1: Units, key2: Units)
    requires ExtendedVigenere.Below256(plaintext) && ExtendedVigenere.Below256(key1)
    requires Transposition.Distinct(key2)
    ensures DecryptedIntended(Encrypted(plaintext, key1, key2), key1, key2) == plaintext
  {
    if key1 != [] && key2 != [] {
      var v := ExtendedVigenere.Encrypted(plaintext, key1);
      Transposition.RoundTripIntended(v, key2);
      ExtendedVigenere.RoundTrip(plaintext, key1);
    }
  }

  /** Decryption as written undoes encryption under the same conditions,
      when moreover the top-ranked columns of the second key are its last
      columns for the plaintext's length. */
  lemma RoundTrip(plaintext: Units, key1: Units, key2: Units)
    requires ExtendedVigenere.Below256(plaintext) && ExtendedVigenere.Below256(key1)
    requires Transposition.Distinct(key2) && Transposition.ShortColumnsAgree(|plaintext|, key2)
    ensures Decrypted(Encrypted(plaintext, key1, key2), key1, key2) == plaintext
  {
    if key1 != [] && key2 != [] {
      var v := ExtendedVigenere.Encrypted(plaintext, key1);
      Transposition.RoundTrip(v, key2);
      ExtendedVigenere.RoundTrip(plaintext, key1);
    }
  }
}
