/** The Hill cipher with a 2×2 key matrix over the 26-letter alphabet
    (hill.ts): each pair of letters is a vector multiplied by the key matrix
    modulo 26, and decryption multiplies by the matrix's inverse. */
module Hill {
  import opened Letters
  import opened Modular

  /** The message `decryptHill` returns for a key matrix without inverse. */
  const NotInvertibleError: string := "Error: Key matrix is not invertible"

  /** The 2×2 matrix `[[m00, m01], [m10, m11]]`. */
  datatype Matrix = Matrix(m00: int, m01: int, m10: int, m11: int)

  const Identity: Matrix := Matrix(1, 0, 0, 1)

  /** All entries are residues 0..25. */
  predicate IsResidueMatrix(m: Matrix) {
    0 <= m.m00 < 26 && 0 <= m.m01 < 26 && 0 <= m.m10 < 26 && 0 <= m.m11 < 26
  }

  /** The matrix product over the integers. */
  function Mul(x: Matrix, y: Matrix): Matrix {
    Matrix(x.m00 * y.m00 + x.m01 * y.m10, x.m00 * y.m01 + x.m01 * y.m11,
           x.m10 * y.m00 + x.m11 * y.m10, x.m10 * y.m01 + x.m11 * y.m11)
  }

  /** Every entry reduced modulo 26. */
  function Reduce(m: Matrix): Matrix {
    Matrix(m.m00 % 26, m.m01 % 26, m.m10 % 26, m.m11 % 26)
  }

  /** `determinant2x2`: `(m00 * m11 - m01 * m10) % 26`, with JavaScript's `%`,
      so it lies in (-26, 26) and is congruent to the determinant. */
  function Determinant(m: Matrix): (det: int)
    ensures -26 < det < 26
    ensures det % 26 == (m.m00 * m.m11 - m.m01 * m.m10) % 26
  {
    var raw := m.m00 * m.m11 - m.m01 * m.m10;
    var det := JsRem(raw, 26);
    CongOfRem(raw, det);
    det
  }

  /** `inverseMatrix2x2`: `null` when the determinant has no inverse modulo
      26, else the adjugate (with `(-x + 26) % 26` off the diagonal) times the
      determinant's inverse, entry by entry modulo 26. */
  function InverseMatrix(m: Matrix): Option<Matrix> {
    var detInverse := Inverse(Determinant(m), 26);
    if detInverse == -1 then None else Some(AdjugateTimes(m, detInverse))
  }

  /** The adjugate of `m`, with `(-x + 26) % 26` off the diagonal, times
      `s`, entry by entry modulo 26. */
  function AdjugateTimes(m: Matrix, s: int): Matrix {
    var adjugate := Matrix(m.m11, JsRem(-m.m01 + 26, 26), JsRem(-m.m10 + 26, 26), m.m00);
    Matrix(JsRem(adjugate.m00 * s, 26), JsRem(adjugate.m01 * s, 26),
           JsRem(adjugate.m10 * s, 26), JsRem(adjugate.m11 * s, 26))
  }

  /** The cleaned key padded with 'a' to at least four letters. */
  function PaddedKey(cleanKey: string): (r: string)
    ensures |r| >= 4 && |r| >= |cleanKey|
    ensures r[..|cleanKey|] == cleanKey
    ensures forall i :: |cleanKey| <= i < |r| ==> r[i] == 'a'
    ensures AllLower(cleanKey) ==> AllLower(r)
  {
    if |cleanKey| >= 4 then cleanKey else cleanKey + seq(4 - |cleanKey|, _ => 'a')
  }

  /** What `keyToMatrix(key)` returns: the first four letters of the padded,
      cleaned key, row by row. */
  function KeyMatrix(key: string): (m: Matrix)
    ensures IsResidueMatrix(m)
  {
    var p := PaddedKey(CleanLower(key));
    Matrix(CharToNum(p[0]), CharToNum(p[1]), CharToNum(p[2]), CharToNum(p[3]))
  }

  /** A pair of letters multiplied by `m`, with hill.ts's `numToChar`. */
  function Block(m: Matrix, c1: char, c2: char): (r: string)
    requires IsLetter(c1) && IsLetter(c2)
    ensures |r| == 2 && AllLower(r)
  {
    var x, y := CharToNum(c1), CharToNum(c2);
    [NumToCharNormalized(JsRem(m.m00 * x + m.m01 * y, 26)),
     NumToCharNormalized(JsRem(m.m10 * x + m.m11 * y, 26))]
  }

  /** Every complete pair of `letters` multiplied by `m`; a trailing unpaired
      letter is dropped. */
  function HillApply(m: Matrix, letters: string): (r: string)
    requires AllLetters(letters)
    ensures |r| == PairedLength(|letters|) && AllLower(r)
    decreases |letters|
  {
    if |letters| < 2 then []
    else
      var rest := HillApply(m, letters[2..]);
      Block(m, letters[0], letters[1]) + rest
  }

  /** The cleaned text with an 'x' appended when its length is odd. */
  function PadEven(s: string): (r: string)
    ensures |r| % 2 == 0 && |r| >= |s| && r[..|s|] == s
    ensures |s| % 2 == 0 ==> r == s
    ensures |s| % 2 != 0 ==> r == s + "x"
    ensures AllLower(s) ==> AllLower(r)
  {
    if |s| % 2 != 0 then s + "x" else s
  }

  /** What `encryptHill(plaintext, key)` returns. It never checks that the key
      matrix is invertible. */
  function Encrypted(plaintext: string, key: string): (r: string)
    ensures key == [] ==> r == plaintext
    ensures key != [] ==> |r| == |PadEven(CleanLower(plaintext))| && AllLower(r)
  {
    if key == [] then plaintext
    else
      var letters := PadEven(CleanLower(plaintext));
      PairedLengthIs(|letters|);
      HillApply(KeyMatrix(key), letters)
  }

  /** What `decryptHill(ciphertext, key)` returns. */
  function Decrypted(ciphertext: string, key: string): (r: Result<string>)
    ensures key == [] ==> r == Ok(ciphertext)
    ensures key != [] && InverseMatrix(KeyMatrix(key)) == None ==> r == Err(NotInvertibleError)
    ensures key != [] && InverseMatrix(KeyMatrix(key)) != None ==>
      r.Ok? && |r.value| == PairedLength(|Clean(ciphertext)|)
  {
    if key == [] then Ok(ciphertext)
    else
      match InverseMatrix(KeyMatrix(key))
      case None => Err(NotInvertibleError)
      case Some(inverse) => Ok(HillApply(inverse, CleanLower(ciphertext)))
  }

  /** `keyToMatrix`: the padding loop, then the four entries. */
  method KeyToMatrix(key: string) returns (m: Matrix)
    ensures m == KeyMatrix(key)
  {
    var cleanKey := CleanLower(key);
    var paddedKey := cleanKey;
    while |paddedKey| < 4
      invariant |cleanKey| <= |paddedKey| <= if |cleanKey| >= 4 then |cleanKey| else 4
      invariant paddedKey == cleanKey + seq(|paddedKey| - |cleanKey|, _ => 'a')
      decreases 4 - |paddedKey|
    {
      paddedKey := paddedKey + "a";
    }
    assert paddedKey == PaddedKey(cleanKey);
    m := Matrix(CharToNum(paddedKey[0]), CharToNum(paddedKey[1]),
                CharToNum(paddedKey[2]), CharToNum(paddedKey[3]));
  }

  /** `encryptHill`: pad to even length, then one block per pair. */
  method Encrypt(plaintext: string, key: string) returns (result: string)
    ensures result == Encrypted(plaintext, key)
  {
    if key == [] { return plaintext; }
    var keyMatrix := KeyToMatrix(key);
    var cleaned := CleanLower(plaintext);
    var paddedText := cleaned;
    if |paddedText| % 2 != 0 {
      paddedText := paddedText + "x";
    }
    assert paddedText == PadEven(cleaned);
    result := MultiplyPairs(keyMatrix, paddedText);
    EncryptedIs(plaintext, key);
  }

  /** `decryptHill`: the inverse matrix or the error, then one block per
      complete pair. */
  method Decrypt(ciphertext: string, key: string) returns (result: Result<string>)
    ensures result == Decrypted(ciphertext, key)
  {
    if key == [] { return Ok(ciphertext); }
    var keyMatrix := KeyToMatrix(key);
    var cleaned := CleanLower(ciphertext);
    var inverseMatrix := InverseMatrix(keyMatrix);
    if inverseMatrix == None {
      assert Decrypted(ciphertext, key) == Err(NotInvertibleError);
      return Err(NotInvertibleError);
    }
    var inverse := inverseMatrix.value;
    var text := MultiplyPairs(inverse, cleaned);
    DecryptedIs(ciphertext, key, inverse);
    return Ok(text);
  }

  /** The loop `encryptHill` and `decryptHill` share: each pair of letters
      multiplied by `m`, stopping before an unpaired last letter (which only
      `decryptHill` can meet, as `encryptHill` pads first). */
  method MultiplyPairs(m: Matrix, letters: string) returns (text: string)
    requires AllLetters(letters)
    ensures text == HillApply(m, letters)
  {
    text := "";
    var i := 0;
    while i < |letters|
      invariant 0 <= i <= |letters|
      invariant text + HillApply(m, letters[i..]) == HillApply(m, letters)
    {
      if i + 1 >= |letters| {
        break;
      }
      ApplyStep(m, letters, i, text, HillApply(m, letters));
      var pair := MultiplyPair(m, letters[i], letters[i + 1]);
      text := text + pair;
      i := i + 2;
    }
    assert HillApply(m, letters[i..]) == [];
  }

  /** The body of the loop: the pair as a vector of residues, multiplied by
      `m` modulo 26 and turned back into letters. */
  method MultiplyPair(m: Matrix, c1: char, c2: char) returns (pair: string)
    requires IsLetter(c1) && IsLetter(c2)
    ensures pair == Block(m, c1, c2)
  {
    var vector0, vector1 := CharToNum(c1), CharToNum(c2);
    var product0 := JsRem(m.m00 * vector0 + m.m01 * vector1, 26);
    var product1 := JsRem(m.m10 * vector0 + m.m11 * vector1, 26);
    pair := [NumToCharNormalized(product0), NumToCharNormalized(product1)];
  }

  /** With a non-empty key, the encryption is the key matrix applied to the
      padded, cleaned plaintext. */
  lemma EncryptedIs(plaintext: string, key: string)
    requires key != []
    ensures Encrypted(plaintext, key) == HillApply(KeyMatrix(key), PadEven(CleanLower(plaintext)))
  {
  }

  /** With an invertible key matrix, the decryption is the inverse applied to
      the cleaned ciphertext. */
  lemma DecryptedIs(ciphertext: string, key: string, inverse: Matrix)
    requires key != [] && InverseMatrix(KeyMatrix(key)) == Some(inverse)
    ensures Decrypted(ciphertext, key) == Ok(HillApply(inverse, CleanLower(ciphertext)))
  {
  }

  /** One loop step: the block at `i` extends the prefix of the result. */
  lemma ApplyStep(m: Matrix, letters: string, i: int, done: string, whole: string)
    requires AllLetters(letters) && 0 <= i && i + 1 < |letters|
    requires done + HillApply(m, letters[i..]) == whole
    ensures (done + Block(m, letters[i], letters[i + 1])) + HillApply(m, letters[i + 2..]) == whole
  {
    assert letters[i..][2..] == letters[i + 2..];
    var b := Block(m, letters[i], letters[i + 1]);
    assert HillApply(m, letters[i..]) == b + HillApply(m, letters[i + 2..]);
  }

  // Congruence modulo 26.

  predicate Cong(x: int, y: int) {
    x % 26 == y % 26
  }

  /** JavaScript's remainder is congruent to its dividend. */
  lemma CongOfRem(x: int, r: int)
    requires r == JsRem(x, 26)
    ensures x % 26 == r % 26
  {
    var q := (x - r) / 26;
    DivModUnique(x - r, 26, q, 0);
    AddMultipleMod(r, q, 26);
  }

  /** A linear combination respects congruence of its coefficients. */
  lemma CongCombine(p: int, p': int, q: int, q': int, u: int, v: int)
    requires Cong(p, p') && Cong(q, q')
    ensures Cong(p * u + q * v, p' * u + q' * v)
  {
    assert (p * u + q * v) % 26 == (p' * u + q * v) % 26 by {
      MulAddMod(p, u, q * v, 26);
      MulAddMod(p', u, q * v, 26);
    }
    assert (q * v + p' * u) % 26 == (q' * v + p' * u) % 26 by {
      MulAddMod(q, v, p' * u, 26);
      MulAddMod(q', v, p' * u, 26);
    }
  }

  /** The same with the coefficients written on the right. */
  lemma CongCombineRight(p: int, p': int, q: int, q': int, u: int, v: int)
    requires Cong(p, p') && Cong(q, q')
    ensures Cong(u * p + v * q, u * p' + v * q')
  {
    CongCombine(p, p', q, q', u, v);
    assert u * p + v * q == p * u + q * v && u * p' + v * q' == p' * u + q' * v;
  }

  predicate CongM(x: Matrix, y: Matrix) {
    Cong(x.m00, y.m00) && Cong(x.m01, y.m01) && Cong(x.m10, y.m10) && Cong(x.m11, y.m11)
  }

  lemma CongMulLeft(x: Matrix, x': Matrix, y: Matrix)
    requires CongM(x, x')
    ensures CongM(Mul(x, y), Mul(x', y))
  {
    CongCombine(x.m00, x'.m00, x.m01, x'.m01, y.m00, y.m10);
    CongCombine(x.m00, x'.m00, x.m01, x'.m01, y.m01, y.m11);
    CongCombine(x.m10, x'.m10, x.m11, x'.m11, y.m00, y.m10);
    CongCombine(x.m10, x'.m10, x.m11, x'.m11, y.m01, y.m11);
  }

  lemma CongMulRight(x: Matrix, y: Matrix, y': Matrix)
    requires CongM(y, y')
    ensures CongM(Mul(x, y), Mul(x, y'))
  {
    CongCombineRight(y.m00, y'.m00, y.m10, y'.m10, x.m00, x.m01);
    CongCombineRight(y.m01, y'.m01, y.m11, y'.m11, x.m00, x.m01);
    CongCombineRight(y.m00, y'.m00, y.m10, y'.m10, x.m10, x.m11);
    CongCombineRight(y.m01, y'.m01, y.m11, y'.m11, x.m10, x.m11);
  }

  /** The exact adjugate scaled by `s`. */
  function ScaledAdjugate(m: Matrix, s: int): Matrix {
    Matrix(s * m.m11, s * -m.m01, s * -m.m10, s * m.m00)
  }

  /** The adjugate times the matrix, on either side, is the determinant times
      the identity. */
  lemma AdjugateProduct(m: Matrix, s: int)
    ensures var d := s * (m.m00 * m.m11 - m.m01 * m.m10);
      && Mul(ScaledAdjugate(m, s), m) == Matrix(d, 0, 0, d)
      && Mul(m, ScaledAdjugate(m, s)) == Matrix(d, 0, 0, d)
  {
    var a, b, c, e := m.m00, m.m01, m.m10, m.m11;
    assert (s * e) * a + (s * -b) * c == s * (a * e - b * c);
    assert (s * e) * b + (s * -b) * e == 0;
    assert (s * -c) * a + (s * a) * c == 0;
    assert (s * -c) * b + (s * a) * e == s * (a * e - b * c);
    assert a * (s * e) + b * (s * -c) == s * (a * e - b * c);
    assert a * (s * -b) + b * (s * a) == 0;
    assert c * (s * e) + e * (s * -c) == 0;
    assert c * (s * -b) + e * (s * a) == s * (a * e - b * c);
  }

  /** `(x * s) % 26` with a non-negative product is congruent to `s * x`. */
  lemma RemProduct(x: int, s: int)
    requires 0 <= x < 26 && s >= 1
    ensures 0 <= JsRem(x * s, 26) < 26 && Cong(JsRem(x * s, 26), s * x)
  {
    assert x * s >= 0;
    var r := (x * s) % 26;
    DivModUnique(r, 26, 0, r);
    assert x * s == s * x;
  }

  /** An off-diagonal entry: `((-x + 26) % 26 * s) % 26` is a residue
      congruent to `s * -x`. */
  lemma RemNegatedProduct(x: int, s: int)
    requires 0 <= x < 26 && s >= 1
    ensures var x' := JsRem(-x + 26, 26);
      0 <= JsRem(x' * s, 26) < 26 && Cong(JsRem(x' * s, 26), s * -x)
  {
    var x' := JsRem(-x + 26, 26);
    assert x' == (26 - x) % 26;
    RemProduct(x', s);
    MulMod(26 - x, s, 26);
    assert (26 - x) * s == s * -x + 26 * s;
    AddMultipleMod(s * -x, s, 26);
  }

  /** The computed inverse is congruent to the adjugate times the inverse of
      the determinant. */
  lemma InverseIsScaledAdjugate(m: Matrix, inverse: Matrix)
    requires IsResidueMatrix(m) && InverseMatrix(m) == Some(inverse)
    ensures var s := Inverse(Determinant(m), 26);
      s >= 1 && CongM(inverse, ScaledAdjugate(m, s))
    ensures IsResidueMatrix(inverse)
  {
    var s := Inverse(Determinant(m), 26);
    assert s >= 1;
    ScaledAdjugateCong(m, inverse, s);
  }

  /** The entries `inverseMatrix2x2` computes from the determinant's
      inverse `s`. */
  lemma ScaledAdjugateCong(m: Matrix, inverse: Matrix, s: int)
    requires IsResidueMatrix(m) && s >= 1 && inverse == AdjugateTimes(m, s)
    ensures CongM(inverse, ScaledAdjugate(m, s)) && IsResidueMatrix(inverse)
  {
    RemProduct(m.m11, s);
    RemProduct(m.m00, s);
    RemNegatedProduct(m.m01, s);
    RemNegatedProduct(m.m10, s);
  }

  /** The determinant's inverse times the exact determinant is 1 modulo 26. */
  lemma ScaledDeterminant(m: Matrix)
    requires Inverse(Determinant(m), 26) != -1
    ensures var s := Inverse(Determinant(m), 26);
      (s * (m.m00 * m.m11 - m.m01 * m.m10)) % 26 == 1
  {
    var s := Inverse(Determinant(m), 26);
    var det := Determinant(m);
    var raw := m.m00 * m.m11 - m.m01 * m.m10;
    MulMod(raw, s, 26);
    MulMod(det, s, 26);
    assert raw * s == s * raw;
  }

  /** When `inverseMatrix2x2` returns a matrix, its entries are residues and
      it is an inverse of the key matrix modulo 26 on both sides. */
  lemma InverseMatrixCorrect(m: Matrix, inverse: Matrix)
    requires IsResidueMatrix(m) && InverseMatrix(m) == Some(inverse)
    ensures IsResidueMatrix(inverse)
    ensures Reduce(Mul(inverse, m)) == Identity
    ensures Reduce(Mul(m, inverse)) == Identity
  {
    var s := Inverse(Determinant(m), 26);
    var d := s * (m.m00 * m.m11 - m.m01 * m.m10);
    InverseIsScaledAdjugate(m, inverse);
    ScaledDeterminant(m);
    var adj := ScaledAdjugate(m, s);
    assert CongM(Mul(inverse, m), Matrix(d, 0, 0, d)) by {
      CongMulLeft(inverse, adj, m);
      AdjugateProduct(m, s);
    }
    CongToIdentity(Mul(inverse, m), d);
    assert CongM(Mul(m, inverse), Matrix(d, 0, 0, d)) by {
      CongMulRight(m, inverse, adj);
      AdjugateProduct(m, s);
    }
    CongToIdentity(Mul(m, inverse), d);
  }

  /** A matrix congruent to `d` times the identity, with `d` congruent to 1,
      reduces to the identity. */
  lemma CongToIdentity(x: Matrix, d: int)
    requires CongM(x, Matrix(d, 0, 0, d)) && d % 26 == 1
    ensures Reduce(x) == Identity
  {
    DivModUnique(0, 26, 0, 0);
  }

  /** `inverseMatrix2x2` returns `null` exactly when the determinant is not
      coprime with 26. */
  lemma InverseMatrixNoneIff(m: Matrix)
    ensures InverseMatrix(m) == None <==> !IsCoprime(Determinant(m) % 26, 26)
  {
    var det := Determinant(m);
    CoprimeIffInverse26(det % 26);
    InverseDependsOnResidue(det);
  }

  /** The inverse search sees its argument only modulo 26. */
  lemma InverseDependsOnResidue(a: int)
    ensures Inverse(a, 26) == Inverse(a % 26, 26)
  {
    NormalizedRem(a, 26);
    NormalizedRem(a % 26, 26);
    DivModUnique(a % 26, 26, 0, a % 26);
  }

  /** Multiplying by `inverse` undoes multiplying by `m` on a residue vector. */
  lemma VectorRoundTrip(m: Matrix, inverse: Matrix, x: int, y: int)
    requires IsResidueMatrix(m) && IsResidueMatrix(inverse)
    requires Reduce(Mul(inverse, m)) == Identity
    requires 0 <= x < 26 && 0 <= y < 26
    ensures var u, v := (m.m00 * x + m.m01 * y) % 26, (m.m10 * x + m.m11 * y) % 26;
      (inverse.m00 * u + inverse.m01 * v) % 26 == x && (inverse.m10 * u + inverse.m11 * v) % 26 == y
  {
    var p := Mul(inverse, m);
    var u0, v0 := m.m00 * x + m.m01 * y, m.m10 * x + m.m11 * y;
    DivModUnique(0, 26, 0, 0);
    DivModUnique(1, 26, 0, 1);
    assert inverse.m00 * u0 + inverse.m01 * v0 == p.m00 * x + p.m01 * y by {
      Distribute(inverse.m00, inverse.m01, m.m00, m.m01, m.m10, m.m11, x, y);
    }
    RowBack(inverse.m00, inverse.m01, u0, v0, p.m00, p.m01, x, y, 1, 0);
    assert inverse.m10 * u0 + inverse.m11 * v0 == p.m10 * x + p.m11 * y by {
      Distribute(inverse.m10, inverse.m11, m.m00, m.m01, m.m10, m.m11, x, y);
    }
    RowBack(inverse.m10, inverse.m11, u0, v0, p.m10, p.m11, x, y, 0, 1);
    DivModUnique(x, 26, 0, x);
    DivModUnique(y, 26, 0, y);
  }

  /** A row of the inverse applied to a row-reduced vector. */
  lemma RowBack(i0: int, i1: int, u0: int, v0: int, p0: int, p1: int, x: int, y: int, e0: int, e1: int)
    requires i0 * u0 + i1 * v0 == p0 * x + p1 * y
    requires Cong(p0, e0) && Cong(p1, e1)
    ensures Cong(i0 * (u0 % 26) + i1 * (v0 % 26), e0 * x + e1 * y)
  {
    var u, v := u0 % 26, v0 % 26;
    DivModUnique(u, 26, 0, u);
    DivModUnique(v, 26, 0, v);
    CongCombineRight(u, u0, v, v0, i0, i1);
    CongCombine(p0, e0, p1, e1, x, y);
  }

  /** The product of a row with a matrix-vector product, regrouped. */
  lemma Distribute(i0: int, i1: int, a: int, b: int, c: int, d: int, x: int, y: int)
    ensures i0 * (a * x + b * y) + i1 * (c * x + d * y) == (i0 * a + i1 * c) * x + (i0 * b + i1 * d) * y
  {
    assert i0 * (a * x + b * y) == (i0 * a) * x + (i0 * b) * y;
    assert i1 * (c * x + d * y) == (i1 * c) * x + (i1 * d) * y;
  }

  /** The letters of a block, as residues. */
  lemma BlockNums(m: Matrix, c1: char, c2: char)
    requires IsResidueMatrix(m) && IsLetter(c1) && IsLetter(c2)
    ensures var x, y := CharToNum(c1), CharToNum(c2);
      && CharToNum(Block(m, c1, c2)[0]) == (m.m00 * x + m.m01 * y) % 26
      && CharToNum(Block(m, c1, c2)[1]) == (m.m10 * x + m.m11 * y) % 26
  {
    var x, y := CharToNum(c1), CharToNum(c2);
    RemOfCombination(m.m00, x, m.m01, y);
    RemOfCombination(m.m10, x, m.m11, y);
    var n0, n1 := (m.m00 * x + m.m01 * y) % 26, (m.m10 * x + m.m11 * y) % 26;
    DivModUnique(n0, 26, 0, n0);
    DivModUnique(n1, 26, 0, n1);
  }

  /** Decrypting an encrypted block gives the pair's residues back. */
  lemma BlockResidues(m: Matrix, inverse: Matrix, c1: char, c2: char)
    requires IsResidueMatrix(m) && IsResidueMatrix(inverse)
    requires Reduce(Mul(inverse, m)) == Identity
    requires IsLetter(c1) && IsLetter(c2)
    ensures var e := Block(m, c1, c2); var d := Block(inverse, e[0], e[1]);
      CharToNum(d[0]) == CharToNum(c1) && CharToNum(d[1]) == CharToNum(c2)
  {
    var e := Block(m, c1, c2);
    var x, y := CharToNum(c1), CharToNum(c2);
    assert CharToNum(e[0]) == (m.m00 * x + m.m01 * y) % 26
        && CharToNum(e[1]) == (m.m10 * x + m.m11 * y) % 26 by {
      BlockNums(m, c1, c2);
    }
    BlockNums(inverse, e[0], e[1]);
    VectorRoundTrip(m, inverse, x, y);
  }

  /** Decrypting an encrypted block gives the pair back, lower-cased. */
  lemma BlockRoundTrip(m: Matrix, inverse: Matrix, c1: char, c2: char)
    requires IsResidueMatrix(m) && IsResidueMatrix(inverse)
    requires Reduce(Mul(inverse, m)) == Identity
    requires IsLetter(c1) && IsLetter(c2)
    ensures var e := Block(m, c1, c2); Block(inverse, e[0], e[1]) == [Lower(c1), Lower(c2)]
  {
    var e := Block(m, c1, c2);
    var d := Block(inverse, e[0], e[1]);
    BlockResidues(m, inverse, c1, c2);
    LowerToNum(d[0], c1);
    LowerToNum(d[1], c2);
  }

  /** Two lower-case letters with the same residue as a letter `c` are
      `Lower(c)`. */
  lemma LowerToNum(d: char, c: char)
    requires IsLower(d) && IsLetter(c) && CharToNum(d) == CharToNum(c)
    ensures d == Lower(c)
  {
  }

  /** Applying the inverse undoes applying the key matrix, up to case, on a
      text of complete pairs. */
  lemma {:induction false} ApplyRoundTrip(m: Matrix, inverse: Matrix, letters: string)
    requires IsResidueMatrix(m) && IsResidueMatrix(inverse)
    requires Reduce(Mul(inverse, m)) == Identity
    requires AllLetters(letters) && |letters| % 2 == 0
    ensures HillApply(inverse, HillApply(m, letters)) == LowerAll(letters)
    decreases |letters|
  {
    if |letters| >= 2 {
      var e := HillApply(m, letters);
      var b := Block(m, letters[0], letters[1]);
      var rest := HillApply(m, letters[2..]);
      assert e == b + rest;
      assert e[2..] == rest;
      assert |letters[2..]| % 2 == 0 by {
        DivModUnique(|letters|, 2, |letters| / 2, 0);
        DivModUnique(|letters| - 2, 2, |letters| / 2 - 1, 0);
      }
      ApplyRoundTrip(m, inverse, letters[2..]);
      BlockRoundTrip(m, inverse, letters[0], letters[1]);
      assert LowerAll(letters) == [Lower(letters[0]), Lower(letters[1])] + LowerAll(letters[2..]);
    }
  }

  /** For a key whose matrix is invertible, decryption gives back the cleaned
      plaintext padded with 'x' to even length. */
  lemma RoundTrip(plaintext: string, key: string)
    requires key != [] && InverseMatrix(KeyMatrix(key)) != None
    ensures Decrypted(Encrypted(plaintext, key), key) == Ok(PadEven(CleanLower(plaintext)))
  {
    var m := KeyMatrix(key);
    var inverse := InverseMatrix(m).value;
    InverseMatrixCorrect(m, inverse);
    var s := PadEven(CleanLower(plaintext));
    var e := HillApply(m, s);
    assert Encrypted(plaintext, key) == e;
    CleanShorter(e);
    assert CleanLower(e) == e;
    ApplyRoundTrip(m, inverse, s);
    assert LowerAll(s) == s;
  }

  /** `s` without a trailing unpaired letter. */
  function Trimmed(s: string): string {
    s[..PairedLength(|s|)]
  }

  /** For a key whose matrix is invertible, encrypting a decryption gives back
      the cleaned ciphertext without a trailing unpaired letter. */
  lemma RoundTripInverse(ciphertext: string, key: string)
    requires key != [] && InverseMatrix(KeyMatrix(key)) != None
    ensures Encrypted(Decrypted(ciphertext, key).value, key) == Trimmed(CleanLower(ciphertext))
  {
    var m := KeyMatrix(key);
    var inverse := InverseMatrix(m).value;
    InverseMatrixCorrect(m, inverse);
    var c := CleanLower(ciphertext);
    var t := Trimmed(c);
    var d := HillApply(inverse, c);
    DecryptedIs(ciphertext, key, inverse);
    TrimmedApply(inverse, c);
    PairedLengthEven(|c|);
    CleanShorter(d);
    assert CleanLower(d) == d;
    assert PadEven(d) == d;
    EncryptedIs(d, key);
    ApplyRoundTrip(inverse, m, t);
    assert LowerAll(t) == t;
  }

  /** Applying a matrix ignores a trailing unpaired letter. */
  lemma {:induction false} TrimmedApply(m: Matrix, letters: string)
    requires AllLetters(letters)
    ensures AllLetters(Trimmed(letters))
    ensures HillApply(m, letters) == HillApply(m, Trimmed(letters))
    decreases |letters|
  {
    var t := Trimmed(letters);
    assert AllLetters(t) by {
      forall i | 0 <= i < |t| ensures IsLetter(t[i]) {
        assert t[i] == letters[i];
      }
    }
    if |letters| >= 2 {
      var rest := letters[2..];
      var t' := Trimmed(rest);
      assert |t'| + 2 == |t|;
      assert t' == t[2..] by {
        forall i | 0 <= i < |t'| ensures t'[i] == t[2..][i] {
          assert t'[i] == rest[i] == letters[i + 2];
        }
      }
      TrimmedApply(m, rest);
    }
  }

  /** The key matrix holds the first four cleaned key letters, row by row,
      with 0 ('a') where the key is shorter. */
  lemma KeyMatrixEntries(key: string)
    ensures var k, m := CleanLower(key), KeyMatrix(key);
      && m.m00 == (if 0 < |k| then CharToNum(k[0]) else 0)
      && m.m01 == (if 1 < |k| then CharToNum(k[1]) else 0)
      && m.m10 == (if 2 < |k| then CharToNum(k[2]) else 0)
      && m.m11 == (if 3 < |k| then CharToNum(k[3]) else 0)
  {
    var k := CleanLower(key);
    var p := PaddedKey(k);
    forall i | 0 <= i < |k| ensures p[i] == k[i] {
      assert p[..|k|][i] == p[i];
    }
  }

  /** A non-empty key without letters gives the zero matrix: every text
      encrypts to 'a's, and decryption reports the error. */
  lemma LetterlessKey(text: string, key: string)
    requires key != [] && !HasLetter(key)
    ensures KeyMatrix(key) == Matrix(0, 0, 0, 0)
    ensures Encrypted(text, key) == seq(|PadEven(CleanLower(text))|, _ => 'a')
    ensures Decrypted(text, key) == Err(NotInvertibleError)
  {
    CleanEmpty(key);
    KeyMatrixEntries(key);
    var z := Matrix(0, 0, 0, 0);
    ZeroMatrixApply(PadEven(CleanLower(text)));
    PairedLengthIs(|PadEven(CleanLower(text))|);
    DivModUnique(0, 26, 0, 0);
    assert Determinant(z) == 0;
    InverseMatrixNoneIff(z);
    assert Gcd(0, 26) == 26 by {
      DivModUnique(0, 26, 0, 0);
      assert Gcd(26, 0) == 26;
    }
  }

  /** The zero matrix sends every pair to "aa". */
  lemma {:induction false} ZeroMatrixApply(letters: string)
    requires AllLetters(letters)
    ensures HillApply(Matrix(0, 0, 0, 0), letters) == seq(PairedLength(|letters|), _ => 'a')
    decreases |letters|
  {
    if |letters| >= 2 {
      ZeroMatrixApply(letters[2..]);
      DivModUnique(0, 26, 0, 0);
      NormalizedRem(0, 26);
      assert Block(Matrix(0, 0, 0, 0), letters[0], letters[1]) == "aa";
    }
  }

  /** gcd(24, 26) = 2. */
  lemma TwentyFourNotCoprime()
    ensures Gcd(24, 26) == 2
  {
    DivModUnique(24, 26, 0, 24);
    DivModUnique(26, 24, 1, 2);
    DivModUnique(24, 2, 12, 0);
    assert Gcd(2, 0) == 2;
    assert Gcd(24, 2) == 2;
    assert Gcd(26, 24) == 2;
  }

  /** The key "abcd" gives the matrix [[0, 1], [2, 3]] with determinant -2,
      that is 24 modulo 26, which has no inverse: decryption always reports
      the error, while encryption still runs. */
  lemma KeyAbcdNotInvertible(text: string)
    ensures KeyMatrix("abcd") == Matrix(0, 1, 2, 3)
    ensures Determinant(Matrix(0, 1, 2, 3)) % 26 == 24
    ensures Decrypted(text, "abcd") == Err(NotInvertibleError)
  {
    CleanShorter("abcd");
    assert LowerAll("abcd") == "abcd";
    KeyMatrixEntries("abcd");
    var m := Matrix(0, 1, 2, 3);
    DivModUnique(2, 26, 0, 2);
    assert Determinant(m) == -2;
    DivModUnique(-2, 26, -1, 24);
    TwentyFourNotCoprime();
    InverseMatrixNoneIff(m);
  }

  /** The key "hill" gives [[7, 8], [11, 11]] with determinant -11, that is 15
      modulo 26, which is a unit. */
  lemma KeyHillMatrix()
    ensures KeyMatrix("hill") == Matrix(7, 8, 11, 11)
    ensures InverseMatrix(Matrix(7, 8, 11, 11)) != None
  {
    CleanShorter("hill");
    assert LowerAll("hill") == "hill";
    KeyMatrixEntries("hill");
    var m := Matrix(7, 8, 11, 11);
    DivModUnique(11, 26, 0, 11);
    assert Determinant(m) == -11;
    DivModUnique(-11, 26, -1, 15);
    UnitHasInverse(15);
    InverseDependsOnResidue(-11);
  }

  /** The block of "ab" under the key matrix of "hill". */
  lemma BlockAb()
    ensures Block(Matrix(7, 8, 11, 11), 'a', 'b') == "il"
  {
    DivModUnique(8, 26, 0, 8);
    DivModUnique(11, 26, 0, 11);
  }

  /** encryptHill("ab", "hill") = "il". */
  lemma HillEncryptExample()
    ensures Encrypted("ab", "hill") == "il"
  {
    var m := Matrix(7, 8, 11, 11);
    assert KeyMatrix("hill") == m by {
      KeyHillMatrix();
    }
    assert PadEven(CleanLower("ab")) == "ab" by {
      CleanShorter("ab");
      assert LowerAll("ab") == "ab";
    }
    EncryptedIs("ab", "hill");
    assert HillApply(m, "ab") == "il" by {
      BlockAb();
      assert "ab"[2..] == [];
    }
  }

  /** decryptHill("il", "hill") gives "ab" back. */
  lemma HillDecryptExample()
    ensures Decrypted("il", "hill") == Ok("ab")
  {
    KeyHillMatrix();
    HillEncryptExample();
    RoundTrip("ab", "hill");
    assert PadEven(CleanLower("ab")) == "ab" by {
      CleanShorter("ab");
      assert LowerAll("ab") == "ab";
    }
  }
}
