/** The Playfair cipher (playfair.ts): a 5×5 key square of the 25 letters
    other than 'j', a filler 'x' between doubled letters, and the row, column
    and rectangle rules on pairs of letters. */
module Playfair {
  import opened Letters

  /** A letter the key square holds: lower case and not 'j'. */
  predicate IsSquareLetter(c: char) { IsLower(c) && c != 'j' }

  predicate AllSquareLetters(s: string) {
    forall i :: 0 <= i < |s| ==> IsSquareLetter(s[i])
  }

  /** No character occurs twice. */
  predicate Distinct(s: string) {
    forall i, j :: 0 <= i < j < |s| ==> s[i] != s[j]
  }

  /** The characters of `s`, as the `Set` of the key loops sees them. */
  function Elems(s: string): set<char> {
    set c | c in s
  }

  // ----- cleanText -----

  /** One letter of `cleanText`: 'j' and 'J' become 'i', the rest is lower-cased. */
  function CleanLetter(c: char): (r: char)
    requires IsLetter(c)
    ensures IsSquareLetter(r)
  {
    if c == 'j' || c == 'J' then 'i' else Lower(c)
  }

  /** `cleanText` of playfair.ts: the letters, J mapped to 'i', lower-cased.
      Its output never holds a 'j'. */
  function CleanText(s: string): (r: string)
    ensures |r| == |Clean(s)| && AllSquareLetters(r)
  {
    var letters := Clean(s);
    seq(|letters|, i requires 0 <= i < |letters| => CleanLetter(letters[i]))
  }

  // ----- generatePlayfairMatrix -----

  /** What the first loop of `generatePlayfairMatrix` appends: the characters
      of `s` that are not in `used`, each only at its first occurrence. */
  function Dedup(s: string, used: set<char>): string
    decreases |s|
  {
    if s == [] then []
    else if s[0] in used then Dedup(s[1..], used)
    else [s[0]] + Dedup(s[1..], used + {s[0]})
  }

  /** What the second loop appends from step `i` on: the letters from
      `'a' + i` to 'z', other than 'j' and those in `used`, alphabetically. */
  function Fill(i: nat, used: set<char>): string
    decreases 26 - i
  {
    if i >= 26 then []
    else
      var c := ('a' as int + i) as char;
      if c != 'j' && c !in used then [c] + Fill(i + 1, used + {c})
      else Fill(i + 1, used)
  }

  /** The cleaned key without repeated letters. */
  function KeyLetters(key: string): string {
    Dedup(CleanText(key), {})
  }

  /** The 25 letters of the key square, row by row: the key's letters first,
      then the rest of the alphabet. */
  function Square(key: string): string {
    var keyLetters := KeyLetters(key);
    keyLetters + Fill(0, Elems(keyLetters))
  }

  /** `s.slice(from, to)`, which clamps both ends to the length. */
  function Slice(s: string, from: nat, to: nat): string
    requires from <= to
  {
    var a := if from < |s| then from else |s|;
    var b := if to < |s| then to else |s|;
    s[a..b]
  }

  /** The matrix `generatePlayfairMatrix` returns: five slices of five. */
  function Rows(square: string): (m: seq<seq<char>>)
    ensures |m| == 5
  {
    seq(5, r requires 0 <= r < 5 => Slice(square, r * 5, (r + 1) * 5))
  }

  /** A key square: the 25 letters other than 'j', each once. */
  predicate IsSquare(square: string) {
    && |square| == 25
    && Distinct(square)
    && AllSquareLetters(square)
    && (forall k :: 0 <= k < 25 ==> AlphabetLetter(k) in square)
  }

  /** `generatePlayfairMatrix`: the key loop, the alphabet loop, then the
      five slices. */
  method GenerateMatrix(key: string) returns (matrix: seq<seq<char>>)
    ensures matrix == Rows(Square(key))
  {
    var cleanKey, usedChars := AddKeyLetters(key);
    cleanKey, usedChars := AddAlphabet(key, cleanKey, usedChars);
    matrix := SliceRows(cleanKey);
  }

  /** The first loop of `generatePlayfairMatrix`: each letter of the cleaned
      key not yet used is appended and marked used. */
  method AddKeyLetters(key: string) returns (cleanKey: string, usedChars: set<char>)
    ensures cleanKey == KeyLetters(key) && usedChars == Elems(cleanKey)
  {
    var cleaned := CleanText(key);
    ghost var whole := Dedup(cleaned, {});
    cleanKey := "";
    usedChars := {};
    var i := 0;
    while i < |cleaned|
      invariant 0 <= i <= |cleaned|
      invariant usedChars == Elems(cleanKey)
      invariant cleanKey + Dedup(cleaned[i..], usedChars) == whole
    {
      var ch := cleaned[i];
      DedupStep(cleaned, i, usedChars, cleanKey, whole);
      ElemsAdd(cleanKey, ch);
      if ch !in usedChars {
        cleanKey := cleanKey + [ch];
        usedChars := usedChars + {ch};
      }
      i := i + 1;
    }
    assert cleaned[i..] == [];
  }

  /** The second loop: each letter of the alphabet other than 'j' not yet
      used is appended and marked used. */
  method AddAlphabet(ghost key: string, keyLetters: string, keyUsed: set<char>)
    returns (cleanKey: string, usedChars: set<char>)
    requires keyLetters == KeyLetters(key) && keyUsed == Elems(keyLetters)
    ensures cleanKey == Square(key)
  {
    ghost var square := Square(key);
    cleanKey, usedChars := keyLetters, keyUsed;
    var j := 0;
    while j < 26
      invariant 0 <= j <= 26
      invariant usedChars == Elems(cleanKey)
      invariant cleanKey + Fill(j, usedChars) == square
    {
      var ch := ('a' as int + j) as char;
      FillStep(j, usedChars, cleanKey, square);
      ElemsAdd(cleanKey, ch);
      if ch != 'j' && ch !in usedChars {
        cleanKey := cleanKey + [ch];
        usedChars := usedChars + {ch};
      }
      j := j + 1;
    }
  }

  /** The third loop: the five slices of five letters. */
  method SliceRows(cleanKey: string) returns (matrix: seq<seq<char>>)
    ensures matrix == Rows(cleanKey)
  {
    matrix := [];
    var r := 0;
    while r < 5
      invariant 0 <= r <= 5
      invariant matrix == Rows(cleanKey)[..r]
    {
      matrix := matrix + [Slice(cleanKey, r * 5, (r + 1) * 5)];
      r := r + 1;
    }
  }

  // ----- findCharInMatrix -----

  /** Cell (r, c) of the matrix exists and holds `ch`. */
  predicate HasAt(matrix: seq<seq<char>>, r: int, c: int, ch: char)
    requires 0 <= r < |matrix| && 0 <= c
  {
    c < |matrix[r]| && matrix[r][c] == ch
  }

  /** `findCharInMatrix`: the first cell holding `ch` in row-major order, or
      (-1, -1) when no cell holds it. */
  method FindCharInMatrix(matrix: seq<seq<char>>, ch: char) returns (row: int, col: int)
    requires |matrix| == 5
    ensures row == -1 ==> col == -1
    ensures row == -1 ==> forall r, c :: 0 <= r < 5 && 0 <= c < 5 ==> !HasAt(matrix, r, c, ch)
    ensures row != -1 ==> 0 <= row < 5 && 0 <= col < 5 && HasAt(matrix, row, col, ch)
    ensures row != -1 ==> forall r, c :: 0 <= r < 5 && 0 <= c < 5 && 5 * r + c < 5 * row + col ==>
      !HasAt(matrix, r, c, ch)
  {
    row := 0;
    while row < 5
      invariant 0 <= row <= 5
      invariant forall r, c :: 0 <= r < row && 0 <= c < 5 ==> !HasAt(matrix, r, c, ch)
    {
      col := 0;
      while col < 5
        invariant 0 <= col <= 5
        invariant forall c :: 0 <= c < col ==> !HasAt(matrix, row, c, ch)
      {
        if col < |matrix[row]| && matrix[row][col] == ch {
          return row, col;
        }
        col := col + 1;
      }
      row := row + 1;
    }
    return -1, -1;
  }

  // ----- positions and the digraph rules -----

  /** A (row, column) position. */
  datatype Pos = Pos(row: int, col: int)

  predicate InSquare(p: Pos) { 0 <= p.row < 5 && 0 <= p.col < 5 }

  /** The letter at a position of a 25-letter square. */
  function At(square: string, p: Pos): char
    requires |square| == 25 && InSquare(p)
  {
    square[5 * p.row + p.col]
  }

  /** The first index of `c` in `s`, or -1. */
  function IndexOf(s: string, c: char): (i: int)
    ensures -1 <= i < |s|
    ensures i >= 0 ==> s[i] == c
    ensures i < 0 ==> c !in s
  {
    if s == [] then -1
    else if s[0] == c then 0
    else
      var k := IndexOf(s[1..], c);
      if k < 0 then -1 else k + 1
  }

  /** The position `findCharInMatrix` reports for `c` in the matrix of
      `square`. */
  function Locate(square: string, c: char): Pos {
    var i := IndexOf(square, c);
    if i < 0 then Pos(-1, -1) else Pos(i / 5, i % 5)
  }

  /** The positions of the encrypted pair: same row, each moves right; same
      column, each moves down; otherwise the columns are swapped. */
  function EncryptPos(p1: Pos, p2: Pos): (Pos, Pos) {
    if p1.row == p2.row then (Pos(p1.row, (p1.col + 1) % 5), Pos(p2.row, (p2.col + 1) % 5))
    else if p1.col == p2.col then (Pos((p1.row + 1) % 5, p1.col), Pos((p2.row + 1) % 5, p2.col))
    else (Pos(p1.row, p2.col), Pos(p2.row, p1.col))
  }

  /** The positions of the decrypted pair: left, up, or the columns swapped. */
  function DecryptPos(p1: Pos, p2: Pos): (Pos, Pos) {
    if p1.row == p2.row then (Pos(p1.row, (p1.col - 1 + 5) % 5), Pos(p2.row, (p2.col - 1 + 5) % 5))
    else if p1.col == p2.col then (Pos((p1.row - 1 + 5) % 5, p1.col), Pos((p2.row - 1 + 5) % 5, p2.col))
    else (Pos(p1.row, p2.col), Pos(p2.row, p1.col))
  }

  /** The encrypted digraph `a b`. */
  function EncryptedPair(square: string, a: char, b: char): (r: string)
    requires IsSquare(square) && IsSquareLetter(a) && IsSquareLetter(b)
    ensures |r| == 2 && AllSquareLetters(r)
  {
    var p1, p2 := Locate(square, a), Locate(square, b);
    LocateFound(square, a);
    LocateFound(square, b);
    var q := EncryptPos(p1, p2);
    PosInSquare(p1, p2);
    [At(square, q.0), At(square, q.1)]
  }

  /** The decrypted digraph `a b`. */
  function DecryptedPair(square: string, a: char, b: char): (r: string)
    requires IsSquare(square) && IsSquareLetter(a) && IsSquareLetter(b)
    ensures |r| == 2 && AllSquareLetters(r)
  {
    var p1, p2 := Locate(square, a), Locate(square, b);
    LocateFound(square, a);
    LocateFound(square, b);
    var q := DecryptPos(p1, p2);
    PosInSquare(p1, p2);
    [At(square, q.0), At(square, q.1)]
  }

  /** Every complete pair of `s` encrypted; a trailing unpaired letter is
      dropped. */
  function Forward(square: string, s: string): (r: string)
    requires IsSquare(square) && AllSquareLetters(s)
    ensures |r| == PairedLength(|s|) && AllSquareLetters(r)
    decreases |s|
  {
    if |s| < 2 then []
    else
      var rest := Forward(square, s[2..]);
      EncryptedPair(square, s[0], s[1]) + rest
  }

  /** Every complete pair of `s` decrypted; a trailing unpaired letter is
      dropped. */
  function Backward(square: string, s: string): (r: string)
    requires IsSquare(square) && AllSquareLetters(s)
    ensures |r| == PairedLength(|s|) && AllSquareLetters(r)
    decreases |s|
  {
    if |s| < 2 then []
    else
      var rest := Backward(square, s[2..]);
      DecryptedPair(square, s[0], s[1]) + rest
  }

  // ----- preparePlayfairText -----

  /** The first `n` steps of the preparation loop: each letter, followed by an
      'x' when the next letter equals it. */
  function Doubled(p: string, n: nat): string
    requires n <= |p|
    decreases n
  {
    if n == 0 then []
    else
      var i := n - 1;
      Doubled(p, i) + [p[i]] + (if i < |p| - 1 && p[i] == p[i + 1] then "x" else "")
  }

  /** What `preparePlayfairText(text)` returns: it splits into complete
      pairs of square letters. */
  function Prepared(text: string): (r: string)
    ensures PairedLength(|r|) == |r| && AllSquareLetters(r)
  {
    var p := CleanText(text);
    var d := Doubled(p, |p|);
    DoubledLetters(p, |p|);
    var r := if |d| % 2 != 0 then d + "x" else d;
    PairedLengthIs(|r|);
    r
  }

  /** The prepared text has even length. */
  lemma PreparedEven(text: string)
    ensures |Prepared(text)| % 2 == 0
  {
    PairedLengthEven(|Prepared(text)|);
  }

  /** `preparePlayfairText`: the filler loop, then the trailing 'x'. */
  method PrepareText(text: string) returns (result: string)
    ensures result == Prepared(text)
  {
    var prepared := CleanText(text);
    result := "";
    var i := 0;
    while i < |prepared|
      invariant 0 <= i <= |prepared|
      invariant result == Doubled(prepared, i)
    {
      assert Doubled(prepared, i + 1) == Doubled(prepared, i) + [prepared[i]]
        + (if i < |prepared| - 1 && prepared[i] == prepared[i + 1] then "x" else "");
      result := result + [prepared[i]];
      if i < |prepared| - 1 && prepared[i] == prepared[i + 1] {
        result := result + "x";
      }
      i := i + 1;
    }
    ghost var doubled := result;
    if |result| % 2 != 0 {
      result := result + "x";
    }
    assert result == if |doubled| % 2 != 0 then doubled + "x" else doubled;
  }

  // ----- encryptPlayfair and decryptPlayfair -----

  /** What `encryptPlayfair(plaintext, key)` returns. A non-empty key without
      letters still builds a square, the plain alphabet. */
  function Encrypted(plaintext: string, key: string): (r: string)
    ensures key == [] ==> r == plaintext
    ensures key != [] ==> |r| == |Prepared(plaintext)| && AllSquareLetters(r)
  {
    if key == [] then plaintext
    else
      var prepared := Prepared(plaintext);
      SquareIsSquare(key);
      Forward(Square(key), prepared)
  }

  /** What `decryptPlayfair(ciphertext, key)` returns: the fillers stay. */
  function Decrypted(ciphertext: string, key: string): (r: string)
    ensures key == [] ==> r == ciphertext
    ensures key != [] ==> |r| == PairedLength(|Clean(ciphertext)|) && AllSquareLetters(r)
  {
    if key == [] then ciphertext
    else
      SquareIsSquare(key);
      Backward(Square(key), CleanText(ciphertext))
  }

  /** The rules of the encryption loop on one digraph. */
  method EncryptDigraph(matrix: seq<seq<char>>, ghost square: string, char1: char, char2: char)
    returns (pair: string)
    requires IsSquare(square) && matrix == Rows(square)
    requires IsSquareLetter(char1) && IsSquareLetter(char2)
    ensures pair == EncryptedPair(square, char1, char2)
  {
    var row1, col1 := FindCharInMatrix(matrix, char1);
    var row2, col2 := FindCharInMatrix(matrix, char2);
    FoundIsLocate(square, char1, row1, col1);
    FoundIsLocate(square, char2, row2, col2);
    var newRow1, newCol1, newRow2, newCol2 := row1, col1, row2, col2;
    if row1 == row2 {
      newCol1 := (col1 + 1) % 5;
      newCol2 := (col2 + 1) % 5;
    } else if col1 == col2 {
      newRow1 := (row1 + 1) % 5;
      newRow2 := (row2 + 1) % 5;
    } else {
      newCol1 := col2;
      newCol2 := col1;
    }
    RowsAt(square, Pos(newRow1, newCol1));
    RowsAt(square, Pos(newRow2, newCol2));
    pair := [matrix[newRow1][newCol1], matrix[newRow2][newCol2]];
  }

  /** The rules of the decryption loop on one digraph. */
  method DecryptDigraph(matrix: seq<seq<char>>, ghost square: string, char1: char, char2: char)
    returns (pair: string)
    requires IsSquare(square) && matrix == Rows(square)
    requires IsSquareLetter(char1) && IsSquareLetter(char2)
    ensures pair == DecryptedPair(square, char1, char2)
  {
    var row1, col1 := FindCharInMatrix(matrix, char1);
    var row2, col2 := FindCharInMatrix(matrix, char2);
    FoundIsLocate(square, char1, row1, col1);
    FoundIsLocate(square, char2, row2, col2);
    var newRow1, newCol1, newRow2, newCol2 := row1, col1, row2, col2;
    if row1 == row2 {
      newCol1 := (col1 - 1 + 5) % 5;
      newCol2 := (col2 - 1 + 5) % 5;
    } else if col1 == col2 {
      newRow1 := (row1 - 1 + 5) % 5;
      newRow2 := (row2 - 1 + 5) % 5;
    } else {
      newCol1 := col2;
      newCol2 := col1;
    }
    RowsAt(square, Pos(newRow1, newCol1));
    RowsAt(square, Pos(newRow2, newCol2));
    pair := [matrix[newRow1][newCol1], matrix[newRow2][newCol2]];
  }

  /** `encryptPlayfair`: the prepared text, one digraph per step. */
  method Encrypt(plaintext: string, key: string) returns (result: string)
    ensures result == Encrypted(plaintext, key)
  {
    if key == [] { return plaintext; }
    var matrix := GenerateMatrix(key);
    var prepared := PrepareText(plaintext);
    SquareIsSquare(key);
    result := EncryptPairs(matrix, Square(key), prepared);
    EncryptedIs(plaintext, key);
  }

  /** The loop of `encryptPlayfair`: the digraph rules on each pair. */
  method EncryptPairs(matrix: seq<seq<char>>, ghost square: string, prepared: string)
    returns (result: string)
    requires IsSquare(square) && matrix == Rows(square)
    requires AllSquareLetters(prepared) && PairedLength(|prepared|) == |prepared|
    ensures result == Forward(square, prepared)
  {
    ghost var whole := Forward(square, prepared);
    assert prepared[0..] == prepared;
    result := "";
    var i := 0;
    while i < |prepared|
      invariant 0 <= i <= |prepared| && PairedLength(|prepared| - i) == |prepared| - i
      invariant result + Forward(square, prepared[i..]) == whole
    {
      var char1, char2 := prepared[i], prepared[i + 1];
      ForwardStep(square, prepared, i, result, whole);
      var pair := EncryptDigraph(matrix, square, char1, char2);
      result := result + pair;
      i := i + 2;
    }
    assert result == whole;
  }

  /** `decryptPlayfair`: the cleaned ciphertext, one digraph per step. */
  method Decrypt(ciphertext: string, key: string) returns (result: string)
    ensures result == Decrypted(ciphertext, key)
  {
    if key == [] { return ciphertext; }
    var matrix := GenerateMatrix(key);
    var cleaned := CleanText(ciphertext);
    SquareIsSquare(key);
    result := DecryptPairs(matrix, Square(key), cleaned);
    DecryptedIs(ciphertext, key);
  }

  /** The loop of `decryptPlayfair`: the digraph rules on each pair, stopping
      before an unpaired last letter. */
  method DecryptPairs(matrix: seq<seq<char>>, ghost square: string, cleaned: string)
    returns (result: string)
    requires IsSquare(square) && matrix == Rows(square) && AllSquareLetters(cleaned)
    ensures result == Backward(square, cleaned)
  {
    ghost var whole := Backward(square, cleaned);
    assert cleaned[0..] == cleaned;
    result := "";
    var i := 0;
    while i < |cleaned|
      invariant 0 <= i <= |cleaned|
      invariant result + Backward(square, cleaned[i..]) == whole
    {
      if i + 1 >= |cleaned| {
        break;
      }
      var char1, char2 := cleaned[i], cleaned[i + 1];
      BackwardStep(square, cleaned, i, result, whole);
      var pair := DecryptDigraph(matrix, square, char1, char2);
      result := result + pair;
      i := i + 2;
    }
    assert Backward(square, cleaned[i..]) == [];
  }

  // ----- lemmas: the loops -----

  /** One step of the key loop. */
  lemma DedupStep(s: string, i: int, used: set<char>, done: string, whole: string)
    requires 0 <= i < |s| && done + Dedup(s[i..], used) == whole
    ensures if s[i] in used then done + Dedup(s[i + 1..], used) == whole
      else (done + [s[i]]) + Dedup(s[i + 1..], used + {s[i]}) == whole
  {
    assert s[i..][1..] == s[i + 1..];
  }

  /** One step of the alphabet loop. */
  lemma FillStep(j: nat, used: set<char>, done: string, whole: string)
    requires j < 26 && done + Fill(j, used) == whole
    ensures var c := ('a' as int + j) as char;
      if c != 'j' && c !in used then (done + [c]) + Fill(j + 1, used + {c}) == whole
      else done + Fill(j + 1, used) == whole
  {
  }

  /** The characters of `s + [c]`. */
  lemma ElemsAdd(s: string, c: char)
    ensures Elems(s + [c]) == Elems(s) + {c}
  {
    assert forall d :: d in s + [c] <==> d in s || d == c;
  }

  lemma ForwardStep(square: string, s: string, i: int, done: string, whole: string)
    requires IsSquare(square) && AllSquareLetters(s) && 0 <= i && i + 1 < |s|
    requires done + Forward(square, s[i..]) == whole
    ensures (done + EncryptedPair(square, s[i], s[i + 1])) + Forward(square, s[i + 2..]) == whole
  {
    assert s[i..][2..] == s[i + 2..];
  }

  lemma BackwardStep(square: string, s: string, i: int, done: string, whole: string)
    requires IsSquare(square) && AllSquareLetters(s) && 0 <= i && i + 1 < |s|
    requires done + Backward(square, s[i..]) == whole
    ensures (done + DecryptedPair(square, s[i], s[i + 1])) + Backward(square, s[i + 2..]) == whole
  {
    assert s[i..][2..] == s[i + 2..];
  }

  /** With a non-empty key, the encryption is the prepared text run forward
      through the key square. */
  lemma EncryptedIs(plaintext: string, key: string)
    requires key != []
    ensures IsSquare(Square(key))
    ensures Encrypted(plaintext, key) == Forward(Square(key), Prepared(plaintext))
  {
    SquareIsSquare(key);
  }

  /** With a non-empty key, the decryption is the cleaned ciphertext run
      backward through the key square. */
  lemma DecryptedIs(ciphertext: string, key: string)
    requires key != []
    ensures IsSquare(Square(key))
    ensures Decrypted(ciphertext, key) == Backward(Square(key), CleanText(ciphertext))
  {
    SquareIsSquare(key);
  }

  /** The preparation loop produces only square letters. */
  lemma {:induction false} DoubledLetters(p: string, n: nat)
    requires n <= |p| && AllSquareLetters(p)
    ensures AllSquareLetters(Doubled(p, n))
    decreases n
  {
    if n > 0 {
      DoubledLetters(p, n - 1);
    }
  }

  // ----- lemmas: the key square -----

  /** `[x] + s` has no repeats when `s` has none and lacks `x`. */
  lemma DistinctCons(x: char, s: string)
    requires Distinct(s) && x !in s
    ensures Distinct([x] + s)
  {
    var t := [x] + s;
    forall i, j | 0 <= i < j < |t| ensures t[i] != t[j] {
      assert t[j] == s[j - 1];
      if i > 0 {
        assert t[i] == s[i - 1];
      }
    }
  }

  /** Two sequences without repeats and without common characters. */
  lemma DistinctAppend(a: string, b: string)
    requires Distinct(a) && Distinct(b)
    requires forall c :: c in a ==> c !in b
    ensures Distinct(a + b)
  {
    var t := a + b;
    forall i, j | 0 <= i < j < |t| ensures t[i] != t[j] {
      if j >= |a| {
        assert t[j] == b[j - |a|];
        assert b[j - |a|] in b;
        if i < |a| {
          assert t[i] == a[i] && a[i] in a;
        } else {
          assert t[i] == b[i - |a|];
        }
      } else {
        assert t[i] == a[i] && t[j] == a[j];
      }
    }
  }

  /** The first loop keeps exactly the characters not yet used, once each. */
  lemma {:induction false} DedupElems(s: string, used: set<char>)
    ensures forall c :: c in Dedup(s, used) <==> c in s && c !in used
    ensures Distinct(Dedup(s, used))
    decreases |s|
  {
    if s != [] {
      assert s == [s[0]] + s[1..];
      if s[0] in used {
        DedupElems(s[1..], used);
      } else {
        var rest := Dedup(s[1..], used + {s[0]});
        DedupElems(s[1..], used + {s[0]});
        DistinctCons(s[0], rest);
      }
    }
  }

  /** The second loop keeps exactly the letters from `'a' + i` on that are not
      'j' and not yet used, once each. */
  lemma {:induction false} FillElems(i: nat, used: set<char>)
    ensures forall c :: c in Fill(i, used) <==>
      IsSquareLetter(c) && c as int >= 'a' as int + i && c !in used
    ensures Distinct(Fill(i, used))
    decreases 26 - i
  {
    if i < 26 {
      var c := ('a' as int + i) as char;
      if c != 'j' && c !in used {
        FillElems(i + 1, used + {c});
        DistinctCons(c, Fill(i + 1, used + {c}));
      } else {
        FillElems(i + 1, used);
      }
    }
  }

  /** A sequence without repeats has as many distinct characters as letters. */
  lemma {:induction false} DistinctCard(s: string)
    requires Distinct(s)
    ensures |Elems(s)| == |s|
  {
    if s != [] {
      assert Distinct(s[1..]) by {
        forall i, j | 0 <= i < j < |s[1..]| ensures s[1..][i] != s[1..][j] {
          assert s[1..][i] == s[i + 1] && s[1..][j] == s[j + 1];
        }
      }
      DistinctCard(s[1..]);
      assert s == [s[0]] + s[1..];
      assert Elems(s) == {s[0]} + Elems(s[1..]);
      assert s[0] !in Elems(s[1..]);
    }
  }

  /** Marking a letter below `'a' + i` as used does not change the rest of the
      alphabet loop. */
  lemma {:induction false} FillIgnoresEarlier(i: nat, used: set<char>, c: char)
    requires c as int < 'a' as int + i
    ensures Fill(i, used + {c}) == Fill(i, used)
    decreases 26 - i
  {
    if i < 26 {
      var d := ('a' as int + i) as char;
      if d != 'j' && d !in used {
        assert used + {c} + {d} == used + {d} + {c};
        FillIgnoresEarlier(i + 1, used + {d}, c);
      } else {
        FillIgnoresEarlier(i + 1, used, c);
      }
    }
  }

  /** The alphabet loop run from step `i` with nothing used. */
  lemma {:induction false} FillFresh(i: nat)
    requires i < 26
    ensures var c := ('a' as int + i) as char;
      Fill(i, {}) == (if c != 'j' then [c] else []) + Fill(i + 1, {})
  {
    var c := ('a' as int + i) as char;
    if c != 'j' {
      FillIgnoresEarlier(i + 1, {}, c);
      assert {} + {c} == {c};
    }
  }

  /** The alphabet without 'j'. */
  const Alphabet: string := seq(25, AlphabetLetter)

  /** Letter `k` of `Alphabet`: 'j' is skipped. */
  function AlphabetLetter(k: int): char
    requires 0 <= k < 25
  {
    ('a' as int + (if k < 9 then k else k + 1)) as char
  }

  /** Where the alphabet loop stands in `Alphabet` at step `i`. */
  function AlphabetIndex(i: nat): nat
    requires i <= 26
  {
    if i <= 9 then i else i - 1
  }

  /** With nothing used, the alphabet loop from step `i` on appends the rest
      of `Alphabet`. */
  lemma {:induction false} FillAlphabet(i: nat)
    requires i <= 26
    ensures Fill(i, {}) == Alphabet[AlphabetIndex(i)..]
    decreases 26 - i
  {
    if i < 26 {
      FillFresh(i);
      FillAlphabet(i + 1);
      if i != 9 {
        var k := AlphabetIndex(i);
        assert Alphabet[k..] == [Alphabet[k]] + Alphabet[k + 1..];
      }
    }
  }

  /** Every square letter is in `Alphabet`, and so in every key square. */
  lemma InAlphabet(c: char)
    requires IsSquareLetter(c)
    ensures AlphabetLetter(AlphabetIndex(c as int - 'a' as int)) == c
  {
  }

  lemma AlphabetIsFill()
    ensures Fill(0, {}) == Alphabet
  {
    FillAlphabet(0);
  }

  /** `Alphabet` written out. */
  lemma AlphabetLiteral()
    ensures Alphabet == "abcdefghiklmnopqrstuvwxyz"
  {
    assert Alphabet[..9] == "abcdefghi";
    assert Alphabet[9..] == "klmnopqrstuvwxyz";
    assert Alphabet == Alphabet[..9] + Alphabet[9..];
  }

  /** The key square holds the 25 letters other than 'j', each exactly once. */
  lemma SquareIsSquare(key: string)
    ensures IsSquare(Square(key))
  {
    var k := KeyLetters(key);
    var f := Fill(0, Elems(k));
    var sq := Square(key);
    assert forall c :: c in sq <==> IsSquareLetter(c) by {
      DedupElems(CleanText(key), {});
      FillElems(0, Elems(k));
      assert forall c :: c in sq <==> c in k || c in f;
    }
    assert Distinct(sq) by {
      DedupElems(CleanText(key), {});
      FillElems(0, Elems(k));
      DistinctAppend(k, f);
    }
    assert AllSquareLetters(sq) by {
      forall i | 0 <= i < |sq| ensures IsSquareLetter(sq[i]) {
        assert sq[i] in sq;
      }
    }
    assert forall i :: 0 <= i < 25 ==> AlphabetLetter(i) in sq by {
      assert forall i :: 0 <= i < 25 ==> IsSquareLetter(AlphabetLetter(i));
    }
    assert |sq| == 25 by {
      FillElems(0, {});
      AlphabetIsFill();
      DistinctCard(sq);
      DistinctCard(Alphabet);
      assert Elems(sq) == Elems(Alphabet);
    }
  }

  /** The key's letters come first in the square, without repeats, and they
      are exactly the letters of the cleaned key. */
  lemma KeyLettersFirst(key: string)
    ensures Square(key)[..|KeyLetters(key)|] == KeyLetters(key)
    ensures Distinct(KeyLetters(key))
    ensures forall c :: c in KeyLetters(key) <==> c in CleanText(key)
  {
    DedupElems(CleanText(key), {});
  }

  /** A key without letters gives the alphabetical square. */
  lemma LetterlessKeySquare(key: string)
    requires !HasLetter(key)
    ensures Square(key) == "abcdefghiklmnopqrstuvwxyz"
  {
    CleanEmpty(key);
    assert CleanText(key) == [];
    assert Elems([]) == {};
    AlphabetIsFill();
    AlphabetLiteral();
  }

  // ----- lemmas: positions -----

  /** Row `r` of the matrix of a 25-letter square is its slice [5r, 5r + 5). */
  lemma RowsAt(square: string, p: Pos)
    requires |square| == 25 && InSquare(p)
    ensures |Rows(square)[p.row]| == 5 && Rows(square)[p.row][p.col] == At(square, p)
  {
    assert Rows(square)[p.row] == square[5 * p.row .. 5 * p.row + 5];
  }

  /** In a square, a letter is found at its only position. */
  lemma IndexOfDistinct(s: string, k: int)
    requires Distinct(s) && 0 <= k < |s|
    ensures IndexOf(s, s[k]) == k
  {
    var i := IndexOf(s, s[k]);
    assert s[i] == s[k];
  }

  /** `findCharInMatrix` finds the letter at a position where it is. */
  lemma LocateAt(square: string, p: Pos)
    requires IsSquare(square) && InSquare(p)
    ensures Locate(square, At(square, p)) == p
  {
    var k := 5 * p.row + p.col;
    IndexOfDistinct(square, k);
    DivModUnique(k, 5, p.row, p.col);
  }

  /** Every square letter is found, at a position inside the square. */
  lemma LocateFound(square: string, c: char)
    requires IsSquare(square) && IsSquareLetter(c)
    ensures InSquare(Locate(square, c)) && At(square, Locate(square, c)) == c
  {
    var i := IndexOf(square, c);
    InAlphabet(c);
    DivModUnique(i, 5, i / 5, i % 5);
  }

  /** What `findCharInMatrix` returns on the matrix of a square is `Locate`:
      it never returns (-1, -1) for a square letter. */
  lemma FoundIsLocate(square: string, ch: char, row: int, col: int)
    requires IsSquare(square) && IsSquareLetter(ch)
    requires row == -1 ==> forall r, c :: 0 <= r < 5 && 0 <= c < 5 ==> !HasAt(Rows(square), r, c, ch)
    requires row != -1 ==> 0 <= row < 5 && 0 <= col < 5 && HasAt(Rows(square), row, col, ch)
    ensures row != -1 && Pos(row, col) == Locate(square, ch)
  {
    var p := Locate(square, ch);
    LocateFound(square, ch);
    RowsAt(square, p);
    assert HasAt(Rows(square), p.row, p.col, ch);
    RowsAt(square, Pos(row, col));
    LocateAt(square, Pos(row, col));
  }

  /** Moving right then left (or down then up) on five cells. */
  lemma Shift5(x: int)
    requires 0 <= x < 5
    ensures 0 <= (x + 1) % 5 < 5 && 0 <= (x - 1 + 5) % 5 < 5
    ensures ((x + 1) % 5 - 1 + 5) % 5 == x
    ensures ((x - 1 + 5) % 5 + 1) % 5 == x
    ensures (x + 1) % 5 != x && (x - 1 + 5) % 5 != x
  {
    if x == 4 {
      DivModUnique(5, 5, 1, 0);
      DivModUnique(4, 5, 0, 4);
      DivModUnique(8, 5, 1, 3);
    } else if x == 0 {
      DivModUnique(1, 5, 0, 1);
      DivModUnique(5, 5, 1, 0);
      DivModUnique(4, 5, 0, 4);
    } else {
      DivModUnique(x + 1, 5, 0, x + 1);
      DivModUnique(x + 5, 5, 1, x);
      DivModUnique(x + 4, 5, 1, x - 1);
      DivModUnique(x, 5, 0, x);
    }
  }

  /** Both rules stay inside the square. */
  lemma PosInSquare(p1: Pos, p2: Pos)
    requires InSquare(p1) && InSquare(p2)
    ensures InSquare(EncryptPos(p1, p2).0) && InSquare(EncryptPos(p1, p2).1)
    ensures InSquare(DecryptPos(p1, p2).0) && InSquare(DecryptPos(p1, p2).1)
  {
    Shift5(p1.row);
    Shift5(p1.col);
    Shift5(p2.row);
    Shift5(p2.col);
  }

  /** The decryption rules undo the encryption rules. */
  lemma DecryptPosUndoes(p1: Pos, p2: Pos)
    requires InSquare(p1) && InSquare(p2)
    ensures var e := EncryptPos(p1, p2); DecryptPos(e.0, e.1) == (p1, p2)
  {
    if p1.row == p2.row {
      Shift5(p1.col);
      Shift5(p2.col);
    } else if p1.col == p2.col {
      Shift5(p1.row);
      Shift5(p2.row);
    }
  }

  /** The encryption rules undo the decryption rules. */
  lemma EncryptPosUndoes(p1: Pos, p2: Pos)
    requires InSquare(p1) && InSquare(p2)
    ensures var d := DecryptPos(p1, p2); EncryptPos(d.0, d.1) == (p1, p2)
  {
    if p1.row == p2.row {
      Shift5(p1.col);
      Shift5(p2.col);
    } else if p1.col == p2.col {
      Shift5(p1.row);
      Shift5(p2.row);
    }
  }

  // ----- lemmas: the cipher -----

  /** Decrypting an encrypted digraph gives it back, and the reverse. */
  lemma PairRoundTrip(square: string, a: char, b: char)
    requires IsSquare(square) && IsSquareLetter(a) && IsSquareLetter(b)
    ensures var e := EncryptedPair(square, a, b); DecryptedPair(square, e[0], e[1]) == [a, b]
    ensures var d := DecryptedPair(square, a, b); EncryptedPair(square, d[0], d[1]) == [a, b]
  {
    var p1, p2 := Locate(square, a), Locate(square, b);
    LocateFound(square, a);
    LocateFound(square, b);
    PosInSquare(p1, p2);
    DecryptPosUndoes(p1, p2);
    EncryptPosUndoes(p1, p2);
    var e, d := EncryptPos(p1, p2), DecryptPos(p1, p2);
    LocateAt(square, e.0);
    LocateAt(square, e.1);
    LocateAt(square, d.0);
    LocateAt(square, d.1);
  }

  /** No letter of a digraph encrypts to itself. */
  lemma NoFixedLetter(square: string, a: char, b: char)
    requires IsSquare(square) && IsSquareLetter(a) && IsSquareLetter(b)
    ensures EncryptedPair(square, a, b)[0] != a && EncryptedPair(square, a, b)[1] != b
  {
    var p1, p2 := Locate(square, a), Locate(square, b);
    LocateFound(square, a);
    LocateFound(square, b);
    PosInSquare(p1, p2);
    var e := EncryptPos(p1, p2);
    if p1.row == p2.row {
      Shift5(p1.col);
      Shift5(p2.col);
    } else if p1.col == p2.col {
      Shift5(p1.row);
      Shift5(p2.row);
    }
    assert e.0 != p1 && e.1 != p2;
    LocateAt(square, e.0);
    LocateAt(square, e.1);
  }

  /** Running backward undoes running forward on complete pairs. */
  lemma {:induction false} BackUndoesForward(square: string, s: string)
    requires IsSquare(square) && AllSquareLetters(s) && PairedLength(|s|) == |s|
    ensures Backward(square, Forward(square, s)) == s
    decreases |s|
  {
    if |s| >= 2 {
      var first := EncryptedPair(square, s[0], s[1]);
      var rest := Forward(square, s[2..]);
      var e := Forward(square, s);
      assert e[0] == first[0] && e[1] == first[1] && e[2..] == rest by {
        assert e == first + rest;
      }
      assert DecryptedPair(square, e[0], e[1]) == s[..2] by {
        PairRoundTrip(square, s[0], s[1]);
      }
      assert Backward(square, rest) == s[2..] by {
        BackUndoesForward(square, s[2..]);
      }
      assert |e| >= 2;
      assert Backward(square, e) == DecryptedPair(square, e[0], e[1]) + Backward(square, e[2..]);
      assert s == s[..2] + s[2..];
    }
  }

  /** Running forward undoes running backward on complete pairs. */
  lemma {:induction false} ForwardUndoesBack(square: string, s: string)
    requires IsSquare(square) && AllSquareLetters(s) && PairedLength(|s|) == |s|
    ensures Forward(square, Backward(square, s)) == s
    decreases |s|
  {
    if |s| >= 2 {
      var first := DecryptedPair(square, s[0], s[1]);
      var rest := Backward(square, s[2..]);
      var e := Backward(square, s);
      assert e[0] == first[0] && e[1] == first[1] && e[2..] == rest by {
        assert e == first + rest;
      }
      assert EncryptedPair(square, e[0], e[1]) == s[..2] by {
        PairRoundTrip(square, s[0], s[1]);
      }
      assert Forward(square, rest) == s[2..] by {
        ForwardUndoesBack(square, s[2..]);
      }
      assert |e| >= 2;
      assert Forward(square, e) == EncryptedPair(square, e[0], e[1]) + Forward(square, e[2..]);
      assert s == s[..2] + s[2..];
    }
  }

  /** Decryption gives back the prepared plaintext, fillers included. */
  lemma RoundTrip(plaintext: string, key: string)
    requires key != []
    ensures Decrypted(Encrypted(plaintext, key), key) == Prepared(plaintext)
  {
    var square := Square(key);
    var prepared := Prepared(plaintext);
    EncryptedIs(plaintext, key);
    var e := Forward(square, prepared);
    DecryptedIs(e, key);
    CleanTextOfSquareLetters(e);
    BackUndoesForward(square, prepared);
  }

  /** The digraph loop re-applied to the decryption gives back a cleaned
      ciphertext of complete pairs. */
  lemma ForwardUndoesBackText(ciphertext: string, key: string)
    requires key != []
    requires |CleanText(ciphertext)| % 2 == 0
    ensures IsSquare(Square(key))
    ensures Forward(Square(key), Decrypted(ciphertext, key)) == CleanText(ciphertext)
  {
    DecryptedIs(ciphertext, key);
    PairedLengthIs(|CleanText(ciphertext)|);
    ForwardUndoesBack(Square(key), CleanText(ciphertext));
  }

  /** `cleanText` leaves a text of square letters alone. */
  lemma CleanTextOfSquareLetters(s: string)
    requires AllSquareLetters(s)
    ensures CleanText(s) == s
  {
    assert AllLetters(s);
    CleanShorter(s);
  }

  /** After the preparation loop, two equal neighbours are both fillers:
      every doubled letter of the text got an 'x' between its two copies. */
  lemma {:induction false} DoubledNoRepeat(p: string, n: nat)
    requires n <= |p|
    ensures var d := Doubled(p, n);
      forall i :: 0 <= i < |d| - 1 && d[i] == d[i + 1] ==> d[i] == 'x'
    ensures var d := Doubled(p, n);
      n > 0 ==> |d| > 0 && (d[|d| - 1] == 'x' || (d[|d| - 1] == p[n - 1] && (n < |p| ==> p[n - 1] != p[n])))
    decreases n
  {
    if n > 0 {
      var i := n - 1;
      var prev := Doubled(p, i);
      DoubledNoRepeat(p, i);
      var tail := [p[i]] + (if i < |p| - 1 && p[i] == p[i + 1] then "x" else "");
      var d := Doubled(p, n);
      assert d == prev + tail;
      forall k | 0 <= k < |d| - 1 && d[k] == d[k + 1] ensures d[k] == 'x' {
        if k + 1 < |prev| {
          assert d[k] == prev[k] && d[k + 1] == prev[k + 1];
        } else if k + 1 == |prev| {
          assert d[k] == prev[|prev| - 1] && d[k + 1] == p[i];
        } else {
          assert d[k] == p[i] && d[k + 1] == 'x';
        }
      }
    }
  }

  /** In the prepared text two equal neighbours are both 'x'. */
  lemma PreparedNoRepeat(text: string)
    ensures var r := Prepared(text);
      forall i :: 0 <= i < |r| - 1 && r[i] == r[i + 1] ==> r[i] == 'x'
  {
    var p := CleanText(text);
    var d := Doubled(p, |p|);
    DoubledNoRepeat(p, |p|);
    var r := Prepared(text);
    if |d| % 2 != 0 {
      assert r == d + "x";
      forall i | 0 <= i < |r| - 1 && r[i] == r[i + 1] ensures r[i] == 'x' {
        if i + 1 < |d| {
          assert r[i] == d[i] && r[i + 1] == d[i + 1];
        }
      }
    }
  }

  /** The preparation of "HELLO": "helxlo", the digraphs he, lx and lo. */
  lemma PreparedHello()
    ensures Prepared("HELLO") == "helxlo"
  {
    var p := CleanText("HELLO");
    assert p == "hello" by {
      CleanShorter("HELLO");
    }
    assert Doubled(p, 1) == "h";
    assert Doubled(p, 2) == "he";
    assert Doubled(p, 3) == "helx";
    assert Doubled(p, 4) == "helxl";
    assert Doubled(p, 5) == "helxlo";
  }

  /** The plain alphabet is a key square. */
  lemma AlphabetIsSquare()
    ensures IsSquare(Alphabet)
  {
    LetterlessKeySquare("1");
    AlphabetLiteral();
    SquareIsSquare("1");
  }

  /** In the plain alphabet square h sits at (1, 2) and e at (0, 4), so the
      rectangle rule sends "he" to "kc". */
  lemma AlphabetPairExample()
    ensures IsSquare(Alphabet) && EncryptedPair(Alphabet, 'h', 'e') == "kc"
  {
    AlphabetIsSquare();
    LocateAt(Alphabet, Pos(1, 2));
    LocateAt(Alphabet, Pos(0, 4));
    assert At(Alphabet, Pos(1, 4)) == 'k' && At(Alphabet, Pos(0, 2)) == 'c';
  }

  /** "he" needs no filler. */
  lemma PreparedHe()
    ensures Prepared("he") == "he"
  {
    var p := CleanText("he");
    assert p == "he" by {
      CleanShorter("he");
    }
    assert Doubled(p, 1) == "h";
    assert Doubled(p, 2) == "he";
  }

  /** A non-empty key without letters ("1") gives the plain alphabet square,
      under which "he" encrypts to "kc". */
  lemma LetterlessKeyExample()
    ensures Encrypted("he", "1") == "kc"
  {
    LetterlessKeySquare("1");
    AlphabetLiteral();
    EncryptedIs("he", "1");
    PreparedHe();
    AlphabetPairExample();
    assert Forward(Alphabet, "he") == EncryptedPair(Alphabet, 'h', 'e') + Forward(Alphabet, "");
  }
}
