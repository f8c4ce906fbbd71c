/** Columnar transposition (the first half of superEncryption.ts): the text is
    written row by row into a table with one column per key unit, and the
    columns are read in the order of their key units' ranks. Texts and keys
    are sequences of UTF-16 code units. */
module Transposition {
  import opened Letters
  import opened ExtendedVigenere

  // ----- sorting and ranks (getColumnOrder) -----

  /** The first index of `x` in `s`, or -1: `Array.prototype.indexOf`. */
  function IndexOf<T(==)>(s: seq<T>, x: T): (i: int)
    ensures -1 <= i < |s|
    ensures i >= 0 ==> s[i] == x && forall k :: 0 <= k < i ==> s[k] != x
    ensures i < 0 ==> x !in s
  {
    if s == [] then -1
    else if s[0] == x then 0
    else
      var k := IndexOf(s[1..], x);
      if k < 0 then -1 else k + 1
  }

  predicate Sorted(s: Units) {
    forall i, j :: 0 <= i < j < |s| ==> s[i] <= s[j]
  }

  /** No element occurs twice. */
  predicate Distinct<T(==)>(s: seq<T>) {
    forall i, j :: 0 <= i < j < |s| ==> s[i] != s[j]
  }

  /** `x` placed before the first element of sorted `s` that is not below it. */
  function Insert(s: Units, x: CodeUnit): (r: Units)
    ensures |r| == |s| + 1
  {
    if s == [] || x <= s[0] then [x] + s else [s[0]] + Insert(s[1..], x)
  }

  /** `[...keyChars].sort()`: the key's units in ascending order. The default
      sort compares one-unit strings by their code unit; any algorithm gives
      the same sequence, because a sorted permutation is unique. */
  function Sort(s: Units): (r: Units)
    ensures |r| == |s|
  {
    if s == [] then [] else Insert(Sort(s[1..]), s[0])
  }

  /** How many units of `s` are below `x`. */
  function CountLess(s: Units, x: int): (n: nat)
    ensures n <= |s|
  {
    if s == [] then 0 else (if s[0] < x then 1 else 0) + CountLess(s[1..], x)
  }

  /** `getColumnOrder`: the rank of each key position, the index of its unit's
      first occurrence in the sorted key. */
  function ColumnOrder(key: Units): (order: seq<int>)
    ensures |order| == |key|
  {
    var sorted := Sort(key);
    seq(|key|, c requires 0 <= c < |key| => IndexOf(sorted, key[c]))
  }

  /** `Insert` adds `x` to the multiset of `s`. */
  lemma {:induction false} InsertMultiset(s: Units, x: CodeUnit)
    ensures multiset(Insert(s, x)) == multiset(s) + multiset{x}
    decreases |s|
  {
    if s != [] && x > s[0] {
      InsertMultiset(s[1..], x);
      assert s == [s[0]] + s[1..];
    }
  }

  /** `Insert` keeps a lower bound of `s` and `x`. */
  lemma {:induction false} InsertBound(s: Units, x: CodeUnit, b: int)
    requires b <= x && forall k :: 0 <= k < |s| ==> b <= s[k]
    ensures forall k :: 0 <= k < |Insert(s, x)| ==> b <= Insert(s, x)[k]
    decreases |s|
  {
    if s != [] && x > s[0] {
      assert forall k :: 0 <= k < |s[1..]| ==> b <= s[1..][k] by {
        forall k | 0 <= k < |s[1..]| ensures b <= s[1..][k] {
          assert s[1..][k] == s[k + 1];
        }
      }
      InsertBound(s[1..], x, b);
    }
  }

  lemma {:induction false} InsertSorted(s: Units, x: CodeUnit)
    requires Sorted(s)
    ensures Sorted(Insert(s, x))
    decreases |s|
  {
    if s != [] && x > s[0] {
      var rest := Insert(s[1..], x);
      assert Sorted(s[1..]) by {
        forall i, j | 0 <= i < j < |s[1..]| ensures s[1..][i] <= s[1..][j] {
          assert s[1..][i] == s[i + 1] && s[1..][j] == s[j + 1];
        }
      }
      InsertSorted(s[1..], x);
      assert forall k :: 0 <= k < |s[1..]| ==> s[0] <= s[1..][k] by {
        forall k | 0 <= k < |s[1..]| ensures s[0] <= s[1..][k] {
          assert s[1..][k] == s[k + 1];
        }
      }
      InsertBound(s[1..], x, s[0]);
      var r := [s[0]] + rest;
      forall i, j | 0 <= i < j < |r| ensures r[i] <= r[j] {
        assert r[j] == rest[j - 1];
        if i > 0 {
          assert r[i] == rest[i - 1];
        }
      }
    }
  }

  /** `Sort` returns an ascending permutation of its input. */
  lemma {:induction false} SortSorted(s: Units)
    ensures Sorted(Sort(s)) && multiset(Sort(s)) == multiset(s)
  {
    if s != [] {
      SortSorted(s[1..]);
      InsertSorted(Sort(s[1..]), s[0]);
      InsertMultiset(Sort(s[1..]), s[0]);
      assert s == [s[0]] + s[1..];
    }
  }

  /** Inserting `x` adds one to the count below `y` exactly when `x < y`. */
  lemma {:induction false} CountLessInsert(s: Units, x: CodeUnit, y: int)
    ensures CountLess(Insert(s, x), y) == CountLess(s, y) + (if x < y then 1 else 0)
    decreases |s|
  {
    if s != [] && x > s[0] {
      CountLessInsert(s[1..], x, y);
      assert Insert(s, x)[1..] == Insert(s[1..], x);
    }
  }

  /** Sorting keeps the count of units below `y`. */
  lemma {:induction false} CountLessSort(s: Units, y: int)
    ensures CountLess(Sort(s), y) == CountLess(s, y)
  {
    if s != [] {
      CountLessSort(s[1..], y);
      CountLessInsert(Sort(s[1..]), s[0], y);
    }
  }

  /** In a sorted sequence, the first occurrence of `x` comes after exactly
      the units below `x`. */
  lemma {:induction false} IndexOfSorted(s: Units, x: CodeUnit)
    requires Sorted(s) && x in s
    ensures IndexOf(s, x) == CountLess(s, x)
  {
    assert s == [s[0]] + s[1..];
    assert Sorted(s[1..]) by {
      forall i, j | 0 <= i < j < |s[1..]| ensures s[1..][i] <= s[1..][j] {
        assert s[1..][i] == s[i + 1] && s[1..][j] == s[j + 1];
      }
    }
    if s[0] == x {
      NoneBelow(s, x);
    } else {
      assert x in s[1..];
      IndexOfSorted(s[1..], x);
      var k :| 0 <= k < |s| && s[k] == x;
    }
  }

  /** No unit of a sorted sequence starting with `x` is below `x`. */
  lemma {:induction false} NoneBelow(s: Units, x: int)
    requires forall k :: 0 <= k < |s| ==> x <= s[k]
    ensures CountLess(s, x) == 0
  {
    if s != [] {
      assert forall k :: 0 <= k < |s[1..]| ==> x <= s[1..][k] by {
        forall k | 0 <= k < |s[1..]| ensures x <= s[1..][k] {
          assert s[1..][k] == s[k + 1];
        }
      }
      NoneBelow(s[1..], x);
    }
  }

  /** Rank of key position `c`: the number of key units below `key[c]`. */
  lemma RankIsCountLess(key: Units, c: int)
    requires 0 <= c < |key|
    ensures ColumnOrder(key)[c] == CountLess(key, key[c])
  {
    var sorted := Sort(key);
    SortSorted(key);
    assert key[c] in multiset(key);
    IndexOfSorted(sorted, key[c]);
    CountLessSort(key, key[c]);
  }

  /** A sequence without repeats counts each of its units once. */
  lemma {:induction false} DistinctCount<T>(s: seq<T>, x: T)
    requires Distinct(s)
    ensures multiset(s)[x] == if x in s then 1 else 0
  {
    if s != [] {
      assert s == [s[0]] + s[1..];
      assert Distinct(s[1..]) by {
        forall i, j | 0 <= i < j < |s[1..]| ensures s[1..][i] != s[1..][j] {
          assert s[1..][i] == s[i + 1] && s[1..][j] == s[j + 1];
        }
      }
      DistinctCount(s[1..], x);
      assert s[0] !in s[1..] by {
        forall k | 0 <= k < |s[1..]| ensures s[1..][k] != s[0] {
          assert s[1..][k] == s[k + 1];
        }
      }
    }
  }

  /** Two equal units at different positions are counted twice. */
  lemma RepeatCounted(s: Units, a: int, b: int)
    requires 0 <= a < b < |s| && s[a] == s[b]
    ensures multiset(s)[s[a]] >= 2
  {
    assert s == s[..a] + [s[a]] + s[a + 1..b] + [s[b]] + s[b + 1..];
  }

  /** The sorted key of a key without repeats has no repeats. */
  lemma SortDistinct(key: Units)
    requires Distinct(key)
    ensures Distinct(Sort(key))
  {
    var sorted := Sort(key);
    SortSorted(key);
    forall a, b | 0 <= a < b < |sorted| ensures sorted[a] != sorted[b] {
      if sorted[a] == sorted[b] {
        RepeatCounted(sorted, a, b);
        DistinctCount(key, sorted[a]);
        assert false;
      }
    }
  }

  /** The column of rank `r`: `columnOrder.indexOf(r)`, -1 when no key
      position has that rank. */
  function Position(order: seq<int>, r: int): int {
    IndexOf(order, r)
  }

  /** Every column's rank is a rank in range whose first column is that
      column. */
  predicate Ranking(order: seq<int>) {
    forall c :: 0 <= c < |order| ==> 0 <= order[c] < |order| && Position(order, order[c]) == c
  }

  /** Every rank in range belongs to a column. */
  predicate Covering(order: seq<int>) {
    forall r :: 0 <= r < |order| ==> 0 <= Position(order, r)
  }

  /** For a key without repeats the ranks are a permutation of the key
      positions: every rank below `|key|` belongs to exactly one column. */
  lemma OrderIsPermutation(key: Units)
    requires Distinct(key)
    ensures Ranking(ColumnOrder(key)) && Covering(ColumnOrder(key))
  {
    var order := ColumnOrder(key);
    var sorted := Sort(key);
    SortSorted(key);
    SortDistinct(key);
    forall c | 0 <= c < |key| ensures 0 <= order[c] < |key| && Position(order, order[c]) == c {
      assert key[c] in multiset(sorted) by {
        assert key[c] in multiset(key);
      }
    }
    forall r | 0 <= r < |key| ensures 0 <= Position(order, r) {
      assert sorted[r] in multiset(key) by {
        assert sorted[r] in multiset(sorted);
      }
      var c := IndexOf(key, sorted[r]);
      assert order[c] == IndexOf(sorted, sorted[r]) == r;
    }
  }

  // ----- the table (createTranspositionTable) -----

  /** A table cell: '' or the one unit written there. */
  datatype Cell = Blank | Unit(u: CodeUnit)

  /** `Math.ceil(n / d)`, exact for the lengths a string can have. */
  function CeilDiv(n: nat, d: nat): nat
    requires d > 0
  {
    (n + d - 1) / d
  }

  /** The rows hold the text and no row is wholly empty. */
  lemma CeilDivBounds(n: nat, d: nat)
    requires d > 0
    ensures var rows := CeilDiv(n, d); n <= rows * d && rows * d < n + d
  {
    var q := (n + d - 1) / d;
    DivModUnique(n + d - 1, d, q, (n + d - 1) % d);
  }

  /** What `createTranspositionTable(text, cols)` returns: row `i` holds the
      units `i * cols` to `i * cols + cols - 1`, with '' past the end. */
  function Table(text: Units, cols: nat): (t: seq<seq<Cell>>)
    requires cols > 0
    ensures |t| == CeilDiv(|text|, cols) && forall i :: 0 <= i < |t| ==> |t[i]| == cols
  {
    seq(CeilDiv(|text|, cols), i requires 0 <= i =>
      seq(cols, j requires 0 <= j => if i * cols + j < |text| then Unit(text[i * cols + j]) else Blank))
  }

  /** `createTranspositionTable`: one row pushed per step, one cell per inner
      step. */
  method CreateTable(text: Units, cols: nat) returns (table: seq<seq<Cell>>)
    requires cols > 0
    ensures table == Table(text, cols)
  {
    var rows := CeilDiv(|text|, cols);
    table := [];
    var i := 0;
    while i < rows
      invariant 0 <= i <= rows
      invariant table == Table(text, cols)[..i]
    {
      var row := [];
      var j := 0;
      while j < cols
        invariant 0 <= j <= cols
        invariant row == Table(text, cols)[i][..j]
      {
        var index := i * cols + j;
        row := row + [if index < |text| then Unit(text[index]) else Blank];
        j := j + 1;
      }
      assert row == Table(text, cols)[i];
      table := table + [row];
      i := i + 1;
    }
  }

  // ----- encryptTransposition -----

  /** The units a cell contributes when read: none for '' or a missing cell. */
  function CellUnits(row: seq<Cell>, c: int): Units {
    if 0 <= c < |row| && row[c].Unit? then [row[c].u] else []
  }

  /** The inner loop of `encryptTransposition`: column `c` of the first `r`
      rows, top to bottom, skipping '' cells. */
  function ColumnRead(table: seq<seq<Cell>>, c: int, r: nat): Units
    requires r <= |table|
  {
    if r == 0 then [] else ColumnRead(table, c, r - 1) + CellUnits(table[r - 1], c)
  }

  /** The outer loop: the columns of ranks 0 to `i - 1`, in rank order. */
  function ReadColumns(table: seq<seq<Cell>>, order: seq<int>, i: nat): Units {
    if i == 0 then [] else ReadColumns(table, order, i - 1) + ColumnRead(table, Position(order, i - 1), |table|)
  }

  /** What `encryptTransposition(text, key)` returns. */
  function Encrypted(text: Units, key: Units): (r: Units)
    ensures key == [] ==> r == text
  {
    if key == [] then text
    else ReadColumns(Table(text, |key|), ColumnOrder(key), |key|)
  }

  /** `encryptTransposition`: the table, read column by column. */
  method Encrypt(text: Units, key: Units) returns (result: Units)
    ensures result == Encrypted(text, key)
  {
    if key == [] { return text; }
    var cols := |key|;
    var table := CreateTable(text, cols);
    var columnOrder := ColumnOrder(key);
    result := ReadTable(table, columnOrder);
  }

  /** The loops of `encryptTransposition`: the columns in rank order, each
      read down the rows, skipping '' cells. */
  method ReadTable(table: seq<seq<Cell>>, columnOrder: seq<int>) returns (result: Units)
    ensures result == ReadColumns(table, columnOrder, |columnOrder|)
  {
    result := [];
    var i := 0;
    while i < |columnOrder|
      invariant 0 <= i <= |columnOrder|
      invariant result == ReadColumns(table, columnOrder, i)
    {
      var colIndex := Position(columnOrder, i);
      ghost var before := result;
      var r := 0;
      while r < |table|
        invariant 0 <= r <= |table|
        invariant result == before + ColumnRead(table, colIndex, r)
      {
        var row := table[r];
        ReadStep(table, colIndex, r, before, result);
        if 0 <= colIndex < |row| && row[colIndex].Unit? {
          result := result + [row[colIndex].u];
        } else {
          assert CellUnits(row, colIndex) == [];
        }
        r := r + 1;
      }
      i := i + 1;
    }
  }

  /** One step of the inner loop of `encryptTransposition`. */
  lemma ReadStep(table: seq<seq<Cell>>, c: int, r: nat, before: Units, result: Units)
    requires r < |table| && result == before + ColumnRead(table, c, r)
    ensures result + CellUnits(table[r], c) == before + ColumnRead(table, c, r + 1)
  {
  }

  // ----- where each unit goes -----

  /** `totalCells - filledCells`: the blank cells at the end of the last row. */
  function EmptyCells(n: nat, cols: nat): (e: nat)
    requires cols > 0
    ensures e < cols && CeilDiv(n, cols) * cols == n + e
  {
    CeilDivBounds(n, cols);
    CeilDiv(n, cols) * cols - n
  }

  /** How many units column `c` of the table really holds: one less than the
      row count in the last `EmptyCells` columns, none outside the table. */
  function ColumnLength(n: nat, cols: nat, c: int): (l: nat)
    requires cols > 0
    ensures l <= CeilDiv(n, cols)
  {
    var rows := CeilDiv(n, cols);
    if 0 <= c < cols then
      if c >= cols - EmptyCells(n, cols) then
        rows - 1
      else rows
    else 0
  }

  lemma MulMono(a: int, b: int, d: int)
    requires 0 <= a <= b && d > 0
    ensures a * d <= b * d
  {
    if a < b {
      MulBounds(d, b - a);
    }
  }

  /** Cell `(r, c)` holds a unit exactly when `r` is below the length of
      column `c`: the filled cells of a column are its top ones. */
  lemma CellFilled(n: nat, cols: nat, r: int, c: int)
    requires cols > 0 && 0 <= r < CeilDiv(n, cols) && 0 <= c < cols
    ensures r * cols + c < n <==> r < ColumnLength(n, cols, c)
  {
    var rows := CeilDiv(n, cols);
    var e := EmptyCells(n, cols);
    assert (rows - 1) * cols == rows * cols - cols;
    if r < rows - 1 {
      assert (r + 1) * cols == r * cols + cols;
      MulMono(r + 1, rows - 1, cols);
    } else {
      assert r * cols == rows * cols - cols;
    }
  }

  /** Column `c` of the table of `text`, top to bottom: the units at
      `c`, `c + cols`, `c + 2 * cols`, ... */
  function Column(text: Units, cols: nat, c: int): (col: Units)
    requires cols > 0
    ensures |col| == ColumnLength(|text|, cols, c)
  {
    var len := ColumnLength(|text|, cols, c);
    seq(len, k requires 0 <= k < len =>
      CellFilled(|text|, cols, k, c);
      text[k * cols + c])
  }

  /** Reading column `c` down the first `r` rows of the table gives the top
      of that column. */
  lemma {:induction false} ColumnReadIs(text: Units, cols: nat, c: int, r: nat)
    requires cols > 0 && -1 <= c < cols && r <= CeilDiv(|text|, cols)
    ensures var len := ColumnLength(|text|, cols, c);
      ColumnRead(Table(text, cols), c, r) == Column(text, cols, c)[..if r < len then r else len]
  {
    if r > 0 {
      var table := Table(text, cols);
      var col := Column(text, cols, c);
      var len := ColumnLength(|text|, cols, c);
      ColumnReadIs(text, cols, c, r - 1);
      if c >= 0 {
        CellFilled(|text|, cols, r - 1, c);
        if r - 1 < len {
          assert col[..r] == col[..r - 1] + [col[r - 1]];
        } else {
          assert CellUnits(table[r - 1], c) == [];
        }
      } else {
        assert CellUnits(table[r - 1], c) == [];
      }
    }
  }

  /** Where the column of rank `i` starts in the ciphertext: the lengths of
      the columns of lower rank, added up. */
  function Offset(n: nat, cols: nat, order: seq<int>, i: nat): nat
    requires cols > 0
  {
    if i == 0 then 0 else Offset(n, cols, order, i - 1) + ColumnLength(n, cols, Position(order, i - 1))
  }

  /** The columns of ranks below `i`, read, are as long as `Offset(i)`. */
  lemma {:induction false} ReadColumnsLength(text: Units, cols: nat, order: seq<int>, i: nat)
    requires cols > 0 && |order| == cols
    ensures |ReadColumns(Table(text, cols), order, i)| == Offset(|text|, cols, order, i)
  {
    if i > 0 {
      ReadColumnsLength(text, cols, order, i - 1);
      ColumnReadIs(text, cols, Position(order, i - 1), |Table(text, cols)|);
    }
  }

  /** Reading more columns only extends what was read. */
  lemma {:induction false} ReadColumnsPrefix(table: seq<seq<Cell>>, order: seq<int>, m: nat, i: nat)
    requires m <= i
    ensures var out := ReadColumns(table, order, i);
      |ReadColumns(table, order, m)| <= |out| && out[..|ReadColumns(table, order, m)|] == ReadColumns(table, order, m)
    decreases i
  {
    if m < i {
      ReadColumnsPrefix(table, order, m, i - 1);
      var prev := ReadColumns(table, order, i - 1);
      var out := ReadColumns(table, order, i);
      assert out[..|prev|] == prev;
      var k := |ReadColumns(table, order, m)|;
      assert out[..k] == prev[..k];
    }
  }

  /** The column of rank `i` occupies the ciphertext from `Offset(i)` on,
      whole. */
  lemma ColumnInCiphertext(text: Units, cols: nat, order: seq<int>, i: nat)
    requires cols > 0 && |order| == cols && i < cols
    ensures var out := ReadColumns(Table(text, cols), order, cols);
      var start := Offset(|text|, cols, order, i);
      var col := Column(text, cols, Position(order, i));
      start + |col| <= |out| && out[start..start + |col|] == col
  {
    var table := Table(text, cols);
    var c := Position(order, i);
    ReadColumnsLength(text, cols, order, i);
    ReadColumnsPrefix(table, order, i + 1, cols);
    ColumnReadIs(text, cols, c, |table|);
    var upto := ReadColumns(table, order, i + 1);
    var start := Offset(|text|, cols, order, i);
    var out := ReadColumns(table, order, cols);
    assert upto[start..] == Column(text, cols, c);
    assert out[start..start + |Column(text, cols, c)|] == upto[start..];
  }

  // ----- the ciphertext draws its units from the text -----

  /** Every unit of `s` occurs in `text`. */
  predicate UnitsFrom(s: Units, text: Units) {
    forall k :: 0 <= k < |s| ==> s[k] in text
  }

  lemma {:induction false} ColumnReadFrom(text: Units, cols: nat, c: int, r: nat)
    requires cols > 0 && r <= CeilDiv(|text|, cols)
    ensures UnitsFrom(ColumnRead(Table(text, cols), c, r), text)
  {
    if r > 0 {
      var table := Table(text, cols);
      ColumnReadFrom(text, cols, c, r - 1);
      var prev := ColumnRead(table, c, r - 1);
      var more := CellUnits(table[r - 1], c);
      assert UnitsFrom(more, text) by {
        if more != [] {
          assert more[0] == text[(r - 1) * cols + c];
        }
      }
      var col := prev + more;
      forall k | 0 <= k < |col| ensures col[k] in text {
        if k >= |prev| {
          assert col[k] == more[k - |prev|];
        }
      }
    }
  }

  lemma {:induction false} ReadColumnsFrom(text: Units, cols: nat, order: seq<int>, i: nat)
    requires cols > 0
    ensures UnitsFrom(ReadColumns(Table(text, cols), order, i), text)
  {
    if i > 0 {
      var table := Table(text, cols);
      ReadColumnsFrom(text, cols, order, i - 1);
      ColumnReadFrom(text, cols, Position(order, i - 1), |table|);
      var prev := ReadColumns(table, order, i - 1);
      var col := ColumnRead(table, Position(order, i - 1), |table|);
      var out := prev + col;
      forall k | 0 <= k < |out| ensures out[k] in text {
        if k >= |prev| {
          assert out[k] == col[k - |prev|];
        }
      }
    }
  }

  /** Whatever the key, every unit of the ciphertext is a unit of the text. */
  lemma EncryptedUnitsFrom(text: Units, key: Units)
    ensures UnitsFrom(Encrypted(text, key), text)
  {
    if key != [] {
      ReadColumnsFrom(text, |key|, ColumnOrder(key), |key|);
    }
  }

  // ----- the ciphertext is a permutation of the text -----

  /** Columns `cs` of the table of `text`, one after the other. */
  function Columns(text: Units, cols: nat, cs: seq<int>): Units
    requires cols > 0
  {
    if cs == [] then [] else Columns(text, cols, cs[..|cs| - 1]) + Column(text, cols, cs[|cs| - 1])
  }

  /** The column of each rank, in rank order. */
  function Positions(order: seq<int>): (ps: seq<int>)
    ensures |ps| == |order|
  {
    seq(|order|, i => Position(order, i))
  }

  /** Columns `cs` of the first `r` rows of a table, each read top to
      bottom, one after the other. */
  function TableColumns(table: seq<seq<Cell>>, cs: seq<int>, r: nat): Units
    requires r <= |table|
  {
    if cs == [] then [] else TableColumns(table, cs[..|cs| - 1], r) + ColumnRead(table, cs[|cs| - 1], r)
  }

  /** Reading the columns of ranks below `i` reads the columns at their
      positions. */
  lemma {:induction false} ReadColumnsIsTableColumns(table: seq<seq<Cell>>, order: seq<int>, i: nat)
    requires i <= |order|
    ensures ReadColumns(table, order, i) == TableColumns(table, Positions(order)[..i], |table|)
  {
    if i > 0 {
      var ps := Positions(order)[..i];
      assert ps[..i - 1] == Positions(order)[..i - 1];
      assert ps[i - 1] == Position(order, i - 1);
      assert TableColumns(table, ps, |table|)
          == TableColumns(table, ps[..i - 1], |table|) + ColumnRead(table, Position(order, i - 1), |table|);
      ReadColumnsIsTableColumns(table, order, i - 1);
    }
  }

  /** In the table of `text`, the columns read are the columns, whole. */
  lemma {:induction false} TableColumnsOfTable(text: Units, cols: nat, cs: seq<int>)
    requires cols > 0 && forall k :: 0 <= k < |cs| ==> -1 <= cs[k] < cols
    ensures TableColumns(Table(text, cols), cs, |Table(text, cols)|) == Columns(text, cols, cs)
    decreases |cs|
  {
    if cs != [] {
      TableColumnsOfTable(text, cols, cs[..|cs| - 1]);
      ColumnReadIs(text, cols, cs[|cs| - 1], |Table(text, cols)|);
    }
  }

  lemma {:induction false} TableColumnsAppend(table: seq<seq<Cell>>, u: seq<int>, v: seq<int>, r: nat)
    requires r <= |table|
    ensures TableColumns(table, u + v, r) == TableColumns(table, u, r) + TableColumns(table, v, r)
    decreases |v|
  {
    if v == [] {
      assert u + v == u;
    } else {
      var v', x := v[..|v| - 1], v[|v| - 1];
      assert (u + v)[..|u + v| - 1] == u + v' && (u + v)[|u + v| - 1] == x;
      assert TableColumns(table, u + v', r) == TableColumns(table, u, r) + TableColumns(table, v', r) by {
        TableColumnsAppend(table, u, v', r);
      }
    }
  }

  /** Taking out the column at index `k` takes away its units. */
  lemma TableColumnsRemove(table: seq<seq<Cell>>, b: seq<int>, k: nat, r: nat)
    requires r <= |table| && k < |b|
    ensures multiset(TableColumns(table, b, r))
         == multiset(TableColumns(table, b[..k] + b[k + 1..], r)) + multiset(ColumnRead(table, b[k], r))
  {
    assert b == b[..k] + [b[k]] + b[k + 1..];
    TableColumnsAppend(table, b[..k] + [b[k]], b[k + 1..], r);
    TableColumnsAppend(table, b[..k], [b[k]], r);
    TableColumnsAppend(table, b[..k], b[k + 1..], r);
    assert [b[k]][..0] == [];
  }

  /** Taking the same element out of two sequences with equal multisets
      leaves equal multisets. */
  lemma MultisetRemove(a: seq<int>, b: seq<int>, k: nat)
    requires multiset(a) == multiset(b) && a != [] && k < |b| && b[k] == a[|a| - 1]
    ensures multiset(a[..|a| - 1]) == multiset(b[..k] + b[k + 1..])
  {
    var a', b' := a[..|a| - 1], b[..k] + b[k + 1..];
    assert a == a' + [a[|a| - 1]];
    assert b == b[..k] + [b[k]] + b[k + 1..];
    assert multiset(b) == multiset(b[..k]) + multiset{b[k]} + multiset(b[k + 1..]);
    assert multiset(b') == multiset(b[..k]) + multiset(b[k + 1..]);
    assert multiset(a) == multiset(a') + multiset{b[k]};
    forall y ensures multiset(a')[y] == multiset(b')[y] {
      assert multiset(a)[y] == multiset(b)[y];
    }
  }

  /** The units read do not depend on the order of the columns. */
  lemma {:induction false} TableColumnsPerm(table: seq<seq<Cell>>, a: seq<int>, b: seq<int>, r: nat)
    requires r <= |table| && multiset(a) == multiset(b)
    ensures multiset(TableColumns(table, a, r)) == multiset(TableColumns(table, b, r))
    decreases |a|
  {
    if a == [] {
      assert |b| == |multiset(b)| == 0;
    } else {
      var x := a[|a| - 1];
      assert x in multiset(b) by {
        assert a == a[..|a| - 1] + [x];
      }
      var k := IndexOf(b, x);
      MultisetRemove(a, b, k);
      TableColumnsPerm(table, a[..|a| - 1], b[..k] + b[k + 1..], r);
      TableColumnsRemove(table, b, k, r);
    }
  }

  /** Two sequences without repeats and with the same elements have the same
      multiset. */
  lemma SameElements<T>(a: seq<T>, b: seq<T>)
    requires Distinct(a) && Distinct(b) && (forall x :: x in a <==> x in b)
    ensures multiset(a) == multiset(b)
  {
    forall x ensures multiset(a)[x] == multiset(b)[x] {
      DistinctCount(a, x);
      DistinctCount(b, x);
    }
  }

  /** When the ranks are a permutation, the columns in rank order are the
      columns, each once. */
  lemma PositionsAreColumns(order: seq<int>)
    requires Ranking(order) && Covering(order)
    ensures multiset(Positions(order)) == multiset(seq(|order|, c => c))
  {
    var cols := |order|;
    var ps := Positions(order);
    var cs := seq(cols, c => c);
    assert Distinct(ps) by {
      forall i, j | 0 <= i < j < cols ensures ps[i] != ps[j] {
        assert order[ps[i]] == i && order[ps[j]] == j;
      }
    }
    forall x ensures x in ps <==> x in cs {
      if x in cs {
        assert x == cs[x];
        assert ps[order[x]] == x;
      }
      if x in ps {
        var i :| 0 <= i < cols && ps[i] == x;
        assert 0 <= x < cols;
        assert cs[x] == x;
      }
    }
    SameElements(ps, cs);
  }

  /** Column `c` is as long as the least `l` with `n <= l * cols + c`. */
  lemma ColumnLengthBounds(n: nat, cols: nat, c: int)
    requires cols > 0 && 0 <= c < cols
    ensures var l := ColumnLength(n, cols, c);
      n <= l * cols + c && (l > 0 ==> (l - 1) * cols + c < n)
  {
    var l := ColumnLength(n, cols, c);
    if l < CeilDiv(n, cols) {
      CellFilled(n, cols, l, c);
    } else {
      CeilDivBounds(n, cols);
    }
    if l > 0 {
      CellFilled(n, cols, l - 1, c);
    }
  }

  /** `n / d` as a natural number, with `n`'s split by it. */
  lemma Quotient(n: nat, d: nat) returns (q: nat)
    requires d > 0
    ensures q == n / d && n == q * d + n % d
  {
    MulBounds(d, n / d);
    q := n / d;
  }

  /** At most one `l` meets those bounds. */
  lemma LeastMultiple(n: int, cols: nat, c: int, l: nat, l': nat)
    requires cols > 0
    requires n <= l * cols + c && (l > 0 ==> (l - 1) * cols + c < n)
    requires n <= l' * cols + c && (l' > 0 ==> (l' - 1) * cols + c < n)
    ensures l == l'
  {
    if l < l' {
      MulMono(l, l' - 1, cols);
    } else if l' < l {
      MulMono(l', l - 1, cols);
    }
  }

  /** One more unit of text lengthens exactly the column it falls in. */
  lemma ColumnLengthStep(n: nat, cols: nat, c: int)
    requires cols > 0 && 0 <= c < cols
    ensures var l := ColumnLength(n, cols, c);
      ColumnLength(n + 1, cols, c) == l + (if n % cols == c then 1 else 0)
      && (n % cols == c ==> l * cols + c == n)
  {
    var l, l' := ColumnLength(n, cols, c), ColumnLength(n + 1, cols, c);
    ColumnLengthBounds(n, cols, c);
    ColumnLengthBounds(n + 1, cols, c);
    if n % cols == c {
      var q := Quotient(n, cols);
      if q > 0 {
        RowBefore(q, cols);
      }
      RowBefore(q + 1, cols);
      LeastMultiple(n, cols, c, l, q);
      LeastMultiple(n + 1, cols, c, l', q + 1);
    } else {
      if l * cols + c == n {
        DivModUnique(n, cols, l, c);
      }
      LeastMultiple(n + 1, cols, c, l', l);
    }
  }

  /** Column `c` of `text + [x]` is column `c` of `text`, with `x` at its
      foot when `x` lands in that column. */
  lemma ColumnExtend(text: Units, x: CodeUnit, cols: nat, c: int)
    requires cols > 0 && 0 <= c < cols
    ensures Column(text + [x], cols, c) == Column(text, cols, c) + (if |text| % cols == c then [x] else [])
  {
    var n := |text|;
    var col, col' := Column(text, cols, c), Column(text + [x], cols, c);
    var l := |col|;
    ColumnLengthStep(n, cols, c);
    ColumnLengthBounds(n, cols, c);
    forall k | 0 <= k < l ensures col'[k] == col[k] {
      MulMono(k, l - 1, cols);
    }
    if n % cols == c {
      assert col'[l] == x;
      assert col' == col + [x];
    } else {
      assert col' == col;
    }
  }

  /** Columns `0` to `m - 1` of `text + [x]` hold those of `text`, and `x`
      too when it lands among them. */
  lemma {:induction false} ColumnsExtend(text: Units, x: CodeUnit, cols: nat, m: nat)
    requires cols > 0 && m <= cols
    ensures multiset(Columns(text + [x], cols, seq(m, c => c)))
         == multiset(Columns(text, cols, seq(m, c => c))) + (if |text| % cols < m then multiset{x} else multiset{})
  {
    if m > 0 {
      assert seq(m, c => c)[..m - 1] == seq(m - 1, c => c);
      ColumnsExtend(text, x, cols, m - 1);
      ColumnExtend(text, x, cols, m - 1);
    }
  }

  lemma {:induction false} ColumnsOfEmpty(cols: nat, cs: seq<int>)
    requires cols > 0
    ensures Columns([], cols, cs) == []
    decreases |cs|
  {
    if cs != [] {
      ColumnsOfEmpty(cols, cs[..|cs| - 1]);
      DivModUnique(cols - 1, cols, 0, cols - 1);
    }
  }

  /** The columns of the table, together, hold the units of the text. */
  lemma {:induction false} ColumnsPartition(text: Units, cols: nat)
    requires cols > 0
    ensures multiset(Columns(text, cols, seq(cols, c => c))) == multiset(text)
    decreases |text|
  {
    if text == [] {
      ColumnsOfEmpty(cols, seq(cols, c => c));
    } else {
      var t, x := text[..|text| - 1], text[|text| - 1];
      assert text == t + [x];
      ColumnsPartition(t, cols);
      ColumnsExtend(t, x, cols, cols);
    }
  }

  /** For a key without repeats, the ciphertext is a permutation of the
      text: every column is read exactly once. */
  lemma EncryptedPermutation(text: Units, key: Units)
    requires Distinct(key)
    ensures multiset(Encrypted(text, key)) == multiset(text)
  {
    if key != [] {
      var cols, order := |key|, ColumnOrder(key);
      OrderIsPermutation(key);
      var table := Table(text, cols);
      PositionsAreColumns(order);
      ReadColumnsIsTableColumns(table, order, cols);
      assert Positions(order)[..cols] == Positions(order);
      TableColumnsPerm(table, Positions(order), seq(cols, c => c), |table|);
      TableColumnsOfTable(text, cols, seq(cols, c => c));
      ColumnsPartition(text, cols);
    }
  }

  /** ... and so as long as the text. */
  lemma EncryptedLength(text: Units, key: Units)
    requires Distinct(key)
    ensures |Encrypted(text, key)| == |text|
  {
    EncryptedPermutation(text, key);
    assert |multiset(Encrypted(text, key))| == |multiset(text)|;
  }

  // ----- decryptTransposition -----

  /** `colLengths` after `i` steps of the loop that shortens columns: step
      `i` takes one from the column of rank `cols - 1 - i`, if there is one. */
  function Lens(order: seq<int>, rows: int, i: nat): (lens: seq<int>)
    ensures |lens| == |order|
  {
    if i == 0 then seq(|order|, _ => rows)
    else
      var prev := Lens(order, rows, i - 1);
      var c := Position(order, |order| - i);
      if 0 <= c then prev[c := prev[c] - 1] else prev
  }

  /** What the fill loop writes for rank `i`: `colLengths[colIndex]` units,
      none when no column has that rank. */
  function FillCount(order: seq<int>, lens: seq<int>, i: int): nat {
    var c := Position(order, i);
    if 0 <= c < |lens| && lens[c] > 0 then lens[c] else 0
  }

  /** `textIndex` when the fill loop reaches rank `i`. */
  function FillOffset(order: seq<int>, lens: seq<int>, i: nat): nat {
    if i == 0 then 0 else FillOffset(order, lens, i - 1) + FillCount(order, lens, i - 1)
  }

  /** `text[k]`, or '' for the `undefined` read past the end. */
  function Fill(text: Units, k: int): Cell {
    if 0 <= k < |text| then Unit(text[k]) else Blank
  }

  /** Cell `(j, c)` after the fill loop: written at the step of rank
      `order[c]` when `c` is the first column of that rank and `j` is below its
      length, '' otherwise. */
  function DecryptCell(text: Units, order: seq<int>, lens: seq<int>, j: int, c: int): Cell {
    if 0 <= c < |order| && c < |lens| && order[c] >= 0 && Position(order, order[c]) == c && j < lens[c]
    then Fill(text, FillOffset(order, lens, order[c]) + j)
    else Blank
  }

  /** The table after the fill loop. */
  function DecryptTable(text: Units, order: seq<int>, lens: seq<int>, rows: nat): (t: seq<seq<Cell>>)
    ensures |t| == rows && forall j :: 0 <= j < rows ==> |t[j]| == |order|
  {
    seq(rows, j => seq(|order|, c => DecryptCell(text, order, lens, j, c)))
  }

  /** `row.join('')` over the first `m` cells. */
  function JoinCells(row: seq<Cell>, m: nat): Units
    requires m <= |row|
  {
    if m == 0 then [] else JoinCells(row, m - 1) + CellUnits(row, m - 1)
  }

  /** The rows `0` to `r - 1`, each joined, one after the other. */
  function JoinRows(table: seq<seq<Cell>>, r: nat): Units
    requires r <= |table|
  {
    if r == 0 then [] else JoinRows(table, r - 1) + JoinCells(table[r - 1], |table[r - 1]|)
  }

  function Joined(table: seq<seq<Cell>>): Units {
    JoinRows(table, |table|)
  }

  /** What `decryptTransposition(text, key)` returns. */
  function Decrypted(text: Units, key: Units): (r: Units)
    ensures key == [] ==> r == text
  {
    if key == [] then text
    else
      var cols := |key|;
      var rows := CeilDiv(|text|, cols);
      var order := ColumnOrder(key);
      Joined(DecryptTable(text, order, Lens(order, rows, EmptyCells(|text|, cols)), rows))
  }

  /** The true length of every column. */
  function TrueLens(n: nat, cols: nat): (lens: seq<int>)
    requires cols > 0
    ensures |lens| == cols
  {
    seq(cols, c => ColumnLength(n, cols, c))
  }

  /** Decryption as evidently intended: the short columns are the last ones
      of the table, whatever their rank. */
  function DecryptedIntended(text: Units, key: Units): (r: Units)
    ensures key == [] ==> r == text
  {
    if key == [] then text
    else
      var cols := |key|;
      var rows := CeilDiv(|text|, cols);
      Joined(DecryptTable(text, ColumnOrder(key), TrueLens(|text|, cols), rows))
  }

  /** The table as an array, row by row. */
  function Grid(table: array2<Cell>): (t: seq<seq<Cell>>)
    reads table
    ensures |t| == table.Length0 && forall j :: 0 <= j < |t| ==> |t[j]| == table.Length1
  {
    seq(table.Length0, j requires 0 <= j < table.Length0 reads table =>
      seq(table.Length1, c requires 0 <= c < table.Length1 reads table => table[j, c]))
  }

  /** `decryptTransposition`: shorten columns, fill the table column by column
      in rank order, read it row by row. */
  method Decrypt(text: Units, key: Units) returns (result: Units)
    ensures result == Decrypted(text, key)
  {
    if key == [] { return text; }
    var cols := |key|;
    var rows := CeilDiv(|text|, cols);
    var columnOrder := ColumnOrder(key);
    var totalCells := cols * rows;
    var filledCells := |text|;
    var emptyCells := totalCells - filledCells;
    assert emptyCells == EmptyCells(|text|, cols);
    var table := new Cell[rows, cols]((_, _) => Blank);
    var colLengths := new int[cols](_ => rows);
    assert colLengths[..] == Lens(columnOrder, rows, 0);
    if emptyCells > 0 {
      Shorten(colLengths, columnOrder, emptyCells, rows);
    }
    LensBound(columnOrder, rows, emptyCells);
    FillTable(table, colLengths, columnOrder, text);
    ghost var lens := colLengths[..];
    assert lens == Lens(columnOrder, rows, EmptyCells(|text|, cols));
    ghost var filled := DecryptTable(text, columnOrder, lens, rows);
    forall j | 0 <= j < rows ensures Grid(table)[j] == filled[j] {
    }
    assert Grid(table) == filled;
    result := JoinTable(table);
  }

  /** The loop that takes one from the lengths of the columns of the top
      `emptyCells` ranks. */
  method Shorten(colLengths: array<int>, columnOrder: seq<int>, emptyCells: nat, ghost rows: int)
    requires colLengths.Length == |columnOrder| && colLengths[..] == Lens(columnOrder, rows, 0)
    modifies colLengths
    ensures colLengths[..] == Lens(columnOrder, rows, emptyCells)
  {
    var cols := colLengths.Length;
    var i := 0;
    while i < emptyCells
      invariant 0 <= i <= emptyCells
      invariant colLengths[..] == Lens(columnOrder, rows, i)
    {
      var c := Position(columnOrder, cols - 1 - i);
      if 0 <= c {
        colLengths[c] := colLengths[c] - 1;
      }
      i := i + 1;
    }
  }

  /** Shortening never lengthens a column. */
  lemma {:induction false} LensBound(order: seq<int>, rows: int, i: nat)
    ensures forall c :: 0 <= c < |order| ==> Lens(order, rows, i)[c] <= rows
  {
    if i > 0 {
      LensBound(order, rows, i - 1);
    }
  }

  /** The fill loop: for each rank, the first column of that rank gets the
      next `colLengths[colIndex]` units of the text, top down. */
  method FillTable(table: array2<Cell>, colLengths: array<int>, columnOrder: seq<int>, text: Units)
    requires table.Length1 == |columnOrder| == colLengths.Length
    requires forall c :: 0 <= c < |columnOrder| ==> columnOrder[c] < |columnOrder|
    requires forall c :: 0 <= c < colLengths.Length ==> colLengths[c] <= table.Length0
    requires forall j, c :: 0 <= j < table.Length0 && 0 <= c < table.Length1 ==> table[j, c] == Blank
    modifies table
    ensures forall j, c :: 0 <= j < table.Length0 && 0 <= c < table.Length1 ==>
      table[j, c] == DecryptCell(text, columnOrder, colLengths[..], j, c)
  {
    ghost var lens := colLengths[..];
    var textIndex := 0;
    var i := 0;
    while i < |columnOrder|
      invariant 0 <= i <= |columnOrder|
      invariant textIndex == FillOffset(columnOrder, lens, i)
      invariant forall j, c :: 0 <= j < table.Length0 && 0 <= c < table.Length1 ==>
        table[j, c] == if columnOrder[c] < i then DecryptCell(text, columnOrder, lens, j, c) else Blank
    {
      var colIndex := Position(columnOrder, i);
      if 0 <= colIndex {
        var j := 0;
        while j < colLengths[colIndex]
          invariant 0 <= j && (j <= colLengths[colIndex] || j == 0)
          invariant textIndex == FillOffset(columnOrder, lens, i) + j
          invariant forall j', c :: 0 <= j' < table.Length0 && 0 <= c < table.Length1 ==>
            table[j', c] == if columnOrder[c] < i || (c == colIndex && j' < j)
              then DecryptCell(text, columnOrder, lens, j', c) else Blank
        {
          table[j, colIndex] := if textIndex < |text| then Unit(text[textIndex]) else Blank;
          textIndex := textIndex + 1;
          j := j + 1;
        }
      }
      i := i + 1;
    }
  }

  /** The closing loop: `result += row.join('')` for each row. */
  method JoinTable(table: array2<Cell>) returns (result: Units)
    ensures result == Joined(Grid(table))
  {
    result := [];
    var r := 0;
    while r < table.Length0
      invariant 0 <= r <= table.Length0
      invariant result == JoinRows(Grid(table), r)
    {
      var row := Grid(table)[r];
      result := result + JoinCells(row, |row|);
      r := r + 1;
    }
  }

  // ----- decryption undoes encryption -----

  function Min(a: int, b: int): int { if a < b then a else b }

  /** Row `j` of the table of `text`, joined over its first `m` cells, is the
      stretch of `text` those cells hold; the row starts at `start`. */
  lemma {:induction false} JoinCellsIs(text: Units, cols: nat, j: nat, m: nat, start: nat)
    requires cols > 0 && j < CeilDiv(|text|, cols) && m <= cols && start == j * cols
    ensures JoinCells(Table(text, cols)[j], m) == text[Min(|text|, start)..Min(|text|, start + m)]
  {
    if m > 0 {
      JoinCellsIs(text, cols, j, m - 1, start);
      var n := |text|;
      if start + m - 1 < n {
        assert text[Min(n, start)..Min(n, start + m)] ==
          text[Min(n, start)..Min(n, start + m - 1)] + [text[start + m - 1]];
      }
    }
  }

  /** One row less starts one row's width earlier. */
  lemma RowBefore(r: nat, cols: nat)
    requires r > 0
    ensures (r - 1) * cols == r * cols - cols && 0 <= (r - 1) * cols
  {
    MulMono(0, r - 1, cols + 1);
  }

  /** The first `r` rows of the table of `text`, joined, are the text up to
      cell `start`, the start of row `r`. */
  lemma {:induction false} JoinRowsIs(text: Units, cols: nat, r: nat, start: nat)
    requires cols > 0 && r <= CeilDiv(|text|, cols) && start == r * cols
    ensures JoinRows(Table(text, cols), r) == text[..Min(|text|, start)]
  {
    if r > 0 {
      var n, table := |text|, Table(text, cols);
      RowBefore(r, cols);
      var a := start - cols;
      JoinRowsIs(text, cols, r - 1, a);
      JoinCellsIs(text, cols, r - 1, cols, a);
      assert text[..Min(n, start)] == text[..Min(n, a)] + text[Min(n, a)..Min(n, start)];
    }
  }

  /** Reading the table of `text` row by row gives `text` back. */
  lemma JoinedTable(text: Units, cols: nat)
    requires cols > 0
    ensures Joined(Table(text, cols)) == text
  {
    CeilDivBounds(|text|, cols);
    JoinRowsIs(text, cols, CeilDiv(|text|, cols), CeilDiv(|text|, cols) * cols);
    assert text[..|text|] == text;
  }

  /** With the true column lengths, the fill loop starts each rank where the
      encryption put it. */
  lemma {:induction false} FillOffsetTrue(n: nat, cols: nat, order: seq<int>, i: nat)
    requires cols > 0 && |order| == cols
    ensures FillOffset(order, TrueLens(n, cols), i) == Offset(n, cols, order, i)
  {
    if i > 0 {
      FillOffsetTrue(n, cols, order, i - 1);
    }
  }

  /** Cell `(j, c)` of the table of `text`: unit `j` of column `c`, or ''. */
  lemma TableCell(text: Units, cols: nat, j: nat, c: nat)
    requires cols > 0 && j < CeilDiv(|text|, cols) && c < cols
    ensures Table(text, cols)[j][c] ==
      if j < ColumnLength(|text|, cols, c) then Unit(Column(text, cols, c)[j]) else Blank
  {
    CellFilled(|text|, cols, j, c);
    MulMono(0, j, cols);
  }

  /** Cell `(j, c)` filled from the ciphertext with the true column lengths:
      unit `j` of column `c` again, or ''. */
  lemma DecryptCellOfEncrypted(text: Units, cols: nat, order: seq<int>, enc: Units, j: nat, c: nat)
    requires cols > 0 && |order| == cols && Ranking(order) && c < cols
    requires enc == ReadColumns(Table(text, cols), order, cols)
    ensures DecryptCell(enc, order, TrueLens(|text|, cols), j, c) ==
      if j < ColumnLength(|text|, cols, c) then Unit(Column(text, cols, c)[j]) else Blank
  {
    var lens := TrueLens(|text|, cols);
    assert 0 <= order[c] < cols && Position(order, order[c]) == c;
    assert lens[c] == ColumnLength(|text|, cols, c);
    if j < ColumnLength(|text|, cols, c) {
      EncryptedAt(text, cols, order, j, c);
      FillOffsetTrue(|text|, cols, order, order[c]);
      FilledCell(enc, order, lens, j, c);
    }
  }

  /** A cell the fill loop writes from inside the text holds the unit at the
      fill offset of its rank plus its row. */
  lemma FilledCell(text: Units, order: seq<int>, lens: seq<int>, j: int, c: int)
    requires 0 <= c < |order| == |lens| && order[c] >= 0 && Position(order, order[c]) == c && j < lens[c]
    requires 0 <= FillOffset(order, lens, order[c]) + j < |text|
    ensures DecryptCell(text, order, lens, j, c) == Unit(text[FillOffset(order, lens, order[c]) + j])
  {
  }

  /** Unit `j` of column `c` sits in the ciphertext at the column's offset
      plus `j`. */
  lemma EncryptedAt(text: Units, cols: nat, order: seq<int>, j: nat, c: nat)
    requires cols > 0 && c < cols == |order| && 0 <= order[c] < cols
    requires Position(order, order[c]) == c && j < ColumnLength(|text|, cols, c)
    ensures var out := ReadColumns(Table(text, cols), order, cols);
      var start := Offset(|text|, cols, order, order[c]);
      start + j < |out| && out[start + j] == Column(text, cols, c)[j]
  {
    ColumnInCiphertext(text, cols, order, order[c]);
    SliceAt(ReadColumns(Table(text, cols), order, cols), Offset(|text|, cols, order, order[c]), Column(text, cols, c), j);
  }

  lemma SliceAt(out: Units, start: int, col: Units, j: int)
    requires 0 <= start && start + |col| <= |out| && out[start..start + |col|] == col && 0 <= j < |col|
    ensures out[start + j] == col[j]
  {
    assert out[start..start + |col|][j] == out[start + j];
  }

  /** The table the intended decryption fills from the ciphertext is the
      table encryption wrote. */
  lemma DecryptTableOfEncrypted(text: Units, key: Units)
    requires key != [] && Distinct(key)
    ensures var cols := |key|;
      DecryptTable(Encrypted(text, key), ColumnOrder(key), TrueLens(|text|, cols), CeilDiv(|text|, cols)) == Table(text, cols)
  {
    OrderIsPermutation(key);
    DecryptTableIsTable(text, |key|, ColumnOrder(key), Encrypted(text, key));
  }

  lemma DecryptTableIsTable(text: Units, cols: nat, order: seq<int>, enc: Units)
    requires cols > 0 && |order| == cols && Ranking(order)
    requires enc == ReadColumns(Table(text, cols), order, cols)
    ensures DecryptTable(enc, order, TrueLens(|text|, cols), CeilDiv(|text|, cols)) == Table(text, cols)
  {
    var t := DecryptTable(enc, order, TrueLens(|text|, cols), CeilDiv(|text|, cols));
    forall j | 0 <= j < CeilDiv(|text|, cols) ensures t[j] == Table(text, cols)[j] {
      forall c | 0 <= c < cols ensures t[j][c] == Table(text, cols)[j][c] {
        DecryptCellOfEncrypted(text, cols, order, enc, j, c);
        TableCell(text, cols, j, c);
      }
    }
  }

  /** Corrected decryption undoes encryption for every key without repeated
      units. */
  lemma RoundTripIntended(text: Units, key: Units)
    requires Distinct(key)
    ensures DecryptedIntended(Encrypted(text, key), key) == text
  {
    if key != [] {
      EncryptedLength(text, key);
      DecryptTableOfEncrypted(text, key);
      JoinedTable(text, |key|);
    }
  }

  /** For a key without repeats, the shortening loop takes one from exactly
      the columns of the top `i` ranks. */
  lemma {:induction false} LensDistinct(order: seq<int>, rows: int, i: nat)
    requires Ranking(order) && Covering(order) && i <= |order|
    ensures forall c :: 0 <= c < |order| ==> Lens(order, rows, i)[c] == rows - (if order[c] >= |order| - i then 1 else 0)
  {
    if i > 0 {
      LensDistinct(order, rows, i - 1);
      var prev := Lens(order, rows, i - 1);
      var p := Position(order, |order| - i);
      assert 0 <= p < |order| && order[p] == |order| - i;
      forall c | 0 <= c < |order|
        ensures Lens(order, rows, i)[c] == rows - (if order[c] >= |order| - i then 1 else 0)
      {
        if c != p {
          assert order[c] != |order| - i by {
            assert Position(order, order[c]) == c;
          }
        }
      }
    }
  }

  /** For a key without repeats, rank `i` gets `rows` units, one less for
      the top `e` ranks. */
  lemma FillCountDistinct(order: seq<int>, rows: nat, e: nat, i: int)
    requires Ranking(order) && Covering(order) && e <= |order| && (rows == 0 ==> e == 0) && 0 <= i < |order|
    ensures FillCount(order, Lens(order, rows, e), i) == rows - (if i >= |order| - e then 1 else 0)
  {
    LensDistinct(order, rows, e);
    assert order[Position(order, i)] == i;
  }

  /** Where the fill loop starts rank `i`: `i` full columns, less one unit
      for each of the top `e` ranks below `i`. */
  lemma {:induction false} FillOffsetDistinct(order: seq<int>, rows: nat, e: nat, i: nat)
    requires Ranking(order) && Covering(order) && e <= |order| && (rows == 0 ==> e == 0) && i <= |order|
    ensures FillOffset(order, Lens(order, rows, e), i) == i * rows - (if i > |order| - e then i - (|order| - e) else 0)
  {
    if i > 0 {
      FillOffsetDistinct(order, rows, e, i - 1);
      FillCountDistinct(order, rows, e, i - 1);
      assert i * rows == (i - 1) * rows + rows;
    }
  }

  /** With `rows * cols == n + e`, the lengths after shortening add up to `n`. */
  lemma FillOffsetTotal(order: seq<int>, rows: nat, e: nat, n: nat)
    requires Ranking(order) && Covering(order) && e <= |order| && rows * |order| == n + e
    ensures FillOffset(order, Lens(order, rows, e), |order|) == n
  {
    if rows == 0 {
      assert rows * |order| == 0;
    }
    FillOffsetDistinct(order, rows, e, |order|);
    assert |order| * rows == rows * |order|;
  }

  /** For a key without repeats the fill loop reads exactly the ciphertext:
      the column lengths it uses add up to its length. */
  lemma FillConsumesText(text: Units, key: Units)
    requires key != [] && Distinct(key)
    ensures var order := ColumnOrder(key);
      FillOffset(order, Lens(order, CeilDiv(|text|, |key|), EmptyCells(|text|, |key|)), |key|) == |text|
  {
    OrderIsPermutation(key);
    FillOffsetTotal(ColumnOrder(key), CeilDiv(|text|, |key|), EmptyCells(|text|, |key|), |text|);
  }

  lemma {:induction false} FillOffsetMono(order: seq<int>, lens: seq<int>, i: nat, j: nat)
    requires i <= j
    ensures FillOffset(order, lens, i) <= FillOffset(order, lens, j)
    decreases j
  {
    if i < j {
      FillOffsetMono(order, lens, i, j - 1);
    }
  }

  /** The column the fill loop wrote for rank `order[c]`, read down the
      first `r` rows: the ciphertext from that rank's offset on. */
  lemma {:induction false} DecryptColumnRead(text: Units, order: seq<int>, lens: seq<int>, rows: nat, c: int, r: nat)
    requires 0 <= c < |order| == |lens| && 0 <= order[c] && Position(order, order[c]) == c
    requires 0 <= lens[c] <= rows && r <= rows
    requires FillOffset(order, lens, order[c]) + lens[c] <= |text|
    ensures var start := FillOffset(order, lens, order[c]);
      ColumnRead(DecryptTable(text, order, lens, rows), c, r) == text[start..start + Min(r, lens[c])]
  {
    if r > 0 {
      DecryptColumnRead(text, order, lens, rows, c, r - 1);
      var start := FillOffset(order, lens, order[c]);
      var t := DecryptTable(text, order, lens, rows);
      if r - 1 < lens[c] {
        assert t[r - 1][c] == Unit(text[start + r - 1]);
        assert text[start..start + r] == text[start..start + r - 1] + [text[start + r - 1]];
      } else {
        assert t[r - 1][c] == Blank;
      }
    }
  }

  /** An empty table has no blank cells either. */
  lemma NoRowsNoBlanks(n: nat, cols: nat)
    requires cols > 0
    ensures CeilDiv(n, cols) == 0 ==> EmptyCells(n, cols) == 0
  {
    if CeilDiv(n, cols) == 0 {
      assert CeilDiv(n, cols) * cols == 0;
    }
  }

  /** `text[a..b]`, or nothing when that is no slice of `text`. */
  function Segment(text: Units, a: int, b: int): Units {
    if 0 <= a <= b <= |text| then text[a..b] else []
  }

  /** When no length is negative or above the row count, the column of each
      rank in the table the fill loop writes is the next segment of the
      ciphertext. */
  lemma FilledColumns(text: Units, order: seq<int>, lens: seq<int>, rows: nat)
    requires Covering(order) && |lens| == |order|
    requires forall c :: 0 <= c < |lens| ==> 0 <= lens[c] <= rows
    requires FillOffset(order, lens, |order|) <= |text|
    ensures forall k :: 0 <= k < |order| ==> RankHolds(DecryptTable(text, order, lens, rows), text, order, lens, k)
  {
    forall k | 0 <= k < |order|
      ensures RankHolds(DecryptTable(text, order, lens, rows), text, order, lens, k)
    {
      var c := Position(order, k);
      assert 0 <= c < |order| && 0 <= lens[c] <= rows;
      FillOffsetMono(order, lens, k + 1, |order|);
      FilledRank(text, order, lens, rows, k);
    }
  }

  /** One rank of the above. */
  lemma FilledRank(text: Units, order: seq<int>, lens: seq<int>, rows: nat, k: nat)
    requires |lens| == |order| && 0 <= Position(order, k) && 0 <= lens[Position(order, k)] <= rows
    requires FillOffset(order, lens, k + 1) <= |text|
    ensures RankHolds(DecryptTable(text, order, lens, rows), text, order, lens, k)
  {
    var c := Position(order, k);
    assert order[c] == k;
    assert FillOffset(order, lens, k + 1) == FillOffset(order, lens, k) + lens[c];
    DecryptColumnRead(text, order, lens, rows, c, rows);
    assert Min(rows, lens[c]) == lens[c];
  }

  /** The column of rank `k` is the segment of `text` the fill loop gives
      that rank. */
  predicate RankHolds(table: seq<seq<Cell>>, text: Units, order: seq<int>, lens: seq<int>, k: nat) {
    ColumnRead(table, Position(order, k), |table|)
      == Segment(text, FillOffset(order, lens, k), FillOffset(order, lens, k + 1))
  }

  /** A table whose column of each rank is the next segment of `text`, read
      column by column in rank order, gives `text` up to rank `i`. */
  lemma {:induction false} ReadSegments(table: seq<seq<Cell>>, text: Units, order: seq<int>, lens: seq<int>, i: nat)
    requires i <= |order| && FillOffset(order, lens, |order|) <= |text|
    requires forall k :: 0 <= k < |order| ==> RankHolds(table, text, order, lens, k)
    ensures FillOffset(order, lens, i) <= |text|
    ensures ReadColumns(table, order, i) == text[..FillOffset(order, lens, i)]
    decreases i
  {
    FillOffsetMono(order, lens, i, |order|);
    if i > 0 {
      var start, end := FillOffset(order, lens, i - 1), FillOffset(order, lens, i);
      ReadSegments(table, text, order, lens, i - 1);
      assert RankHolds(table, text, order, lens, i - 1);
      ReadColumnsStep(table, order, text, i - 1, start, end);
    } else {
      assert text[..FillOffset(order, lens, 0)] == [];
    }
  }

  /** One step of the above: the column of rank `k` adds the next segment. */
  lemma ReadColumnsStep(table: seq<seq<Cell>>, order: seq<int>, text: Units, k: nat, start: nat, end: nat)
    requires start <= end <= |text| && ReadColumns(table, order, k) == text[..start]
    requires ColumnRead(table, Position(order, k), |table|) == text[start..end]
    ensures ReadColumns(table, order, k + 1) == text[..end]
  {
    assert text[..end] == text[..start] + text[start..end];
  }

  /** With the lengths the shortening loop leaves for a key without repeats,
      and when they add up to the ciphertext's length, the table the fill
      loop writes holds the ciphertext in rank order. */
  lemma ReadFilledTable(text: Units, order: seq<int>, rows: nat, e: nat)
    requires Ranking(order) && Covering(order) && e <= |order| && (rows == 0 ==> e == 0)
    requires FillOffset(order, Lens(order, rows, e), |order|) == |text|
    ensures ReadColumns(DecryptTable(text, order, Lens(order, rows, e), rows), order, |order|) == text
  {
    var lens := Lens(order, rows, e);
    forall c | 0 <= c < |order| ensures 0 <= lens[c] <= rows {
      LensDistinct(order, rows, e);
    }
    FilledColumns(text, order, lens, rows);
    ReadSegments(DecryptTable(text, order, lens, rows), text, order, lens, |order|);
    assert text[..|text|] == text;
  }

  /** For a key without repeats, the table the fill loop writes holds the
      ciphertext: its columns, read in rank order, give it back. */
  lemma ReadDecryptTable(text: Units, key: Units)
    requires key != [] && Distinct(key)
    ensures var order, rows := ColumnOrder(key), CeilDiv(|text|, |key|);
      ReadColumns(DecryptTable(text, order, Lens(order, rows, EmptyCells(|text|, |key|)), rows), order, |key|) == text
  {
    OrderIsPermutation(key);
    FillConsumesText(text, key);
    NoRowsNoBlanks(|text|, |key|);
    ReadFilledTable(text, ColumnOrder(key), CeilDiv(|text|, |key|), EmptyCells(|text|, |key|));
  }

  /** The units of columns `cs` in one row, in the order of `cs`. */
  function RowCells(row: seq<Cell>, cs: seq<int>): Units {
    if cs == [] then [] else RowCells(row, cs[..|cs| - 1]) + CellUnits(row, cs[|cs| - 1])
  }

  lemma {:induction false} TableColumnsNoRows(table: seq<seq<Cell>>, cs: seq<int>)
    ensures TableColumns(table, cs, 0) == []
    decreases |cs|
  {
    if cs != [] {
      TableColumnsNoRows(table, cs[..|cs| - 1]);
    }
  }

  /** One more row adds its cells to the columns read. */
  lemma {:induction false} TableColumnsNextRow(table: seq<seq<Cell>>, cs: seq<int>, r: nat)
    requires 0 < r <= |table|
    ensures multiset(TableColumns(table, cs, r))
         == multiset(TableColumns(table, cs, r - 1)) + multiset(RowCells(table[r - 1], cs))
    decreases |cs|
  {
    if cs != [] {
      TableColumnsNextRow(table, cs[..|cs| - 1], r);
    }
  }

  /** The column indices `0` to `m - 1`. */
  function Indices(m: nat): (cs: seq<int>)
    ensures |cs| == m
  {
    seq(m, c => c)
  }

  lemma {:induction false} JoinCellsIsRowCells(row: seq<Cell>, m: nat)
    requires m <= |row|
    ensures JoinCells(row, m) == RowCells(row, Indices(m))
  {
    if m > 0 {
      JoinCellsIsRowCells(row, m - 1);
      assert Indices(m)[..m - 1] == Indices(m - 1);
    }
  }

  /** Reading a table row by row or column by column reads the same units. */
  lemma {:induction false} RowsAreColumns(table: seq<seq<Cell>>, w: nat, r: nat)
    requires r <= |table| && forall j :: 0 <= j < |table| ==> |table[j]| == w
    ensures multiset(JoinRows(table, r)) == multiset(TableColumns(table, Indices(w), r))
  {
    if r == 0 {
      TableColumnsNoRows(table, Indices(w));
    } else {
      RowsAreColumns(table, w, r - 1);
      TableColumnsNextRow(table, Indices(w), r);
      JoinCellsIsRowCells(table[r - 1], w);
    }
  }

  /** For a key without repeats, decryption as written is a permutation of
      the ciphertext: the fill loop places each of its units exactly once. */
  lemma DecryptedPermutation(text: Units, key: Units)
    requires Distinct(key)
    ensures multiset(Decrypted(text, key)) == multiset(text)
  {
    if key != [] {
      var cols, order := |key|, ColumnOrder(key);
      var rows := CeilDiv(|text|, cols);
      var t := DecryptTable(text, order, Lens(order, rows, EmptyCells(|text|, cols)), rows);
      assert Decrypted(text, key) == JoinRows(t, rows);
      assert multiset(JoinRows(t, rows)) == multiset(TableColumns(t, Indices(cols), rows)) by {
        RowsAreColumns(t, cols, rows);
      }
      assert multiset(TableColumns(t, Indices(cols), rows)) == multiset(TableColumns(t, Positions(order), rows)) by {
        OrderIsPermutation(key);
        PositionsAreColumns(order);
        TableColumnsPerm(t, Positions(order), Indices(cols), rows);
      }
      assert TableColumns(t, Positions(order), rows) == text by {
        ReadColumnsIsTableColumns(t, order, cols);
        assert Positions(order)[..cols] == Positions(order);
        ReadDecryptTable(text, key);
      }
    }
  }

  /** ... and so as long as the ciphertext. */
  lemma DecryptedLength(text: Units, key: Units)
    requires Distinct(key)
    ensures |Decrypted(text, key)| == |text|
  {
    DecryptedPermutation(text, key);
    assert |multiset(Decrypted(text, key))| == |multiset(text)|;
  }

  /** The columns of the top ranks are the last columns of the table; then
      the source's shortening picks the short columns. */
  predicate ShortColumnsAgree(n: nat, key: Units) {
    key != [] ==>
      var e := EmptyCells(n, |key|);
      forall c :: 0 <= c < |key| ==> (ColumnOrder(key)[c] >= |key| - e <==> c >= |key| - e)
  }

  /** When the top ranks sit in the last columns, decryption as written
      undoes encryption. */
  lemma RoundTrip(text: Units, key: Units)
    requires Distinct(key) && ShortColumnsAgree(|text|, key)
    ensures Decrypted(Encrypted(text, key), key) == text
  {
    if key != [] {
      var cols, order := |key|, ColumnOrder(key);
      var rows, e := CeilDiv(|text|, cols), EmptyCells(|text|, cols);
      var enc := Encrypted(text, key);
      assert |enc| == |text| by {
        EncryptedLength(text, key);
      }
      assert Lens(order, rows, e) == TrueLens(|text|, cols) by {
        OrderIsPermutation(key);
        LensDistinct(order, rows, e);
      }
      assert DecryptedIntended(enc, key) == text by {
        RoundTripIntended(text, key);
      }
      assert Decrypted(enc, key) == DecryptedIntended(enc, key);
    }
  }

  /** A text that fills the last row leaves no column short. */
  lemma RoundTripFullRows(text: Units, key: Units)
    requires Distinct(key) && (key != [] ==> |text| % |key| == 0)
    ensures Decrypted(Encrypted(text, key), key) == text
  {
    if key != [] {
      var cols := |key|;
      var q := |text| / cols;
      DivModUnique(|text| + cols - 1, cols, q, cols - 1);
      assert EmptyCells(|text|, cols) == 0;
    }
    RoundTrip(text, key);
  }

  /** A sorted sequence sorts to itself. */
  lemma {:induction false} SortOfSorted(s: Units)
    requires Sorted(s)
    ensures Sort(s) == s
  {
    if s != [] {
      assert Sorted(s[1..]) by {
        forall i, j | 0 <= i < j < |s[1..]| ensures s[1..][i] <= s[1..][j] {
          assert s[1..][i] == s[i + 1] && s[1..][j] == s[j + 1];
        }
      }
      SortOfSorted(s[1..]);
      assert s == [s[0]] + s[1..];
    }
  }

  /** A key in ascending order without repeats ranks every column as its own
      position, so decryption as written undoes encryption. */
  lemma RoundTripAscending(text: Units, key: Units)
    requires Distinct(key) && Sorted(key)
    ensures Decrypted(Encrypted(text, key), key) == text
  {
    SortOfSorted(key);
    assert forall c :: 0 <= c < |key| ==> ColumnOrder(key)[c] == c;
    RoundTrip(text, key);
  }

  // ----- concrete cases -----

  lemma TableAbc2()
    ensures Table([97, 98, 99], 2) == [[Unit(97), Unit(98)], [Unit(99), Blank]]
  {
    DivModUnique(4, 2, 2, 0);
    var t := Table([97, 98, 99], 2);
    assert t[0] == [Unit(97), Unit(98)];
    assert t[1] == [Unit(99), Blank];
  }

  lemma OrderBa()
    ensures ColumnOrder([98, 97]) == [1, 0]
  {
    assert Sort([97]) == [97];
    assert Sort([98, 97]) == Insert([97], 98) == [97, 98];
  }

  /** Key "ba" on "abc": the table has rows "ab" and "c", column 1 (rank 0)
      is read first, giving "bac". */
  lemma EncryptedAbcBa()
    ensures Encrypted([97, 98, 99], [98, 97]) == [98, 97, 99]
  {
    TableAbc2();
    OrderBa();
    var table := Table([97, 98, 99], 2);
    assert Position([1, 0], 0) == 1 && Position([1, 0], 1) == 0;
    assert ColumnRead(table, 1, 2) == [98];
    assert ColumnRead(table, 0, 2) == [97, 99];
  }

  /** Decrypting "bac" with key "ba" as written shortens column 0 (rank 1)
      instead of column 1, and gives "cba". */
  lemma DecryptedBacBa()
    ensures Decrypted([98, 97, 99], [98, 97]) == [99, 98, 97]
  {
    OrderBa();
    DivModUnique(4, 2, 2, 0);
    var text: Units := [98, 97, 99];
    var order := [1, 0];
    assert Position(order, 0) == 1 && Position(order, 1) == 0;
    var lens := Lens(order, 2, 1);
    assert lens == [1, 2];
    assert FillOffset(order, lens, 1) == 2;
    var t := DecryptTable(text, order, lens, 2);
    assert t[0] == [Unit(99), Unit(98)];
    assert t[1] == [Blank, Unit(97)];
    assert JoinCells(t[0], 1) == [99];
    assert JoinCells(t[0], 2) == [99, 98];
    assert JoinCells(t[1], 1) == [];
    assert JoinCells(t[1], 2) == [97];
    assert JoinRows(t, 1) == [99, 98];
  }

  /** The round trip fails as written for key "ba" and text "abc", and holds
      for the corrected decryption. */
  lemma DescendingKeyBreaksRoundTrip()
    ensures Decrypted(Encrypted([97, 98, 99], [98, 97]), [98, 97]) == [99, 98, 97]
    ensures DecryptedIntended(Encrypted([97, 98, 99], [98, 97]), [98, 97]) == [97, 98, 99]
  {
    EncryptedAbcBa();
    DecryptedBacBa();
    RoundTripIntended([97, 98, 99], [98, 97]);
  }

  lemma OrderAab()
    ensures ColumnOrder([97, 97, 98]) == [0, 0, 2]
  {
    assert Sort([98]) == [98];
    assert Sort([97, 98]) == [97, 98];
    assert Sort([97, 97, 98]) == [97, 97, 98];
  }

  lemma TableAbc3()
    ensures Table([97, 98, 99], 3) == [[Unit(97), Unit(98), Unit(99)]]
  {
    DivModUnique(5, 3, 1, 2);
    var table := Table([97, 98, 99], 3);
    assert table[0] == [Unit(97), Unit(98), Unit(99)];
  }

  /** A repeated key unit gives two columns the same rank; the rank after it
      belongs to no column, and its column is never read: key "aab" turns
      "abc" into "ac". */
  lemma RepeatedKeyDropsColumn()
    ensures Encrypted([97, 98, 99], [97, 97, 98]) == [97, 99]
  {
    OrderAab();
    TableAbc3();
    var order := [0, 0, 2];
    assert Position(order, 0) == 0 && Position(order, 1) == -1 && Position(order, 2) == 2;
    var table := [[Unit(97), Unit(98), Unit(99)]];
    assert ColumnRead(table, 0, 1) == [97];
    assert ColumnRead(table, -1, 1) == [];
    assert ColumnRead(table, 2, 1) == [99];
  }
}
