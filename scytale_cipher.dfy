/**
 * The scytale cipher: the text is laid out in rows of `rowWidth` letters and read off column
 * by column, top to bottom. Decryption re-encrypts with the column height as the row width,
 * which undoes the encryption only when the grid has at most one short column (or one row).
 */
module ScytaleCipher {
  import opened Arith
  import opened CipherUtils
  import opened IndexWalks

  /** The largest `size_t`; `0 - 1` wraps to it. */
  const SizeMax: nat := 0xFFFF_FFFF_FFFF_FFFF

  /** `std::string::resize`: keeps the first n characters and pads with NUL characters. */
  function Resize(prior: CString, n: nat): (r: CString)
    ensures |r| == n
  {
    seq(n, i requires 0 <= i < n => if i < |prior| then prior[i] else 0 as char)
  }

  // ----- Specification -----

  /** The positions of a grid of width w holding n letters, read column by column. */
  function ScytaleOrder(w: nat, n: nat): (order: seq<nat>)
    requires w > 0
    ensures |order| == n && InBounds(order, n) && IsPermutation(order, n)
  {
    ColumnsPermutation(w, n);
    Columns(w, n, w)
  }

  /**
   * What EncryptScytaleAlpha leaves in its output. With width 0 no column is read and the
   * output is the caller's buffer resized to the plaintext's length.
   */
  function Scytale(rowWidth: nat, plaintext: CString, prior: CString): (r: CString)
    ensures |r| == |plaintext|
  {
    if rowWidth == 0 then Resize(prior, |plaintext|)
    else Gather(plaintext, ScytaleOrder(rowWidth, |plaintext|))
  }

  /** The letters at c, c + w, c + 2w, ...: column c of the text in rows of width w. */
  function ColumnText(text: CString, c: nat, w: nat): CString
    requires w > 0
    decreases |text| - c
  {
    if c >= |text| then [] else [text[c]] + ColumnText(text, c + w, w)
  }

  /** Columns 0 .. k - 1 of the text, one after the other. */
  function ColumnTexts(text: CString, w: nat, k: nat): CString
    requires w > 0
  {
    if k == 0 then [] else ColumnTexts(text, w, k - 1) + ColumnText(text, k - 1, w)
  }

  /** The column height DecryptScytaleAlpha computes, with `size_t` wrap-around. */
  function ColumnHeight(rowWidth: nat, n: nat): nat
    requires rowWidth > 0
  {
    var lastIndex := if n == 0 then SizeMax else n - 1;
    (1 + lastIndex / rowWidth) % (SizeMax + 1)
  }

  /** What DecryptScytaleAlpha leaves in its output. */
  function ScytaleDecrypt(rowWidth: nat, ciphertext: CString, prior: CString): (r: CString)
    requires rowWidth > 0
    ensures |r| == |ciphertext|
  {
    Scytale(ColumnHeight(rowWidth, |ciphertext|), ciphertext, prior)
  }

  /** The number of rows a grid of width w needs for n letters. */
  function Rows(w: nat, n: nat): nat
    requires w > 0
  {
    (n + w - 1) / w
  }

  /** Where encryption with width w puts the letter at position p. */
  function Pos(w: nat, n: nat, p: nat): nat
    requires w > 0
  {
    var column: nat, row: nat := p % w, p / w;
    column * Rows(w, n) + row
  }

  /** The grid has no short column, exactly one, or a single row. */
  predicate NearlyRectangular(w: nat, n: nat)
    requires w > 0
  {
    n % w == 0 || n % w == w - 1 || n < w
  }

  // ----- Operations -----

  method EncryptScytaleAlpha(rowWidth: nat, plaintext: CString, prior: CString)
    returns (ciphertext: CString)
    ensures ciphertext == Scytale(rowWidth, plaintext, prior)
  {
    var plaintextSize := |plaintext|;
    var resized := Resize(prior, plaintextSize);
    var buffer := new CChar[plaintextSize](i requires 0 <= i < plaintextSize => resized[i]);
    if rowWidth == 0 {
      // No column to read: the resized buffer is the result.
      ciphertext := buffer[..];
      return;
    }
    ColumnsPermutation(rowWidth, plaintextSize);
    ghost var order: seq<nat> := [];
    var cipherIndex: nat := 0;
    for column := 0 to rowWidth
      invariant order == Columns(rowWidth, plaintextSize, column)
      invariant cipherIndex == |order| <= plaintextSize && InBounds(order, plaintextSize)
      invariant forall j :: 0 <= j < cipherIndex ==> buffer[j] == plaintext[order[j]]
    {
      ColumnsStep(rowWidth, plaintextSize, column);
      ColumnsPrefix(rowWidth, plaintextSize, column + 1, rowWidth);
      ColumnInBounds(column, rowWidth, plaintextSize);
      cipherIndex := ReadColumn(buffer, plaintext, column, rowWidth, cipherIndex, order);
      order := order + Column(column, rowWidth, plaintextSize);
    }
    ciphertext := buffer[..];
  }

  method DecryptScytaleAlpha(rowWidth: nat, ciphertext: CString, prior: CString)
    returns (plaintext: CString)
    requires rowWidth > 0
    ensures plaintext == ScytaleDecrypt(rowWidth, ciphertext, prior)
  {
    var totalLength := |ciphertext|;
    // `total_length - 1` wraps to the largest size_t when the ciphertext is empty.
    var lastIndex := if totalLength == 0 then SizeMax else totalLength - 1;
    var columnHeight := (1 + lastIndex / rowWidth) % (SizeMax + 1);
    plaintext := EncryptScytaleAlpha(columnHeight, ciphertext, prior);
  }

  // ----- Properties -----

  lemma {:induction false} ColumnTextIsGather(text: CString, c: nat, w: nat)
    requires w > 0
    ensures InBounds(Column(c, w, |text|), |text|)
    ensures ColumnText(text, c, w) == Gather(text, Column(c, w, |text|))
    decreases |text| - c
  {
    ColumnInBounds(c, w, |text|);
    if c < |text| {
      ColumnTextIsGather(text, c + w, w);
    }
  }

  lemma {:induction false} ColumnTextsAreGather(text: CString, w: nat, k: nat)
    requires w > 0
    ensures InBounds(Columns(w, |text|, k), |text|)
    ensures ColumnTexts(text, w, k) == Gather(text, Columns(w, |text|, k))
  {
    if k == 0 {
      assert Columns(w, |text|, k) == [];
    } else {
      var m: nat := k - 1;
      ColumnTextsAreGather(text, w, m);
      ColumnsStep(w, |text|, m);
      ColumnTextIsGather(text, m, w);
      GatherAppend(text, Columns(w, |text|, m), Column(m, w, |text|));
    }
  }

  /**
   * The ciphertext is column 0 of the plaintext (the letters at 0, w, 2w, ...), then
   * column 1, ..., then column w - 1.
   */
  lemma ScytaleReadsColumns(rowWidth: nat, plaintext: CString, prior: CString)
    requires rowWidth > 0
    ensures Scytale(rowWidth, plaintext, prior) == ColumnTexts(plaintext, rowWidth, rowWidth)
  {
    ColumnTextsAreGather(plaintext, rowWidth, rowWidth);
  }

  /** Encryption with a positive width rearranges the letters, losing and adding none. */
  lemma ScytalePermutes(rowWidth: nat, plaintext: CString, prior: CString)
    requires rowWidth > 0
    ensures multiset(Scytale(rowWidth, plaintext, prior)) == multiset(plaintext)
  {
    GatherPermutation(plaintext, ScytaleOrder(rowWidth, |plaintext|));
  }

  /** With n > 0 letters, the column height is the number of rows, and that many rows fit. */
  lemma ColumnHeightIsRows(rowWidth: nat, n: nat)
    requires rowWidth > 0 && 0 < n <= SizeMax
    ensures ColumnHeight(rowWidth, n) == Rows(rowWidth, n) > 0
    ensures (Rows(rowWidth, n) - 1) * rowWidth < n <= Rows(rowWidth, n) * rowWidth
  {
    var w := rowWidth;
    var q := (n - 1) / w;
    RowsOfLast(w, n);
    DivMod(n - 1, w);
    MulAtLeastOne(q, w);
    ModSmall(1 + q, SizeMax + 1);
    assert (q + 1) * w == q * w + w;
  }

  /** Decrypting nothing yields nothing, whatever the column height wraps to. */
  lemma DecryptEmpty(rowWidth: nat, prior: CString)
    requires rowWidth > 0
    ensures ScytaleDecrypt(rowWidth, [], prior) == []
  {}

  /** With at least one letter, the row count is one more than the last index's row. */
  lemma RowsOfLast(w: nat, n: nat)
    requires w > 0 && n > 0
    ensures Rows(w, n) == (n - 1) / w + 1
  {
    DivModAddDivisor(n - 1, w);
    assert n + w - 1 == (n - 1) + w;
  }

  /** Column c is full when it reaches the last row, i.e. when c <= (n - 1) % w. */
  lemma FullColumn(w: nat, n: nat, c: nat)
    requires w > 0 && n > 0 && c <= (n - 1) % w
    ensures |Column(c, w, n)| == Rows(w, n)
  {
    var q, r := (n - 1) / w, (n - 1) % w;
    assert n - 1 == q * w + r;
    ColumnAt(c, w, n);
    DivModUnique(n - c - 1, w, q, r - c);
    RowsOfLast(w, n);
  }

  /** In a nearly rectangular grid, the columns left of any letter's column reach the last row. */
  lemma ColumnsLeftReachLastRow(w: nat, n: nat, p: nat)
    requires w > 0 && p < n && NearlyRectangular(w, n)
    ensures p % w <= (n - 1) % w || p % w == (n - 1) % w + 1 == w - 1
  {
    var k := n / w;
    assert n == k * w + n % w;
    if n % w == 0 {
      assert k >= 1;
      assert (k - 1) * w == k * w - w;
      DivModUnique(n - 1, w, k - 1, w - 1);
    } else if n % w == w - 1 {
      DivModUnique(n - 1, w, k, w - 2);
    } else {
      ModSmall(n - 1, w);
      ModSmall(p, w);
    }
  }

  /** In a nearly rectangular grid, every column before the one holding p is a full column. */
  lemma FullColumnsBefore(w: nat, n: nat, p: nat, c: nat)
    requires w > 0 && p < n && NearlyRectangular(w, n) && c < p % w
    ensures |Column(c, w, n)| == Rows(w, n)
  {
    ColumnsLeftReachLastRow(w, n, p);
    FullColumn(w, n, c);
  }

  /** Position p is entry p / w of its column. */
  lemma ColumnEntry(w: nat, n: nat, p: nat)
    requires w > 0 && p < n
    ensures p / w < |Column(p % w, w, n)| && Column(p % w, w, n)[p / w] == p
  {
    var c, q := p % w, p / w;
    DivMod(p, w);
    ColumnAt(c, w, n);
    DivAtLeast(n - c - 1, w, q);
    assert Column(c, w, n)[q] == c + q * w;
  }

  /** In a nearly rectangular grid, encryption moves the letter at p to Pos(w, n, p). */
  lemma OrderAt(w: nat, n: nat, p: nat)
    requires w > 0 && p < n && NearlyRectangular(w, n)
    ensures Pos(w, n, p) < n && ScytaleOrder(w, n)[Pos(w, n, p)] == p
  {
    var c, q := p % w, p / w;
    ColumnsBeforeFull(w, n, p);
    ColumnEntry(w, n, p);
    ColumnsEntry(w, n, c, q);
    assert Pos(w, n, p) == |Columns(w, n, c)| + q;
    assert ScytaleOrder(w, n) == Columns(w, n, w);
  }

  /** In a nearly rectangular grid, the columns before p's column hold p % w full columns. */
  lemma ColumnsBeforeFull(w: nat, n: nat, p: nat)
    requires w > 0 && p < n && NearlyRectangular(w, n)
    ensures |Columns(w, n, p % w)| == (p % w) * Rows(w, n)
  {
    forall c': nat | c' < p % w
      ensures |Column(c', w, n)| == Rows(w, n)
    {
      FullColumnsBefore(w, n, p, c');
    }
    ColumnsFull(w, n, p % w, Rows(w, n));
  }

  /** A full grid of k rows of width w: swapped, it has w rows of width k. */
  lemma RowsOfFullGrid(w: nat, k: nat, n: nat)
    requires w > 0 && k > 0 && n == k * w
    ensures Rows(w, n) == k && Rows(k, n) == w && n % k == 0
  {
    DivModUnique(n + w - 1, w, k, w - 1);
    DivModUnique(n + k - 1, k, w, k - 1);
    DivModUnique(n, k, w, 0);
  }

  /** k full rows and a last row one short: swapped, the last of k + 1 columns is one short. */
  lemma RowsOfShortGrid(w: nat, k: nat, n: nat)
    requires w >= 2 && n == k * w + w - 1
    ensures Rows(w, n) == k + 1
    ensures k > 0 ==> Rows(k + 1, n) == w && n % (k + 1) == k
  {
    assert (k + 1) * w == k * w + w;
    DivModUnique(n + w - 1, w, k + 1, w - 2);
    if k > 0 {
      DivModUnique(n + k, k + 1, w, k - 1);
      assert (k + 1) * (w - 1) == (k + 1) * w - k - 1;
      DivModUnique(n, k + 1, w - 1, k);
    }
  }

  /** Fewer letters than the width: a single row. */
  lemma RowsOfOneRow(w: nat, n: nat)
    requires 0 < n < w
    ensures Rows(w, n) == 1
  {
    DivModUnique(n + w - 1, w, 1, n - 1);
  }

  /**
   * Re-encrypting with the row count as width is the transposition back: rows and columns
   * swap roles. The grid of that width is again nearly rectangular, and either it has w rows
   * or the original grid had a single row.
   */
  lemma RowsOfRows(w: nat, n: nat)
    requires w > 0 && n > 0 && NearlyRectangular(w, n)
    ensures Rows(w, n) > 0 && NearlyRectangular(Rows(w, n), n)
    ensures Rows(w, n) == 1 || Rows(Rows(w, n), n) == w
  {
    var k := n / w;
    assert n == k * w + n % w;
    if n % w == 0 {
      RowsOfFullGrid(w, k, n);
    } else if n % w == w - 1 {
      RowsOfShortGrid(w, k, n);
      if k == 0 {
        DivModUnique(n, 1, n, 0);
      }
    } else {
      RowsOfOneRow(w, n);
      DivModUnique(n, 1, n, 0);
    }
  }

  /** Reading row b, column a of a grid with r rows back from the transposed grid. */
  lemma Transpose(i: nat, w: nat, r: nat, r': nat)
    requires w > 0 && r > 0 && i / w < r && (r == 1 || r' == w)
    ensures ((i % w) * r + i / w) % r * r' + ((i % w) * r + i / w) / r == i
  {
    var a, b := i % w, i / w;
    DivModUnique(a * r + b, r, a, b);
    assert i == b * w + a;
  }

  /** In a nearly rectangular grid, the position map of the swapped grid undoes Pos(w, n, _). */
  lemma SwapRows(w: nat, n: nat, i: nat)
    requires w > 0 && i < n && NearlyRectangular(w, n)
    ensures Rows(w, n) > 0 && NearlyRectangular(Rows(w, n), n)
    ensures Pos(Rows(w, n), n, Pos(w, n, i)) == i
  {
    var r := Rows(w, n);
    RowsOfRows(w, n);
    RowsOfLast(w, n);
    DivMonotone(i, n - 1, w);
    Transpose(i, w, r, Rows(r, n));
  }

  /**
   * The intended decryption: each letter is written back to the position encryption read it
   * from.
   */
  function ScytaleInverse(rowWidth: nat, ciphertext: CString, prior: CString): (r: CString)
    requires rowWidth > 0
    ensures |r| == |ciphertext|
  {
    var n := |ciphertext|;
    Scatter(ScytaleOrder(rowWidth, n), ciphertext, Resize(prior, n))
  }

  /** The intended decryption recovers every plaintext, whatever its length. */
  lemma InverseUndoesScytale(rowWidth: nat, plaintext: CString, prior: CString, prior': CString)
    requires rowWidth > 0
    ensures ScytaleInverse(rowWidth, Scytale(rowWidth, plaintext, prior), prior') == plaintext
  {
    ScatterGather(plaintext, ScytaleOrder(rowWidth, |plaintext|), Resize(prior', |plaintext|));
  }

  /** ... and every ciphertext is the encryption of its intended decryption. */
  lemma ScytaleUndoesInverse(rowWidth: nat, ciphertext: CString, prior: CString, prior': CString)
    requires rowWidth > 0
    ensures Scytale(rowWidth, ScytaleInverse(rowWidth, ciphertext, prior), prior') == ciphertext
  {
    var n := |ciphertext|;
    GatherScatter(ciphertext, ScytaleOrder(rowWidth, n), Resize(prior, n));
  }

  /** In a nearly rectangular grid, DecryptScytaleAlpha computes the intended decryption. */
  lemma DecryptIsInverse(rowWidth: nat, ciphertext: CString, prior: CString, prior': CString)
    requires rowWidth > 0 && NearlyRectangular(rowWidth, |ciphertext|)
    requires |ciphertext| <= SizeMax
    ensures ScytaleDecrypt(rowWidth, ciphertext, prior) == ScytaleInverse(rowWidth, ciphertext, prior')
  {
    var w, n := rowWidth, |ciphertext|;
    if n > 0 {
      ColumnHeightIsRows(w, n);
      var r := Rows(w, n);
      var order, back := ScytaleOrder(w, n), ScytaleOrder(r, n);
      var decrypted := Gather(ciphertext, back);
      assert ScytaleDecrypt(w, ciphertext, prior) == decrypted;
      PermutationFacts(order, n);
      forall j | 0 <= j < n
        ensures decrypted[order[j]] == ciphertext[j]
      {
        var i := order[j];
        OrderAt(w, n, i);
        assert Pos(w, n, i) == j;
        SwapRows(w, n, i);
        OrderAt(r, n, j);
      }
      ScatterPointwise(order, ciphertext, Resize(prior', n), decrypted);
    }
  }

  /** DecryptScytaleAlpha undoes EncryptScytaleAlpha when the grid is nearly rectangular. */
  lemma DecryptEncrypt(rowWidth: nat, plaintext: CString, prior: CString, prior': CString)
    requires rowWidth > 0 && NearlyRectangular(rowWidth, |plaintext|)
    requires |plaintext| <= SizeMax
    ensures ScytaleDecrypt(rowWidth, Scytale(rowWidth, plaintext, prior), prior') == plaintext
  {
    var ciphertext := Scytale(rowWidth, plaintext, prior);
    DecryptIsInverse(rowWidth, ciphertext, prior', prior');
    InverseUndoesScytale(rowWidth, plaintext, prior, prior');
  }

  /** Width 1, or a width holding the whole text in one row, leaves the text unchanged. */
  lemma ScytaleIdentity(rowWidth: nat, plaintext: CString, prior: CString)
    requires rowWidth == 1 || 0 < |plaintext| <= rowWidth
    ensures Scytale(rowWidth, plaintext, prior) == plaintext
  {
    var w, n := rowWidth, |plaintext|;
    if n > 0 {
      if w > 1 {
        ModSmall(n - 1, w);
        RowsOfLast(w, n);
        if n == w {
          DivModUnique(n, w, 1, 0);
        }
      }
      assert NearlyRectangular(w, n);
      forall p | 0 <= p < n
        ensures ScytaleOrder(w, n)[p] == p
      {
        if w > 1 {
          ModSmall(p, w);
        }
        assert Pos(w, n, p) == p;
        OrderAt(w, n, p);
      }
    }
  }

  // ----- Worked examples -----

  const GoodMorning: CString := "GOODMORNINGWORLDANDALLWHOINHABITIT"

  /** The reading order of a grid of width 5, from its five columns. */
  lemma FiveColumnOrder(n: nat, c0: seq<nat>, c1: seq<nat>, c2: seq<nat>, c3: seq<nat>,
                        c4: seq<nat>)
    requires Column(0, 5, n) == c0 && Column(1, 5, n) == c1 && Column(2, 5, n) == c2
    requires Column(3, 5, n) == c3 && Column(4, 5, n) == c4
    ensures ScytaleOrder(5, n) == c0 + c1 + c2 + c3 + c4
  {
    assert Columns(5, n, 0) == [];
    ColumnsStep(5, n, 0);
    assert Columns(5, n, 1) == c0;
    ColumnsStep(5, n, 1);
    assert Columns(5, n, 2) == c0 + c1;
    ColumnsStep(5, n, 2);
    assert Columns(5, n, 3) == c0 + c1 + c2;
    ColumnsStep(5, n, 3);
    assert Columns(5, n, 4) == c0 + c1 + c2 + c3;
    ColumnsStep(5, n, 4);
    assert ScytaleOrder(5, n) == Columns(5, n, 5);
  }

  /** A text in rows of five letters is read down its five columns. */
  lemma FiveColumnVector(plaintext: CString, prior: CString, c0: seq<nat>, c1: seq<nat>,
                         c2: seq<nat>, c3: seq<nat>, c4: seq<nat>, g0: CString, g1: CString,
                         g2: CString, g3: CString, g4: CString)
    requires InBounds(c0 + c1 + c2 + c3 + c4, |plaintext|)
    requires Column(0, 5, |plaintext|) == c0 && Column(1, 5, |plaintext|) == c1
    requires Column(2, 5, |plaintext|) == c2 && Column(3, 5, |plaintext|) == c3
    requires Column(4, 5, |plaintext|) == c4
    requires Gather(plaintext, c0 + c1 + c2 + c3 + c4) == g0 + g1 + g2 + g3 + g4
    ensures Scytale(5, plaintext, prior) == g0 + g1 + g2 + g3 + g4
  {
    FiveColumnOrder(|plaintext|, c0, c1, c2, c3, c4);
  }

  /** The reading order of a grid of width 2, from its two columns. */
  lemma TwoColumnOrder(n: nat, c0: seq<nat>, c1: seq<nat>)
    requires Column(0, 2, n) == c0 && Column(1, 2, n) == c1
    ensures ScytaleOrder(2, n) == c0 + c1
  {
    assert Columns(2, n, 0) == [];
    ColumnsStep(2, n, 0);
    assert Columns(2, n, 1) == c0;
    ColumnsStep(2, n, 1);
    assert ScytaleOrder(2, n) == Columns(2, n, 2);
  }

  /** A text in rows of two letters is read down its two columns. */
  lemma TwoColumnVector(plaintext: CString, prior: CString, c0: seq<nat>, c1: seq<nat>,
                        g0: CString, g1: CString)
    requires InBounds(c0 + c1, |plaintext|)
    requires Column(0, 2, |plaintext|) == c0 && Column(1, 2, |plaintext|) == c1
    requires Gather(plaintext, c0 + c1) == g0 + g1
    ensures Scytale(2, plaintext, prior) == g0 + g1
  {
    TwoColumnOrder(|plaintext|, c0, c1);
  }

  lemma GoodMorningColumns()
    ensures Column(0, 5, 34) == [0, 5, 10, 15, 20, 25, 30]
    ensures Column(1, 5, 34) == [1, 6, 11, 16, 21, 26, 31]
    ensures Column(2, 5, 34) == [2, 7, 12, 17, 22, 27, 32]
    ensures Column(3, 5, 34) == [3, 8, 13, 18, 23, 28, 33]
    ensures Column(4, 5, 34) == [4, 9, 14, 19, 24, 29]
  {
    GoodMorningColumn0();
    GoodMorningColumn1();
    GoodMorningColumn2();
    GoodMorningColumnsRight();
  }

  lemma GoodMorningColumn0()
    ensures Column(0, 5, 34) == [0, 5, 10, 15, 20, 25, 30]
  {}

  lemma GoodMorningColumn1()
    ensures Column(1, 5, 34) == [1, 6, 11, 16, 21, 26, 31]
  {}

  lemma GoodMorningColumn2()
    ensures Column(2, 5, 34) == [2, 7, 12, 17, 22, 27, 32]
  {}

  lemma GoodMorningColumnsRight()
    ensures Column(3, 5, 34) == [3, 8, 13, 18, 23, 28, 33]
    ensures Column(4, 5, 34) == [4, 9, 14, 19, 24, 29]
  {}

  lemma GoodMorningGathers()
    ensures Gather(GoodMorning, [0, 5, 10, 15, 20, 25, 30]) == "GOGDLII"
    ensures Gather(GoodMorning, [1, 6, 11, 16, 21, 26, 31]) == "ORWALNT"
  {}

  lemma GoodMorningGathers2()
    ensures Gather(GoodMorning, [2, 7, 12, 17, 22, 27, 32]) == "ONONWHI"
    ensures Gather(GoodMorning, [3, 8, 13, 18, 23, 28, 33]) == "DIRDHAT"
    ensures Gather(GoodMorning, [4, 9, 14, 19, 24, 29]) == "MNLAOB"
  {}

  /** Rows of five letters, read down the five columns. */
  lemma VectorGoodMorning(prior: CString)
    ensures Scytale(5, GoodMorning, prior) == "GOGDLII" + "ORWALNT" + "ONONWHI" + "DIRDHAT" + "MNLAOB"
  {
    GoodMorningColumns();
    GoodMorningGathers();
    GoodMorningGathers2();
    var c0, c1, c2, c3, c4 := [0, 5, 10, 15, 20, 25, 30], [1, 6, 11, 16, 21, 26, 31],
      [2, 7, 12, 17, 22, 27, 32], [3, 8, 13, 18, 23, 28, 33], [4, 9, 14, 19, 24, 29];
    GatherAppend(GoodMorning, c0, c1);
    GatherAppend(GoodMorning, c0 + c1, c2);
    GatherAppend(GoodMorning, c0 + c1 + c2, c3);
    GatherAppend(GoodMorning, c0 + c1 + c2 + c3, c4);
    FiveColumnVector(GoodMorning, prior, c0, c1, c2, c3, c4,
      "GOGDLII", "ORWALNT", "ONONWHI", "DIRDHAT", "MNLAOB");
  }

  /** Decryption of the example: the grid of width 5 has 34 letters, one short of full. */
  lemma VectorGoodMorningDecrypt(prior: CString)
    ensures ScytaleDecrypt(5, "GOGDLII" + "ORWALNT" + "ONONWHI" + "DIRDHAT" + "MNLAOB", prior)
         == GoodMorning
  {
    VectorGoodMorning(prior);
    DecryptEncrypt(5, GoodMorning, prior, prior);
  }

  const Seven: CString := "ABCDEFG"

  lemma SevenColumns()
    ensures Column(0, 5, 7) == [0, 5] && Column(1, 5, 7) == [1, 6]
    ensures Column(2, 5, 7) == [2] && Column(3, 5, 7) == [3] && Column(4, 5, 7) == [4]
    ensures Column(0, 2, 7) == [0, 2, 4, 6] && Column(1, 2, 7) == [1, 3, 5]
  {}

  const Scrambled: CString := "AFBGCDE"

  lemma SevenEncrypts(prior: CString)
    ensures Scytale(5, Seven, prior) == Scrambled
  {
    SevenColumns();
    assert Gather(Seven, [0, 5] + [1, 6] + [2] + [3] + [4]) == "AF" + "BG" + "C" + "D" + "E";
    FiveColumnVector(Seven, prior, [0, 5], [1, 6], [2], [3], [4], "AF", "BG", "C", "D", "E");
  }

  lemma SevenHeight()
    ensures ColumnHeight(5, 7) == 2
  {}

  lemma SevenDecrypts(ciphertext: CString, prior: CString)
    requires ciphertext == Scrambled
    ensures ScytaleDecrypt(5, ciphertext, prior) == "ABCE" + "FGD"
  {
    assert |ciphertext| == 7;
    SevenColumns();
    SevenHeight();
    assert Gather(ciphertext, [0, 2, 4, 6] + [1, 3, 5]) == "ABCE" + "FGD";
    TwoColumnVector(ciphertext, prior, [0, 2, 4, 6], [1, 3, 5], "ABCE", "FGD");
  }

  /**
   * Seven letters in rows of five leave three short columns: decryption re-reads the
   * ciphertext in rows of two, which does not undo the encryption.
   */
  lemma DecryptMissesShortColumns(prior: CString)
    ensures !NearlyRectangular(5, |Seven|)
    ensures Scytale(5, Seven, prior) == Scrambled
    ensures ScytaleDecrypt(5, Scrambled, prior) == "ABCE" + "FGD" != Seven
  {
    SevenEncrypts(prior);
    SevenDecrypts(Scrambled, prior);
    assert ("ABCE" + "FGD")[3] != Seven[3];
  }
}
