/**
 * The columnar transposition cipher: the text is padded to whole rows of |key| letters and
 * its columns are read top to bottom, in the order of the key's letters.
 */
module ColumnarCipher {
  import opened Arith
  import opened CipherUtils
  import opened IndexWalks

  // ----- Specification -----

  /**
   * `order` lists the key's positions so that their letters never decrease. Positions with
   * equal letters may come in either order, as `std::sort` is not stable.
   */
  ghost predicate KeyOrder(key: CString, order: seq<nat>)
  {
    |order| == |key| && IsPermutation(order, |key|) && InBounds(order, |key|)
    && forall i, j :: 0 <= i < j < |order| ==> key[order[i]] <= key[order[j]]
  }

  /** How many letters the padding loop appends to a text of length n. */
  function PadCount(n: nat, w: nat): nat
    requires w > 0
  {
    if n % w == 0 then 0 else w - n % w
  }

  /** The plaintext followed by the first PadCount letters the random source draws. */
  function Padded(plaintext: CString, w: nat, filler: CString): (r: CString)
    requires w > 0 && PadCount(|plaintext|, w) <= |filler|
  {
    plaintext + filler[..PadCount(|plaintext|, w)]
  }

  /** The positions of the padded text, column by column in the given order. */
  function ColumnarWalk(w: nat, n: nat, order: seq<nat>): seq<nat>
    requires w > 0
  {
    ConcatMap(ColumnOf(w, n), order)
  }

  /** What EncryptColumnarAlpha leaves in its output when the key is sorted into `order`. */
  function Columnar(key: CString, plaintext: CString, filler: CString, order: seq<nat>): CString
    requires |key| > 0 && PadCount(|plaintext|, |key|) <= |filler|
  {
    var padded := Padded(plaintext, |key|, filler);
    ColumnsAlongInBounds(|key|, |padded|, order);
    Gather(padded, ColumnarWalk(|key|, |padded|, order))
  }

  // ----- Operations -----

  /** `iota` followed by an in-place sort of the positions by their letters. */
  method SortIndices(s: CString) returns (indices: seq<nat>)
    ensures KeyOrder(s, indices)
  {
    var n := |s|;
    var a := new nat[n](i => i);
    assert a[..] == Range(n);
    for i := 0 to n
      invariant multiset(a[..]) == multiset(Range(n))
      invariant InBounds(a[..], n)
      invariant forall p, q :: 0 <= p < q < i ==> s[a[p]] <= s[a[q]]
    {
      InsertByLetter(s, a, i);
    }
    indices := a[..];
  }

  /** The letters along x[..i + 1] never decrease, except possibly into position j. */
  ghost predicate SortedExcept(s: CString, x: seq<nat>, i: nat, j: nat)
    requires i < |x| && InBounds(x, |s|)
  {
    forall p, q :: 0 <= p < q <= i && q != j ==> s[x[p]] <= s[x[q]]
  }

  /** Swapping a smaller letter left past a larger one moves the exception one step left. */
  lemma SwapLeft(s: CString, x: seq<nat>, i: nat, j: nat)
    requires i < |x| && InBounds(x, |s|) && 0 < j <= i
    requires SortedExcept(s, x, i, j) && s[x[j - 1]] > s[x[j]]
    ensures InBounds(x[j - 1 := x[j]][j := x[j - 1]], |s|)
    ensures SortedExcept(s, x[j - 1 := x[j]][j := x[j - 1]], i, j - 1)
  {}

  /** One step of the sort: moves a[i] left past the larger letters before it. */
  method InsertByLetter(s: CString, a: array<nat>, i: nat)
    requires i < a.Length == |s|
    requires InBounds(a[..], |s|) && SortedExcept(s, a[..], i, i)
    modifies a
    ensures multiset(a[..]) == old(multiset(a[..]))
    ensures InBounds(a[..], |s|) && SortedExcept(s, a[..], i, i + 1)
  {
    var j := i;
    while j > 0 && s[a[j - 1]] > s[a[j]]
      invariant 0 <= j <= i
      invariant multiset(a[..]) == old(multiset(a[..]))
      invariant InBounds(a[..], |s|) && SortedExcept(s, a[..], i, j)
    {
      SwapLeft(s, a[..], i, j);
      Swap(a, j - 1, j);
      j := j - 1;
    }
  }

  method Swap(a: array<nat>, i: nat, j: nat)
    requires i < j < a.Length
    modifies a
    ensures a[..] == old(a[..])[i := old(a[j])][j := old(a[i])]
    ensures multiset(a[..]) == old(multiset(a[..]))
  {
    a[i], a[j] := a[j], a[i];
  }

  /** The padding loop: append letters until the length is a multiple of w. */
  method PadToRows(plaintext: CString, w: nat, filler: CString) returns (padded: CString)
    requires w > 0 && PadCount(|plaintext|, w) <= |filler|
    ensures padded == Padded(plaintext, w, filler)
  {
    PadCountLeast(|plaintext|, w);
    padded := plaintext;
    var drawn := 0;
    while |padded| % w != 0
      invariant drawn <= PadCount(|plaintext|, w)
      invariant padded == plaintext + filler[..drawn]
      decreases PadCount(|plaintext|, w) - drawn
    {
      padded := padded + [filler[drawn]];
      drawn := drawn + 1;
    }
    PadCountUnique(|plaintext|, w, drawn);
  }

  /**
   * Encrypts with the columns taken in key order. `filler` stands for the letters the random
   * source would draw; `order` is the sorted key order SortIndices happened to produce.
   */
  method EncryptColumnarAlpha(cipherkey: CString, plaintext: CString, filler: CString)
    returns (ciphertext: CString, order: seq<nat>)
    requires |cipherkey| > 0 && PadCount(|plaintext|, |cipherkey|) <= |filler|
    ensures KeyOrder(cipherkey, order)
    ensures ciphertext == Columnar(cipherkey, plaintext, filler, order)
  {
    var numColumns := |cipherkey|;
    var plaintextCopy := PadToRows(plaintext, numColumns, filler);
    var size := |plaintextCopy|;
    var buffer := new CChar[size](_ => 0 as char);
    var offsets := SortIndices(cipherkey);
    order := offsets;
    WalkIsPermutation(numColumns, size, offsets);
    ghost var walk: seq<nat> := [];
    var cipherIndex: nat := 0;
    for t := 0 to |offsets|
      invariant walk == ColumnarWalk(numColumns, size, offsets[..t])
      invariant cipherIndex == |walk| <= size && InBounds(walk, size)
      invariant forall j :: 0 <= j < cipherIndex ==> buffer[j] == plaintextCopy[walk[j]]
    {
      var offset := offsets[t];
      WalkPrefix(numColumns, size, offsets, t);
      ColumnInBounds(offset, numColumns, size);
      cipherIndex := ReadColumn(buffer, plaintextCopy, offset, numColumns, cipherIndex, walk);
      walk := walk + Column(offset, numColumns, size);
    }
    assert offsets[..|offsets|] == offsets;
    ciphertext := buffer[..];
  }

  // ----- Properties -----

  /** PadCount letters make the length a multiple of w, and fewer than w are ever needed. */
  lemma PadCountLeast(n: nat, w: nat)
    requires w > 0
    ensures PadCount(n, w) < w
    ensures (n + PadCount(n, w)) % w == 0
  {
    var q, r := n / w, n % w;
    assert n == q * w + r;
    if r != 0 {
      DivModUnique(n + (w - r), w, q + 1, 0);
    }
  }

  /** No shorter padding would do: PadCount is the only count below w that fills the rows. */
  lemma PadCountUnique(n: nat, w: nat, k: nat)
    requires w > 0 && k < w && (n + k) % w == 0
    ensures k == PadCount(n, w)
  {
    var q, r := n / w, n % w;
    assert n == q * w + r;
    if r + k < w {
      DivModUnique(n + k, w, q, r + k);
    } else {
      DivModUnique(n + k, w, q + 1, r + k - w);
    }
  }

  /**
   * The padded text starts with the plaintext, its length is a multiple of w, it adds fewer
   * than w letters, and they are letters drawn from the random source.
   */
  lemma PaddingFacts(plaintext: CString, w: nat, filler: CString)
    requires w > 0 && PadCount(|plaintext|, w) <= |filler|
    ensures var padded := Padded(plaintext, w, filler);
      && padded[..|plaintext|] == plaintext
      && |padded| % w == 0
      && |padded| - |plaintext| < w
      && (AllUpperAlpha(filler) ==> AllUpperAlpha(padded[|plaintext|..]))
  {
    PadCountLeast(|plaintext|, w);
    var padded := Padded(plaintext, w, filler);
    assert padded[|plaintext|..] == filler[..PadCount(|plaintext|, w)];
  }

  /** Reading every column once, in any key order, visits every position of the grid once. */
  lemma WalkIsPermutation(w: nat, n: nat, order: seq<nat>)
    requires w > 0 && IsPermutation(order, w)
    ensures IsPermutation(ColumnarWalk(w, n, order), n)
    ensures |ColumnarWalk(w, n, order)| == n && InBounds(ColumnarWalk(w, n, order), n)
  {
    ConcatMapPermutation(ColumnOf(w, n), order, w);
    ColumnsPermutation(w, n);
    PermutationBounds(ColumnarWalk(w, n, order), n);
  }

  /** The columns read so far are a prefix of the whole walk. */
  lemma WalkPrefix(w: nat, n: nat, order: seq<nat>, t: nat)
    requires w > 0 && t < |order|
    ensures ColumnarWalk(w, n, order[..t + 1])
         == ColumnarWalk(w, n, order[..t]) + Column(order[t], w, n)
    ensures |ColumnarWalk(w, n, order[..t + 1])| <= |ColumnarWalk(w, n, order)|
  {
    assert order[..t + 1][..t] == order[..t];
    ConcatMapAppend(ColumnOf(w, n), order[..t + 1], order[t + 1..]);
    assert order[..t + 1] + order[t + 1..] == order;
  }

  /**
   * The ciphertext holds the letters of the plaintext and of the padding, each once: with no
   * padding it is a rearrangement of the plaintext.
   */
  lemma ColumnarPermutes(key: CString, plaintext: CString, filler: CString, order: seq<nat>)
    requires |key| > 0 && PadCount(|plaintext|, |key|) <= |filler| && KeyOrder(key, order)
    ensures var padded := Padded(plaintext, |key|, filler);
      multiset(Columnar(key, plaintext, filler, order)) == multiset(padded)
    ensures |plaintext| % |key| == 0 ==>
      multiset(Columnar(key, plaintext, filler, order)) == multiset(plaintext)
  {
    var padded := Padded(plaintext, |key|, filler);
    WalkIsPermutation(|key|, |padded|, order);
    GatherPermutation(padded, ColumnarWalk(|key|, |padded|, order));
    if |plaintext| % |key| == 0 {
      assert padded == plaintext;
    }
  }

  /**
   * Block j of the ciphertext (rows letters long) is column order[j] of the padded text,
   * read top to bottom: its k-th letter is the one at order[j] + k * |key|.
   */
  lemma ColumnarBlocks(key: CString, plaintext: CString, filler: CString, order: seq<nat>,
                       j: nat, k: nat)
    requires |key| > 0 && PadCount(|plaintext|, |key|) <= |filler| && KeyOrder(key, order)
    requires j < |key| && k < |Padded(plaintext, |key|, filler)| / |key|
    ensures var padded, rows := Padded(plaintext, |key|, filler), |Padded(plaintext, |key|, filler)| / |key|;
      |Columnar(key, plaintext, filler, order)| == |padded|
      && j * rows + k < |padded|
      && order[j] + k * |key| < |padded|
      && Columnar(key, plaintext, filler, order)[j * rows + k] == padded[order[j] + k * |key|]
  {
    var w := |key|;
    var padded := Padded(plaintext, w, filler);
    var rows := |padded| / w;
    PaddedIsGrid(plaintext, w, filler);
    GridWalkAt(w, rows, order, j, k);
  }

  /** The padded text fills whole rows: its length is its row count times the width. */
  lemma PaddedIsGrid(plaintext: CString, w: nat, filler: CString)
    requires w > 0 && PadCount(|plaintext|, w) <= |filler|
    ensures |Padded(plaintext, w, filler)| == (|Padded(plaintext, w, filler)| / w) * w
  {
    var n := |Padded(plaintext, w, filler)|;
    PadCountLeast(|plaintext|, w);
    assert n % w == 0;
    DivModUnique(n, w, n / w, 0);
  }

  /** On a full grid of rows * w cells, position j * rows + k of the walk along order is row k of column order[j]. */
  lemma GridWalkAt(w: nat, rows: nat, order: seq<nat>, j: nat, k: nat)
    requires w > 0 && |order| == w && InBounds(order, w) && j < w && k < rows
    ensures |ColumnarWalk(w, rows * w, order)| == rows * w
    ensures j * rows + k < rows * w && order[j] + k * w < rows * w
    ensures ColumnarWalk(w, rows * w, order)[j * rows + k] == order[j] + k * w
  {
    var n := rows * w;
    forall i | 0 <= i < |order|
      ensures |ColumnOf(w, n)(order[i])| == rows
    {
      FullGridColumn(order[i], w, rows);
    }
    ConcatMapUniform(ColumnOf(w, n), order, rows, j, k);
    FullGridColumn(order[j], w, rows);
    ColumnAt(order[j], w, n);
    assert ColumnarWalk(w, n, order) == ConcatMap(ColumnOf(w, n), order);
    GridBounds(w, rows, order[j], j, k);
  }

  /** Cell (k, c) and block position j * rows + k both lie inside a grid of rows * w cells. */
  lemma GridBounds(w: nat, rows: nat, c: nat, j: nat, k: nat)
    requires c < w && j < w && k < rows
    ensures j * rows + k < rows * w && c + k * w < rows * w
  {
    MulMonotone(j, w - 1, rows);
    assert (w - 1) * rows == rows * w - rows;
    MulMonotone(k, rows - 1, w);
    assert (rows - 1) * w == rows * w - w;
  }

  lemma FullGridColumn(c: nat, w: nat, rows: nat)
    requires c < w
    ensures |Column(c, w, rows * w)| == rows
  {
    var n := rows * w;
    ColumnAt(c, w, n);
    if rows > 0 {
      assert n - c - 1 == (rows - 1) * w + (w - 1 - c);
      DivModUnique(n - c - 1, w, rows - 1, w - 1 - c);
    }
  }

  /** Two sorted key orders of a key with distinct letters agree on their first i entries. */
  lemma {:induction false} KeyOrdersAgree(key: CString, order: seq<nat>, order': seq<nat>, i: nat)
    requires forall a, b :: 0 <= a < b < |key| ==> key[a] != key[b]
    requires KeyOrder(key, order) && KeyOrder(key, order') && i <= |key|
    ensures forall m :: 0 <= m < i ==> order[m] == order'[m]
  {
    if i > 0 {
      var m := i - 1;
      KeyOrdersAgree(key, order, order', m);
      PermutationFacts(order, |key|);
      PermutationFacts(order', |key|);
      var p, p' := order[m], order'[m];
      // each of p, p' sits at or after position m in the other order, so
      // neither letter can precede the other
      assert p' < |key| && p < |key|;
      assert p' in order && p in order';
      var k :| 0 <= k < |order| && order[k] == p';
      var k' :| 0 <= k' < |order'| && order'[k'] == p;
      assert k >= m && k' >= m;
      assert key[p] <= key[p'] && key[p'] <= key[p];
    }
  }

  /**
   * With distinct key letters the sorted key order is unique, so the ciphertext does not
   * depend on how the sort breaks ties.
   */
  lemma KeyOrderUnique(key: CString, order: seq<nat>, order': seq<nat>)
    requires forall i, j :: 0 <= i < j < |key| ==> key[i] != key[j]
    requires KeyOrder(key, order) && KeyOrder(key, order')
    ensures order == order'
  {
    PermutationBounds(order, |key|);
    PermutationBounds(order', |key|);
    KeyOrdersAgree(key, order, order', |key|);
  }

  // ----- The example of the header comment -----

  /** The walk along a key of six letters, from its six columns. */
  lemma SixColumnWalk(n: nat, order: seq<nat>, c0: seq<nat>, c1: seq<nat>, c2: seq<nat>,
                      c3: seq<nat>, c4: seq<nat>, c5: seq<nat>)
    requires |order| == 6
    requires Column(order[0], 6, n) == c0 && Column(order[1], 6, n) == c1
    requires Column(order[2], 6, n) == c2 && Column(order[3], 6, n) == c3
    requires Column(order[4], 6, n) == c4 && Column(order[5], 6, n) == c5
    ensures ColumnarWalk(6, n, order) == c0 + c1 + c2 + c3 + c4 + c5
  {
    var g := ColumnOf(6, n);
    assert ConcatMap(g, order[..0]) == [];
    assert order[..1][..0] == order[..0];
    assert ConcatMap(g, order[..1]) == c0;
    assert order[..2][..1] == order[..1];
    assert ConcatMap(g, order[..2]) == c0 + c1;
    assert order[..3][..2] == order[..2];
    assert ConcatMap(g, order[..3]) == c0 + c1 + c2;
    assert order[..4][..3] == order[..3];
    assert ConcatMap(g, order[..4]) == c0 + c1 + c2 + c3;
    assert order[..5][..4] == order[..4];
    assert ConcatMap(g, order[..5]) == c0 + c1 + c2 + c3 + c4;
    assert order[..5] == order[..|order| - 1];
  }

  /** A full text under a key of six letters is read down its columns in the key's order. */
  lemma SixColumnVector(key: CString, plaintext: CString, filler: CString, order: seq<nat>,
                        c0: seq<nat>, c1: seq<nat>, c2: seq<nat>, c3: seq<nat>, c4: seq<nat>,
                        c5: seq<nat>, g: CString)
    requires |key| == 6 && |plaintext| % 6 == 0 && |order| == 6
    requires Column(order[0], 6, |plaintext|) == c0 && Column(order[1], 6, |plaintext|) == c1
    requires Column(order[2], 6, |plaintext|) == c2 && Column(order[3], 6, |plaintext|) == c3
    requires Column(order[4], 6, |plaintext|) == c4 && Column(order[5], 6, |plaintext|) == c5
    requires InBounds(c0 + c1 + c2 + c3 + c4 + c5, |plaintext|)
    requires Gather(plaintext, c0 + c1 + c2 + c3 + c4 + c5) == g
    ensures Columnar(key, plaintext, filler, order) == g
  {
    assert Padded(plaintext, 6, filler) == plaintext;
    SixColumnWalk(|plaintext|, order, c0, c1, c2, c3, c4, c5);
  }

  const Zebras: CString := "ZEBRAS"
  const Discovered: CString := "WEAREDISCOVEREDFLEEATONCEQKJEU"

  lemma ZebrasPermutation(sorted: seq<nat>)
    requires sorted == [4, 2, 1, 3, 5, 0]
    ensures IsPermutation(sorted, 6)
  {
    var range := Range(6);
    SixRange(range);
    SixShuffled(sorted, range);
  }

  lemma SixRange(range: seq<nat>)
    requires range == Range(6)
    ensures range == [0, 1, 2, 3, 4, 5]
  {}

  lemma SixShuffled(sorted: seq<nat>, range: seq<nat>)
    requires sorted == [4, 2, 1, 3, 5, 0] && range == [0, 1, 2, 3, 4, 5]
    ensures multiset(sorted) == multiset(range)
  {}

  lemma ZebrasSorted(key: CString, sorted: seq<nat>)
    requires key == Zebras && sorted == [4, 2, 1, 3, 5, 0]
    ensures |sorted| == |key| && InBounds(sorted, |key|)
    ensures forall i, j :: 0 <= i < j < |sorted| ==> key[sorted[i]] <= key[sorted[j]]
  {}

  lemma ZebrasDistinct(key: CString)
    requires key == Zebras
    ensures forall a, b :: 0 <= a < b < |key| ==> key[a] != key[b]
  {}

  /** A, B, E, R, S, Z sit at positions 4, 2, 1, 3, 5, 0 of the key. */
  lemma ZebrasOrder(key: CString, order: seq<nat>)
    requires key == Zebras && KeyOrder(key, order)
    ensures order == [4, 2, 1, 3, 5, 0]
  {
    var sorted: seq<nat> := [4, 2, 1, 3, 5, 0];
    ZebrasPermutation(sorted);
    ZebrasSorted(key, sorted);
    ZebrasDistinct(key);
    assert KeyOrder(key, sorted);
    KeyOrderUnique(key, order, sorted);
  }

  lemma DiscoveredColumns()
    ensures Column(4, 6, 30) == [4, 10, 16, 22, 28] && Column(2, 6, 30) == [2, 8, 14, 20, 26]
    ensures Column(1, 6, 30) == [1, 7, 13, 19, 25] && Column(3, 6, 30) == [3, 9, 15, 21, 27]
    ensures Column(0, 6, 30) == [0, 6, 12, 18, 24] && Column(5, 6, 30) == [5, 11, 17, 23, 29]
  {}

  lemma DiscoveredGathers(text: CString)
    requires text == Discovered
    ensures |text| == 30
    ensures InBounds([4, 10, 16, 22, 28], 30) && InBounds([2, 8, 14, 20, 26], 30)
    ensures InBounds([1, 7, 13, 19, 25], 30) && InBounds([3, 9, 15, 21, 27], 30)
    ensures InBounds([5, 11, 17, 23, 29], 30) && InBounds([0, 6, 12, 18, 24], 30)
    ensures Gather(text, [4, 10, 16, 22, 28]) == "EVLNE"
    ensures Gather(text, [2, 8, 14, 20, 26]) == "ACDTK"
    ensures Gather(text, [1, 7, 13, 19, 25]) == "ESEAQ"
    ensures Gather(text, [3, 9, 15, 21, 27]) == "ROFOJ"
    ensures Gather(text, [5, 11, 17, 23, 29]) == "DEECU"
    ensures Gather(text, [0, 6, 12, 18, 24]) == "WIREE"
  {
    DiscoveredGathersLeft(text);
    DiscoveredGathersRight(text);
  }

  lemma DiscoveredGathersLeft(text: CString)
    requires text == Discovered
    ensures Gather(text, [4, 10, 16, 22, 28]) == "EVLNE"
    ensures Gather(text, [2, 8, 14, 20, 26]) == "ACDTK"
    ensures Gather(text, [1, 7, 13, 19, 25]) == "ESEAQ"
  {}

  lemma DiscoveredGathersRight(text: CString)
    requires text == Discovered
    ensures Gather(text, [3, 9, 15, 21, 27]) == "ROFOJ"
    ensures Gather(text, [5, 11, 17, 23, 29]) == "DEECU"
    ensures Gather(text, [0, 6, 12, 18, 24]) == "WIREE"
  {}

  /** Gathering along six runs of positions, one run after another. */
  lemma SixGathers(text: CString, c0: seq<nat>, c1: seq<nat>, c2: seq<nat>, c3: seq<nat>,
                   c4: seq<nat>, c5: seq<nat>, g0: CString, g1: CString, g2: CString,
                   g3: CString, g4: CString, g5: CString)
    requires InBounds(c0, |text|) && InBounds(c1, |text|) && InBounds(c2, |text|)
    requires InBounds(c3, |text|) && InBounds(c4, |text|) && InBounds(c5, |text|)
    requires Gather(text, c0) == g0 && Gather(text, c1) == g1 && Gather(text, c2) == g2
    requires Gather(text, c3) == g3 && Gather(text, c4) == g4 && Gather(text, c5) == g5
    ensures InBounds(c0 + c1 + c2 + c3 + c4 + c5, |text|)
    ensures Gather(text, c0 + c1 + c2 + c3 + c4 + c5) == g0 + g1 + g2 + g3 + g4 + g5
  {
    GatherAppend(text, c0, c1);
    GatherAppend(text, c0 + c1, c2);
    GatherAppend(text, c0 + c1 + c2, c3);
    GatherAppend(text, c0 + c1 + c2 + c3, c4);
    GatherAppend(text, c0 + c1 + c2 + c3 + c4, c5);
  }

  /** The key ZEBRAS on the 30 letters of the example: no padding, columns read in the order A B E R S Z. */
  lemma VectorZebras(key: CString, text: CString, filler: CString, order: seq<nat>)
    requires key == Zebras && text == Discovered && KeyOrder(key, order)
    ensures Columnar(key, text, filler, order)
         == "EVLNE" + "ACDTK" + "ESEAQ" + "ROFOJ" + "DEECU" + "WIREE"
  {
    ZebrasOrder(key, order);
    DiscoveredColumns();
    DiscoveredGathers(text);
    var c0, c1, c2, c3, c4, c5 := [4, 10, 16, 22, 28], [2, 8, 14, 20, 26], [1, 7, 13, 19, 25],
      [3, 9, 15, 21, 27], [5, 11, 17, 23, 29], [0, 6, 12, 18, 24];
    SixGathers(text, c0, c1, c2, c3, c4, c5, "EVLNE", "ACDTK", "ESEAQ", "ROFOJ", "DEECU", "WIREE");
    SixColumnVector(key, text, filler, order, c0, c1, c2, c3, c4, c5,
      "EVLNE" + "ACDTK" + "ESEAQ" + "ROFOJ" + "DEECU" + "WIREE");
  }
}
