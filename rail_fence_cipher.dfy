/**
 * The Rail Fence cipher: the text is written in a zig-zag over a number of rails (down from
 * rail 0 to the last rail and back up), and the ciphertext reads the rails one after another,
 * left to right. Decryption repeats the same walk, writing where encryption read.
 */
module RailFenceCipher {
  import opened Arith
  import opened CipherUtils
  import opened CipherErrors
  import opened IndexWalks

  // ----- The zig-zag, by position -----

  /** Positions in one full zig-zag: down numRails - 1 rails and back up again. */
  function Period(numRails: nat): nat
    requires numRails >= 1
  {
    2 * (numRails - 1)
  }

  /**
   * The rail that position p of the text is written on: within a period, positions go down
   * the rails and then back up. With fewer than two rails everything is on rail 0.
   */
  function RailOf(numRails: nat, p: nat): (r: nat)
    ensures numRails >= 2 ==> r < numRails
  {
    if numRails < 2 then 0
    else
      var m := p % Period(numRails);
      if m < numRails then m else Period(numRails) - m
  }

  function RailSlot(numRails: nat): nat -> nat
  {
    p => RailOf(numRails, p)
  }

  /** The order in which the ciphertext lists the positions of the text: rail by rail. */
  function RailOrder(numRails: nat, size: nat): (order: seq<nat>)
    requires numRails >= 2
    ensures |order| == size && InBounds(order, size)
  {
    BucketsPermutation(RailSlot(numRails), numRails, size);
    PermutationBounds(Buckets(RailSlot(numRails), numRails, size), size);
    Buckets(RailSlot(numRails), numRails, size)
  }

  /**
   * The rail order visits every position exactly once, rail 0 first, and left to right within
   * each rail.
   */
  lemma RailOrderFacts(numRails: nat, size: nat)
    requires numRails >= 2
    ensures IsPermutation(RailOrder(numRails, size), size)
    ensures forall i, j :: 0 <= i < j < size ==>
      var p, q := RailOrder(numRails, size)[i], RailOrder(numRails, size)[j];
      RailOf(numRails, p) < RailOf(numRails, q) || (RailOf(numRails, p) == RailOf(numRails, q) && p < q)
  {
    BucketsPermutation(RailSlot(numRails), numRails, size);
    BucketsSorted(RailSlot(numRails), numRails, size);
  }

  // ----- The zig-zag, as the source walks it -----

  /** The gap from rail `rail` down to the last rail and back: `(num_rails - rail_n - 1) << 1`. */
  function Gap1(numRails: nat, rail: nat): nat
    requires rail < numRails
  {
    (numRails - rail - 1) * 2
  }

  /** The gap from rail `rail` up to rail 0 and back: the rest of the period. */
  function Gap2(numRails: nat, rail: nat): nat
    requires rail < numRails
  {
    (numRails - 1) * 2 - Gap1(numRails, rail)
  }

  /**
   * The positions the inner loop emits from the state (index, gap, gapSwitch): a step emits
   * `index` unless the gap just taken was 0, then moves on by gap1 and gap2 alternately.
   */
  function Walk(gap1: nat, gap2: nat, index: nat, gap: nat, gapSwitch: bool, size: nat): seq<nat>
    requires gap1 + gap2 > 0
    decreases 2 * (size - index) + (if (if gapSwitch then gap1 else gap2) == 0 then 1 else 0)
  {
    if index >= size then []
    else
      var next := if gapSwitch then gap1 else gap2;
      (if gap > 0 then [index] else []) + Walk(gap1, gap2, index + next, next, !gapSwitch, size)
  }

  /** Everything the inner loop emits for rail `rail`, starting at the rail's first position. */
  function RailWalk(numRails: nat, rail: nat, size: nat): seq<nat>
    requires 2 <= numRails && rail < numRails
  {
    Walk(Gap1(numRails, rail), Gap2(numRails, rail), rail, 1, true, size)
  }

  /** One step of the walk from a position inside the text. */
  lemma WalkStep(gap1: nat, gap2: nat, index: nat, gap: nat, gapSwitch: bool, size: nat)
    requires gap1 + gap2 > 0 && index < size
    ensures var next := if gapSwitch then gap1 else gap2;
      Walk(gap1, gap2, index, gap, gapSwitch, size)
        == (if gap > 0 then [index] else []) + Walk(gap1, gap2, index + next, next, !gapSwitch, size)
  {}

  /**
   * The loops' bookkeeping: if the positions emitted so far followed by the rest of the walk
   * make up the whole walk, then after one step they still do.
   */
  lemma WalkPush(members: seq<nat>, done: seq<nat>, gap1: nat, gap2: nat, index: nat, gap: nat,
                 gapSwitch: bool, next: nat, size: nat)
    requires gap1 + gap2 > 0 && index < size
    requires done + Walk(gap1, gap2, index, gap, gapSwitch, size) == members
    requires next == if gapSwitch then gap1 else gap2
    ensures gap > 0 ==> (done + [index]) + Walk(gap1, gap2, index + next, next, !gapSwitch, size) == members
    ensures gap == 0 ==> done + Walk(gap1, gap2, index + next, next, !gapSwitch, size) == members
  {
    WalkStep(gap1, gap2, index, gap, gapSwitch, size);
    var rest := Walk(gap1, gap2, index + next, next, !gapSwitch, size);
    if gap > 0 {
      assert done + ([index] + rest) == (done + [index]) + rest;
    }
  }

  /** Every position the walk emits is inside the text. */
  lemma {:induction false} WalkInBounds(gap1: nat, gap2: nat, index: nat, gap: nat, gapSwitch: bool, size: nat)
    requires gap1 + gap2 > 0
    ensures InBounds(Walk(gap1, gap2, index, gap, gapSwitch, size), size)
    decreases 2 * (size - index) + (if (if gapSwitch then gap1 else gap2) == 0 then 1 else 0)
  {
    if index < size {
      var next := if gapSwitch then gap1 else gap2;
      WalkInBounds(gap1, gap2, index + next, next, !gapSwitch, size);
    }
  }

  /** No position comes before its own rail number. */
  lemma RailAtMost(numRails: nat, p: nat)
    ensures RailOf(numRails, p) <= p
  {
    if numRails >= 2 {
      var P := Period(numRails);
      DivModUnique(p, P, p / P, p % P);
      assert p / P >= 0;
    }
  }

  /** The walk's positions are on its rail: r + kP on the way down, kP - r on the way up. */
  lemma OnRail(numRails: nat, rail: nat, k: nat, down: bool)
    requires 2 <= numRails && rail < numRails && (!down ==> k >= 1)
    ensures var P := Period(numRails);
      RailOf(numRails, if down then k * P + rail else k * P - rail) == rail
  {
    var P := Period(numRails);
    if down {
      DivModUnique(k * P + rail, P, k, rail);
    } else if rail == 0 {
      DivModUnique(k * P, P, k, 0);
    } else {
      DivModUnique(k * P - rail, P, k - 1, P - rail);
    }
  }

  /** Between two consecutive stops of the walk there is no position of its rail. */
  lemma OffRail(numRails: nat, rail: nat, k: nat, down: bool, p: nat)
    requires 2 <= numRails && rail < numRails && (!down ==> k >= 1)
    requires var P := Period(numRails);
      if down then k * P + rail < p < (k + 1) * P - rail else k * P - rail < p < k * P + rail
    ensures RailOf(numRails, p) != rail
  {
    var P := Period(numRails);
    if down {
      DivModUnique(p, P, k, p - k * P);
    } else if p >= k * P {
      DivModUnique(p, P, k, p - k * P);
    } else {
      DivModUnique(p, P, k - 1, p - (k - 1) * P);
    }
  }

  /**
   * From any stop of the walk on rail `rail` (the k-th period, going down or up), the walk
   * emits exactly the positions of that rail still ahead of it, in ascending order.
   */
  lemma {:induction false} WalkFrom(numRails: nat, rail: nat, k: nat, down: bool,
                                    index: nat, gap: nat, size: nat)
    requires 2 <= numRails && rail < numRails && (!down ==> k >= 1)
    requires index == if down then k * Period(numRails) + rail else k * Period(numRails) - rail
    requires gap == 0 ==> (if down then Gap1(numRails, rail) else Gap2(numRails, rail)) > 0
    ensures Walk(Gap1(numRails, rail), Gap2(numRails, rail), index, gap, down, size)
         == Members(RailSlot(numRails), rail, if gap > 0 then index else index + 1, size)
    decreases 2 * (size - index)
      + (if (if down then Gap1(numRails, rail) else Gap2(numRails, rail)) == 0 then 1 else 0)
  {
    if index < size {
      var next := if down then Gap1(numRails, rail) else Gap2(numRails, rail);
      var k' := NextStop(numRails, rail, k, down, index);
      WalkFrom(numRails, rail, k', !down, index + next, next, size);
      WalkFromStep(numRails, rail, k, down, index, gap, size);
    }
  }

  /** One step of `WalkFrom`: the walk's first stop is the first position of the rail. */
  lemma WalkFromStep(numRails: nat, rail: nat, k: nat, down: bool, index: nat, gap: nat, size: nat)
    requires 2 <= numRails && rail < numRails && (!down ==> k >= 1) && index < size
    requires index == if down then k * Period(numRails) + rail else k * Period(numRails) - rail
    requires gap == 0 ==> (if down then Gap1(numRails, rail) else Gap2(numRails, rail)) > 0
    requires var next := if down then Gap1(numRails, rail) else Gap2(numRails, rail);
      Walk(Gap1(numRails, rail), Gap2(numRails, rail), index + next, next, !down, size)
        == Members(RailSlot(numRails), rail, if next > 0 then index + next else index + next + 1, size)
    ensures Walk(Gap1(numRails, rail), Gap2(numRails, rail), index, gap, down, size)
         == Members(RailSlot(numRails), rail, if gap > 0 then index else index + 1, size)
  {
    var g1, g2 := Gap1(numRails, rail), Gap2(numRails, rail);
    var next := if down then g1 else g2;
    OnRail(numRails, rail, k, down);
    WalkStep(g1, g2, index, gap, down, size);
    if next > 0 {
      SkipToNext(numRails, rail, k, down, index, size);
    }
    if gap > 0 {
      assert RailSlot(numRails)(index) == rail;
    }
  }

  /** The stop after `index`: k + 1 periods on the way up, the same period on the way down. */
  lemma NextStop(numRails: nat, rail: nat, k: nat, down: bool, index: nat) returns (k': nat)
    requires 2 <= numRails && rail < numRails && (!down ==> k >= 1)
    requires index == if down then k * Period(numRails) + rail else k * Period(numRails) - rail
    ensures var next := if down then Gap1(numRails, rail) else Gap2(numRails, rail);
      index + next == if !down then k' * Period(numRails) + rail else k' * Period(numRails) - rail
    ensures down ==> k' >= 1
  {
    var P := Period(numRails);
    assert Gap1(numRails, rail) == P - 2 * rail && Gap2(numRails, rail) == 2 * rail;
    if down {
      k' := k + 1;
      assert k' * P == k * P + P;
    } else {
      k' := k;
    }
  }

  /** The walk's next stop is the next position of its rail. */
  lemma SkipToNext(numRails: nat, rail: nat, k: nat, down: bool, index: nat, size: nat)
    requires 2 <= numRails && rail < numRails && (!down ==> k >= 1)
    requires index == if down then k * Period(numRails) + rail else k * Period(numRails) - rail
    requires (if down then Gap1(numRails, rail) else Gap2(numRails, rail)) > 0
    ensures var next := if down then Gap1(numRails, rail) else Gap2(numRails, rail);
      Members(RailSlot(numRails), rail, index + 1, size) == Members(RailSlot(numRails), rail, index + next, size)
  {
    var P := Period(numRails);
    var next := if down then Gap1(numRails, rail) else Gap2(numRails, rail);
    var slot := RailSlot(numRails);
    var stop := index + next;
    if down {
      assert (k + 1) * P == k * P + P;
      assert stop == (k + 1) * P - rail;
    } else {
      assert stop == k * P + rail;
    }
    forall p: nat | index + 1 <= p < stop && p < size
      ensures slot(p) != rail
    {
      OffRail(numRails, rail, k, down, p);
    }
    MembersSkip(slot, rail, index + 1, stop, size);
  }

  /** The inner loop's whole walk over rail `rail` emits that rail's positions, ascending. */
  lemma WalkIsRail(numRails: nat, rail: nat, size: nat)
    requires 2 <= numRails && rail < numRails
    ensures RailWalk(numRails, rail, size) == Members(RailSlot(numRails), rail, 0, size)
  {
    WalkFrom(numRails, rail, 0, true, rail, 1, size);
    forall p: nat | 0 <= p < rail && p < size
      ensures RailSlot(numRails)(p) != rail
    {
      RailAtMost(numRails, p);
    }
    MembersSkip(RailSlot(numRails), rail, 0, rail, size);
  }

  /** Before the walk over rail `rail`, the rails done so far and this one fit in the text. */
  lemma RailsFit(numRails: nat, rail: nat, size: nat)
    requires 2 <= numRails && rail < numRails
    ensures |Buckets(RailSlot(numRails), rail, size)| + |RailWalk(numRails, rail, size)| <= size
  {
    var next := rail + 1;
    WalkIsRail(numRails, rail, size);
    BucketsLength(RailSlot(numRails), next, size);
    assert Buckets(RailSlot(numRails), next, size)
        == Buckets(RailSlot(numRails), rail, size) + Members(RailSlot(numRails), rail, 0, size);
  }

  // ----- Encryption and decryption -----

  /**
   * What `EncryptRailFenceAlpha` produces: a text that is not all capital letters is refused
   * first, then zero rails; one rail leaves the text as it is; otherwise the text is read in
   * rail order.
   */
  function RailFence(numRails: nat, plaintext: CString): (r: Result<CString>)
    ensures !AllUpperAlpha(plaintext) ==> r == Err(NonAlphaText)
    ensures AllUpperAlpha(plaintext) && numRails == 0 ==> r == Err(NoRails)
    ensures r.Ok? <==> AllUpperAlpha(plaintext) && numRails > 0
    ensures r.Ok? ==> |r.value| == |plaintext| && AllUpperAlpha(r.value)
  {
    if !AllUpperAlpha(plaintext) then Err(NonAlphaText)
    else if numRails == 0 then Err(NoRails)
    else if numRails == 1 then Ok(plaintext)
    else
      RailOrderFacts(numRails, |plaintext|);
      Ok(Gather(plaintext, RailOrder(numRails, |plaintext|)))
  }

  /** The text before the walk has written it: `resize` pads with zero bytes. */
  function Blank(size: nat): CString
  {
    seq(size, _ => 0 as char)
  }

  /**
   * What `DecryptRailFenceAlpha` produces: the same checks, and then every ciphertext letter
   * written back to the position the rail order read it from.
   */
  function RailFenceDecrypt(numRails: nat, ciphertext: CString): (r: Result<CString>)
    ensures !AllUpperAlpha(ciphertext) ==> r == Err(NonAlphaText)
    ensures AllUpperAlpha(ciphertext) && numRails == 0 ==> r == Err(NoRails)
    ensures r.Ok? <==> AllUpperAlpha(ciphertext) && numRails > 0
    ensures r.Ok? ==> |r.value| == |ciphertext|
  {
    if !AllUpperAlpha(ciphertext) then Err(NonAlphaText)
    else if numRails == 0 then Err(NoRails)
    else if numRails == 1 then Ok(ciphertext)
    else
      RailOrderFacts(numRails, |ciphertext|);
      Ok(Scatter(RailOrder(numRails, |ciphertext|), ciphertext, Blank(|ciphertext|)))
  }

  /**
   * `EncryptRailFenceAlpha`: for each rail, walks the text from the rail's first position with
   * the two gaps in turn, copying each position reached into the next ciphertext slot.
   */
  method EncryptRailFenceAlpha(numRails: nat, plaintext: CString) returns (r: Result<CString>)
    ensures r == RailFence(numRails, plaintext)
  {
    if !AllUpperAlpha(plaintext) {
      return Err(NonAlphaText);
    } else if numRails == 0 {
      return Err(NoRails);
    } else if numRails == 1 {
      return Ok(plaintext);
    }
    var size := |plaintext|;
    var ciphertext := new CChar[size](_ => 0 as char);
    ReadRails(numRails, plaintext, ciphertext);
    r := Ok(ciphertext[..]);
  }

  /** The outer loop of `EncryptRailFenceAlpha`: rail after rail, each rail's walk is read. */
  method ReadRails(numRails: nat, plaintext: CString, ciphertext: array<CChar>)
    requires numRails >= 2 && ciphertext.Length == |plaintext|
    modifies ciphertext
    ensures ciphertext[..] == Gather(plaintext, RailOrder(numRails, |plaintext|))
  {
    var size := |plaintext|;
    var cipherIndex := 0;
    ghost var slot := RailSlot(numRails);
    ghost var order: seq<nat> := [];
    for rail := 0 to numRails
      invariant order == Buckets(slot, rail, size)
      invariant cipherIndex == |order| <= size && InBounds(order, size)
      invariant ciphertext[..cipherIndex] == Gather(plaintext, order)
    {
      RailsFit(numRails, rail, size);
      WalkIsRail(numRails, rail, size);
      ghost var members := Members(slot, rail, 0, size);
      cipherIndex := ReadRail(numRails, rail, plaintext, ciphertext, cipherIndex);
      GatherAppend(plaintext, order, members);
      order := order + members;
    }
    assert order == RailOrder(numRails, size);
    assert ciphertext[..] == ciphertext[..cipherIndex];
  }

  /**
   * The inner loop of `EncryptRailFenceAlpha` for one rail: steps from the rail's first position
   * by the two gaps in turn, copying each position reached (unless by a gap of 0) into the next
   * ciphertext slot. It copies the rail's positions, in ascending order.
   */
  method ReadRail(numRails: nat, rail: nat, plaintext: CString, ciphertext: array<CChar>, start: nat)
    returns (cipherIndex: nat)
    requires 2 <= numRails && rail < numRails && ciphertext.Length == |plaintext|
    requires start + |RailWalk(numRails, rail, |plaintext|)| <= |plaintext|
    modifies ciphertext
    ensures var members := RailWalk(numRails, rail, |plaintext|);
      && cipherIndex == start + |members|
      && InBounds(members, |plaintext|)
      && ciphertext[..cipherIndex] == old(ciphertext[..start]) + Gather(plaintext, members)
  {
    var size := |plaintext|;
    ghost var members := RailWalk(numRails, rail, size);
    ghost var prefix := ciphertext[..start];
    WalkInBounds(Gap1(numRails, rail), Gap2(numRails, rail), rail, 1, true, size);
    var gap1: nat := (numRails - rail - 1) * 2;
    var gap2: nat := (numRails - 1) * 2 - gap1;
    var index: nat, gap: nat, gapSwitch := rail, 1, true;
    ghost var done: seq<nat> := [];
    cipherIndex := start;
    while index < size
      invariant done + Walk(gap1, gap2, index, gap, gapSwitch, size) == members
      invariant cipherIndex == start + |done| && InBounds(done, size)
      invariant ciphertext[..cipherIndex] == prefix + Gather(plaintext, done)
      decreases 2 * (size - index) + (if (if gapSwitch then gap1 else gap2) == 0 then 1 else 0)
    {
      var next := if gapSwitch then gap1 else gap2;
      cipherIndex, done := ReadStep(plaintext, ciphertext, gap1, gap2, index, gap, gapSwitch,
                                    cipherIndex, start, members, prefix, done);
      gap := next;
      gapSwitch := !gapSwitch;
      index := index + gap;
    }
    assert done == members;
  }

  /**
   * One step of the inner loop: a position reached by a gap other than 0 is copied to the next
   * ciphertext slot, and the walk still ahead shrinks by that step.
   */
  method ReadStep(plaintext: CString, ciphertext: array<CChar>, gap1: nat, gap2: nat,
                  index: nat, gap: nat, gapSwitch: bool, cipherIndex: nat, ghost start: nat,
                  ghost members: seq<nat>, ghost prefix: CString, ghost done: seq<nat>)
    returns (nextIndex: nat, ghost nextDone: seq<nat>)
    requires gap1 + gap2 > 0 && index < |plaintext| == ciphertext.Length
    requires done + Walk(gap1, gap2, index, gap, gapSwitch, |plaintext|) == members
    requires start + |members| <= |plaintext| && cipherIndex == start + |done|
    requires InBounds(done, |plaintext|) && ciphertext[..cipherIndex] == prefix + Gather(plaintext, done)
    modifies ciphertext
    ensures var next := if gapSwitch then gap1 else gap2;
      nextDone + Walk(gap1, gap2, index + next, next, !gapSwitch, |plaintext|) == members
    ensures nextIndex == start + |nextDone| && InBounds(nextDone, |plaintext|)
    ensures ciphertext[..nextIndex] == prefix + Gather(plaintext, nextDone)
  {
    var next := if gapSwitch then gap1 else gap2;
    WalkPush(members, done, gap1, gap2, index, gap, gapSwitch, next, |plaintext|);
    nextIndex, nextDone := cipherIndex, done;
    if gap > 0 {
      ReadLetter(plaintext, index, ciphertext, cipherIndex, prefix, done);
      nextIndex, nextDone := cipherIndex + 1, done + [index];
    }
  }

  /** The inner loop's copy: the letter at `index` goes to the next ciphertext slot. */
  method ReadLetter(plaintext: CString, index: nat, ciphertext: array<CChar>, cipherIndex: nat,
                    ghost prefix: CString, ghost done: seq<nat>)
    requires index < |plaintext| && cipherIndex < ciphertext.Length && InBounds(done, |plaintext|)
    requires ciphertext[..cipherIndex] == prefix + Gather(plaintext, done)
    modifies ciphertext
    ensures InBounds(done + [index], |plaintext|)
    ensures ciphertext[..cipherIndex + 1] == prefix + Gather(plaintext, done + [index])
  {
    GatherAppend(plaintext, done, [index]);
    ciphertext[cipherIndex] := plaintext[index];
    assert ciphertext[..cipherIndex + 1] == ciphertext[..cipherIndex] + [plaintext[index]];
  }

  /**
   * `DecryptRailFenceAlpha`: the same checks as encryption, then the same walk over every rail,
   * writing each ciphertext letter in turn to the position reached.
   */
  method DecryptRailFenceAlpha(numRails: nat, ciphertext: CString) returns (r: Result<CString>)
    ensures r == RailFenceDecrypt(numRails, ciphertext)
  {
    if !AllUpperAlpha(ciphertext) {
      return Err(NonAlphaText);
    } else if numRails == 0 {
      return Err(NoRails);
    } else if numRails == 1 {
      return Ok(ciphertext);
    }
    var size := |ciphertext|;
    var plaintext := new CChar[size](_ => 0 as char);
    assert plaintext[..] == Blank(size);
    WriteRails(numRails, ciphertext, plaintext);
    r := Ok(plaintext[..]);
  }

  /** The outer loop of `DecryptRailFenceAlpha`: rail after rail, each rail's walk is written. */
  method WriteRails(numRails: nat, ciphertext: CString, plaintext: array<CChar>)
    requires numRails >= 2 && plaintext.Length == |ciphertext| && plaintext[..] == Blank(|ciphertext|)
    modifies plaintext
    ensures plaintext[..] == Scatter(RailOrder(numRails, |ciphertext|), ciphertext, Blank(|ciphertext|))
  {
    var size := |ciphertext|;
    var cipherIndex := 0;
    ghost var slot := RailSlot(numRails);
    ghost var order: seq<nat> := [];
    for rail := 0 to numRails
      invariant order == Buckets(slot, rail, size)
      invariant cipherIndex == |order| <= size && InBounds(order, size)
      invariant plaintext[..] == Scatter(order, ciphertext[..cipherIndex], Blank(size))
    {
      RailsFit(numRails, rail, size);
      WalkIsRail(numRails, rail, size);
      ghost var members := Members(slot, rail, 0, size);
      ghost var start := cipherIndex;
      cipherIndex := WriteRail(numRails, rail, ciphertext, plaintext, cipherIndex);
      ScatterExtend(order, members, ciphertext, start, cipherIndex, Blank(size));
      order := order + members;
    }
    assert order == RailOrder(numRails, size);
    assert ciphertext[..cipherIndex] == ciphertext;
  }

  /**
   * The inner loop of `DecryptRailFenceAlpha` for one rail: the same steps as `ReadRail`,
   * writing the next ciphertext letter to each position reached and nothing else.
   */
  method WriteRail(numRails: nat, rail: nat, ciphertext: CString, plaintext: array<CChar>, start: nat)
    returns (cipherIndex: nat)
    requires 2 <= numRails && rail < numRails && plaintext.Length == |ciphertext|
    requires start + |RailWalk(numRails, rail, |ciphertext|)| <= |ciphertext|
    modifies plaintext
    ensures var members := RailWalk(numRails, rail, |ciphertext|);
      && cipherIndex == start + |members|
      && InBounds(members, |ciphertext|)
      && plaintext[..] == Scatter(members, ciphertext[start..cipherIndex], old(plaintext[..]))
  {
    var size := |ciphertext|;
    ghost var members := RailWalk(numRails, rail, size);
    ghost var original := plaintext[..];
    WalkInBounds(Gap1(numRails, rail), Gap2(numRails, rail), rail, 1, true, size);
    var gap1: nat := (numRails - rail - 1) * 2;
    var gap2: nat := (numRails - 1) * 2 - gap1;
    var index: nat, gap: nat, gapSwitch := rail, 1, true;
    ghost var done: seq<nat> := [];
    cipherIndex := start;
    while index < size
      invariant done + Walk(gap1, gap2, index, gap, gapSwitch, size) == members
      invariant cipherIndex == start + |done| && InBounds(done, size)
      invariant plaintext[..] == Scatter(done, ciphertext[start..cipherIndex], original)
      decreases 2 * (size - index) + (if (if gapSwitch then gap1 else gap2) == 0 then 1 else 0)
    {
      var next := if gapSwitch then gap1 else gap2;
      WalkPush(members, done, gap1, gap2, index, gap, gapSwitch, next, size);
      if gap > 0 {
        WriteLetter(plaintext, index, ciphertext, cipherIndex, start, done, original);
        cipherIndex := cipherIndex + 1;
        done := done + [index];
      }
      gap := next;
      gapSwitch := !gapSwitch;
      index := index + gap;
    }
    assert done == members;
  }

  /** The inner loop's write: the next ciphertext letter goes to position `index`. */
  method WriteLetter(plaintext: array<CChar>, index: nat, ciphertext: CString, cipherIndex: nat,
                     ghost start: nat, ghost done: seq<nat>, ghost original: seq<CChar>)
    requires index < plaintext.Length == |original| && start <= cipherIndex < |ciphertext|
    requires |done| == cipherIndex - start && InBounds(done, |original|)
    requires plaintext[..] == Scatter(done, ciphertext[start..cipherIndex], original)
    modifies plaintext
    ensures InBounds(done + [index], |original|)
    ensures plaintext[..] == Scatter(done + [index], ciphertext[start..cipherIndex + 1], original)
  {
    ScatterPush(done, ciphertext[start..cipherIndex], original, index, ciphertext[cipherIndex]);
    assert ciphertext[start..cipherIndex] + [ciphertext[cipherIndex]] == ciphertext[start..cipherIndex + 1];
    plaintext[index] := ciphertext[cipherIndex];
  }

  // ----- Properties -----

  /** One rail leaves the text unchanged, both ways. */
  lemma OneRailIdentity(text: CString)
    requires AllUpperAlpha(text)
    ensures RailFence(1, text) == Ok(text) && RailFenceDecrypt(1, text) == Ok(text)
  {}

  /** Encryption only rearranges the letters: letter j is the text at position j of the rail order. */
  lemma EncryptPermutes(numRails: nat, plaintext: CString)
    requires numRails >= 2 && AllUpperAlpha(plaintext)
    ensures RailFence(numRails, plaintext).Ok?
    ensures var c := RailFence(numRails, plaintext).value;
      multiset(c) == multiset(plaintext)
      && forall j :: 0 <= j < |c| ==> c[j] == plaintext[RailOrder(numRails, |plaintext|)[j]]
  {
    RailOrderFacts(numRails, |plaintext|);
    GatherPermutation(plaintext, RailOrder(numRails, |plaintext|));
  }

  /** Decrypting a ciphertext gives back the plaintext it was encrypted from. */
  lemma DecryptEncrypt(numRails: nat, plaintext: CString)
    requires numRails >= 1 && AllUpperAlpha(plaintext)
    ensures RailFence(numRails, plaintext).Ok?
    ensures RailFenceDecrypt(numRails, RailFence(numRails, plaintext).value) == Ok(plaintext)
  {
    if numRails >= 2 {
      var order := RailOrder(numRails, |plaintext|);
      RailOrderFacts(numRails, |plaintext|);
      ScatterGather(plaintext, order, Blank(|plaintext|));
    }
  }

  /** Encrypting a decrypted text gives back the ciphertext: decryption is a bijection too. */
  lemma EncryptDecrypt(numRails: nat, ciphertext: CString)
    requires numRails >= 1 && AllUpperAlpha(ciphertext)
    ensures RailFenceDecrypt(numRails, ciphertext).Ok?
    ensures RailFence(numRails, RailFenceDecrypt(numRails, ciphertext).value) == Ok(ciphertext)
  {
    if numRails >= 2 {
      var order := RailOrder(numRails, |ciphertext|);
      RailOrderFacts(numRails, |ciphertext|);
      ScatteredUpper(order, ciphertext);
      GatherScatter(ciphertext, order, Blank(|ciphertext|));
    }
  }

  /** Scattering capital letters along a permutation leaves only capital letters. */
  lemma ScatteredUpper(order: seq<nat>, ciphertext: CString)
    requires IsPermutation(order, |ciphertext|) && |order| == |ciphertext| && InBounds(order, |ciphertext|)
    requires AllUpperAlpha(ciphertext)
    ensures AllUpperAlpha(Scatter(order, ciphertext, Blank(|ciphertext|)))
  {
    var p := Scatter(order, ciphertext, Blank(|ciphertext|));
    PermutationFacts(order, |ciphertext|);
    ScatterAt(order, ciphertext, Blank(|ciphertext|));
    forall i | 0 <= i < |p|
      ensures IsUpperAlpha(p[i])
    {
      assert i as nat in order;
      var j :| 0 <= j < |order| && order[j] == i;
    }
  }

  /** The walks of rails 0, 1, ..., k - 1, one after the other. */
  function RailWalks(numRails: nat, k: nat, size: nat): seq<nat>
    requires 2 <= numRails && k <= numRails
  {
    if k == 0 then [] else RailWalks(numRails, k - 1, size) + RailStops(numRails, k - 1, size)
  }

  /** The rail order is what the encryption loops emit, rail after rail. */
  lemma {:induction false} RailWalksAreBuckets(numRails: nat, k: nat, size: nat)
    requires 2 <= numRails && k <= numRails
    ensures RailWalks(numRails, k, size) == Buckets(RailSlot(numRails), k, size)
  {
    if k > 0 {
      var m := k - 1;
      RailWalksAreBuckets(numRails, m, size);
      WalkIsRail(numRails, m, size);
      RailWalkAlternates(numRails, m, size);
    }
  }

  // ----- The walk in closed form -----

  /** The positions from `index` on, stepping by `step` and `other` alternately, inside the text. */
  function Alternate(index: nat, step: nat, other: nat, size: nat): seq<nat>
    requires step > 0 && other > 0
    decreases size - index
  {
    if index >= size then [] else [index] + Alternate(index + step, other, step, size)
  }

  /** The positions of rail `rail`: from the rail itself, the nonzero gaps taken in turn. */
  function RailStops(numRails: nat, rail: nat, size: nat): seq<nat>
    requires 2 <= numRails && rail < numRails
  {
    var g1, g2 := Gap1(numRails, rail), Gap2(numRails, rail);
    Alternate(rail, if g1 > 0 then g1 else g2, if g2 > 0 then g2 else g1, size)
  }

  /** A middle rail: both gaps are taken, alternately. */
  lemma {:induction false} WalkBothGaps(gap1: nat, gap2: nat, index: nat, gap: nat, gapSwitch: bool, size: nat)
    requires gap1 > 0 && gap2 > 0 && gap > 0
    ensures Walk(gap1, gap2, index, gap, gapSwitch, size)
         == Alternate(index, if gapSwitch then gap1 else gap2, if gapSwitch then gap2 else gap1, size)
    decreases size - index
  {
    if index < size {
      var next := if gapSwitch then gap1 else gap2;
      WalkBothGaps(gap1, gap2, index + next, next, !gapSwitch, size);
    }
  }

  /** The first rail: the way back up (gap2) is empty, so only gap1 moves on. */
  lemma {:induction false} WalkFirstRail(gap1: nat, index: nat, gap: nat, size: nat)
    requires gap1 > 0 && gap > 0
    ensures Walk(gap1, 0, index, gap, false, size) == Alternate(index, gap1, gap1, size)
    decreases size - index
  {
    if index < size {
      WalkFirstRail(gap1, index + gap1, gap1, size);
      assert Walk(gap1, 0, index, 0, true, size) == Walk(gap1, 0, index + gap1, gap1, false, size);
    }
  }

  /** The last rail: the way down (gap1) is empty, so only gap2 moves on. */
  lemma {:induction false} WalkLastRail(gap2: nat, index: nat, gap: nat, size: nat)
    requires gap2 > 0 && gap > 0
    ensures Walk(0, gap2, index, gap, true, size) == Alternate(index, gap2, gap2, size)
    decreases size - index
  {
    if index < size {
      WalkLastRail(gap2, index + gap2, gap2, size);
      assert Walk(0, gap2, index, 0, false, size) == Walk(0, gap2, index + gap2, gap2, true, size);
    }
  }

  /**
   * The positions of one rail: its first position, then steps of gap1 and gap2 alternately,
   * a zero gap (on the first and last rails) being skipped.
   */
  lemma RailWalkAlternates(numRails: nat, rail: nat, size: nat)
    requires 2 <= numRails && rail < numRails
    ensures RailWalk(numRails, rail, size) == RailStops(numRails, rail, size)
  {
    var g1, g2 := Gap1(numRails, rail), Gap2(numRails, rail);
    if g1 > 0 && g2 > 0 {
      WalkBothGaps(g1, g2, rail, 1, true, size);
    } else if g2 == 0 {
      if rail < size {
        WalkFirstRail(g1, rail + g1, g1, size);
      }
    } else {
      WalkLastRail(g2, rail, 1, size);
    }
  }

  // ----- Test vectors -----

  /** The rails' walks, known one after the other, give the ciphertext by reading the text along them. */
  lemma GatheredVector(numRails: nat, plaintext: CString, order: seq<nat>, ciphertext: CString)
    requires numRails >= 2 && AllUpperAlpha(plaintext) && RailOrder(numRails, |plaintext|) == order
    requires Gather(plaintext, order) == ciphertext
    ensures RailFence(numRails, plaintext) == Ok(ciphertext)
  {
  }

  /** A vector for encryption is one for decryption the other way round. */
  lemma DecryptedVector(numRails: nat, plaintext: CString, ciphertext: CString)
    requires numRails >= 1 && AllUpperAlpha(plaintext) && RailFence(numRails, plaintext) == Ok(ciphertext)
    ensures RailFenceDecrypt(numRails, ciphertext) == Ok(plaintext)
  {
    DecryptEncrypt(numRails, plaintext);
  }

  /** The message of the source's tests. */
  const FleeMessage: CString := "WEAREDISCOVEREDFLEEATONCE"

  lemma FleeUpper()
    ensures AllUpperAlpha(FleeMessage)
  {
    AllUpperAlphaAppend("WEAREDISCOVE", "REDFLEEATONCE");
    assert "WEAREDISCOVE" + "REDFLEEATONCE" == FleeMessage;
  }

  /** The test message enciphered on 2 rails. */
  const FleeRails2: CString := "WAEICVRDLETNE" + "ERDSOEEFEAOC"

  lemma Stops0By2And2()
    ensures Alternate(0, 2, 2, 25) == [0, 2, 4, 6, 8, 10, 12, 14, 16, 18, 20, 22, 24]
  {
  }

  lemma Stops1By2And2()
    ensures Alternate(1, 2, 2, 25) == [1, 3, 5, 7, 9, 11, 13, 15, 17, 19, 21, 23]
  {
  }

  /** The positions of the two rails of a 25-letter text. */
  const Flee2Stops0: seq<nat> := [0, 2, 4, 6, 8, 10, 12, 14, 16, 18, 20, 22, 24]
  const Flee2Stops1: seq<nat> := [1, 3, 5, 7, 9, 11, 13, 15, 17, 19, 21, 23]

  lemma Flee2Rails(size: nat)
    requires size == 25
    ensures RailStops(2, 0, size) == Flee2Stops0 && RailStops(2, 1, size) == Flee2Stops1
  {
    Stops0By2And2();
    Stops1By2And2();
  }

  /** Two rails, walked one after the other. */
  lemma TwoRailWalks(size: nat)
    ensures RailWalks(2, 2, size) == RailStops(2, 0, size) + RailStops(2, 1, size)
  {
    assert RailWalks(2, 1, size) == RailStops(2, 0, size);
  }

  lemma Flee2Order(size: nat)
    requires size == 25
    ensures RailOrder(2, size) == Flee2Stops0 + Flee2Stops1
  {
    RailWalksAreBuckets(2, 2, size);
    Flee2Rails(size);
    TwoRailWalks(size);
  }

  lemma Flee2Gather(text: CString)
    requires text == FleeMessage
    ensures InBounds(Flee2Stops0, |text|) && InBounds(Flee2Stops1, |text|)
    ensures Gather(text, Flee2Stops0) == "WAEICVRDLETNE"
    ensures Gather(text, Flee2Stops1) == "ERDSOEEFEAOC"
  {
  }

  /** The test message on 2 rails. */
  lemma VectorFleeAtOnce2()
    ensures RailFence(2, FleeMessage) == Ok(FleeRails2)
  {
    Flee2Order(|FleeMessage|);
    Flee2Gather(FleeMessage);
    GatherAppend(FleeMessage, Flee2Stops0, Flee2Stops1);
    FleeUpper();
    GatheredVector(2, FleeMessage, Flee2Stops0 + Flee2Stops1, FleeRails2);
  }

  /** The test message's ciphertext on 2 rails decrypts back to it. */
  lemma VectorFleeAtOnceDecrypt2()
    ensures RailFenceDecrypt(2, FleeRails2) == Ok(FleeMessage)
  {
    VectorFleeAtOnce2();
    FleeUpper();
    DecryptedVector(2, FleeMessage, FleeRails2);
  }

  /** The test message enciphered on 3 rails. */
  const FleeRails3: CString := "WECRLTEERDSOEEFEAOCAIVDEN"

  lemma Stops0By4And4()
    ensures Alternate(0, 4, 4, 25) == [0, 4, 8, 12, 16, 20, 24]
  {
  }

  lemma Flee3Rail0(size: nat)
    requires size == 25
    ensures RailStops(3, 0, size) == [0, 4, 8, 12, 16, 20, 24]
  {
    Stops0By4And4();
  }

  lemma Flee3Rail1(size: nat)
    requires size == 25
    ensures RailStops(3, 1, size) == [1, 3, 5, 7, 9, 11, 13, 15, 17, 19, 21, 23]
  {
    Stops1By2And2();
  }

  lemma Stops2By4And4()
    ensures Alternate(2, 4, 4, 25) == [2, 6, 10, 14, 18, 22]
  {
  }

  lemma Flee3Rail2(size: nat)
    requires size == 25
    ensures RailStops(3, 2, size) == [2, 6, 10, 14, 18, 22]
  {
    Stops2By4And4();
  }

  lemma Flee3Walks(size: nat)
    requires size == 25
    ensures RailWalks(3, 3, size) == [0, 4, 8, 12, 16, 20, 24] + [1, 3, 5, 7, 9, 11, 13, 15, 17, 19, 21, 23] + [2, 6, 10, 14, 18, 22]
  {
    Flee3Rail0(size);
    Flee3Rail1(size);
    Flee3Rail2(size);
    assert RailWalks(3, 1, size) == [0, 4, 8, 12, 16, 20, 24];
    assert RailWalks(3, 2, size) == [0, 4, 8, 12, 16, 20, 24] + [1, 3, 5, 7, 9, 11, 13, 15, 17, 19, 21, 23];
  }

  lemma Flee3Order(size: nat)
    requires size == 25
    ensures RailOrder(3, size) == [0, 4, 8, 12, 16, 20, 24] + [1, 3, 5, 7, 9, 11, 13, 15, 17, 19, 21, 23] + [2, 6, 10, 14, 18, 22]
  {
    RailWalksAreBuckets(3, 3, size);
    Flee3Walks(size);
  }

  lemma Flee3Gather()
    ensures Gather(FleeMessage, [0, 4, 8, 12, 16, 20, 24] + [1, 3, 5, 7, 9, 11, 13, 15, 17, 19, 21, 23] + [2, 6, 10, 14, 18, 22]) == FleeRails3
  {
  }

  /** The test message on 3 rails. */
  lemma VectorFleeAtOnce3()
    ensures RailFence(3, FleeMessage) == Ok(FleeRails3)
  {
    Flee3Order(|FleeMessage|);
    Flee3Gather();
    FleeUpper();
    GatheredVector(3, FleeMessage, [0, 4, 8, 12, 16, 20, 24] + [1, 3, 5, 7, 9, 11, 13, 15, 17, 19, 21, 23] + [2, 6, 10, 14, 18, 22], FleeRails3);
  }

  /** The test message's ciphertext on 3 rails decrypts back to it. */
  lemma VectorFleeAtOnceDecrypt3()
    ensures RailFenceDecrypt(3, FleeRails3) == Ok(FleeMessage)
  {
    VectorFleeAtOnce3();
    FleeUpper();
    DecryptedVector(3, FleeMessage, FleeRails3);
  }

  /** The test message enciphered on 4 rails. */
  const FleeRails4: CString := "WIREEEDSEEEACAECVDLTNROFO"

  lemma Stops0By6And6()
    ensures Alternate(0, 6, 6, 25) == [0, 6, 12, 18, 24]
  {
  }

  lemma Flee4Rail0(size: nat)
    requires size == 25
    ensures RailStops(4, 0, size) == [0, 6, 12, 18, 24]
  {
    Stops0By6And6();
  }

  lemma Stops1By4And2()
    ensures Alternate(1, 4, 2, 25) == [1, 5, 7, 11, 13, 17, 19, 23]
  {
  }

  lemma Flee4Rail1(size: nat)
    requires size == 25
    ensures RailStops(4, 1, size) == [1, 5, 7, 11, 13, 17, 19, 23]
  {
    Stops1By4And2();
  }

  lemma Stops2By2And4()
    ensures Alternate(2, 2, 4, 25) == [2, 4, 8, 10, 14, 16, 20, 22]
  {
  }

  lemma Flee4Rail2(size: nat)
    requires size == 25
    ensures RailStops(4, 2, size) == [2, 4, 8, 10, 14, 16, 20, 22]
  {
    Stops2By2And4();
  }

  lemma Stops3By6And6()
    ensures Alternate(3, 6, 6, 25) == [3, 9, 15, 21]
  {
  }

  lemma Flee4Rail3(size: nat)
    requires size == 25
    ensures RailStops(4, 3, size) == [3, 9, 15, 21]
  {
    Stops3By6And6();
  }

  lemma Flee4Walks(size: nat)
    requires size == 25
    ensures RailWalks(4, 4, size) == [0, 6, 12, 18, 24] + [1, 5, 7, 11, 13, 17, 19, 23] + [2, 4, 8, 10, 14, 16, 20, 22] + [3, 9, 15, 21]
  {
    Flee4Rail0(size);
    Flee4Rail1(size);
    Flee4Rail2(size);
    Flee4Rail3(size);
    assert RailWalks(4, 1, size) == [0, 6, 12, 18, 24];
    assert RailWalks(4, 2, size) == [0, 6, 12, 18, 24] + [1, 5, 7, 11, 13, 17, 19, 23];
    assert RailWalks(4, 3, size) == [0, 6, 12, 18, 24] + [1, 5, 7, 11, 13, 17, 19, 23] + [2, 4, 8, 10, 14, 16, 20, 22];
  }

  lemma Flee4Order(size: nat)
    requires size == 25
    ensures RailOrder(4, size) == [0, 6, 12, 18, 24] + [1, 5, 7, 11, 13, 17, 19, 23] + [2, 4, 8, 10, 14, 16, 20, 22] + [3, 9, 15, 21]
  {
    RailWalksAreBuckets(4, 4, size);
    Flee4Walks(size);
  }

  lemma Flee4Gather()
    ensures Gather(FleeMessage, [0, 6, 12, 18, 24] + [1, 5, 7, 11, 13, 17, 19, 23] + [2, 4, 8, 10, 14, 16, 20, 22] + [3, 9, 15, 21]) == FleeRails4
  {
  }

  /** The test message on 4 rails. */
  lemma VectorFleeAtOnce4()
    ensures RailFence(4, FleeMessage) == Ok(FleeRails4)
  {
    Flee4Order(|FleeMessage|);
    Flee4Gather();
    FleeUpper();
    GatheredVector(4, FleeMessage, [0, 6, 12, 18, 24] + [1, 5, 7, 11, 13, 17, 19, 23] + [2, 4, 8, 10, 14, 16, 20, 22] + [3, 9, 15, 21], FleeRails4);
  }

  /** The test message's ciphertext on 4 rails decrypts back to it. */
  lemma VectorFleeAtOnceDecrypt4()
    ensures RailFenceDecrypt(4, FleeRails4) == Ok(FleeMessage)
  {
    VectorFleeAtOnce4();
    FleeUpper();
    DecryptedVector(4, FleeMessage, FleeRails4);
  }

  /** The test message enciphered on 5 rails. */
  const FleeRails5: CString := "WCLEESOFECAIVDENRDEEAOERT"

  lemma Stops0By8And8()
    ensures Alternate(0, 8, 8, 25) == [0, 8, 16, 24]
  {
  }

  lemma Flee5Rail0(size: nat)
    requires size == 25
    ensures RailStops(5, 0, size) == [0, 8, 16, 24]
  {
    Stops0By8And8();
  }

  lemma Stops1By6And2()
    ensures Alternate(1, 6, 2, 25) == [1, 7, 9, 15, 17, 23]
  {
  }

  lemma Flee5Rail1(size: nat)
    requires size == 25
    ensures RailStops(5, 1, size) == [1, 7, 9, 15, 17, 23]
  {
    Stops1By6And2();
  }

  lemma Flee5Rail2(size: nat)
    requires size == 25
    ensures RailStops(5, 2, size) == [2, 6, 10, 14, 18, 22]
  {
    Stops2By4And4();
  }

  lemma Stops3By2And6()
    ensures Alternate(3, 2, 6, 25) == [3, 5, 11, 13, 19, 21]
  {
  }

  lemma Flee5Rail3(size: nat)
    requires size == 25
    ensures RailStops(5, 3, size) == [3, 5, 11, 13, 19, 21]
  {
    Stops3By2And6();
  }

  lemma Stops4By8And8()
    ensures Alternate(4, 8, 8, 25) == [4, 12, 20]
  {
  }

  lemma Flee5Rail4(size: nat)
    requires size == 25
    ensures RailStops(5, 4, size) == [4, 12, 20]
  {
    Stops4By8And8();
  }

  lemma Flee5Walks(size: nat)
    requires size == 25
    ensures RailWalks(5, 5, size) == [0, 8, 16, 24] + [1, 7, 9, 15, 17, 23] + [2, 6, 10, 14, 18, 22] + [3, 5, 11, 13, 19, 21] + [4, 12, 20]
  {
    Flee5Rail0(size);
    Flee5Rail1(size);
    Flee5Rail2(size);
    Flee5Rail3(size);
    Flee5Rail4(size);
    assert RailWalks(5, 1, size) == [0, 8, 16, 24];
    assert RailWalks(5, 2, size) == [0, 8, 16, 24] + [1, 7, 9, 15, 17, 23];
    assert RailWalks(5, 3, size) == [0, 8, 16, 24] + [1, 7, 9, 15, 17, 23] + [2, 6, 10, 14, 18, 22];
    assert RailWalks(5, 4, size) == [0, 8, 16, 24] + [1, 7, 9, 15, 17, 23] + [2, 6, 10, 14, 18, 22] + [3, 5, 11, 13, 19, 21];
  }

  lemma Flee5Order(size: nat)
    requires size == 25
    ensures RailOrder(5, size) == [0, 8, 16, 24] + [1, 7, 9, 15, 17, 23] + [2, 6, 10, 14, 18, 22] + [3, 5, 11, 13, 19, 21] + [4, 12, 20]
  {
    RailWalksAreBuckets(5, 5, size);
    Flee5Walks(size);
  }

  lemma Flee5Gather()
    ensures Gather(FleeMessage, [0, 8, 16, 24] + [1, 7, 9, 15, 17, 23] + [2, 6, 10, 14, 18, 22] + [3, 5, 11, 13, 19, 21] + [4, 12, 20]) == FleeRails5
  {
  }

  /** The test message on 5 rails. */
  lemma VectorFleeAtOnce5()
    ensures RailFence(5, FleeMessage) == Ok(FleeRails5)
  {
    Flee5Order(|FleeMessage|);
    Flee5Gather();
    FleeUpper();
    GatheredVector(5, FleeMessage, [0, 8, 16, 24] + [1, 7, 9, 15, 17, 23] + [2, 6, 10, 14, 18, 22] + [3, 5, 11, 13, 19, 21] + [4, 12, 20], FleeRails5);
  }

  /** The test message's ciphertext on 5 rails decrypts back to it. */
  lemma VectorFleeAtOnceDecrypt5()
    ensures RailFenceDecrypt(5, FleeRails5) == Ok(FleeMessage)
  {
    VectorFleeAtOnce5();
    FleeUpper();
    DecryptedVector(5, FleeMessage, FleeRails5);
  }

}
