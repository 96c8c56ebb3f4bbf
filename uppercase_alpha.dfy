/**
 * Moving text between the letters 'A'..'Z' and the symbols 0..25 of the generalized
 * ciphers, by subtracting (or adding back) 'A' in every character. The arithmetic happens in
 * a one-byte `char`, so it wraps modulo 256.
 */
module UppercaseAlpha {
  import opened CipherUtils

  /** Every character moved by `delta`, wrapping modulo 256. */
  function Shifted(s: CString, delta: int): (t: CString)
    ensures |t| == |s|
    ensures forall i :: 0 <= i < |s| ==> t[i] as int == (s[i] as int + delta) % 256
  {
    seq(|s|, i requires 0 <= i < |s| => ToCChar(s[i] as int + delta))
  }

  /** `c -= 'A'` on every character. */
  function ShiftDown(s: CString): CString
  {
    Shifted(s, -('A' as int))
  }

  /** `c += 'A'` on every character. */
  function ShiftUp(s: CString): CString
  {
    Shifted(s, 'A' as int)
  }

  /** The lambda `[](char& c) { c += delta; }` applied by `std::for_each` to every element. */
  method ShiftEach(a: array<CChar>, delta: int)
    modifies a
    ensures a[..] == Shifted(old(a[..]), delta)
  {
    for i := 0 to a.Length
      invariant forall j :: 0 <= j < i ==> a[j] == ToCChar(old(a[j]) as int + delta)
      invariant forall j :: i <= j < a.Length ==> a[j] == old(a[j])
    {
      a[i] := ToCChar(a[i] as int + delta);
    }
  }

  /** `UpperAlphaToGeneralized`: overwrites the output with a copy of the text, then shifts it down. */
  method UpperAlphaToGeneralized(plaintext: CString) returns (generalized: CString)
    ensures |generalized| == |plaintext|
    ensures forall i :: 0 <= i < |plaintext| ==>
      generalized[i] as int == (plaintext[i] as int - 'A' as int) % 256
    ensures generalized == ShiftDown(plaintext)
  {
    var buffer := new CChar[|plaintext|](i requires 0 <= i < |plaintext| => plaintext[i]);
    assert buffer[..] == plaintext;
    ShiftEach(buffer, -('A' as int));
    generalized := buffer[..];
  }

  // ----- Properties -----

  /** Shifting by `delta` and then by `-delta` restores every byte: shifting is a bijection. */
  lemma ShiftedRoundTrip(s: CString, delta: int)
    ensures Shifted(Shifted(s, delta), -delta) == s
  {
    var t := Shifted(Shifted(s, delta), -delta);
    forall i | 0 <= i < |s|
      ensures t[i] == s[i]
    {
      var x := s[i] as int;
      var y := Shifted(s, delta)[i] as int;
      assert y == (x + delta) % 256;
      ModAddBack(x, delta);
    }
  }

  lemma ModAddBack(x: int, delta: int)
    requires 0 <= x < 256
    ensures ((x + delta) % 256 - delta) % 256 == x
  {
    var q := (x + delta) / 256;
    assert (x + delta) % 256 - delta == x - q * 256;
    ModMultiple(x, -q);
  }

  lemma ModMultiple(x: int, q: int)
    requires 0 <= x < 256
    ensures (x + q * 256) % 256 == x
  {
    Arith.DivModUnique(x + q * 256, 256, q, x);
  }

  /** Shifting down then up again gives back the text, for any bytes. */
  lemma ShiftDownUp(s: CString)
    ensures ShiftUp(ShiftDown(s)) == s
  {
    ShiftedRoundTrip(s, -('A' as int));
  }

  /**
   * A character shifted down lands below 26 exactly when it is a capital letter: 'A' goes
   * to 0 and 'Z' to 25, and every other byte wraps to 26 or more.
   */
  lemma ShiftDownRange(s: CString)
    ensures forall i :: 0 <= i < |s| ==> (ShiftDown(s)[i] as int < 26 <==> IsUpperAlpha(s[i]))
    ensures forall i :: 0 <= i < |s| && IsUpperAlpha(s[i]) ==>
      ShiftDown(s)[i] as int == s[i] as int - 'A' as int
  {
    forall i | 0 <= i < |s|
      ensures ShiftDown(s)[i] as int < 26 <==> IsUpperAlpha(s[i])
      ensures IsUpperAlpha(s[i]) ==> ShiftDown(s)[i] as int == s[i] as int - 'A' as int
    {
      var x := s[i] as int;
      if x < 'A' as int {
        ModMultiple(x - 'A' as int + 256, -1);
      } else {
        ModMultiple(x - 'A' as int, 0);
      }
    }
  }

  lemma ShiftDownExamples()
    ensures ShiftDown("AZ") == [0 as char, 25 as char]
  {}
}
