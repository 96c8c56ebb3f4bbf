/**
 * Alphabet utilities shared by all ciphers: character classes, the hex rendering used in
 * error messages, Vigenère key inversion and whitespace trimming.
 *
 * A C++ `char` is one byte. It is modelled as a Dafny `char` whose code is below 256, and
 * arithmetic stored back into a `char` wraps modulo 256 (the unsigned-char reading).
 */
module CipherUtils {
  import opened Arith

  type CChar = c: char | c as int < 256 witness 'A'
  type CString = seq<CChar>

  /** The byte a C++ `char` holds after an int value is stored into it. */
  function ToCChar(x: int): (c: CChar)
    ensures 0 <= x < 256 ==> c as int == x
  {
    (x % 256) as char
  }

  predicate IsUpperAlpha(c: char) { 'A' <= c <= 'Z' }

  predicate IsLowerAlpha(c: char) { 'a' <= c <= 'z' }

  const UpperAlphabet: string := "ABCDEFGHIJKLMNOPQRSTUVWXYZ"
  const LowerAlphabet: string := "abcdefghijklmnopqrstuvwxyz"

  /** The range test accepts exactly the 26 capital letters, and nothing else (no digit). */
  lemma UpperAlphaIsAlphabet(c: char)
    ensures IsUpperAlpha(c) <==> c in UpperAlphabet
  {
    if IsUpperAlpha(c) {
      assert UpperAlphabet[c as int - 'A' as int] == c;
    }
  }

  /** The range test accepts exactly the 26 small letters. */
  lemma LowerAlphaIsAlphabet(c: char)
    ensures IsLowerAlpha(c) <==> c in LowerAlphabet
  {
    if IsLowerAlpha(c) {
      assert LowerAlphabet[c as int - 'a' as int] == c;
    }
  }

  /** `std::all_of(s, IsUpperAlpha)`: every character is a capital letter (so "" qualifies). */
  predicate AllUpperAlpha(s: CString)
  {
    forall i :: 0 <= i < |s| ==> IsUpperAlpha(s[i])
  }

  /** A concatenation is all upper-case exactly when both parts are. */
  lemma AllUpperAlphaAppend(a: CString, b: CString)
    ensures AllUpperAlpha(a + b) <==> AllUpperAlpha(a) && AllUpperAlpha(b)
  {
    if AllUpperAlpha(a) && AllUpperAlpha(b) {
      forall i | 0 <= i < |a + b|
        ensures IsUpperAlpha((a + b)[i])
      {
        if i >= |a| {
          assert (a + b)[i] == b[i - |a|];
        }
      }
    }
    if AllUpperAlpha(a + b) {
      assert forall i :: 0 <= i < |a| ==> a[i] == (a + b)[i];
      assert forall i :: 0 <= i < |b| ==> b[i] == (a + b)[|a| + i];
    }
  }

  // ----- Hex rendering -----

  /** One lower-case hex digit for a value below 16. */
  function HexDigit(v: nat): (d: char)
    requires v < 16
  {
    if v < 10 then ('0' as int + v) as char else ('a' as int + v - 10) as char
  }

  predicate IsLowerHexDigit(d: char) { '0' <= d <= '9' || 'a' <= d <= 'f' }

  /** The value a lower-case hex digit stands for: the reading back of `HexDigit`. */
  function HexDigitValue(d: char): nat
    requires IsLowerHexDigit(d)
  {
    if d <= '9' then d as int - '0' as int else d as int - 'a' as int + 10
  }

  /**
   * `PrintCharHex`: the byte of `c`, read unsigned, as exactly two lower-case hex digits,
   * zero-padded; reading the digits back gives the byte.
   */
  function PrintCharHex(c: CChar): (h: string)
    ensures |h| == 2 && IsLowerHexDigit(h[0]) && IsLowerHexDigit(h[1])
    ensures HexDigitValue(h[0]) * 16 + HexDigitValue(h[1]) == c as int
  {
    var b := c as int;
    [HexDigit(b / 16), HexDigit(b % 16)]
  }

  lemma PrintCharHexExamples()
    ensures PrintCharHex('0') == "30" && PrintCharHex('\n') == "0a" && PrintCharHex('z') == "7a"
  {}

  // ----- Key inversion -----

  /**
   * The loop body of `InvertCipherkey` on one character: `numerical = c - 'A'` stored in a
   * char, then `((26 - numerical) % 26) + 'A'` with C++'s truncating remainder.
   */
  function InvertLetter(c: CChar): (r: CChar)
    ensures IsUpperAlpha(c) ==> IsUpperAlpha(r)
    ensures IsUpperAlpha(c) ==> r as int - 'A' as int == (26 - (c as int - 'A' as int)) % 26
    ensures c == 'A' ==> r == 'A'
  {
    var numerical := ToCChar(c as int - 'A' as int) as int;
    ToCChar(CRem(26 - numerical, 26) + 'A' as int)
  }

  /** The key `InvertCipherkey` returns: every character inverted in place. */
  function InvertKey(key: CString): (r: CString)
  {
    seq(|key|, i requires 0 <= i < |key| => InvertLetter(key[i]))
  }

  /**
   * `InvertCipherkey`: copies the key and rewrites each character of the copy with its
   * additive inverse modulo 26.
   */
  method InvertCipherkey(cipherkey: CString) returns (reverseKey: CString)
    ensures |reverseKey| == |cipherkey|
    ensures forall i :: 0 <= i < |cipherkey| ==> reverseKey[i] == InvertLetter(cipherkey[i])
    ensures reverseKey == InvertKey(cipherkey)
  {
    var copy := new CChar[|cipherkey|](i requires 0 <= i < |cipherkey| => cipherkey[i]);
    for i := 0 to copy.Length
      invariant forall j :: 0 <= j < i ==> copy[j] == InvertLetter(cipherkey[j])
      invariant forall j :: i <= j < copy.Length ==> copy[j] == cipherkey[j]
    {
      copy[i] := InvertLetter(copy[i]);
    }
    reverseKey := copy[..];
  }

  /** On upper-case keys the inverted key is upper-case, with 'A' kept as 'A'. */
  lemma InvertKeyUpper(key: CString)
    requires AllUpperAlpha(key)
    ensures |InvertKey(key)| == |key| && AllUpperAlpha(InvertKey(key))
    ensures forall i :: 0 <= i < |key| && key[i] == 'A' ==> InvertKey(key)[i] == 'A'
  {}

  /** One upper-case letter inverted twice is itself. */
  lemma InvertLetterTwice(c: CChar)
    requires IsUpperAlpha(c)
    ensures InvertLetter(InvertLetter(c)) == c
  {
    var x := c as int - 'A' as int;
    var d := InvertLetter(c);
    var y := d as int - 'A' as int;
    if x == 0 {
      assert y == 0;
    } else {
      assert y == 26 - x;
    }
    assert InvertLetter(d) as int - 'A' as int == (26 - y) % 26 == x;
  }

  /** Inverting an upper-case key twice gives the key back. */
  lemma InvertKeyInvolution(key: CString)
    requires AllUpperAlpha(key)
    ensures InvertKey(InvertKey(key)) == key
  {
    var inv := InvertKey(key);
    forall i | 0 <= i < |key|
      ensures InvertLetter(inv[i]) == key[i]
    {
      InvertLetterTwice(key[i]);
    }
  }

  // ----- Whitespace trimming -----

  /** `std::isspace` in the C locale: space, or one of \t, \n, \v, \f, \r (codes 9 to 13). */
  predicate IsSpace(c: char) { c == ' ' || 9 <= c as int <= 13 }

  /** How many whitespace characters the string starts with. */
  function LeadingSpaces(s: CString): (k: nat)
    ensures k <= |s|
    ensures forall i :: 0 <= i < k ==> IsSpace(s[i])
    ensures k < |s| ==> !IsSpace(s[k])
  {
    if |s| > 0 && IsSpace(s[0]) then 1 + LeadingSpaces(s[1..]) else 0
  }

  /** How many whitespace characters the string ends with. */
  function TrailingSpaces(s: CString): (k: nat)
    ensures k <= |s|
    ensures forall i :: |s| - k <= i < |s| ==> IsSpace(s[i])
    ensures k < |s| ==> !IsSpace(s[|s| - k - 1])
  {
    if |s| > 0 && IsSpace(s[|s| - 1]) then 1 + TrailingSpaces(s[..|s| - 1]) else 0
  }

  /** What `ltrim` leaves: the suffix after the leading whitespace. */
  function TrimStart(s: CString): CString
  {
    s[LeadingSpaces(s)..]
  }

  /** What `rtrim` leaves: the prefix before the trailing whitespace. */
  function TrimEnd(s: CString): CString
  {
    s[..|s| - TrailingSpaces(s)]
  }

  /** `ltrim`: erases from the front up to the first non-space character. */
  method LTrim(s: CString) returns (t: CString)
    ensures t == TrimStart(s)
  {
    var i := 0;
    while i < |s| && IsSpace(s[i])
      invariant i <= LeadingSpaces(s)
    {
      i := i + 1;
    }
    t := s[i..];
  }

  /** `rtrim`: erases everything after the last non-space character. */
  method RTrim(s: CString) returns (t: CString)
    ensures t == TrimEnd(s)
  {
    var j := |s|;
    while j > 0 && IsSpace(s[j - 1])
      invariant |s| - TrailingSpaces(s) <= j <= |s|
    {
      j := j - 1;
    }
    t := s[..j];
  }

  /** `trim`: `ltrim(rtrim(s))`. */
  method Trim(s: CString) returns (t: CString)
    ensures t == TrimStart(TrimEnd(s))
  {
    t := RTrim(s);
    t := LTrim(t);
  }

  /**
   * Trimming leaves the contiguous piece `s[lo..hi]`, with only whitespace cut on either side
   * and no whitespace at either end of what remains.
   */
  lemma TrimIsCore(s: CString) returns (lo: nat, hi: nat)
    ensures lo <= hi <= |s| && TrimStart(TrimEnd(s)) == s[lo..hi]
    ensures forall i :: 0 <= i < lo ==> IsSpace(s[i])
    ensures forall i :: hi <= i < |s| ==> IsSpace(s[i])
    ensures lo < hi ==> !IsSpace(s[lo]) && !IsSpace(s[hi - 1])
  {
    var e := TrimEnd(s);
    hi := |s| - TrailingSpaces(s);
    lo := LeadingSpaces(e);
    assert forall i :: 0 <= i < hi ==> e[i] == s[i];
  }

  /** A string without trailing whitespace is its own `rtrim`. */
  lemma TrimEndFixed(t: CString)
    requires |t| == 0 || !IsSpace(t[|t| - 1])
    ensures TrimEnd(t) == t
  {}

  /** A string without leading whitespace is its own `ltrim`. */
  lemma TrimStartFixed(t: CString)
    requires |t| == 0 || !IsSpace(t[0])
    ensures TrimStart(t) == t
  {}

  /** Trimming an already trimmed string changes nothing. */
  lemma TrimIdempotent(s: CString)
    ensures TrimStart(TrimEnd(TrimStart(TrimEnd(s)))) == TrimStart(TrimEnd(s))
  {
    var t := TrimStart(TrimEnd(s));
    var lo, hi := TrimIsCore(s);
    if |t| > 0 {
      assert t[|t| - 1] == s[hi - 1] && t[0] == s[lo];
    }
    TrimEndFixed(t);
    TrimStartFixed(t);
  }
}
