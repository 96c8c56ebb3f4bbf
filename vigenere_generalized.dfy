/**
 * The Vigenère cipher over an alphabet of the symbols 0 .. size - 1: symbol i of the
 * ciphertext is (plaintext[i] + key[i mod |key|]) mod size. Unlike the upper-case cipher, the
 * whole plaintext and then the whole key are range-checked before anything is written.
 */
module VigenereGeneralized {
  import opened Arith
  import opened CipherUtils
  import opened CipherErrors
  import opened UppercaseAlpha
  import VigenereCipher

  /** `CheckPlaintextRange`: every character, read as an unsigned byte, is below `max`. */
  predicate CheckPlaintextRange(s: CString, max: nat)
  {
    forall i :: 0 <= i < |s| ==> s[i] as int < max
  }

  /** Symbol i of the ciphertext, for in-range inputs. */
  function Combined(key: CString, plaintext: CString, size: nat): (c: CString)
    requires |plaintext| > 0 ==> |key| > 0 && size > 0
    requires size < 256
    ensures |c| == |plaintext| && CheckPlaintextRange(c, size)
  {
    seq(|plaintext|, i requires 0 <= i < |plaintext| =>
      ((plaintext[i] as int + key[i % |key|] as int) % size) as char)
  }

  /**
   * What `EncryptVigenereGeneralized` produces: an out-of-range plaintext is reported first,
   * then an out-of-range key; otherwise the symbol-wise sums modulo `size`.
   */
  function VigenereGeneralized(key: CString, plaintext: CString, size: nat): (r: Result<CString>)
    requires size < 256
    requires |plaintext| > 0 && CheckPlaintextRange(plaintext, size) ==> |key| > 0
    ensures !CheckPlaintextRange(plaintext, size) ==> r == Err(OutOfRange(Text))
    ensures CheckPlaintextRange(plaintext, size) && !CheckPlaintextRange(key, size) ==> r == Err(OutOfRange(Key))
    ensures r.Ok? <==> CheckPlaintextRange(plaintext, size) && CheckPlaintextRange(key, size)
    ensures r.Ok? ==> |r.value| == |plaintext| && CheckPlaintextRange(r.value, size)
  {
    if !CheckPlaintextRange(plaintext, size) then Err(OutOfRange(Text))
    else if !CheckPlaintextRange(key, size) then Err(OutOfRange(Key))
    else
      assert |plaintext| > 0 ==> plaintext[0] as int < size;
      Ok(Combined(key, plaintext, size))
  }

  /** Symbol i of the combined text, as a number. */
  lemma CombinedAt(key: CString, plaintext: CString, size: nat, i: nat)
    requires 0 < size < 256 && |key| > 0 && i < |plaintext|
    ensures Combined(key, plaintext, size)[i] as int == (plaintext[i] as int + key[i % |key|] as int) % size
  {}

  /** `CheckPlaintextRange` as the `std::all_of` scan it is. */
  method CheckRange(s: CString, max: nat) returns (b: bool)
    ensures b == CheckPlaintextRange(s, max)
  {
    for i := 0 to |s|
      invariant CheckPlaintextRange(s[..i], max)
    {
      if !(s[i] as int < max) {
        return false;
      }
    }
    assert s[..|s|] == s;
    return true;
  }

  /**
   * `EncryptVigenereGeneralized`: range-checks the plaintext and the key, then walks the
   * plaintext with a key index that restarts at the end of the key.
   */
  method EncryptVigenereGeneralized(key: CString, plaintext: CString, size: nat) returns (r: Result<CString>)
    requires size < 256
    requires |plaintext| > 0 && CheckPlaintextRange(plaintext, size) ==> |key| > 0
    ensures r == VigenereGeneralized(key, plaintext, size)
  {
    var plaintextOk := CheckRange(plaintext, size);
    if !plaintextOk {
      return Err(OutOfRange(Text));
    }
    var keyOk := CheckRange(key, size);
    if !keyOk {
      return Err(OutOfRange(Key));
    }
    var ciphertext := new CChar[|plaintext|](_ => '\0');
    var i, k := 0, 0;
    while i < |plaintext|
      invariant 0 <= i <= |plaintext|
      invariant |key| > 0 ==> k < |key| && k == i % |key|
      invariant forall j :: 0 <= j < i ==> ciphertext[j] == Combined(key, plaintext, size)[j]
    {
      ciphertext[i] := ((plaintext[i] as int + key[k] as int) % size) as char;
      ModNext(i, |key|);
      i, k := i + 1, k + 1;
      if k == |key| {
        k := 0;
      }
    }
    assert ciphertext[..] == Combined(key, plaintext, size);
    r := Ok(ciphertext[..]);
  }

  // ----- The upper-case front end -----

  /** Under the unsigned-byte reading, the shifted text is in range 0..25 exactly for capital letters. */
  lemma ShiftedInRange(s: CString)
    ensures CheckPlaintextRange(ShiftDown(s), 26) <==> AllUpperAlpha(s)
  {
    ShiftDownRange(s);
  }

  /**
   * What `EncryptVigenereUpperAlpha` produces: the generalized cipher with size 26 on the
   * shifted-down key and plaintext, its result shifted back up.
   */
  function VigenereUpperAlpha(key: CString, plaintext: CString): (r: Result<CString>)
    requires |plaintext| > 0 && AllUpperAlpha(plaintext) ==> |key| > 0
    ensures !AllUpperAlpha(plaintext) ==> r == Err(OutOfRange(Text))
    ensures AllUpperAlpha(plaintext) && !AllUpperAlpha(key) ==> r == Err(OutOfRange(Key))
    ensures r.Ok? <==> AllUpperAlpha(plaintext) && AllUpperAlpha(key)
    ensures r.Ok? ==> |r.value| == |plaintext| && AllUpperAlpha(r.value)
  {
    ShiftedInRange(plaintext);
    ShiftedInRange(key);
    match VigenereGeneralized(ShiftDown(key), ShiftDown(plaintext), 26)
    case Ok(c) =>
      ShiftedUpIsUpper(c);
      Ok(ShiftUp(c))
    case Err(e) => Err(e)
  }

  /** Symbols 0..25 shifted up are capital letters. */
  lemma ShiftedUpIsUpper(c: CString)
    requires CheckPlaintextRange(c, 26)
    ensures AllUpperAlpha(ShiftUp(c))
  {}

  /**
   * `EncryptVigenereUpperAlpha`: copies and shifts the plaintext and the key down in place,
   * runs the generalized cipher with 26 symbols, and shifts the ciphertext back up in place.
   */
  method EncryptVigenereUpperAlpha(key: CString, plaintext: CString) returns (r: Result<CString>)
    requires |plaintext| > 0 && AllUpperAlpha(plaintext) ==> |key| > 0
    ensures r == VigenereUpperAlpha(key, plaintext)
  {
    var shiftedPlaintext := new CChar[|plaintext|](i requires 0 <= i < |plaintext| => plaintext[i]);
    assert shiftedPlaintext[..] == plaintext;
    ShiftEach(shiftedPlaintext, -('A' as int));
    var shiftedKey := new CChar[|key|](i requires 0 <= i < |key| => key[i]);
    assert shiftedKey[..] == key;
    ShiftEach(shiftedKey, -('A' as int));
    ShiftedInRange(plaintext);
    var generalized := EncryptVigenereGeneralized(shiftedKey[..], shiftedPlaintext[..], 26);
    if generalized.Err? {
      return Err(generalized.error);
    }
    var ciphertext := new CChar[|generalized.value|](i requires 0 <= i < |generalized.value| => generalized.value[i]);
    assert ciphertext[..] == generalized.value;
    ShiftEach(ciphertext, 'A' as int);
    r := Ok(ciphertext[..]);
  }

  // ----- Properties -----

  /** Every ciphertext symbol is below the alphabet size, and symbol i is the sum it should be. */
  lemma CombinedFormula(key: CString, plaintext: CString, size: nat)
    requires 0 < size < 256 && |key| > 0
    requires CheckPlaintextRange(plaintext, size) && CheckPlaintextRange(key, size)
    ensures VigenereGeneralized(key, plaintext, size).Ok?
    ensures forall i :: 0 <= i < |plaintext| ==>
      VigenereGeneralized(key, plaintext, size).value[i] as int
        == (plaintext[i] as int + key[i % |key|] as int) % size < size
  {
    forall i | 0 <= i < |plaintext|
      ensures Combined(key, plaintext, size)[i] as int == (plaintext[i] as int + key[i % |key|] as int) % size
    {
      CombinedAt(key, plaintext, size, i);
    }
  }

  /** The key that undoes `key`: each symbol replaced by its additive inverse modulo `size`. */
  function NegatedKey(key: CString, size: nat): (n: CString)
    requires 0 < size < 256
    ensures |n| == |key| && CheckPlaintextRange(n, size)
  {
    seq(|key|, i requires 0 <= i < |key| => ((size - key[i] as int) % size) as char)
  }

  lemma AddNegated(p: int, k: int, size: int)
    requires 0 <= p < size && 0 <= k < size
    ensures ((p + k) % size + (size - k) % size) % size == p
  {
    var s := p + k;
    if s < size {
      ModSmall(s, size);
      if k == 0 {
        DivModUnique(size, size, 1, 0);
        ModSmall(p, size);
      } else {
        ModSmall(size - k, size);
        DivModUnique(p + size, size, 1, p);
      }
    } else {
      DivModUnique(s, size, 1, s - size);
      ModSmall(size - k, size);
      ModSmall(p, size);
      assert (s - size) + (size - k) == p;
    }
  }

  /** Encrypting with the negated key undoes encryption with the key. */
  lemma NegatedKeyDecrypts(key: CString, plaintext: CString, size: nat)
    requires 0 < size < 256 && |key| > 0
    requires CheckPlaintextRange(plaintext, size) && CheckPlaintextRange(key, size)
    ensures VigenereGeneralized(key, plaintext, size).Ok?
    ensures VigenereGeneralized(NegatedKey(key, size), VigenereGeneralized(key, plaintext, size).value, size)
         == Ok(plaintext)
  {
    var c := Combined(key, plaintext, size);
    assert VigenereGeneralized(key, plaintext, size) == Ok(c);
    var n := NegatedKey(key, size);
    var d := Combined(n, c, size);
    assert VigenereGeneralized(n, c, size) == Ok(d);
    forall i | 0 <= i < |plaintext|
      ensures d[i] == plaintext[i]
    {
      var j := i % |key|;
      CombinedAt(key, plaintext, size, i);
      CombinedAt(n, c, size, i);
      NegatedAt(key, size, j);
      AddNegated(plaintext[i] as int, key[j] as int, size);
    }
    assert d == plaintext;
  }

  lemma NegatedAt(key: CString, size: nat, j: nat)
    requires 0 < size < 256 && j < |key|
    ensures NegatedKey(key, size)[j] as int == (size - key[j] as int) % size
  {}

  /** A capital letter shifted down is its distance from 'A'. */
  lemma ShiftDownLetter(s: CString, i: nat)
    requires i < |s| && IsUpperAlpha(s[i])
    ensures ShiftDown(s)[i] as int == s[i] as int - 'A' as int
  {
    ShiftDownRange(s);
  }

  lemma AgreesAt(key: CString, plaintext: CString, i: nat)
    requires |key| > 0 && AllUpperAlpha(key) && AllUpperAlpha(plaintext) && i < |plaintext|
    ensures
      ShiftUp(Combined(ShiftDown(key), ShiftDown(plaintext), 26))[i]
        == VigenereCipher.AddLetters(key[i % |key|], plaintext[i])
  {
    var sk, sp := ShiftDown(key), ShiftDown(plaintext);
    ShiftedInRange(key);
    ShiftedInRange(plaintext);
    var c := Combined(sk, sp, 26);
    var j := i % |key|;
    CombinedAt(sk, sp, 26, i);
    ShiftDownLetter(plaintext, i);
    ShiftDownLetter(key, j);
    var letter := VigenereCipher.AddLetters(key[j], plaintext[i]);
    assert letter as int - 'A' as int == ((key[j] as int - 'A' as int) + (plaintext[i] as int - 'A' as int)) % 26;
    assert ShiftUp(c)[i] as int == (c[i] as int + 'A' as int) % 256;
  }

  /**
   * On upper-case inputs, the generalized route and the direct upper-case cipher give the
   * same ciphertext.
   */
  lemma UpperAlphaAgrees(key: CString, plaintext: CString)
    requires |key| > 0 && AllUpperAlpha(key) && AllUpperAlpha(plaintext)
    ensures VigenereUpperAlpha(key, plaintext) == VigenereCipher.VigenereAlpha(key, plaintext)
  {
    var sk, sp := ShiftDown(key), ShiftDown(plaintext);
    ShiftedInRange(key);
    ShiftedInRange(plaintext);
    var c := Combined(sk, sp, 26);
    assert VigenereGeneralized(sk, sp, 26) == Ok(c);
    var up := ShiftUp(c);
    assert VigenereUpperAlpha(key, plaintext) == Ok(up);
    var alpha := seq(|plaintext|, i requires 0 <= i < |plaintext| =>
      VigenereCipher.AddLetters(key[i % |key|], plaintext[i]));
    VigenereCipher.LettersFormula(key, plaintext);
    forall i | 0 <= i < |plaintext|
      ensures up[i] == alpha[i]
    {
      AgreesAt(key, plaintext, i);
    }
    assert up == alpha;
  }

  /**
   * The two upper-case ciphers differ in when they validate: the generalized route checks
   * the whole key up front, while the direct cipher never looks at key characters it does
   * not use.
   */
  lemma ValidationDiffers()
    ensures VigenereUpperAlpha("AB" + "1", "XY") == Err(OutOfRange(Key))
    ensures VigenereCipher.VigenereAlpha("AB" + "1", "XY") == Ok("XZ")
  {
    VigenereCipher.LazyExample();
    assert ("AB" + "1")[2] == '1';
  }

  /** The upper-case cipher on "HELLOWORLD" with the one-letter password "B". */
  lemma HelloWorldAlpha()
    ensures VigenereCipher.VigenereAlpha("B", "HELLO" + "WORLD") == Ok("IFMMP" + "XPSME")
  {
    VigenereCipher.FormulaVector("B", "HELLO" + "WORLD", "IFMMP" + "XPSME");
  }

  lemma VectorHelloWorld()
    ensures VigenereUpperAlpha("B", "HELLO" + "WORLD") == Ok("IFMMP" + "XPSME")
  {
    HelloWorldAlpha();
    UpperAlphaAgrees("B", "HELLO" + "WORLD");
  }
}
