/**
 * The upper-case Vigenère cipher: letter i of the ciphertext is letter i of the plaintext
 * shifted by letter (i mod |key|) of the password, modulo 26. Characters are validated one
 * position at a time as the loop reaches them, password character first.
 */
module VigenereCipher {
  import opened Arith
  import opened CipherUtils
  import opened CipherErrors

  /** The password character that position i of the plaintext is combined with. */
  function KeyAt(password: CString, i: nat): CChar
    requires |password| > 0
  {
    password[i % |password|]
  }

  /** Position i passes validation: its password character and its plaintext character are letters. */
  predicate Accepted(password: CString, plaintext: CString, i: nat)
    requires |password| > 0 && i < |plaintext|
  {
    IsUpperAlpha(KeyAt(password, i)) && IsUpperAlpha(plaintext[i])
  }

  /** One letter of ciphertext: `((k - 'A') + (p - 'A')) % 26 + 'A'`, the offsets held in chars. */
  function AddLetters(k: CChar, p: CChar): (c: CChar)
    requires IsUpperAlpha(k) && IsUpperAlpha(p)
    ensures IsUpperAlpha(c)
    ensures c as int - 'A' as int == ((k as int - 'A' as int) + (p as int - 'A' as int)) % 26
    ensures k == 'A' ==> c == p
  {
    var offset1 := ToCChar(k as int - 'A' as int) as int;
    var offset2 := ToCChar(p as int - 'A' as int) as int;
    ToCChar((offset1 + offset2) % 26 + 'A' as int)
  }

  /** The ciphertext letter of an accepted position. */
  function CipherAt(password: CString, plaintext: CString, i: nat): CChar
    requires |password| > 0 && i < |plaintext| && Accepted(password, plaintext, i)
  {
    AddLetters(KeyAt(password, i), plaintext[i])
  }

  /** Every position before f passes validation. */
  predicate AcceptedUpTo(password: CString, plaintext: CString, f: nat)
    requires |plaintext| > 0 ==> |password| > 0
    requires f <= |plaintext|
  {
    forall i :: 0 <= i < f ==> Accepted(password, plaintext, i)
  }

  /** The first n letters of ciphertext, when the first n positions are accepted. */
  function Enciphered(password: CString, plaintext: CString, n: nat): (c: CString)
    requires |plaintext| > 0 ==> |password| > 0
    requires n <= |plaintext| && AcceptedUpTo(password, plaintext, n)
    ensures |c| == n && forall i :: 0 <= i < n ==> c[i] == CipherAt(password, plaintext, i)
  {
    if n == 0 then [] else Enciphered(password, plaintext, n - 1) + [CipherAt(password, plaintext, n - 1)]
  }

  /** The first position at or after `from` that fails validation, or |plaintext| if none does. */
  function FirstFailure(password: CString, plaintext: CString, from: nat): (f: nat)
    requires |plaintext| > 0 ==> |password| > 0
    requires from <= |plaintext|
    ensures from <= f <= |plaintext|
    ensures forall i :: from <= i < f ==> Accepted(password, plaintext, i)
    ensures f < |plaintext| ==> !Accepted(password, plaintext, f)
    decreases |plaintext| - from
  {
    if from == |plaintext| then from
    else if !Accepted(password, plaintext, from) then from
    else FirstFailure(password, plaintext, from + 1)
  }

  /** The error raised at a failing position: the password character is blamed if it is bad. */
  function ErrorAt(password: CString, plaintext: CString, i: nat): CipherError
    requires |password| > 0 && i < |plaintext|
  {
    if !IsUpperAlpha(KeyAt(password, i)) then NonAlphaCharacter(Key, PrintCharHex(KeyAt(password, i)))
    else NonAlphaCharacter(Text, PrintCharHex(plaintext[i]))
  }

  /**
   * What `EncryptVigenereAlpha` produces: the letter-by-letter sum when every position is
   * accepted, otherwise the error of the first position that is not.
   */
  function VigenereAlpha(password: CString, plaintext: CString): (r: Result<CString>)
    requires |plaintext| > 0 ==> |password| > 0
    ensures |plaintext| == 0 ==> r == Ok([])
    ensures r.Ok? <==> AcceptedUpTo(password, plaintext, |plaintext|)
    ensures r.Ok? ==> |r.value| == |plaintext| && forall i :: 0 <= i < |plaintext| ==>
      Accepted(password, plaintext, i) && r.value[i] == CipherAt(password, plaintext, i)
    ensures r.Err? ==>
      exists f :: (0 <= f < |plaintext| && AcceptedUpTo(password, plaintext, f) &&
                   !Accepted(password, plaintext, f) && r.error == ErrorAt(password, plaintext, f))
  {
    var f := FirstFailure(password, plaintext, 0);
    if f == |plaintext| then
      Ok(Enciphered(password, plaintext, |plaintext|))
    else
      Err(ErrorAt(password, plaintext, f))
  }

  /**
   * `EncryptVigenereAlpha`: walks the plaintext and the password together, writing one
   * ciphertext letter per step and restarting the password when it runs out; the first bad
   * character met raises the error.
   */
  method EncryptVigenereAlpha(password: CString, plaintext: CString) returns (r: Result<CString>)
    requires |plaintext| > 0 ==> |password| > 0
    ensures r == VigenereAlpha(password, plaintext)
  {
    var ciphertext := new CChar[|plaintext|](_ => '\0');
    var i, k := 0, 0;
    while i < |plaintext|
      invariant 0 <= i <= |plaintext|
      invariant |password| > 0 ==> k < |password| && k == i % |password|
      invariant AcceptedUpTo(password, plaintext, i)
      invariant forall j :: 0 <= j < i ==> ciphertext[j] == CipherAt(password, plaintext, j)
    {
      assert KeyAt(password, i) == password[k];
      if IsUpperAlpha(password[k]) {
        if IsUpperAlpha(plaintext[i]) {
          ciphertext[i] := AddLetters(password[k], plaintext[i]);
        } else {
          FailsAt(password, plaintext, i);
          return Err(NonAlphaCharacter(Text, PrintCharHex(plaintext[i])));
        }
      } else {
        FailsAt(password, plaintext, i);
        return Err(NonAlphaCharacter(Key, PrintCharHex(password[k])));
      }
      ModNext(i, |password|);
      i, k := i + 1, k + 1;
      if k == |password| {
        k := 0;
      }
    }
    AllAccepted(password, plaintext);
    assert ciphertext[..] == Enciphered(password, plaintext, |plaintext|);
    r := Ok(ciphertext[..]);
  }

  /** When every position before f is accepted and f is not, the cipher fails with f's error. */
  lemma FailsAt(password: CString, plaintext: CString, f: nat)
    requires |password| > 0 && f < |plaintext|
    requires AcceptedUpTo(password, plaintext, f) && !Accepted(password, plaintext, f)
    ensures VigenereAlpha(password, plaintext) == Err(ErrorAt(password, plaintext, f))
  {
  }

  /** When every position is accepted, the cipher succeeds with the letter-by-letter sums. */
  lemma AllAccepted(password: CString, plaintext: CString)
    requires |plaintext| > 0 ==> |password| > 0
    requires AcceptedUpTo(password, plaintext, |plaintext|)
    ensures VigenereAlpha(password, plaintext) == Ok(Enciphered(password, plaintext, |plaintext|))
  {
  }

  // ----- Properties -----

  /** Upper-case passwords and plaintexts are accepted at every position. */
  lemma LettersAccepted(password: CString, plaintext: CString)
    requires |password| > 0 && AllUpperAlpha(password) && AllUpperAlpha(plaintext)
    ensures AcceptedUpTo(password, plaintext, |plaintext|)
  {
    forall i | 0 <= i < |plaintext|
      ensures Accepted(password, plaintext, i)
    {
      assert IsUpperAlpha(password[i % |password|]);
    }
  }

  /** A password made only of 'A' (of any length) leaves an upper-case text unchanged. */
  lemma IdentityPassword(password: CString, plaintext: CString)
    requires |password| > 0 && forall j :: 0 <= j < |password| ==> password[j] == 'A'
    requires AllUpperAlpha(plaintext)
    ensures VigenereAlpha(password, plaintext) == Ok(plaintext)
  {
    LettersAccepted(password, plaintext);
    AllAccepted(password, plaintext);
    forall i | 0 <= i < |plaintext|
      ensures CipherAt(password, plaintext, i) == plaintext[i]
    {
      assert KeyAt(password, i) == 'A';
    }
    assert Enciphered(password, plaintext, |plaintext|) == plaintext;
  }

  /**
   * Validation is lazy: once the password is at least as long as the plaintext, whatever
   * follows it (valid or not) is never consulted.
   */
  lemma UnusedPasswordIgnored(password: CString, extra: CString, plaintext: CString)
    requires 0 < |plaintext| <= |password|
    ensures VigenereAlpha(password + extra, plaintext) == VigenereAlpha(password, plaintext)
  {
    var long := password + extra;
    forall i | 0 <= i < |plaintext|
      ensures KeyAt(long, i) == KeyAt(password, i)
      ensures Accepted(long, plaintext, i) == Accepted(password, plaintext, i)
    {
      ModSmall(i, |long|);
      ModSmall(i, |password|);
    }
    var f := FirstFailure(password, plaintext, 0);
    if f < |plaintext| {
      FailsAt(password, plaintext, f);
      FailsAt(long, plaintext, f);
    } else {
      AllAccepted(password, plaintext);
      AllAccepted(long, plaintext);
      assert Enciphered(password, plaintext, |plaintext|) == Enciphered(long, plaintext, |plaintext|);
    }
  }

  /** A bad password character past the end of the plaintext raises nothing. */
  lemma LazyExample()
    ensures VigenereAlpha("AB" + "1", "XY") == Ok("XZ")
  {
    FormulaVector("AB", "XY", "XZ");
    UnusedPasswordIgnored("AB", "1", "XY");
  }

  /** At a failing position the password character is checked first. */
  lemma PasswordCheckedFirst()
    ensures VigenereAlpha("A1", "Xy") == Err(NonAlphaCharacter(Key, "31"))
    ensures VigenereAlpha("AB", "Xy") == Err(NonAlphaCharacter(Text, "79"))
  {
    assert Accepted("A1", "Xy", 0) && !Accepted("A1", "Xy", 1);
    FailsAt("A1", "Xy", 1);
    assert Accepted("AB", "Xy", 0) && !Accepted("AB", "Xy", 1);
    FailsAt("AB", "Xy", 1);
  }

  /** On upper-case inputs the cipher succeeds, letter i being the sum of plaintext letter i and password letter i mod |password|. */
  lemma LettersFormula(password: CString, plaintext: CString)
    requires |password| > 0 && AllUpperAlpha(password) && AllUpperAlpha(plaintext)
    ensures VigenereAlpha(password, plaintext)
         == Ok(seq(|plaintext|, i requires 0 <= i < |plaintext| => AddLetters(password[i % |password|], plaintext[i])))
  {
    LettersAccepted(password, plaintext);
    AllAccepted(password, plaintext);
    assert Enciphered(password, plaintext, |plaintext|)
        == seq(|plaintext|, i requires 0 <= i < |plaintext| => AddLetters(password[i % |password|], plaintext[i]));
  }

  /** Each letter added to itself. */
  function Doubled(s: CString): (d: CString)
    requires AllUpperAlpha(s)
    ensures |d| == |s| && AllUpperAlpha(d)
  {
    seq(|s|, i requires 0 <= i < |s| => AddLetters(s[i], s[i]))
  }

  /** Doubling works piece by piece. */
  lemma DoubledAppend(a: CString, b: CString)
    requires AllUpperAlpha(a) && AllUpperAlpha(b)
    ensures AllUpperAlpha(a + b) && Doubled(a + b) == Doubled(a) + Doubled(b)
  {
    AllUpperAlphaAppend(a, b);
  }

  /** A text used as its own password doubles every letter. */
  lemma SelfKeyed(s: CString)
    requires |s| > 0 && AllUpperAlpha(s)
    ensures VigenereAlpha(s, s) == Ok(Doubled(s))
  {
    LettersFormula(s, s);
    forall i | 0 <= i < |s|
      ensures s[i % |s|] == s[i]
    {
      ModSmall(i, |s|);
    }
    assert seq(|s|, i requires 0 <= i < |s| => AddLetters(s[i % |s|], s[i])) == Doubled(s);
  }

  /** A one-letter password shifts every letter by the same amount. */
  lemma SingleLetter(k: CChar, plaintext: CString)
    requires IsUpperAlpha(k) && AllUpperAlpha(plaintext)
    ensures VigenereAlpha([k], plaintext)
         == Ok(seq(|plaintext|, i requires 0 <= i < |plaintext| => AddLetters(k, plaintext[i])))
  {
    LettersFormula([k], plaintext);
    assert seq(|plaintext|, i requires 0 <= i < |plaintext| => AddLetters([k][i % 1], plaintext[i]))
        == seq(|plaintext|, i requires 0 <= i < |plaintext| => AddLetters(k, plaintext[i]));
  }

  /** A test vector follows from the letter formula. */
  lemma FormulaVector(password: CString, plaintext: CString, expected: CString)
    requires |password| > 0 && AllUpperAlpha(password) && AllUpperAlpha(plaintext)
    requires seq(|plaintext|, i requires 0 <= i < |plaintext| => AddLetters(password[i % |password|], plaintext[i]))
          == expected
    ensures VigenereAlpha(password, plaintext) == Ok(expected)
  {
    LettersFormula(password, plaintext);
  }

  lemma VectorHello()
    ensures VigenereAlpha("B", "HELLO") == Ok("IFMMP")
  {
    FormulaVector("B", "HELLO", "IFMMP");
  }

  /** A self-keyed vector assembled from three pieces, each doubled on its own. */
  lemma SelfKeyedPieces(a: CString, b: CString, c: CString, da: CString, db: CString, dc: CString,
                        text: CString, expected: CString)
    requires |a| > 0 && AllUpperAlpha(a) && AllUpperAlpha(b) && AllUpperAlpha(c)
    requires Doubled(a) == da && Doubled(b) == db && Doubled(c) == dc
    requires text == a + b + c && expected == da + db + dc
    ensures VigenereAlpha(text, text) == Ok(expected)
  {
    DoubledAppend(a, b);
    DoubledAppend(a + b, c);
    SelfKeyed(a + b + c);
  }

  lemma FoxPiece1()
    ensures AllUpperAlpha("THEQUICKBROW") && Doubled("THEQUICKBROW") == "MOIGOQEUCICS"
  {}

  lemma FoxPiece2()
    ensures AllUpperAlpha("NFOXJUMPEDOV") && Doubled("NFOXJUMPEDOV") == "AKCUSOYEIGCQ"
  {}

  lemma FoxPiece3()
    ensures AllUpperAlpha("ERTHELAZYDOG") && Doubled("ERTHELAZYDOG") == "IIMOIWAYWGCM"
  {}

  /** The SelfFox test vector: the fox sentence, written in three pieces, used as its own password. */
  lemma VectorSelfFox()
    ensures VigenereAlpha("THEQUICKBROW" + "NFOXJUMPEDOV" + "ERTHELAZYDOG",
                          "THEQUICKBROW" + "NFOXJUMPEDOV" + "ERTHELAZYDOG")
         == Ok("MOIGOQEUCICS" + "AKCUSOYEIGCQ" + "IIMOIWAYWGCM")
  {
    FoxPiece1();
    FoxPiece2();
    FoxPiece3();
    SelfKeyedPieces("THEQUICKBROW", "NFOXJUMPEDOV", "ERTHELAZYDOG",
                    "MOIGOQEUCICS", "AKCUSOYEIGCQ", "IIMOIWAYWGCM",
                    "THEQUICKBROW" + "NFOXJUMPEDOV" + "ERTHELAZYDOG",
                    "MOIGOQEUCICS" + "AKCUSOYEIGCQ" + "IIMOIWAYWGCM");
  }

  /** Adding k and then its inverse (26 - k) % 26 gives back the letter. */
  lemma AddInverseLetter(k: CChar, p: CChar)
    requires IsUpperAlpha(k) && IsUpperAlpha(p)
    ensures AddLetters(InvertLetter(k), AddLetters(k, p)) == p
  {
    var x, y := k as int - 'A' as int, p as int - 'A' as int;
    var c := AddLetters(k, p);
    var z := c as int - 'A' as int;
    var ik := InvertLetter(k) as int - 'A' as int;
    assert z == (x + y) % 26;
    assert ik == (26 - x) % 26;
    var d := AddLetters(InvertLetter(k), c) as int - 'A' as int;
    assert d == (ik + z) % 26;
    if x == 0 {
      assert ik == 0 && z == y;
    } else if x + y < 26 {
      assert ik == 26 - x && z == x + y;
      DivModUnique(ik + z, 26, 1, y);
    } else {
      assert ik == 26 - x && z == x + y - 26;
      DivModUnique(ik + z, 26, 0, y);
    }
  }

  /**
   * The inverted password decrypts: encrypting with `InvertCipherkey(password)` after
   * encrypting with `password` returns the upper-case plaintext.
   */
  lemma InvertedPasswordDecrypts(password: CString, plaintext: CString)
    requires |password| > 0 && AllUpperAlpha(password) && AllUpperAlpha(plaintext)
    ensures VigenereAlpha(password, plaintext).Ok?
    ensures VigenereAlpha(InvertKey(password), VigenereAlpha(password, plaintext).value) == Ok(plaintext)
  {
    LettersAccepted(password, plaintext);
    AllAccepted(password, plaintext);
    var c := VigenereAlpha(password, plaintext).value;
    var inv := InvertKey(password);
    InvertKeyUpper(password);
    assert AllUpperAlpha(c);
    LettersAccepted(inv, c);
    AllAccepted(inv, c);
    forall i | 0 <= i < |plaintext|
      ensures CipherAt(inv, c, i) == plaintext[i]
    {
      var k := KeyAt(password, i);
      assert KeyAt(inv, i) == InvertLetter(k);
      AddInverseLetter(k, plaintext[i]);
    }
    assert Enciphered(inv, c, |c|) == plaintext;
  }
}
