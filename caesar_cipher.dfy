/**
 * The Caesar cipher: the upper-case Vigenère cipher with a one-letter password, so that every
 * plaintext letter is shifted by the same amount ('A' = 0, 'B' = 1, ...).
 */
module CaesarCipher {
  import opened CipherUtils
  import opened CipherErrors
  import opened VigenereCipher

  /**
   * `EncryptCaesarAlpha`: the upper-case Vigenère cipher with the one-character password
   * `cipherkey`. It succeeds exactly when the text is empty or the key
   * and every text character are capital letters; then each letter is shifted by the key. A
   * bad key is reported before any text character; otherwise the first bad text character is.
   */
  function EncryptCaesarAlpha(cipherkey: CChar, plaintext: CString): (r: Result<CString>)
    ensures r.Ok? <==> |plaintext| == 0 || (IsUpperAlpha(cipherkey) && AllUpperAlpha(plaintext))
    ensures r.Ok? ==> |r.value| == |plaintext| && forall i :: 0 <= i < |plaintext| ==>
      r.value[i] as int - 'A' as int == ((cipherkey as int - 'A' as int) + (plaintext[i] as int - 'A' as int)) % 26
    ensures r.Err? && !IsUpperAlpha(cipherkey) ==> r.error == NonAlphaCharacter(Key, PrintCharHex(cipherkey))
    ensures r.Err? && IsUpperAlpha(cipherkey) ==>
      exists f :: (0 <= f < |plaintext| && AllUpperAlpha(plaintext[..f]) && !IsUpperAlpha(plaintext[f]) &&
                   r.error == NonAlphaCharacter(Text, PrintCharHex(plaintext[f])))
  {
    var r := VigenereAlpha([cipherkey], plaintext);
    OneLetterFacts(cipherkey, plaintext);
    r
  }

  /** The upper-case cipher's guarantees, read for a one-letter password. */
  lemma OneLetterFacts(k: CChar, plaintext: CString)
    ensures var r := VigenereAlpha([k], plaintext);
      && (r.Ok? <==> |plaintext| == 0 || (IsUpperAlpha(k) && AllUpperAlpha(plaintext)))
      && (r.Ok? ==> |r.value| == |plaintext| && forall i :: 0 <= i < |plaintext| ==> r.value[i] == AddLetters(k, plaintext[i]))
      && (r.Err? && !IsUpperAlpha(k) ==> r.error == NonAlphaCharacter(Key, PrintCharHex(k)))
      && (r.Err? && IsUpperAlpha(k) ==>
           exists f :: (0 <= f < |plaintext| && AllUpperAlpha(plaintext[..f]) && !IsUpperAlpha(plaintext[f]) &&
                        r.error == NonAlphaCharacter(Text, PrintCharHex(plaintext[f]))))
  {
    var pw := [k];
    var r := VigenereAlpha(pw, plaintext);
    assert forall i :: 0 <= i < |plaintext| ==> KeyAt(pw, i) == k;
    if |plaintext| > 0 && AcceptedUpTo(pw, plaintext, |plaintext|) {
      assert Accepted(pw, plaintext, 0);
    }
    if IsUpperAlpha(k) && AllUpperAlpha(plaintext) {
      assert AcceptedUpTo(pw, plaintext, |plaintext|);
    }
    if r.Err? {
      var f :| 0 <= f < |plaintext| && AcceptedUpTo(pw, plaintext, f) &&
               !Accepted(pw, plaintext, f) && r.error == ErrorAt(pw, plaintext, f);
      if IsUpperAlpha(k) {
        assert forall i :: 0 <= i < f ==> plaintext[..f][i] == plaintext[i] && Accepted(pw, plaintext, i);
        assert AllUpperAlpha(plaintext[..f]) && !IsUpperAlpha(plaintext[f]);
        assert r.error == NonAlphaCharacter(Text, PrintCharHex(plaintext[f]));
      } else {
        assert KeyAt(pw, f) == k;
      }
    } else {
      forall i | 0 <= i < |plaintext|
        ensures r.value[i] == AddLetters(k, plaintext[i])
      {
        assert KeyAt(pw, i) == k;
      }
    }
  }

  // ----- Properties -----

  /** The key 'A' leaves upper-case text unchanged. */
  lemma IdentityKey(plaintext: CString)
    requires AllUpperAlpha(plaintext)
    ensures EncryptCaesarAlpha('A', plaintext) == Ok(plaintext)
  {
    IdentityPassword(['A'], plaintext);
  }

  /** Shifting with the inverted key undoes the shift: the inverse letter decrypts. */
  lemma InvertedKeyDecrypts(cipherkey: CChar, plaintext: CString)
    requires IsUpperAlpha(cipherkey) && AllUpperAlpha(plaintext)
    ensures EncryptCaesarAlpha(cipherkey, plaintext).Ok?
    ensures EncryptCaesarAlpha(InvertLetter(cipherkey), EncryptCaesarAlpha(cipherkey, plaintext).value) == Ok(plaintext)
  {
    InvertedPasswordDecrypts([cipherkey], plaintext);
    assert InvertKey([cipherkey]) == [InvertLetter(cipherkey)];
  }

  /** The key 'B' on "HELLOWORLD". */
  lemma VectorHelloWorld()
    ensures EncryptCaesarAlpha('B', "HELLO" + "WORLD") == Ok("IFMMP" + "XPSME")
  {
    FormulaVector("B", "HELLO" + "WORLD", "IFMMP" + "XPSME");
  }

  /** A bad key is blamed even when the text is bad too. */
  lemma KeyBlamedFirst()
    ensures EncryptCaesarAlpha('a', "x") == Err(NonAlphaCharacter(Key, "61"))
  {
    assert PrintCharHex('a') == "61";
  }
}
