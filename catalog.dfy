/** `error2text`: the texts of the return codes of the PDU's `setAccountPassword`. */
module ErrorCatalog {
  import opened Text

  /** The texts of codes 1 to 17, in code order. */
  const KnownTexts: seq<string> := [
    "Password Unchanged",
    "Password Empty",
    "Password Too Short",
    "Password Too Long",
    "Password Ctrl Chars",
    "Password Need Lower",
    "Password Need Upper",
    "Password Need Numeric",
    "Password Need Special",
    "Password In History",
    "Password Too Short For SNMP",
    "Invalid Argument",
    "Wrong Password",
    "Ssh Pubkey Data Too Large",
    "Ssh Pubkey Invalid",
    "Ssh Pubkey Not Supported",
    "Ssh RSA Pubkey Too Short"
  ]

  const UnknownPrefix: string := "Unknown error code (rc="

  /** `error2text(code)`. */
  function ErrorText(code: int): (text: string)
    ensures 1 <= code <= 17 ==> text == KnownTexts[code - 1]
    ensures !(1 <= code <= 17) ==> text == UnknownPrefix + IntToDecimal(code) + ")"
  {
    if 1 <= code <= |KnownTexts| then KnownTexts[code - 1] else UnknownPrefix + IntToDecimal(code) + ")"
  }

  /** The seventeen texts are pairwise different. */
  lemma KnownTextsDistinct()
    ensures |KnownTexts| == 17
    ensures forall i, j :: 0 <= i < j < |KnownTexts| ==> KnownTexts[i] != KnownTexts[j]
  {
  }

  /** None of the seventeen texts starts like the fallback. */
  lemma KnownTextsAreNotFallbacks()
    ensures forall i :: 0 <= i < |KnownTexts| ==> |KnownTexts[i]| > 0 && KnownTexts[i][0] != UnknownPrefix[0]
  {
  }

  /** Different codes get different texts: the text names the code. */
  lemma ErrorTextInjective(a: int, b: int)
    requires ErrorText(a) == ErrorText(b)
    ensures a == b
  {
    KnownTextsDistinct();
    KnownTextsAreNotFallbacks();
    if !(1 <= a <= 17) && !(1 <= b <= 17) {
      var n := |UnknownPrefix|;
      assert ErrorText(a)[n..|ErrorText(a)| - 1] == IntToDecimal(a);
      assert ErrorText(b)[n..|ErrorText(b)| - 1] == IntToDecimal(b);
      IntToDecimalInjective(a, b);
    }
  }
}
