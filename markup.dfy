/** `detag`: the text of an HTTP error message with its markup removed. The
    message is the string form of the exception (`str(html)`). */
module Markup {
  import opened Text

  /** The scanner's state: the text kept so far and whether it is inside a tag. */
  datatype Scanner = Scanner(text: string, intag: bool)

  /** The state after the first `n` characters: '<' enters a tag, '>' leaves it,
      any other character outside a tag is kept, a newline as a space. */
  function ScanUpTo(html: string, n: nat): Scanner
    requires n <= |html|
    decreases n
  {
    if n == 0 then Scanner("", false)
    else
      var st := ScanUpTo(html, n - 1);
      var c := html[n - 1];
      if c == '<' then Scanner(st.text, true)
      else if c == '>' then Scanner(st.text, false)
      else if !st.intag then Scanner(st.text + [if c == '\n' then ' ' else c], false)
      else st
  }

  /** The characters `detag` keeps, before the final `strip()`. */
  function Visible(html: string): string {
    ScanUpTo(html, |html|).text
  }

  /** What `detag` returns. */
  function DetagText(html: string): string {
    Strip(Visible(html))
  }

  /** `detag` on the message `html`: one pass with the `intag` flag, then `strip()`. */
  method Detag(html: string) returns (r: string)
    ensures r == DetagText(html)
  {
    var s := "";
    var intag := false;
    var i := 0;
    while i < |html|
      invariant 0 <= i <= |html|
      invariant Scanner(s, intag) == ScanUpTo(html, i)
    {
      var c := html[i];
      if c == '<' {
        intag := true;
      } else if c == '>' {
        intag := false;
      } else if !intag {
        if c == '\n' {
          c := ' ';
        }
        s := s + [c];
      }
      i := i + 1;
    }
    r := Strip(s);
  }

  // ---------------------------------------------------------------- properties

  /** No angle bracket and no newline. */
  predicate Plain(s: string) {
    forall k :: 0 <= k < |s| ==> s[k] != '<' && s[k] != '>' && s[k] != '\n'
  }

  lemma {:induction false} ScanPlain(html: string, n: nat)
    requires n <= |html|
    ensures Plain(ScanUpTo(html, n).text)
    decreases n
  {
    if n > 0 {
      ScanPlain(html, n - 1);
    }
  }

  /** The result holds no markup character and no newline, and has no whitespace
      at either end. */
  lemma DetagClean(html: string)
    ensures Plain(DetagText(html)) && Trimmed(DetagText(html))
  {
    var v := Visible(html);
    ScanPlain(html, |html|);
    StripSpec(v);
    var i, j :| 0 <= i <= j <= |v| && Strip(v) == v[i..j] && AllSpace(v[..i]) && AllSpace(v[j..]);
    assert forall k :: 0 <= k < j - i ==> Strip(v)[k] == v[i + k];
  }

  /** Text without markup or newlines passes the scan unchanged. */
  lemma {:induction false} ScanOfPlain(s: string, n: nat)
    requires n <= |s| && Plain(s)
    ensures ScanUpTo(s, n) == Scanner(s[..n], false)
    decreases n
  {
    if n > 0 {
      ScanOfPlain(s, n - 1);
      assert s[..n] == s[..n - 1] + [s[n - 1]];
    }
  }

  /** A trimmed text without markup or newlines is returned as it is. */
  lemma DetagPlain(s: string)
    requires Plain(s) && Trimmed(s)
    ensures DetagText(s) == s
  {
    ScanOfPlain(s, |s|);
    assert s[..|s|] == s;
    StripTrimmed(s);
  }

  /** Removing markup a second time changes nothing. */
  lemma DetagIdempotent(html: string)
    ensures DetagText(DetagText(html)) == DetagText(html)
  {
    DetagClean(html);
    DetagPlain(DetagText(html));
  }
}
