/** Letter case of ASCII text. */
module Ascii {
  function LowerChar(c: char): char {
    if 'A' <= c <= 'Z' then (c as int + 32) as char else c
  }

  function Lower(s: string): (lower: string)
    ensures |lower| == |s| && forall i :: 0 <= i < |s| ==> lower[i] == LowerChar(s[i])
  {
    seq(|s|, i requires 0 <= i < |s| => LowerChar(s[i]))
  }

  const UPPER_LETTERS := "ABCDEFGHIJKLMNOPQRSTUVWXYZ"
  const LOWER_LETTERS := "abcdefghijklmnopqrstuvwxyz"

  /** Letters change as in the two alphabets, and nothing else does. */
  lemma LowerMeaning(s: string, i: nat, k: nat)
    requires i < |s|
    ensures k < 26 && s[i] == UPPER_LETTERS[k] ==> Lower(s)[i] == LOWER_LETTERS[k]
    ensures s[i] !in UPPER_LETTERS ==> Lower(s)[i] == s[i]
  {
    assert |UPPER_LETTERS| == 26 && |LOWER_LETTERS| == 26;
    if 'A' <= s[i] <= 'Z' {
      assert UPPER_LETTERS[s[i] as int - 'A' as int] == s[i];
    }
    LetterAt(k);
  }

  lemma LetterAt(k: nat)
    ensures k < 26 ==> UPPER_LETTERS[k] as int == 'A' as int + k && LOWER_LETTERS[k] as int == 'a' as int + k
  {
  }
}
