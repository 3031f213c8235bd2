/** Python's `str.upper`, restricted to the ASCII letters. */
module Text {
  import opened Cards

  function UpperChar(c: char): char {
    if 'a' <= c <= 'z' then (c as int - 32) as char else c
  }

  /** Upper-case every ASCII letter of `s`, leaving every other character alone. */
  function Upper(s: string): (u: string)
    ensures |u| == |s|
    ensures forall k :: 0 <= k < |s| ==> u[k] == UpperChar(s[k])
  {
    seq(|s|, k requires 0 <= k < |s| => UpperChar(s[k]))
  }

  /** Upper-casing twice is upper-casing once. */
  lemma UpperIdempotent(s: string)
    ensures Upper(Upper(s)) == Upper(s)
  {
    assert forall k :: 0 <= k < |s| ==> Upper(Upper(s))[k] == Upper(s)[k];
  }

  /** Only the revealed-card token itself upper-cases to the token, so a query
      that passes the token check can never match a revealed cell. */
  lemma UpperOfTokenOnlyFromToken(s: string)
    ensures Upper(s) == RevealedCardToken ==> s == RevealedCardToken
  {
    if Upper(s) == RevealedCardToken {
      forall k | 0 <= k < |s| ensures s[k] == RevealedCardToken[k] {
        assert UpperChar(s[k]) == '#';
      }
    }
  }
}
