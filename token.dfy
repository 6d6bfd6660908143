/** The bearer token: the fixed prefix followed by the account id, with no signature. */
module Token {
  import opened Wrappers
  import JsString
  import JsNumber

  const Prefix: string := "mock-jwt-token-"

  /** The token `login` mints for an account id, `mock-jwt-token-${id}`. */
  function Mint(id: int): (token: string)
    ensures |token| > |Prefix| && token[..|Prefix|] == Prefix
  {
    Prefix + JsNumber.NumberToString(id)
  }

  /** The id `getProfile` reads from a token, `parseInt(token.replace(Prefix, ''))`; `None` is NaN. */
  function Parse(token: string): Option<int> {
    JsNumber.ParseInt(JsString.RemoveFirst(token, Prefix))
  }

  /** Whatever follows the prefix at the start of a token is what `parseInt` reads. */
  lemma ParseAfterPrefix(rest: string)
    ensures Parse(Prefix + rest) == JsNumber.ParseInt(rest)
  {
    JsString.RemoveFirstOfPrefixed(Prefix, rest);
  }

  /** Every minted token decodes to the id it was minted for. */
  lemma ParseMint(id: int)
    ensures Parse(Mint(id)) == Some(id)
  {
    var n := JsNumber.NumberToString(id);
    ParseAfterPrefix(n);
    JsNumber.ParseIntNumberToString(id, []);
    assert n + [] == n;
  }

  /** Distinct ids never share a token. */
  lemma MintInjective(a: int, b: int)
    ensures Mint(a) == Mint(b) ==> a == b
  {
    ParseMint(a);
    ParseMint(b);
  }

  /** Text after the id is ignored, as long as it does not start with a digit. */
  lemma TrailingTextIgnored(id: int, rest: string)
    requires rest == [] || JsNumber.DigitValue(rest[0]) >= 10
    requires id == 0 ==> rest == [] || (rest[0] != 'x' && rest[0] != 'X')
    ensures Parse(Mint(id) + rest) == Some(id)
  {
    ParseMintThen(id, rest);
    JsNumber.ParseIntNumberToString(id, rest);
  }

  lemma ParseMintThen(id: int, rest: string)
    ensures Parse(Mint(id) + rest) == JsNumber.ParseInt(JsNumber.NumberToString(id) + rest)
  {
    var n := JsNumber.NumberToString(id);
    assert Mint(id) + rest == Prefix + (n + rest);
    ParseAfterPrefix(n + rest);
  }

  /** Whitespace between the prefix and the id is skipped. */
  lemma LeadingWhitespaceAccepted(w: string, id: int)
    requires forall i :: 0 <= i < |w| ==> JsNumber.IsStrWhiteSpaceChar(w[i])
    ensures Parse(Prefix + w + JsNumber.NumberToString(id)) == Some(id)
  {
    var n := JsNumber.NumberToString(id);
    calc {
      Parse(Prefix + w + n);
      == { assert Prefix + w + n == Prefix + (w + n); ParseAfterPrefix(w + n); }
      JsNumber.ParseInt(w + n);
      == { JsNumber.ParseIntSkipsWhitespace(w, n); }
      JsNumber.ParseInt(n);
      == { ParseMint(id); ParseAfterPrefix(n); }
      Some(id);
    }
  }

  /** A hexadecimal numeral after the prefix is read in radix 16: `mock-jwt-token-0xA` names id 10. */
  lemma HexadecimalAccepted(c: char)
    requires JsNumber.DigitValue(c) < 16
    ensures Parse(Prefix + ['0', 'x', c]) == Some(JsNumber.DigitValue(c))
  {
    ParseAfterPrefix(['0', 'x', c]);
    JsNumber.ParseIntHexDigit(c);
  }

  /** The prefix is removed wherever it first occurs, not only at the start, and a character
      before it survives: `5mock-jwt-token-` reads as 5 and `xmock-jwt-token-5` as NaN. */
  lemma TextBeforePrefixKept(c: char, rest: string)
    requires c != Prefix[0]
    ensures Parse([c] + Prefix + rest) == JsNumber.ParseInt([c] + rest)
  {
    JsString.RemoveFirstAfterChar(c, Prefix, rest);
  }

  lemma DigitBeforePrefix(c: char)
    requires '0' <= c <= '9'
    ensures Parse([c] + Prefix) == Some(JsNumber.DigitValue(c))
  {
    TextBeforePrefixKept(c, []);
    assert [c] + Prefix + [] == [c] + Prefix;
    assert [c] + [] == [c];
    JsNumber.ParseIntDigit(c);
  }

  lemma LetterBeforePrefix(c: char, rest: string)
    requires 'a' <= c <= 'z' && c != 'm'
    ensures Parse([c] + Prefix + rest) == None
  {
    assert Prefix[0] == 'm';
    TextBeforePrefixKept(c, rest);
    JsNumber.ParseIntLetter(c, rest);
  }

  /** A token need not carry the prefix at all: with no occurrence to remove, a bare digit is
      read as an id. */
  lemma PrefixNotRequired(c: char)
    requires '0' <= c <= '9'
    ensures Parse([c]) == Some(JsNumber.DigitValue(c))
  {
    assert forall k: nat :: !JsString.MatchesAt([c], Prefix, k);
    JsNumber.ParseIntDigit(c);
  }
}
