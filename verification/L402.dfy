/** The L402 authorization header and its check (src/l402.rs). */
module L402 {
  import opened Wrappers
  import opened Words
  import opened Tokens
  import Base64
  import Hex

  datatype AuthError =
    | NoScheme | NoSeparator | BadPreimageHex | BadPreimageLength(length: nat)
    | BadToken(error: TokenError) | PreimageMismatch

  datatype Credentials = Credentials(tokenText: string, preimage: Bytes)

  const PREFIX := "L402 "

  /** Splits at the first `separator`. */
  function SplitOnce(s: string, separator: char): Option<(string, string)> {
    if s == [] then None
    else if s[0] == separator then Some(([], s[1..]))
    else
      match SplitOnce(s[1..], separator)
      case None => None
      case Some(parts) => Some(([s[0]] + parts.0, parts.1))
  }

  function ParseAuthorization(header: string): Result<Credentials, AuthError> {
    if !(PREFIX <= header) then Err(NoScheme)
    else
      match SplitOnce(header[|PREFIX|..], ':')
      case None => Err(NoSeparator)
      case Some((tokenPart, preimagePart)) =>
        match Hex.Decode(preimagePart)
        case None => Err(BadPreimageHex)
        case Some(preimage) =>
          if |preimage| != 32 then Err(BadPreimageLength(|preimage|))
          else Ok(Credentials(tokenPart, preimage))
  }

  function VerifyL402(sha256: Bytes -> Hash32, hmac: Mac, rootKey: Hash32, tokenText: string, preimage: Bytes)
    : Result<(), AuthError>
  {
    match Parsed(tokenText)
    case Err(e) => Err(BadToken(e))
    case Ok(token) =>
      if !Authentic(hmac, rootKey, token) then Err(BadToken(WrongSignature))
      else if sha256(preimage) != token.paymentHash then Err(PreimageMismatch)
      else Ok(())
  }

  lemma {:induction false} SplitMeaning(s: string, separator: char, left: string, right: string)
    ensures SplitOnce(s, separator) == Some((left, right)) <==>
            separator !in left && s == left + [separator] + right
  {
    if s != [] && s[0] != separator {
      if left == [] {
        assert ([] + [separator] + right)[0] == separator;
      } else {
        SplitMeaning(s[1..], separator, left[1..], right);
        assert left == [left[0]] + left[1..] && s == [s[0]] + s[1..];
        assert left + [separator] + right == [left[0]] + (left[1..] + [separator] + right);
      }
    } else if s != [] {
      assert left + [separator] + right == s ==> separator !in left ==> left == [] by {
        if left != [] {
          assert (left + [separator] + right)[0] == left[0];
        }
      }
      assert [] + [separator] + s[1..] == s;
      assert ([] + [separator] + right)[1..] == right;
    }
  }

  /** A header parses exactly when it is scheme, token without a colon, colon, 32 bytes in hex. */
  lemma ParsesExactly(header: string, c: Credentials)
    ensures ParseAuthorization(header) == Ok(c) <==>
            && |c.preimage| == 32 && ':' !in c.tokenText
            && exists hex: string ::
                 header == "L402 " + c.tokenText + [':'] + hex && Hex.Decode(hex) == Some(c.preimage)
  {
    if PREFIX <= header {
      var rest := header[|PREFIX|..];
      assert header == PREFIX + rest;
      forall hex: string
        ensures header == PREFIX + c.tokenText + [':'] + hex <==> rest == c.tokenText + [':'] + hex
        ensures SplitOnce(rest, ':') == Some((c.tokenText, hex)) <==>
                ':' !in c.tokenText && rest == c.tokenText + [':'] + hex
      {
        SplitMeaning(rest, ':', c.tokenText, hex);
        assert PREFIX + c.tokenText + [':'] + hex == PREFIX + (c.tokenText + [':'] + hex);
      }
      if ParseAuthorization(header) == Ok(c) {
        var parts := SplitOnce(rest, ':').value;
        assert header == PREFIX + c.tokenText + [':'] + parts.1;
      }
    } else {
      forall hex: string
        ensures header != PREFIX + c.tokenText + [':'] + hex
      {
        assert PREFIX <= PREFIX + (c.tokenText + [':'] + hex);
        assert PREFIX + c.tokenText + [':'] + hex == PREFIX + (c.tokenText + [':'] + hex);
      }
    }
  }

  /** A preimage is accepted with exactly one token text: the one minted for its hash. */
  lemma AcceptsExactlyMinted(sha256: Bytes -> Hash32, hmac: Mac, rootKey: Hash32, tokenText: string, preimage: Bytes)
    ensures VerifyL402(sha256, hmac, rootKey, tokenText, preimage).Ok? <==>
            tokenText == Base64.Encode(sha256(preimage) + hmac(rootKey, sha256(preimage)))
  {
    var minted := Mint(hmac, rootKey, sha256(preimage));
    WireFormBijection(tokenText, minted);
    if VerifyL402(sha256, hmac, rootKey, tokenText, preimage).Ok? {
      assert Parsed(tokenText).value == minted;
    }
  }

  /** Why a header without the scheme or without a colon does not parse. */
  lemma ParseErrors(header: string)
    ensures ParseAuthorization(header) == Err(NoScheme) <==> !("L402 " <= header)
    ensures ParseAuthorization(header) == Err(NoSeparator) <==> "L402 " <= header && ':' !in header[5..]
  {
    if PREFIX <= header {
      SplitNone(header[5..], ':');
    }
  }

  /** Any other header is decided by what stands after its first colon. */
  lemma PartsDecide(header: string, token: string, hex: string)
    requires ':' !in token && header == "L402 " + token + [':'] + hex
    ensures ParseAuthorization(header) ==
            match Hex.Decode(hex)
            case None => Err(BadPreimageHex)
            case Some(preimage) =>
              if |preimage| == 32 then Ok(Credentials(token, preimage)) else Err(BadPreimageLength(|preimage|))
  {
    SplitMeaning(header[5..], ':', token, hex);
    assert header == PREFIX + (token + [':'] + hex);
  }

  lemma {:induction false} SplitNone(s: string, separator: char)
    ensures SplitOnce(s, separator).None? <==> separator !in s
  {
    if s != [] {
      SplitNone(s[1..], separator);
      assert s == [s[0]] + s[1..];
    }
  }

  /** Why a well-formed token is refused. */
  lemma RefusedToken(sha256: Bytes -> Hash32, hmac: Mac, rootKey: Hash32, hash: Hash32, signature: Hash32,
                     preimage: Bytes)
    ensures var r := VerifyL402(sha256, hmac, rootKey, Base64.Encode(hash + signature), preimage);
            && (r == Err(BadToken(WrongSignature)) <==> signature != hmac(rootKey, hash))
            && (r == Err(PreimageMismatch) <==> signature == hmac(rootKey, hash) && sha256(preimage) != hash)
  {
    WireFormBijection(Base64.Encode(hash + signature), Token(hash, signature));
  }

  /** What a client sends for a token and the preimage it paid for. */
  function Authorization(token: Token, preimage: Bytes): string {
    PREFIX + WireForm(token) + [':'] + Hex.Encode(preimage)
  }

  /** Any hex form of the preimage will do. */
  lemma MintedHeader(header: string, token: Token, preimage: Hash32, hex: string)
    requires Hex.Decode(hex) == Some(preimage) && header == PREFIX + WireForm(token) + [':'] + hex
    ensures ParseAuthorization(header) == Ok(Credentials(WireForm(token), preimage))
  {
    Base64.NoColon(token.paymentHash + token.signature);
    ParsesExactly(header, Credentials(WireForm(token), preimage));
  }

  /** The header built from a minted token and its preimage parses to its parts and is accepted. */
  lemma RoundTrip(sha256: Bytes -> Hash32, hmac: Mac, rootKey: Hash32, preimage: Hash32)
    ensures var token := Mint(hmac, rootKey, sha256(preimage));
            && ParseAuthorization(Authorization(token, preimage)) == Ok(Credentials(WireForm(token), preimage))
            && VerifyL402(sha256, hmac, rootKey, WireForm(token), preimage) == Ok(())
  {
    var token := Mint(hmac, rootKey, sha256(preimage));
    Hex.DecodeEncode(preimage);
    MintedHeader(Authorization(token, preimage), token, preimage, Hex.Encode(preimage));
    AcceptsExactlyMinted(sha256, hmac, rootKey, WireForm(token), preimage);
  }
}
