/** L402 tokens and their wire form (src/token.rs). */
module Tokens {
  import opened Wrappers
  import opened Words
  import Base64

  type Mac = (Hash32, Hash32) -> Hash32

  datatype Token = Token(paymentHash: Hash32, signature: Hash32)

  datatype TokenError = NotBase64 | WrongLength(length: nat) | WrongSignature

  function Mint(hmac: Mac, rootKey: Hash32, paymentHash: Hash32): Token {
    Token(paymentHash, hmac(rootKey, paymentHash))
  }

  predicate Authentic(hmac: Mac, rootKey: Hash32, token: Token) {
    hmac(rootKey, token.paymentHash) == token.signature
  }

  function WireForm(token: Token): string {
    Base64.Encode(token.paymentHash + token.signature)
  }

  method Serialize(token: Token) returns (text: string)
    ensures text == WireForm(token)
  {
    var buf := new byte[64];
    forall i | 0 <= i < 32 {
      buf[i] := token.paymentHash[i];
    }
    forall i | 0 <= i < 32 {
      buf[32 + i] := token.signature[i];
    }
    assert buf[..] == token.paymentHash + token.signature;
    text := Base64.Encode(buf[..]);
  }

  function Parsed(text: string): Result<Token, TokenError> {
    match Base64.Decode(text)
    case None => Err(NotBase64)
    case Some(data) =>
      if |data| != 64 then Err(WrongLength(|data|))
      else Ok(Token(data[..32], data[32..]))
  }

  method Deserialize(text: string) returns (r: Result<Token, TokenError>)
    ensures r == Parsed(text)
  {
    var decoded := Base64.Decode(text);
    if decoded.None? {
      return Err(NotBase64);
    }
    var data := decoded.value;
    if |data| != 64 {
      return Err(WrongLength(|data|));
    }
    var paymentHash := new byte[32];
    forall i | 0 <= i < 32 {
      paymentHash[i] := data[i];
    }
    var signature := new byte[32];
    forall i | 0 <= i < 32 {
      signature[i] := data[32 + i];
    }
    assert paymentHash[..] == data[..32] && signature[..] == data[32..];
    return Ok(Token(paymentHash[..], signature[..]));
  }

  /** Why a text is refused: it is no canonical base64, or not that of 64 bytes. */
  lemma ParseErrors(text: string, n: nat)
    ensures Parsed(text) == Err(NotBase64) <==> forall data :: text != Base64.Encode(data)
    ensures Parsed(text) == Err(WrongLength(n)) <==>
            n != 64 && exists data :: |data| == n && text == Base64.Encode(data)
  {
    forall data
      ensures Base64.Decode(text) == Some(data) <==> text == Base64.Encode(data)
    {
      Base64.DecodesIffEncoded(text, data);
    }
    if Base64.Decode(text).Some? {
      assert text == Base64.Encode(Base64.Decode(text).value);
    }
  }

  /** The wire form is a bijection: a text parses to a token exactly when it is that token's wire form. */
  lemma WireFormBijection(text: string, token: Token)
    ensures Parsed(text) == Ok(token) <==> text == WireForm(token)
  {
    var data := token.paymentHash + token.signature;
    Base64.DecodesIffEncoded(text, data);
    assert data[..32] == token.paymentHash && data[32..] == token.signature;
    if Parsed(text) == Ok(token) {
      assert Base64.Decode(text).value == data;
    }
  }
}
