/**
  The OAuth 2.0 authorization request with PKCE (RFC 7636), code challenge
  method S256 (section 4.2 of RFC 7636).

  The collaborators are parameters:
  - `randomHex(n)` is the secure random string generator asked for `n`
    random bytes; the two calls below ask for different byte counts and
    stand for two separate draws;
  - `sha256` is the SHA-256 digest, which always has 32 bytes;
  - `authCodeURL(state, params)` is the provider configuration's URL
    builder, given the state and the extra query parameters in order.
*/
module OAuth2 {
  import opened Wrappers
  import opened Bytes
  import Base64Url

  /** A SHA-256 digest. */
  type Digest = d: seq<Byte> | |d| == 32 witness seq(32, _ => 0)

  /** An extra query parameter of the authorization URL. */
  datatype Param = Param(key: string, value: string)

  /** The byte count asked of the generator for the code verifier. */
  const VerifierByteCount: nat := 32

  /** The byte count asked of the generator for the state. */
  const StateByteCount: nat := 24

  /** The outcome of one authorization attempt; it is never updated. */
  datatype Authorization = Authorization(url: string, state: string, codeVerifier: string)
  {
    /** The URL the user agent is sent to. */
    function RedirectURL(): string { url }

    /** The anti-forgery token given to the provider. */
    function State(): string { state }

    /** The PKCE secret kept back for the token exchange. */
    function CodeVerifier(): string { codeVerifier }
  }

  /**
    The S256 code challenge of a verifier: the unpadded base64url encoding
    of the SHA-256 digest of the verifier's bytes.
  */
  function CodeChallenge(verifier: string, sha256: seq<Byte> -> Digest): (challenge: string)
    ensures |challenge| == 43
    ensures forall i :: 0 <= i < |challenge| ==>
              Base64Url.IsUrlSafe(challenge[i]) && challenge[i] != '='
    ensures Base64Url.Decode(challenge) == Some(sha256(Utf8Encode(verifier)))
  {
    var digest := sha256(Utf8Encode(verifier));
    Base64Url.DecodeEncode(digest);
    Base64Url.Encode(digest)
  }

  /** The extra parameters of the authorization URL for a challenge. */
  function ChallengeParams(challenge: string): (params: seq<Param>)
    ensures |params| == 2
    ensures forall i :: 0 <= i < |params| ==> (params[i].key == "code_challenge_method" <==> i == 0)
    ensures forall i :: 0 <= i < |params| ==> (params[i].key == "code_challenge" <==> i == 1)
    ensures params[0].value == "S256" && params[1].value == challenge
  {
    [Param("code_challenge_method", "S256"), Param("code_challenge", challenge)]
  }

  /**
    Draws a code verifier (32 random bytes) and a state (24 random bytes),
    and builds the provider's authorization URL with that state and the
    S256 challenge of the verifier.
  */
  function GenerateAuthorization(authCodeURL: (string, seq<Param>) -> string,
                                 randomHex: nat -> string,
                                 sha256: seq<Byte> -> Digest): (a: Authorization)
    ensures a.CodeVerifier() == randomHex(VerifierByteCount)
    ensures a.State() == randomHex(StateByteCount)
    ensures a.RedirectURL() ==
              authCodeURL(a.State(), ChallengeParams(CodeChallenge(a.CodeVerifier(), sha256)))
  {
    var codeVerifier := randomHex(VerifierByteCount);
    var sum := sha256(Utf8Encode(codeVerifier));
    var state := randomHex(StateByteCount);
    var authUrl := authCodeURL(state, [
      Param("code_challenge_method", "S256"),
      Param("code_challenge", Base64Url.Encode(sum))
    ]);
    Authorization(authUrl, state, codeVerifier)
  }

  /** The accessors give back exactly the values the record was built with. */
  lemma AccessorsReturnStoredValues(url: string, state: string, verifier: string)
    ensures Authorization(url, state, verifier).RedirectURL() == url
    ensures Authorization(url, state, verifier).State() == state
    ensures Authorization(url, state, verifier).CodeVerifier() == verifier
  {
  }

  /**
    The code verifier reaches the URL only through its digest: two runs
    whose state is the same and whose verifiers have the same digest build
    the same URL, whatever the verifiers themselves are.
  */
  lemma URLDependsOnVerifierOnlyThroughDigest(authCodeURL: (string, seq<Param>) -> string,
                                              rand1: nat -> string, rand2: nat -> string,
                                              sha256: seq<Byte> -> Digest)
    requires rand1(StateByteCount) == rand2(StateByteCount)
    requires sha256(Utf8Encode(rand1(VerifierByteCount))) == sha256(Utf8Encode(rand2(VerifierByteCount)))
    ensures GenerateAuthorization(authCodeURL, rand1, sha256).RedirectURL() ==
            GenerateAuthorization(authCodeURL, rand2, sha256).RedirectURL()
  {
  }
}
