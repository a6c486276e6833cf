/** Which texts are accepted as a delegation token. */
module DelegationTokens {
  import opened Text
  import opened Approvals

  const API_SCHEME := "jhv"

  /** A token as it is handed out: scheme, public prefix and secret joined by dots. */
  function Token(scheme: string, prefix: string, secret: string): string {
    Join([scheme, prefix, secret], '.')
  }

  /** A text is accepted, as this prefix and secret, exactly when it is the token made of them. */
  lemma AcceptedExactlyWhen(text: string, prefix: string, secret: string)
    ensures SplitToken(text) == Some((prefix, secret)) <==>
            && text == Token(DELEGATION_SCHEME, prefix, secret)
            && prefix != "" && secret != "" && '.' !in prefix && '.' !in secret
  {
    var parts := [DELEGATION_SCHEME, prefix, secret];
    if text == Token(DELEGATION_SCHEME, prefix, secret) && '.' !in prefix && '.' !in secret {
      SplitOfJoin(parts, '.');
    }
    if SplitToken(text) == Some((prefix, secret)) {
      JoinOfSplit(text, '.');
      var split := Split(text, '.');
      assert split == parts;
      assert '.' !in split[1] && '.' !in split[2];
    }
  }

  /** An access token of the API is never taken for a delegation, whatever its parts are. */
  lemma ApiTokenIsRefused(prefix: string, secret: string)
    ensures SplitToken(Token(API_SCHEME, prefix, secret)).None?
  {
    var tail := Join([prefix, secret], '.');
    SplitCut(API_SCHEME, tail, '.');
    SplitOfJoin([API_SCHEME], '.');
    assert [API_SCHEME, prefix, secret][1..] == [prefix, secret];
    assert Token(API_SCHEME, prefix, secret) == API_SCHEME + ['.'] + tail;
  }
}
