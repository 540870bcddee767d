/** `authenticate`: the bearer-token guard in front of every protected
    route. Token verification is a parameter: the model knows of it only
    that it either yields a payload or fails. */
module AuthMiddleware {
  import opened Values
  import opened Strings
  import opened Http

  const Scheme: string := "Bearer "

  /** The check `!header || !header.startsWith("Bearer ")` lets through. */
  predicate HasBearer(header: Option<string>) {
    header.Some? && header.value != "" && StartsWith(header.value, Scheme)
  }

  /** `header.split(" ")[1]`: the text after `"Bearer "` up to the next
      space or the end, possibly empty. */
  function BearerToken(header: string): (token: string)
    requires StartsWith(header, Scheme)
    ensures ' ' !in token
    ensures StartsWith(header[|Scheme|..], token)
    ensures |Scheme| + |token| == |header| || header[|Scheme| + |token|] == ' '
  {
    var rest := header[|Scheme|..];
    assert header == "Bearer" + [' '] + rest;
    SplitAfterWord("Bearer", ' ', rest);
    SplitFirstPiece(rest, ' ');
    Split(header, ' ')[1]
  }

  /** A header built from a space-free token gives that token back. */
  lemma BearerRoundTrip(token: string)
    requires ' ' !in token
    ensures StartsWith(Scheme + token, Scheme)
    ensures BearerToken(Scheme + token) == token
  {
    var header := Scheme + token;
    assert header[..|Scheme|] == Scheme;
    assert header[|Scheme|..] == token;
  }

  /** `authenticate` */
  method Authenticate(req: Request, secret: string, verify: (string, string) -> Option<Claims>) returns (o: Outcome)
    modifies req`user
    ensures !HasBearer(req.authorization) ==> o == Reply(401, "Token missing") && req.user == old(req.user)
    ensures HasBearer(req.authorization) && verify(BearerToken(req.authorization.value), secret).None? ==>
      o == Reply(401, "Invalid token") && req.user == old(req.user)
    ensures HasBearer(req.authorization) && verify(BearerToken(req.authorization.value), secret).Some? ==>
      o == Next && req.user == verify(BearerToken(req.authorization.value), secret)
    ensures o == Next ==> req.user.Some?
  {
    var header := req.authorization;
    if header.None? || header.value == "" || !StartsWith(header.value, Scheme) {
      return Reply(401, "Token missing");
    }
    var token := BearerToken(header.value);
    var payload := verify(token, secret);
    if payload.None? {
      return Reply(401, "Invalid token");
    }
    req.user := payload;
    o := Next;
  }
}
