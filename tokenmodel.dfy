/** Bearer tokens: issuing one for a user and resolving a bearer value to the user
    the token row names. */
module TokenModel {
  import opened Common
  import opened Entities
  import opened Store
  import Base64

  /** The number of random bytes behind a token. */
  const TokenBytes: nat := 16

  /** `Token.generate(for:)`: the base64 text of the random bytes, bound to the
      user's id; a user without an id (`requireID`) fails the request with 500. */
  function Generate(user: User, random: seq<byte>): (r: Outcome<Token>)
    ensures r.Done? <==> user.id.Some?
    ensures r.Done? ==> r.value.userID == user.id.value && r.value.token == Base64.Encode(random)
    ensures r.Fail? ==> r.failure == Abort(StatusInternalServerError)
  {
    match user.id
    case None => Fail(Abort(StatusInternalServerError))
    case Some(id) => Done(Token(Base64.Encode(random), id))
  }

  /** Sixteen random bytes give a 24-character token ending in "==". */
  lemma GeneratedTokenShape(user: User, random: seq<byte>)
    requires user.id.Some? && |random| == TokenBytes
    ensures |Generate(user, random).value.token| == 24
    ensures Generate(user, random).value.token[22..] == "=="
  {
    Base64.SixteenByteText(random);
  }

  /** Different random bytes never give the same token text. */
  lemma DistinctRandomDistinctTokens(u: User, v: User, a: seq<byte>, b: seq<byte>)
    requires u.id.Some? && v.id.Some? && a != b
    ensures Generate(u, a).value.token != Generate(v, b).value.token
  {
    if Base64.Encode(a) == Base64.Encode(b) {
      Base64.EncodeInjective(a, b);
    }
  }

  /** The first token row whose `token` column (the bearer `tokenKey`) is `bearer`. */
  function FindToken(tokens: seq<Token>, bearer: string): (r: Option<nat>)
    ensures r.Some? ==> r.value < |tokens| && tokens[r.value].token == bearer
    ensures r.Some? ==> forall j :: 0 <= j < r.value ==> tokens[j].token != bearer
    ensures r.None? <==> forall k :: 0 <= k < |tokens| ==> tokens[k].token != bearer
  {
    FirstMatch(tokens, (t: Token) => t.token == bearer)
  }

  /** Bearer authentication: the first token row with that value, then the user its
      `userID` (the `userIDKey`) names. */
  function BearerAuthenticate(tokens: seq<Token>, users: seq<User>, bearer: string): (r: Option<User>)
    ensures r.Some? ==> exists k :: 0 <= k < |tokens| && tokens[k].token == bearer && r.value.id == Some(tokens[k].userID)
                                 && (forall j :: 0 <= j < k ==> tokens[j].token != bearer)
    ensures r.Some? ==> r.value in users
    ensures UsersIndexed(users) && TokensReferenceUsers(tokens, users) ==>
      (r.Some? <==> exists k :: 0 <= k < |tokens| && tokens[k].token == bearer)
  {
    match FindToken(tokens, bearer)
    case None => None
    case Some(k) =>
      match FindUserById(users, tokens[k].userID)
      case None => None
      case Some(i) => Some(users[i])
  }

  /** A token saved for a user, with a value no earlier token has, authenticates
      as exactly that user. */
  lemma IssuedTokenAuthenticates(tokens: seq<Token>, users: seq<User>, t: Token)
    requires UsersIndexed(users) && t.userID < |users|
    requires forall k :: 0 <= k < |tokens| ==> tokens[k].token != t.token
    ensures BearerAuthenticate(tokens + [t], users, t.token) == Some(users[t.userID])
  {
    var ts := tokens + [t];
    assert forall k :: 0 <= k < |tokens| ==> ts[k] == tokens[k];
    assert ts[|tokens|] == t;
    var found := FindToken(ts, t.token);
    assert found.Some?;
    assert found.value == |tokens|;
  }
}
