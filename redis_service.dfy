/** `RedisService` (security): the key-value store that keeps each member's
    refresh token under "TOKEN:" + login id and each pending e-mail
    verification code under "REGISTER:" + address. Expiry times are not part
    of this model; a stored entry stays until it is overwritten or deleted. */
module RedisService {
  import opened Common

  /** The store's contents: key to value. */
  type Store = map<string, string>

  const EmailPrefix := "REGISTER:"
  const TokenPrefix := "TOKEN:"

  function TokenKey(id: string): string { TokenPrefix + id }
  function EmailKey(email: string): string { EmailPrefix + email }

  /** The two namespaces never meet: a token key starts with 'T', an e-mail
      key with 'R'. */
  lemma KeysDisjoint(id: string, email: string)
    ensures TokenKey(id) != EmailKey(email)
  {
    assert TokenKey(id)[0] == 'T' && EmailKey(email)[0] == 'R';
  }

  /** Distinct logins get distinct token keys. */
  lemma TokenKeyInjective(a: string, b: string)
    ensures TokenKey(a) == TokenKey(b) ==> a == b
  {
    assert TokenKey(a)[|TokenPrefix|..] == a && TokenKey(b)[|TokenPrefix|..] == b;
  }

  /** Distinct addresses get distinct e-mail keys. */
  lemma EmailKeyInjective(a: string, b: string)
    ensures EmailKey(a) == EmailKey(b) ==> a == b
  {
    assert EmailKey(a)[|EmailPrefix|..] == a && EmailKey(b)[|EmailPrefix|..] == b;
  }

  /** `opsForValue().get(key)`: null when the key is absent. */
  function Get(kv: Store, key: string): (r: Option<string>)
    ensures r.Some? <==> key in kv
    ensures r.Some? ==> r.value == kv[key]
  {
    if key in kv then Some(kv[key]) else None
  }

  /** `getRefreshToken(id)`. */
  function TokenOf(kv: Store, id: string): Option<string> { Get(kv, TokenKey(id)) }

  /** `getEmailCode(email)`. */
  function EmailCodeOf(kv: Store, email: string): Option<string> { Get(kv, EmailKey(email)) }

  /** `saveRefreshToken(id, t)`: the token is then read back for `id`, and
      no other login's token and no e-mail code changes. */
  function WithToken(kv: Store, id: string, token: string): (r: Store)
    ensures TokenOf(r, id) == Some(token)
    ensures forall other :: other != id ==> TokenOf(r, other) == TokenOf(kv, other)
    ensures forall email :: EmailCodeOf(r, email) == EmailCodeOf(kv, email)
  {
    var r := kv[TokenKey(id) := token];
    forall other | other != id ensures TokenOf(r, other) == TokenOf(kv, other) {
      TokenKeyInjective(id, other);
    }
    forall email ensures EmailCodeOf(r, email) == EmailCodeOf(kv, email) {
      KeysDisjoint(id, email);
    }
    r
  }

  /** `deleteRefreshToken(id)`: `id` then has no token, and nothing else
      changes. */
  function WithoutToken(kv: Store, id: string): (r: Store)
    ensures TokenOf(r, id) == None
    ensures forall other :: other != id ==> TokenOf(r, other) == TokenOf(kv, other)
    ensures forall email :: EmailCodeOf(r, email) == EmailCodeOf(kv, email)
  {
    var r := kv - {TokenKey(id)};
    forall other | other != id ensures TokenOf(r, other) == TokenOf(kv, other) {
      TokenKeyInjective(id, other);
    }
    forall email ensures EmailCodeOf(r, email) == EmailCodeOf(kv, email) {
      KeysDisjoint(id, email);
    }
    r
  }

  /** `saveEmailCode(email, n)`: the code is then read back for `email`, and
      no other code and no token changes. */
  function WithEmailCode(kv: Store, email: string, code: string): (r: Store)
    ensures EmailCodeOf(r, email) == Some(code)
    ensures forall other :: other != email ==> EmailCodeOf(r, other) == EmailCodeOf(kv, other)
    ensures forall id :: TokenOf(r, id) == TokenOf(kv, id)
  {
    var r := kv[EmailKey(email) := code];
    forall other | other != email ensures EmailCodeOf(r, other) == EmailCodeOf(kv, other) {
      EmailKeyInjective(email, other);
    }
    forall id ensures TokenOf(r, id) == TokenOf(kv, id) {
      KeysDisjoint(id, email);
    }
    r
  }

  /** `deleteEmailCode(email)`: `email` then has no code, and nothing else
      changes. */
  function WithoutEmailCode(kv: Store, email: string): (r: Store)
    ensures EmailCodeOf(r, email) == None
    ensures forall other :: other != email ==> EmailCodeOf(r, other) == EmailCodeOf(kv, other)
    ensures forall id :: TokenOf(r, id) == TokenOf(kv, id)
  {
    var r := kv - {EmailKey(email)};
    forall other | other != email ensures EmailCodeOf(r, other) == EmailCodeOf(kv, other) {
      EmailKeyInjective(email, other);
    }
    forall id ensures TokenOf(r, id) == TokenOf(kv, id) {
      KeysDisjoint(id, email);
    }
    r
  }

  /** `isRefreshTokenValid(id, t)`: `t` is not null and equals the stored
      token. */
  function TokenValid(kv: Store, id: string, token: Option<string>): (r: bool)
    ensures r <==> token.Some? && TokenOf(kv, id) == token
  {
    token.Some? && Get(kv, TokenKey(id)) == Some(token.value)
  }

  /** A token just saved is valid, and no other token is. */
  lemma SavedTokenValid(kv: Store, id: string, token: string, other: Option<string>)
    ensures TokenValid(WithToken(kv, id, token), id, other) <==> other == Some(token)
  {
  }

  /** After a logout no token is valid for that login. */
  lemma DeletedTokenInvalid(kv: Store, id: string, token: Option<string>)
    ensures !TokenValid(WithoutToken(kv, id), id, token)
  {
  }

  /** The shared store, updated in place. */
  class RedisService {
    var store: Store

    constructor ()
      ensures store == map[]
    {
      store := map[];
    }

    method SaveRefreshToken(id: string, refreshToken: string)
      modifies this
      ensures store == WithToken(old(store), id, refreshToken)
    {
      store := WithToken(store, id, refreshToken);
    }

    function GetRefreshToken(id: string): (r: Option<string>)
      reads this
      ensures r.Some? <==> TokenKey(id) in store
      ensures r.Some? ==> r.value == store[TokenKey(id)]
    {
      TokenOf(store, id)
    }

    method DeleteRefreshToken(id: string)
      modifies this
      ensures store == WithoutToken(old(store), id)
    {
      store := WithoutToken(store, id);
    }

    function IsRefreshTokenValid(id: string, refreshToken: Option<string>): (r: bool)
      reads this
      ensures r <==> refreshToken.Some? && GetRefreshToken(id) == refreshToken
    {
      TokenValid(store, id, refreshToken)
    }

    method SaveEmailCode(email: string, number: string)
      modifies this
      ensures store == WithEmailCode(old(store), email, number)
    {
      store := WithEmailCode(store, email, number);
    }

    function GetEmailCode(email: string): (r: Option<string>)
      reads this
      ensures r.Some? <==> EmailKey(email) in store
      ensures r.Some? ==> r.value == store[EmailKey(email)]
    {
      EmailCodeOf(store, email)
    }

    method DeleteEmailCode(email: string)
      modifies this
      ensures store == WithoutEmailCode(old(store), email)
    {
      store := WithoutEmailCode(store, email);
    }
  }
}
