/** `RequestFilter`: the servlet filter that puts the caller's login id on
    the request before passing it down the chain. The bearer prefix and the
    JWT subject extraction belong to `JwtUtil`, which is not part of this
    model; they are parameters here. */
module RequestFilter {
  import opened Common

  /** The request attribute the controllers read the login id from. */
  const LoginIdAttribute := "loginId"

  /** The login a request without an `Authorization` header runs as. */
  const AnonymousLoginId := "user1"

  /** The login id the filter sets for a given header, if any. A bearer
      header gives the subject of its token (every occurrence of the prefix
      removed from it, as `String.replace` does), when the token has one; a
      missing header gives the fixed anonymous login; any other header sets
      nothing. */
  function LoginIdFor(header: Option<string>, bearerPrefix: string, subjectOf: string -> Option<string>)
    : (r: Option<string>)
    ensures header.None? ==> r == Some(AnonymousLoginId)
    ensures header.Some? && !StartsWith(header.value, bearerPrefix) ==> r.None?
    ensures header.Some? && StartsWith(header.value, bearerPrefix) ==>
      r == subjectOf(RemoveAll(header.value, bearerPrefix))
  {
    if header.Some? && StartsWith(header.value, bearerPrefix) then subjectOf(RemoveAll(header.value, bearerPrefix))
    else if header.None? then Some(AnonymousLoginId)
    else None
  }

  /** A header made of the prefix and a token that does not contain the
      prefix again yields exactly that token's subject. */
  lemma BearerTokenSubject(bearerPrefix: string, token: string, subjectOf: string -> Option<string>)
    requires |bearerPrefix| > 0 && !Occurs(token, bearerPrefix)
    ensures LoginIdFor(Some(bearerPrefix + token), bearerPrefix, subjectOf) == subjectOf(token)
  {
    assert (bearerPrefix + token)[..|bearerPrefix|] == bearerPrefix;
    RemoveAllLeadingPrefix(bearerPrefix, token);
  }

  /** The login id set is the anonymous one only for a missing header or a
      token whose subject is that login. */
  lemma AnonymousOnlyWithoutHeader(header: Option<string>, bearerPrefix: string,
                                   subjectOf: string -> Option<string>)
    requires LoginIdFor(header, bearerPrefix, subjectOf) == Some(AnonymousLoginId)
    ensures header.None?
      || (StartsWith(header.value, bearerPrefix)
          && subjectOf(RemoveAll(header.value, bearerPrefix)) == Some(AnonymousLoginId))
  {
  }

  /** The part of `HttpServletRequest` the filter touches. */
  class Request {
    const authorization: Option<string>
    var attributes: map<string, string>

    constructor (authorization: Option<string>)
      ensures this.authorization == authorization && attributes == map[]
    {
      this.authorization := authorization;
      attributes := map[];
    }
  }

  /** The rest of the chain, observed through the requests passed to it. */
  class FilterChain {
    var forwarded: seq<Request>

    constructor ()
      ensures forwarded == []
    {
      forwarded := [];
    }

    method DoFilter(request: Request)
      modifies this
      ensures forwarded == old(forwarded) + [request]
    {
      forwarded := forwarded + [request];
    }
  }

  /** `doFilter`: the login id attribute is set as `LoginIdFor` says, no
      other attribute changes, and the request always goes on down the
      chain. */
  method DoFilter(request: Request, chain: FilterChain, bearerPrefix: string, subjectOf: string -> Option<string>)
    modifies request, chain
    ensures var id := LoginIdFor(request.authorization, bearerPrefix, subjectOf);
      request.attributes == (if id.Some? then old(request.attributes)[LoginIdAttribute := id.value]
                             else old(request.attributes))
    ensures chain.forwarded == old(chain.forwarded) + [request]
  {
    var header := request.authorization;
    if header.Some? && StartsWith(header.value, bearerPrefix) {
      var token := RemoveAll(header.value, bearerPrefix);
      var loginId := subjectOf(token);
      if loginId.Some? {
        request.attributes := request.attributes[LoginIdAttribute := loginId.value];
      }
    } else if header.None? {
      request.attributes := request.attributes[LoginIdAttribute := AnonymousLoginId];
    }
    chain.DoFilter(request);
  }
}
