/** The cookie jar of a response: building cookies, finding them, and deleting them in place. */
module CookieJars {
  import opened Sequences
  import CookieQuoting

  datatype Error = KeyError | ServerError | TypeError | ValueError

  datatype Result<+T> = Ok(value: T) | Err(error: Error)

  /** The samesite values, whatever their case; `OtherSite` is any other text. */
  datatype SameSite = Strict | Lax | NoneSite | OtherSite

  datatype Cookie = Cookie(key: string, value: string, path: string, domain: Option<string>, secure: bool,
                           httponly: bool, partitioned: bool, maxAge: Option<int>, expires: Option<int>,
                           samesite: Option<SameSite>, comment: Option<string>)

  /** The arguments of `Cookie` and `add_cookie`. */
  datatype Request = Request(key: string, value: string, path: string, domain: Option<string>, secure: bool,
                             httponly: bool, partitioned: bool, maxAge: Option<int>, expires: Option<int>,
                             samesite: Option<SameSite>, comment: Option<string>,
                             hostPrefix: bool, securePrefix: bool)

  /** The arguments of `delete_cookie`. */
  datatype Deletion = Deletion(key: string, path: string, domain: Option<string>, secure: bool,
                               hostPrefix: bool, securePrefix: bool)

  const HOST_PREFIX := "__Host-"
  const SECURE_PREFIX := "__Secure-"

  /** The names of the attributes of a cookie. */
  predicate IsReservedWord(key: string) {
    || key == "path" || key == "comment" || key == "domain" || key == "max-age" || key == "expires"
    || key == "samesite" || key == "secure" || key == "httponly" || key == "partitioned"
  }

  predicate IsCookieName(key: string) {
    !IsReservedWord(key) && CookieQuoting.IsLegalKey(key)
  }

  /** `Cookie.make_key`. */
  function MakeKey(key: string, hostPrefix: bool, securePrefix: bool): Result<string> {
    if hostPrefix && securePrefix then Err(ServerError)
    else if hostPrefix then Ok(HOST_PREFIX + key)
    else if securePrefix then Ok(SECURE_PREFIX + key)
    else Ok(key)
  }

  /** The checks of `Cookie.__init__`, in the order they are made. */
  function CookieError(q: Request): Option<Error> {
    if IsCookieName(q.key) then FlagError(q) else Some(KeyError)
  }

  function FlagError(q: Request): Option<Error> {
    if q.hostPrefix && (!q.secure || q.path != "/" || (q.domain.Some? && q.domain.value != "")) then Some(ServerError)
    else if !q.hostPrefix && q.securePrefix && !q.secure then Some(ServerError)
    else if q.partitioned && !q.hostPrefix then Some(ServerError)
    else if q.hostPrefix && q.securePrefix then Some(ServerError)
    else if q.maxAge.Some? && q.maxAge.value < 0 then Some(ValueError)
    else if q.samesite == Some(OtherSite) then Some(TypeError)
    else None
  }

  /** `Cookie.__init__`. */
  function NewCookie(q: Request): Result<Cookie> {
    if CookieError(q).Some? then Err(CookieError(q).value)
    else
      Ok(Cookie(MakeKey(q.key, q.hostPrefix, q.securePrefix).value, q.value, q.path, q.domain, q.secure,
                q.httponly, q.partitioned, q.maxAge, q.expires, q.samesite, q.comment))
  }

  /** The identity of a cookie for a browser. */
  predicate Is(c: Cookie, key: string, path: string, domain: Option<string>) {
    c.key == key && c.path == path && c.domain == domain
  }

  /** The cookies that are not the given one, in order. */
  function Others(cookies: seq<Cookie>, key: string, path: string, domain: Option<string>): seq<Cookie> {
    if |cookies| == 0 then []
    else
      Others(cookies[..|cookies| - 1], key, path, domain) +
      if Is(cookies[|cookies| - 1], key, path, domain) then [] else [cookies[|cookies| - 1]]
  }

  /** The first cookie that is the given one. */
  function First(cookies: seq<Cookie>, key: string, path: string, domain: Option<string>): Option<Cookie> {
    if |cookies| == 0 then None
    else if Is(cookies[0], key, path, domain) then Some(cookies[0])
    else First(cookies[1..], key, path, domain)
  }

  /** What a deletion adds: an expired cookie with the flags of the one it replaces, if there is one. */
  function Tombstone(d: Deletion, existing: Option<Cookie>): Request {
    match existing
    case Some(c) =>
      Request(d.key, "", c.path, c.domain, c.secure, c.httponly, c.partitioned, Some(0), None, c.samesite,
              None, d.hostPrefix, d.securePrefix)
    case None =>
      Request(d.key, "", d.path, d.domain, d.secure, false, false, Some(0), None, None, None,
              d.hostPrefix, d.securePrefix)
  }

  /** The checks made before the jar is touched. */
  predicate Refused(d: Deletion) {
    (d.hostPrefix && !(d.secure && d.path == "/" && d.domain.None?)) || (d.securePrefix && !d.secure)
  }

  /** What a deletion does to the cookies, and how it ends. */
  function Delete(cookies: seq<Cookie>, d: Deletion): (seq<Cookie>, Result<()>) {
    if Refused(d) then (cookies, Err(ServerError))
    else match MakeKey(d.key, d.hostPrefix, d.securePrefix)
      case Err(e) =>
        // The cookies are already taken out when the key is refused, at the first of them or, in an
        // empty jar, by the tombstone.
        ([], if |cookies| > 0 then Err(e) else if NewCookie(Tombstone(d, None)).Err? then
               Err(NewCookie(Tombstone(d, None)).error) else Err(e))
      case Ok(key) =>
        var rest := Others(cookies, key, d.path, d.domain);
        match NewCookie(Tombstone(d, First(cookies, key, d.path, d.domain)))
        case Err(e) => (rest, Err(e))
        case Ok(c) => (rest + [c], Ok(()))
  }

  class CookieJar {
    /** The Set-Cookie entries of the response headers. */
    var cookies: seq<Cookie>

    constructor ()
      ensures cookies == []
    {
      cookies := [];
    }

    method GetCookie(key: string, path: string, domain: Option<string>, hostPrefix: bool, securePrefix: bool)
        returns (r: Result<Option<Cookie>>)
      ensures var k := MakeKey(key, hostPrefix, securePrefix);
        r == if cookies == [] then Ok(None) else if k.Err? then Err(k.error)
             else Ok(First(cookies, k.value, path, domain))
    {
      assert cookies[0..] == cookies;
      for i := 0 to |cookies|
        invariant i > 0 ==> MakeKey(key, hostPrefix, securePrefix).Ok?
        invariant MakeKey(key, hostPrefix, securePrefix).Ok? ==>
          var k := MakeKey(key, hostPrefix, securePrefix).value;
          First(cookies, k, path, domain) == First(cookies[i..], k, path, domain)
      {
        var k := MakeKey(key, hostPrefix, securePrefix);
        if k.Err? {
          return Err(k.error);
        }
        if Is(cookies[i], k.value, path, domain) {
          return Ok(Some(cookies[i]));
        }
      }
      r := Ok(None);
    }

    /** Whether the jar holds the cookie. */
    method HasCookie(key: string, path: string, domain: Option<string>, hostPrefix: bool, securePrefix: bool)
        returns (r: Result<bool>)
      ensures var k := MakeKey(key, hostPrefix, securePrefix);
        r == if cookies == [] then Ok(false) else if k.Err? then Err(k.error)
             else Ok(exists i :: 0 <= i < |cookies| && Is(cookies[i], k.value, path, domain))
    {
      for i := 0 to |cookies|
        invariant i > 0 ==> MakeKey(key, hostPrefix, securePrefix).Ok?
        invariant MakeKey(key, hostPrefix, securePrefix).Ok? ==>
          forall j :: 0 <= j < i ==> !Is(cookies[j], MakeKey(key, hostPrefix, securePrefix).value, path, domain)
      {
        var k := MakeKey(key, hostPrefix, securePrefix);
        if k.Err? {
          return Err(k.error);
        }
        if Is(cookies[i], k.value, path, domain) {
          return Ok(true);
        }
      }
      r := Ok(false);
    }

    method AddCookie(q: Request) returns (r: Result<Cookie>)
      modifies this
      ensures r == NewCookie(q)
      ensures cookies == if r.Ok? then old(cookies) + [r.value] else old(cookies)
    {
      r := NewCookie(q);
      if r.Ok? {
        cookies := cookies + [r.value];
      }
    }

    /** `delete_cookie`: takes all cookies out, puts the others back, then adds the tombstone. */
    method DeleteCookie(d: Deletion) returns (r: Result<()>)
      modifies this
      ensures (cookies, r) == Delete(old(cookies), d)
    {
      if d.hostPrefix && !(d.secure && d.path == "/" && d.domain.None?) {
        return Err(ServerError);
      }
      if d.securePrefix && !d.secure {
        return Err(ServerError);
      }
      var popped := cookies;
      cookies := [];
      var existing: Option<Cookie> := None;
      for i := 0 to |popped|
        invariant i > 0 ==> MakeKey(d.key, d.hostPrefix, d.securePrefix).Ok?
        invariant i == 0 ==> cookies == [] && existing.None?
        invariant MakeKey(d.key, d.hostPrefix, d.securePrefix).Ok? ==>
          var k := MakeKey(d.key, d.hostPrefix, d.securePrefix).value;
          && cookies == Others(popped[..i], k, d.path, d.domain)
          && existing == First(popped[..i], k, d.path, d.domain)
      {
        var k := MakeKey(d.key, d.hostPrefix, d.securePrefix);
        if k.Err? {
          return Err(k.error);
        }
        assert popped[..i + 1] == popped[..i] + [popped[i]];
        FirstSnoc(popped[..i], popped[i], k.value, d.path, d.domain);
        if !Is(popped[i], k.value, d.path, d.domain) {
          cookies := cookies + [popped[i]];
        } else if existing.None? {
          existing := Some(popped[i]);
        }
      }
      assert popped[..|popped|] == popped;
      var added := AddCookie(Tombstone(d, existing));
      r := if added.Ok? then Ok(()) else Err(added.error);
    }
  }

  lemma {:induction false} FirstSnoc(cs: seq<Cookie>, c: Cookie, key: string, path: string, domain: Option<string>)
    ensures First(cs + [c], key, path, domain)
         == if First(cs, key, path, domain).Some? then First(cs, key, path, domain)
            else if Is(c, key, path, domain) then Some(c) else None
  {
    if |cs| == 0 {
      assert cs + [c] == [c];
    } else {
      assert (cs + [c])[1..] == cs[1..] + [c];
      FirstSnoc(cs[1..], c, key, path, domain);
    }
  }

  // ---------------------------------------------------------------- what deletion promises

  function Count(cookies: seq<Cookie>, key: string, path: string, domain: Option<string>): nat {
    if |cookies| == 0 then 0
    else
      Count(cookies[..|cookies| - 1], key, path, domain) +
      if Is(cookies[|cookies| - 1], key, path, domain) then 1 else 0
  }

  lemma {:induction false} OthersAreOthers(cs: seq<Cookie>, key: string, path: string, domain: Option<string>)
    ensures Count(Others(cs, key, path, domain), key, path, domain) == 0
    ensures First(Others(cs, key, path, domain), key, path, domain) == None
    ensures Others(Others(cs, key, path, domain), key, path, domain) == Others(cs, key, path, domain)
  {
    if |cs| > 0 {
      var init, c := cs[..|cs| - 1], cs[|cs| - 1];
      OthersAreOthers(init, key, path, domain);
      var os := Others(init, key, path, domain);
      if Is(c, key, path, domain) {
        assert Others(cs, key, path, domain) == os;
      } else {
        assert (os + [c])[..|os|] == os;
        FirstSnoc(os, c, key, path, domain);
      }
    }
  }

  lemma {:induction false} FirstIs(cs: seq<Cookie>, key: string, path: string, domain: Option<string>)
    ensures var f := First(cs, key, path, domain);
      f.Some? ==> f.value in cs && Is(f.value, key, path, domain)
  {
    if |cs| > 0 && !Is(cs[0], key, path, domain) {
      FirstIs(cs[1..], key, path, domain);
    }
  }

  /** When a deletion succeeds, every other cookie is still there in its old order, the deleted one is
      there exactly once, as an expired cookie at the end, with the flags of the first one it replaces,
      and deleting again changes nothing. */
  lemma DeletionLeavesTombstone(cookies: seq<Cookie>, d: Deletion)
    requires Delete(cookies, d).1.Ok?
    ensures var key := MakeKey(d.key, d.hostPrefix, d.securePrefix).value;
      var after := Delete(cookies, d).0;
      && |after| > 0
      && after[..|after| - 1] == Others(cookies, key, d.path, d.domain)
      && Count(after, key, d.path, d.domain) == 1
      && var t := after[|after| - 1];
         && Is(t, key, d.path, d.domain) && t.value == "" && t.maxAge == Some(0)
         && (match First(cookies, key, d.path, d.domain)
             case Some(c) => t.secure == c.secure && t.httponly == c.httponly
                             && t.partitioned == c.partitioned && t.samesite == c.samesite
             case None => t.secure == d.secure && !t.httponly && !t.partitioned && t.samesite.None?)
    ensures Delete(Delete(cookies, d).0, d) == Delete(cookies, d)
  {
    var key := MakeKey(d.key, d.hostPrefix, d.securePrefix).value;
    var rest, first := Others(cookies, key, d.path, d.domain), First(cookies, key, d.path, d.domain);
    FirstIs(cookies, key, d.path, d.domain);
    OthersAreOthers(cookies, key, d.path, d.domain);
    var t := TombstoneAgain(d, key, first);
    Append(rest, t, key, d.path, d.domain);
  }

  /** The tombstone of a tombstone is the same cookie. */
  lemma TombstoneAgain(d: Deletion, key: string, first: Option<Cookie>) returns (t: Cookie)
    requires MakeKey(d.key, d.hostPrefix, d.securePrefix) == Ok(key)
    requires first.Some? ==> Is(first.value, key, d.path, d.domain)
    requires NewCookie(Tombstone(d, first)).Ok?
    ensures NewCookie(Tombstone(d, first)) == Ok(t) == NewCookie(Tombstone(d, Some(t)))
    ensures Is(t, key, d.path, d.domain)
  {
    t := NewCookie(Tombstone(d, first)).value;
    assert Tombstone(d, Some(t)) == Tombstone(d, first);
  }

  lemma Append(rest: seq<Cookie>, t: Cookie, key: string, path: string, domain: Option<string>)
    requires Count(rest, key, path, domain) == 0 && First(rest, key, path, domain).None?
    requires Others(rest, key, path, domain) == rest && Is(t, key, path, domain)
    ensures var all := rest + [t];
      && all[..|all| - 1] == rest && Count(all, key, path, domain) == 1
      && First(all, key, path, domain) == Some(t) && Others(all, key, path, domain) == rest
  {
    FirstSnoc(rest, t, key, path, domain);
    assert (rest + [t])[..|rest|] == rest && rest + [] == rest;
  }

  /** Exactly when a deletion succeeds: a legal name, at most one prefix with its conditions met by the
      request and by the cookie replaced, and a partitioned cookie only under the host prefix. */
  lemma DeletionSucceeds(cookies: seq<Cookie>, d: Deletion)
    requires forall i :: 0 <= i < |cookies| ==> cookies[i].samesite != Some(OtherSite)
    ensures Delete(cookies, d).1.Ok? <==>
      && IsCookieName(d.key)
      && !(d.hostPrefix && d.securePrefix) && !Refused(d)
      && var f := First(cookies, MakeKey(d.key, d.hostPrefix, d.securePrefix).value, d.path, d.domain);
         f.Some? ==>
           ((d.hostPrefix || d.securePrefix) ==> f.value.secure) && (f.value.partitioned ==> d.hostPrefix)
  {
    if !Refused(d) && !(d.hostPrefix && d.securePrefix) {
      var key := MakeKey(d.key, d.hostPrefix, d.securePrefix).value;
      var first := First(cookies, key, d.path, d.domain);
      FirstIs(cookies, key, d.path, d.domain);
      TombstoneFlags(d, first);
      DeleteEnds(cookies, d, key);
    }
  }

  lemma DeleteEnds(cookies: seq<Cookie>, d: Deletion, key: string)
    requires !Refused(d) && MakeKey(d.key, d.hostPrefix, d.securePrefix) == Ok(key)
    ensures var q := Tombstone(d, First(cookies, key, d.path, d.domain));
      Delete(cookies, d).1.Ok? <==> IsCookieName(d.key) && FlagError(q).None?
  {
    var q := Tombstone(d, First(cookies, key, d.path, d.domain));
    assert q.key == d.key;
  }

  lemma TombstoneFlags(d: Deletion, first: Option<Cookie>)
    requires !Refused(d) && !(d.hostPrefix && d.securePrefix)
    requires first.Some? ==> first.value.path == d.path && first.value.domain == d.domain
    requires first.Some? ==> first.value.samesite != Some(OtherSite)
    ensures FlagError(Tombstone(d, first)).None? <==>
      (first.Some? ==>
        ((d.hostPrefix || d.securePrefix) ==> first.value.secure) && (first.value.partitioned ==> d.hostPrefix))
  {
  }

  /** Exactly when a deletion that raises leaves the jar as it was: when it is refused at once, or had
      nothing to take out, which with both prefixes means an empty jar. Otherwise it has lost cookies:
      those it was to replace, or with both prefixes the whole jar. */
  lemma FailedDeletionLosesCookies(cookies: seq<Cookie>, d: Deletion)
    requires Delete(cookies, d).1.Err?
    ensures Delete(cookies, d).0 == cookies <==>
      || Refused(d)
      || (if d.hostPrefix && d.securePrefix then cookies == []
          else First(cookies, MakeKey(d.key, d.hostPrefix, d.securePrefix).value, d.path, d.domain).None?)
  {
    if !Refused(d) && !(d.hostPrefix && d.securePrefix) {
      OthersAreFewer(cookies, MakeKey(d.key, d.hostPrefix, d.securePrefix).value, d.path, d.domain);
    }
  }

  lemma {:induction false} OthersAreFewer(cs: seq<Cookie>, key: string, path: string, domain: Option<string>)
    ensures |Others(cs, key, path, domain)| <= |cs|
    ensures Others(cs, key, path, domain) == cs <==> First(cs, key, path, domain).None?
  {
    if |cs| > 0 {
      var init, c := cs[..|cs| - 1], cs[|cs| - 1];
      OthersAreFewer(init, key, path, domain);
      assert cs == init + [c];
      FirstSnoc(init, c, key, path, domain);
      if Is(c, key, path, domain) {
        assert |Others(cs, key, path, domain)| < |cs|;
      } else if Others(cs, key, path, domain) == cs {
        assert Others(cs, key, path, domain)[..|cs| - 1] == init;
      }
    }
  }

  /** A jar that loses its only cookie: one stored without the secure flag under a name that begins with
      the secure prefix, which only the prefix's own argument would have refused. */
  lemma LostCookie(name: string, q: Request)
    requires q.key == SECURE_PREFIX + name && CookieQuoting.IsLegalKey(q.key) && !IsReservedWord(q.key)
    requires IsCookieName(name) && !q.secure && !q.hostPrefix && !q.securePrefix && FlagError(q).None?
    ensures NewCookie(q).Ok?
    ensures Delete([NewCookie(q).value], Deletion(name, q.path, q.domain, true, false, true)) == ([], Err(ServerError))
  {
    var c, d := NewCookie(q).value, Deletion(name, q.path, q.domain, true, false, true);
    assert Others([c], c.key, q.path, q.domain) == Others([], c.key, q.path, q.domain) == [] by {
      assert [c][..0] == [];
    }
    assert First([c], c.key, q.path, q.domain) == Some(c);
  }

  /** An added cookie is found again unless one with its identity was there before, and finding any other
      cookie is not affected. It has a legal name and the conditions of the prefix asked for. */
  lemma AddedCookieIsFound(cookies: seq<Cookie>, q: Request, key: string, path: string, domain: Option<string>)
    requires NewCookie(q).Ok?
    ensures var c := NewCookie(q).value;
      && First(cookies + [c], key, path, domain) ==
           (if First(cookies, key, path, domain).None? && Is(c, key, path, domain) then Some(c)
            else First(cookies, key, path, domain))
      && Is(c, MakeKey(q.key, q.hostPrefix, q.securePrefix).value, q.path, q.domain)
      && CookieQuoting.IsLegalKey(c.key)
      && (q.hostPrefix ==> c.secure && c.path == "/" && (c.domain.None? || c.domain == Some("")))
      && (q.securePrefix ==> c.secure) && (c.partitioned ==> q.hostPrefix && c.secure)
      && (c.maxAge.Some? ==> c.maxAge.value >= 0)
  {
    var c := NewCookie(q).value;
    FirstSnoc(cookies, c, key, path, domain);
    LegalPrefix(HOST_PREFIX, q.key);
    LegalPrefix(SECURE_PREFIX, q.key);
  }

  lemma LegalPrefix(prefix: string, key: string)
    requires prefix == HOST_PREFIX || prefix == SECURE_PREFIX
    requires CookieQuoting.IsLegalKey(key)
    ensures CookieQuoting.IsLegalKey(prefix + key)
  {
    assert forall i :: 0 <= i < |prefix| ==> CookieQuoting.IsLegalChar(prefix[i]);
  }
}
