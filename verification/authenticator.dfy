/** The domain authenticator: fills in a default domain, parses mail addresses,
    resolves aliases through an optional user map, and hands the result to one
    backend. Every call it makes to a collaborator is recorded in order, so that
    "this collaborator was not asked" can be stated. */
module Authenticator {
  import opened AuthTypes
  import Strings
  import Backend
  import opened UserMap

  /** The configuration; `defaultDomain` and `userMap` may be set after construction. */
  datatype DomainAuthenticator = DomainAuthenticator(
    backend: Backend.AuthBackend,
    defaultDomain: string,            // "" means no default
    userMap: Option<UserMapper>)

  /** A call made to a collaborator. */
  datatype Event =
    | IsAliasQuery(name: string, domain: string)
    | ResolveQuery(alias: string, domain: string)
    | BackendQuery(creds: Credentials)

  /** The reply to the caller and the calls made, in order, to produce it. */
  datatype Traced = Traced(reply: Reply, events: seq<Event>)

  /** A new authenticator delegates to `backend`, with no default domain and no
      user map. */
  function NewDomainAuthenticator(backend: Backend.AuthBackend): (a: DomainAuthenticator)
    ensures a.backend == backend && a.defaultDomain == "" && a.userMap == None
  {
    DomainAuthenticator(backend, "", None)
  }

  /** The domain the backend is asked about: the given one, or the default when
      the given one is empty. */
  function EffectiveDomain(a: DomainAuthenticator, domain: string): string
  {
    if domain == "" then a.defaultDomain else domain
  }

  /** Asks the backend once, with the username and password untouched and the
      effective domain. A backend failure becomes a denial carrying a
      backend-kind error; otherwise the backend's answer is passed on. */
  function Authenticate(a: DomainAuthenticator, username: string, password: string, domain: string): (t: Traced)
    ensures t.events == [BackendQuery(Credentials(username, password, EffectiveDomain(a, domain)))]
    ensures var r := Backend.Authenticate(a.backend, t.events[0].creds);
      && (r.err == None ==> t.reply == Reply(r.matched, None))
      && (r.err.Some? ==> t.reply == Reply(false, Some(BackendError(r.err.value))))
    ensures !(t.reply.matched && t.reply.err.Some?)
  {
    var creds := Credentials(username, password, EffectiveDomain(a, domain));
    var r := Backend.Authenticate(a.backend, creds);
    var reply := if r.err.Some? then Reply(false, Some(BackendError(r.err.value))) else Reply(r.matched, None);
    Traced(reply, [BackendQuery(creds)])
  }

  /** Authenticates `local@domain`: the address must split into exactly two parts on
      '@' (either part may be empty). An alias is replaced by its canonical name; a
      failed resolution ends the attempt. The domain part then goes through
      `Authenticate`, so an empty one gets the default domain. */
  function AuthenticateMailAddress(a: DomainAuthenticator, mailAddress: string, password: string): (t: Traced)
    ensures t.reply.err == Some(InvalidAddress) <==> Strings.Count(mailAddress, '@') != 1
    ensures Strings.Count(mailAddress, '@') != 1 ==> t == Traced(Reply(false, Some(InvalidAddress)), [])
    ensures !(t.reply.matched && t.reply.err.Some?)
  {
    var parts := Strings.Split(mailAddress, '@');
    if |parts| != 2 then Traced(Reply(false, Some(InvalidAddress)), [])
    else
      var username, domain := parts[0], parts[1];
      match a.userMap
      case None => Authenticate(a, username, password, domain)
      case Some(m) =>
        if !m.isAlias(username, domain) then
          var t := Authenticate(a, username, password, domain);
          Traced(t.reply, [IsAliasQuery(username, domain)] + t.events)
        else
          var asked := [IsAliasQuery(username, domain), ResolveQuery(username, domain)];
          match m.resolve(username, domain)
          case Failure(e) => Traced(Reply(false, Some(AliasError(e))), asked)
          case Success(realUsername) =>
            var t := Authenticate(a, realUsername, password, domain);
            Traced(t.reply, asked + t.events)
  }

  /** A non-empty domain is used as given, whatever the default domain is. */
  lemma ExplicitDomainIgnoresDefault(a: DomainAuthenticator, other: string, username: string, password: string, domain: string)
    requires domain != ""
    ensures Authenticate(a.(defaultDomain := other), username, password, domain)
         == Authenticate(a, username, password, domain)
    ensures Authenticate(a, username, password, domain).events[0].creds.domain == domain
  {
  }

  /** An empty domain is the same request as one naming the default domain, which
      may itself be empty: then the backend is asked about the empty domain. */
  lemma EmptyDomainIsDefault(a: DomainAuthenticator, username: string, password: string)
    ensures Authenticate(a, username, password, "")
         == Authenticate(a.(defaultDomain := ""), username, password, a.defaultDomain)
    ensures Authenticate(a, username, password, "").events[0].creds.domain == a.defaultDomain
  {
  }

  /** Without a user map, or for a name that is not an alias, the local part is the
      username and the domain part goes through `Authenticate`; the user map, when
      present, is asked once whether the name is an alias. */
  lemma MailAddressWithoutAlias(a: DomainAuthenticator, local: string, domain: string, password: string)
    requires '@' !in local && '@' !in domain
    requires a.userMap.Some? ==> !a.userMap.value.isAlias(local, domain)
    ensures var t := AuthenticateMailAddress(a, local + "@" + domain, password);
      var direct := Authenticate(a, local, password, domain);
      && t.reply == direct.reply
      && t.events == (if a.userMap.Some? then [IsAliasQuery(local, domain)] else []) + direct.events
      && t.events[|t.events| - 1] == BackendQuery(Credentials(local, password, EffectiveDomain(a, domain)))
  {
    Strings.SplitAround(local, domain, '@');
  }

  /** An alias that resolves is replaced by its canonical username before the
      backend is asked; the user map is asked first whether it is an alias, then
      to resolve it. */
  lemma MailAddressWithAlias(a: DomainAuthenticator, local: string, domain: string, password: string, realUsername: string)
    requires '@' !in local && '@' !in domain
    requires a.userMap.Some? && a.userMap.value.isAlias(local, domain)
    requires a.userMap.value.resolve(local, domain) == Success(realUsername)
    ensures var t := AuthenticateMailAddress(a, local + "@" + domain, password);
      var direct := Authenticate(a, realUsername, password, domain);
      && t.reply == direct.reply
      && t.events == [IsAliasQuery(local, domain), ResolveQuery(local, domain),
                      BackendQuery(Credentials(realUsername, password, EffectiveDomain(a, domain)))]
  {
    Strings.SplitAround(local, domain, '@');
  }

  /** An alias that fails to resolve ends the attempt with an alias-kind error
      wrapping the cause; the local part is not tried instead and the backend is
      never asked. */
  lemma MailAddressAliasFailure(a: DomainAuthenticator, local: string, domain: string, password: string, cause: Error)
    requires '@' !in local && '@' !in domain
    requires a.userMap.Some? && a.userMap.value.isAlias(local, domain)
    requires a.userMap.value.resolve(local, domain) == Failure(cause)
    ensures AuthenticateMailAddress(a, local + "@" + domain, password)
         == Traced(Reply(false, Some(AliasError(cause))), [IsAliasQuery(local, domain), ResolveQuery(local, domain)])
  {
    Strings.SplitAround(local, domain, '@');
  }

  /** Whenever the address has exactly one '@', the user map sees the text before
      it and the backend, if asked, sees the text after it (or the default domain
      when that text is empty). */
  lemma MailAddressParts(a: DomainAuthenticator, mailAddress: string, password: string)
    requires Strings.Count(mailAddress, '@') == 1
    ensures var parts := Strings.Split(mailAddress, '@');
      var t := AuthenticateMailAddress(a, mailAddress, password);
      && |parts| == 2 && parts[0] + "@" + parts[1] == mailAddress
      && forall k :: 0 <= k < |t.events| ==> Touches(t.events[k], parts[0], EffectiveDomain(a, parts[1]), parts[1])
  {
    Strings.SplitOnce(mailAddress, '@');
    var parts := Strings.Split(mailAddress, '@');
    var local, domain := parts[0], parts[1];
    assert local + "@" + domain == mailAddress;
    match a.userMap
    case None =>
      MailAddressWithoutAlias(a, local, domain, password);
    case Some(m) =>
      if !m.isAlias(local, domain) {
        MailAddressWithoutAlias(a, local, domain, password);
      } else {
        match m.resolve(local, domain)
        case Success(realUsername) =>
          MailAddressWithAlias(a, local, domain, password, realUsername);
        case Failure(cause) =>
          MailAddressAliasFailure(a, local, domain, password, cause);
      }
  }

  /** The event is about the local part `local` (user map calls, with the split
      domain `domain`) or about domain `effective` (a backend call). */
  predicate Touches(e: Event, local: string, effective: string, domain: string)
  {
    match e
    case IsAliasQuery(n, d) => n == local && d == domain
    case ResolveQuery(n, d) => n == local && d == domain
    case BackendQuery(c) => c.domain == effective
  }

  /** Only the number of parts is checked: an empty local part is passed on as an
      empty username. */
  lemma EmptyLocalPartAccepted(a: DomainAuthenticator, domain: string, password: string)
    requires '@' !in domain && a.userMap == None
    ensures AuthenticateMailAddress(a, "@" + domain, password).events
         == [BackendQuery(Credentials("", password, EffectiveDomain(a, domain)))]
  {
    MailAddressWithoutAlias(a, "", domain, password);
    assert "" + "@" + domain == "@" + domain;
  }

  /** Only the number of parts is checked: an empty domain part reaches
      `Authenticate`, which replaces it by the default domain. */
  lemma EmptyDomainPartGetsDefault(a: DomainAuthenticator, local: string, password: string)
    requires '@' !in local && a.userMap == None
    ensures AuthenticateMailAddress(a, local + "@", password).events
         == [BackendQuery(Credentials(local, password, a.defaultDomain))]
  {
    MailAddressWithoutAlias(a, local, "", password);
    assert local + "@" + "" == local + "@";
  }

  /** The backend of the authenticator's tests: accepts only "realuser" with
      "Pa$$word" in "domain.com". */
  function TestBackend(): Backend.AuthBackend
  {
    Backend.Custom((c: Credentials) => Reply(c.username == "realuser" && c.password == "Pa$$word" && c.domain == "domain.com", None))
  }

  /** The user map of the alias test: "alias" is an alias of "realuser". */
  function TestUserMap(): UserMapper
  {
    UserMapper((name, domain) => name == "alias",
               (name, domain) => if name == "alias" then Success("realuser") else Failure(External("failed to resolve alias")))
  }

  /** The scenarios of the authenticator's tests for `Authenticate`. */
  lemma AuthenticateScenarios()
    ensures var a := NewDomainAuthenticator(TestBackend());
      && Authenticate(a, "unknown", "unknown", "domain.com").reply == Reply(false, None)
      && Authenticate(a, "realuser", "Pa$$word", "domain.com").reply == Reply(true, None)
      && Authenticate(a.(defaultDomain := "domain.com"), "realuser", "Pa$$word", "").reply == Reply(true, None)
  {
  }

  /** The test scenario of an address without '@'. */
  lemma InvalidAddressScenario()
    ensures AuthenticateMailAddress(NewDomainAuthenticator(TestBackend()), "invalid", "Pa$$word").reply
         == Reply(false, Some(InvalidAddress))
  {
    assert Strings.Count("invalid", '@') == 0;
  }

  /** The test scenario of a plain address, without a user map. The address is
      given by its two halves, "realuser" and "domain.com". */
  lemma PlainAddressScenario(local: string, domain: string)
    requires local == "realuser" && domain == "domain.com"
    ensures AuthenticateMailAddress(NewDomainAuthenticator(TestBackend()), local + "@" + domain, "Pa$$word").reply
         == Reply(true, None)
  {
    MailAddressWithoutAlias(NewDomainAuthenticator(TestBackend()), local, domain, "Pa$$word");
  }

  /** The test scenario of an alias resolved through the user map. The address is
      given by its two halves, "alias" and "domain.com". */
  lemma AliasAddressScenario(local: string, domain: string)
    requires local == "alias" && domain == "domain.com"
    ensures var a := NewDomainAuthenticator(TestBackend()).(userMap := Some(TestUserMap()));
      AuthenticateMailAddress(a, local + "@" + domain, "Pa$$word").reply == Reply(true, None)
  {
    var a := NewDomainAuthenticator(TestBackend()).(userMap := Some(TestUserMap()));
    MailAddressWithAlias(a, local, domain, "Pa$$word", "realuser");
  }
}
