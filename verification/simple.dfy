/** The in-memory backend: a per-domain table of usernames and their passwords. */
module SimpleBackend {
  import opened AuthTypes

  /** username -> stored password */
  type CredentialsMap = map<string, string>
  /** domain -> that domain's credentials */
  type UserListDomainsMap = map<string, CredentialsMap>

  datatype SimpleAuthBackend = SimpleAuthBackend(userlist: UserListDomainsMap)

  /** The backend keeps the user list it is given, as it is. */
  function NewSimpleAuthBackend(userlist: UserListDomainsMap): (b: SimpleAuthBackend)
    ensures b.userlist == userlist
  {
    SimpleAuthBackend(userlist)
  }

  /** Looks the domain up, then the user in it, then compares the stored password.
      Every miss is a plain denial: this backend never reports an error. */
  function Authenticate(b: SimpleAuthBackend, c: Credentials): (r: Reply)
    ensures r.err == None
    ensures c.domain !in b.userlist ==> r == Denied
    ensures c.domain in b.userlist && c.username !in b.userlist[c.domain] ==> r == Denied
    ensures r.matched <==> c.domain in b.userlist && c.username in b.userlist[c.domain]
                           && b.userlist[c.domain][c.username] == c.password
  {
    if c.domain !in b.userlist then Denied
    else if c.username !in b.userlist[c.domain] then Denied
    else if b.userlist[c.domain][c.username] != c.password then Denied
    else Reply(true, None)
  }

  /** The credentials a user list accepts, each a (username, password, domain) triple. */
  ghost function Accepted(userlist: UserListDomainsMap): set<Credentials>
  {
    set d, u | d in userlist && u in userlist[d] :: Credentials(u, userlist[d][u], d)
  }

  /** The backend matches exactly the credentials its user list accepts, and never
      fails. */
  lemma AuthenticateMatchesAccepted(b: SimpleAuthBackend, c: Credentials)
    ensures Authenticate(b, c) == Reply(c in Accepted(b.userlist), None)
  {
    if c in Accepted(b.userlist) {
      var d, u :| d in b.userlist && u in b.userlist[d] && c == Credentials(u, b.userlist[d][u], d);
    } else if c.domain in b.userlist && c.username in b.userlist[c.domain] {
      var d, u := c.domain, c.username;
      assert Credentials(u, b.userlist[d][u], d) in Accepted(b.userlist);
    }
  }

  /** The scenarios of the backend's tests: one user "user" with password "password"
      in "domain.com". */
  lemma Scenarios()
    ensures var b := NewSimpleAuthBackend(map["domain.com" := map["user" := "password"]]);
      && Authenticate(b, Credentials("user", "password", "domain.com")) == Reply(true, None)
      && Authenticate(b, Credentials("user", "password", "wrongdomain.com")) == Denied
      && Authenticate(b, Credentials("wronguser", "password", "domain.com")) == Denied
      && Authenticate(b, Credentials("user", "wrongpassword", "domain.com")) == Denied
  {
  }
}
