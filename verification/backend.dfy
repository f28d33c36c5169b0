/** The backend capability: anything that, given a username, a password and a
    domain, answers whether they match or that it failed. The two implementations
    in the core are the in-memory backend and the ordered chain of backends; every
    other implementation is a function of the credentials. */
module Backend {
  import opened AuthTypes
  import SimpleBackend

  datatype AuthBackend =
    | Simple(simple: SimpleBackend.SimpleAuthBackend)
    | Multi(backends: seq<AuthBackend>)          // tried in this order
    | Custom(check: Credentials -> Reply)        // any other implementation

  /** Asks backend `b` about credentials `c`. The in-memory backend never fails,
      and a chain answers with a match, a failure or the plain denial. */
  function Authenticate(b: AuthBackend, c: Credentials): (r: Reply)
    ensures b.Simple? ==> r.err == None
    ensures b.Multi? ==> r == Denied || Decisive(r)
    ensures b.Multi? && b.backends == [] ==> r == Denied
    decreases b
  {
    match b
    case Simple(s) => SimpleBackend.Authenticate(s, c)
    case Multi(bs) => FirstDecisive(bs, c)
    case Custom(check) => check(c)
  }

  /** What a chain answers: the reply of the first backend that matches or fails,
      or a plain denial when there is none. */
  function FirstDecisive(bs: seq<AuthBackend>, c: Credentials): (r: Reply)
    ensures r == Denied || Decisive(r)
    ensures bs == [] ==> r == Denied
    ensures (forall k :: 0 <= k < |bs| ==> bs[k].Simple?) ==> r.err == None
    decreases bs
  {
    if bs == [] then Denied
    else
      var r := Authenticate(bs[0], c);
      if Decisive(r) then r else FirstDecisive(bs[1..], c)
  }
}
