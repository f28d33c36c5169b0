/** The chain of backends: tried strictly in the order given, stopping at the first
    one that matches or fails. */
module MultiBackend {
  import opened AuthTypes
  import opened Backend

  /** One call the chain made: the position of the backend and what it was asked. */
  datatype Invocation = Invocation(index: nat, creds: Credentials)

  /** The chain keeps the backends it is given: same ones, same order, no
      duplicates removed. */
  function NewMultiAuthBackend(backends: seq<AuthBackend>): (b: AuthBackend)
    ensures b.Multi? && b.backends == backends
  {
    Multi(backends)
  }

  /** The chain's loop. Besides the reply it returns the log of the calls it made:
      backend 0, 1, 2, ... in order, each asked with the same credentials, and none
      after the first backend that matched or failed. */
  method Authenticate(backends: seq<AuthBackend>, c: Credentials) returns (r: Reply, ghost invoked: seq<Invocation>)
    ensures r == FirstDecisive(backends, c)
    ensures |invoked| <= |backends|
    ensures forall k :: 0 <= k < |invoked| ==> invoked[k] == Invocation(k, c)
    ensures forall k :: 0 <= k < |invoked| - 1 ==> !Decisive(Backend.Authenticate(backends[k], c))
    ensures Decisive(r) ==> 0 < |invoked| && r == Backend.Authenticate(backends[|invoked| - 1], c)
    ensures !Decisive(r) ==> r == Denied && |invoked| == |backends|
  {
    invoked := [];
    var i := 0;
    while i < |backends|
      invariant i <= |backends| && |invoked| == i
      invariant forall k :: 0 <= k < i ==> invoked[k] == Invocation(k, c)
      invariant forall k :: 0 <= k < i ==> !Decisive(Backend.Authenticate(backends[k], c))
      invariant FirstDecisive(backends[i..], c) == FirstDecisive(backends, c)
    {
      var reply := Backend.Authenticate(backends[i], c);
      invoked := invoked + [Invocation(i, c)];
      if reply.matched || reply.err.Some? {
        return reply, invoked;
      }
      assert backends[i..][1..] == backends[i + 1..];
      i := i + 1;
    }
    r := Denied;
  }

  /** The reply of the chain is the reply of the first backend that matches or
      fails, whatever the backends after it would answer. */
  lemma {:induction false} FirstDecisiveAt(bs: seq<AuthBackend>, c: Credentials, k: nat)
    requires k < |bs| && Decisive(Backend.Authenticate(bs[k], c))
    requires forall j :: 0 <= j < k ==> !Decisive(Backend.Authenticate(bs[j], c))
    ensures FirstDecisive(bs, c) == Backend.Authenticate(bs[k], c)
  {
    if k > 0 {
      assert !Decisive(Backend.Authenticate(bs[0], c));
      forall j | 0 <= j < k - 1
        ensures !Decisive(Backend.Authenticate(bs[1..][j], c))
      {
        assert bs[1..][j] == bs[j + 1];
      }
      FirstDecisiveAt(bs[1..], c, k - 1);
    }
  }

  /** The chain denies without error exactly when every backend denies without
      error; in particular an empty chain always denies. */
  lemma {:induction false} DeniedIffAllDeny(bs: seq<AuthBackend>, c: Credentials)
    ensures FirstDecisive(bs, c) == Denied <==>
            forall k :: 0 <= k < |bs| ==> !Decisive(Backend.Authenticate(bs[k], c))
  {
    if bs != [] {
      DeniedIffAllDeny(bs[1..], c);
      if !Decisive(Backend.Authenticate(bs[0], c)) {
        forall k | 0 < k < |bs|
          ensures Backend.Authenticate(bs[k], c) == Backend.Authenticate(bs[1..][k - 1], c)
        {
        }
      }
    }
  }

  /** Every reply of the chain comes from one of its backends or is the plain
      denial: a match or an error is one that some backend gave. */
  lemma {:induction false} ReplyComesFromBackend(bs: seq<AuthBackend>, c: Credentials)
    ensures var r := FirstDecisive(bs, c);
      r == Denied || exists k :: 0 <= k < |bs| && Backend.Authenticate(bs[k], c) == r
  {
    if bs != [] && !Decisive(Backend.Authenticate(bs[0], c)) {
      ReplyComesFromBackend(bs[1..], c);
      var r := FirstDecisive(bs, c);
      if r != Denied {
        var k :| 0 <= k < |bs[1..]| && Backend.Authenticate(bs[1..][k], c) == r;
        assert bs[1..][k] == bs[k + 1];
      }
    }
  }

  /** The chain matches only if some backend in it matched. */
  lemma MatchedOnlyIfSomeBackendMatched(bs: seq<AuthBackend>, c: Credentials)
    ensures FirstDecisive(bs, c).matched ==>
            exists k :: 0 <= k < |bs| && Backend.Authenticate(bs[k], c).matched
  {
    ReplyComesFromBackend(bs, c);
  }

  /** A backend that gives the same reply to everything, as in the chain's tests. */
  function Fixed(r: Reply): AuthBackend
  {
    Custom(_ => r)
  }

  /** The scenarios of the chain's tests, plus one showing that order decides
      which of a failure and a match is reported. */
  lemma Scenarios(c: Credentials)
    ensures var yes, no, fail := Reply(true, None), Denied, Reply(false, Some(External("error")));
      && Backend.Authenticate(NewMultiAuthBackend([]), c) == Denied
      && Backend.Authenticate(NewMultiAuthBackend([Fixed(yes)]), c) == yes
      && Backend.Authenticate(NewMultiAuthBackend([Fixed(no)]), c) == Denied
      && Backend.Authenticate(NewMultiAuthBackend([Fixed(no), Fixed(yes)]), c) == yes
      && Backend.Authenticate(NewMultiAuthBackend([Fixed(no), Fixed(no)]), c) == Denied
      && Backend.Authenticate(NewMultiAuthBackend([Fixed(fail)]), c) == fail
      && Backend.Authenticate(NewMultiAuthBackend([Fixed(fail), Fixed(yes)]), c) == fail
      && Backend.Authenticate(NewMultiAuthBackend([Fixed(yes), Fixed(fail)]), c) == yes
  {
    var yes, no, fail := Reply(true, None), Denied, Reply(false, Some(External("error")));
    assert Backend.Authenticate(Fixed(yes), c) == yes;
    assert Backend.Authenticate(Fixed(fail), c) == fail;
    assert Backend.Authenticate(Fixed(no), c) == Denied;
    assert [Fixed(no)][1..] == [];
    assert FirstDecisive([Fixed(no)], c) == Denied;
  }
}
