# Domain authentication front end: a Dafny model

This project models the decision logic of go-domain-auth. That library checks a
username and password for a given domain by asking pluggable authentication
backends. It also authenticates by mail address, and on that path it can
resolve the address's local part through an alias map before asking.

The model has three parts:

- **The domain authenticator** (`Authenticator`, in `authenticator.dfy`). It
  is configured with one backend, a default domain and an optional user map.
  `Authenticate` uses the default domain when the caller gives an empty
  domain. It asks the backend once and turns a backend failure into a denial
  that carries a backend-kind error. `AuthenticateMailAddress` splits the
  address on `@` and requires exactly two parts. If the user map says the
  local part is an alias, the alias is resolved; a failed resolution ends the
  attempt. The result then goes through `Authenticate`.
- **The chain of backends** (`MultiBackend`, in `multi.dfy`, with its
  meaning `Backend.FirstDecisive`). The backends are tried in the order given.
  The chain stops at the first one that matches or fails and returns that
  backend's reply unchanged. If no backend qualifies, or the chain is empty,
  the reply is a plain denial.
- **The in-memory backend** (`SimpleBackend`, in `simple.dfy`). It maps each
  domain to usernames and their passwords. A credential matches when its
  domain and user are present and the stored password equals the given one.
  This backend never fails.

The two capability contracts are modelled as values:

- The backend capability is the datatype `Backend.AuthBackend`. It is one of
  the two implementations above or `Custom`, which stands for any other
  implementation (a function from credentials to a reply).
- The alias mapper is `UserMap.UserMapper`, a pair of functions `isAlias` and
  `resolve`.

A backend answers with `Reply(matched, err)`, which is the `(bool, error)`
pair of the source. A `(true, error)` pair from a backend is kept as it is:
the chain passes it on, and the authenticator turns it into a denial.
Errors are tagged by kind: `InvalidAddress`, `BackendError(cause)`,
`AliasError(cause)`, and `External(message)` for errors raised outside the
core.

The authenticator's functions also return the calls they made to the user
map and to the backend, in order (`Authenticator.Event`). The chain's loop
method returns a log of the backends it invoked (`MultiBackend.Invocation`).
With these, "the backend is never asked" and "no later backend is invoked"
are properties that can be stated and proved.

`Strings.Split` models the library routine the address parser uses. It splits
around every separator, so a string with n separators gives n + 1 pieces and
the empty string gives one empty piece.

Only the number of parts of a mail address is checked, not whether they are
empty. So `"@domain.com"` is accepted and the backend is asked with an empty
username (`EmptyLocalPartAccepted`). `"user@"` is accepted too, and its empty
domain part goes through `Authenticate`, which replaces it with the default
domain (`EmptyDomainPartGetsDefault`). When no default domain is configured,
the backend is asked about the empty domain (`EmptyDomainIsDefault`).

## Model

| member | source | states |
|---|---|---|
| `Strings.Split` | auth/authenticator.go:38 | splitting on '@' gives one more piece than there are '@' characters, no piece contains '@', and joining the pieces with '@' gives the address back |
| `Strings.SplitJoin` | auth/authenticator.go:38 | the other half of the round trip: pieces without '@', joined and split again, come back unchanged |
| `Strings.SplitOnce` | auth/authenticator.go:38-45 | an address with exactly one '@' splits into two parts, and local + "@" + domain is the address |
| `Strings.SplitAround` | auth/authenticator.go:38-45 | local + "@" + domain, with no '@' in either half, splits into exactly [local, domain] and has one '@' |
| `Backend.Authenticate` | auth/backend/backend.go:3-5 | the call through the backend interface, dispatched to the implementation; the in-memory backend never reports an error; a chain answers with a match, a failure or the plain denial, and an empty chain always denies |
| `Backend.FirstDecisive` | auth/backend/multi.go:11-18 | the chain's reply, as the authenticator computes it for a chain backend: always the plain denial or a reply that matches or fails (which backend's reply it is: `FirstDecisiveAt`); an empty chain denies; a chain of in-memory backends never reports an error |
| `SimpleBackend.NewSimpleAuthBackend` | auth/backend/simple.go:11-13 | the backend stores the user list it is given, as it is |
| `SimpleBackend.Authenticate` | auth/backend/simple.go:15-26 | never an error; an unknown domain or an unknown user gives a plain denial; a match exactly when the domain and the user are present and the stored password equals the given one |
| `SimpleBackend.AuthenticateMatchesAccepted` | auth/backend/simple.go:15-26 | compared with the set of (user, password, domain) triples the user list holds: the reply is a match exactly for the members of that set, and never an error |
| `SimpleBackend.Scenarios` | auth/backend/simple_test.go:21-75 | the test table: valid credentials match; a wrong domain, a wrong user or a wrong password is denied |
| `MultiBackend.NewMultiAuthBackend` | auth/backend/multi.go:7-9 | the chain keeps the given backends, the same ones in the same order |
| `MultiBackend.Authenticate` | auth/backend/multi.go:11-18 | the loop's reply equals `FirstDecisive`; it invokes backends 0, 1, 2, ... in order, each once and with the same credentials; every backend before the last one invoked denied without error; it stops early only at a backend that matched or failed and returns that backend's reply; otherwise it invokes all of them and denies |
| `MultiBackend.FirstDecisiveAt` | auth/backend/multi.go:12-16 | if backend k is the first to match or fail, the chain's reply is exactly backend k's reply, whatever the later backends would answer |
| `MultiBackend.DeniedIffAllDeny` | auth/backend/multi.go:12-17 | the chain gives a plain denial exactly when every backend denies without error (both directions); in particular an empty chain always denies |
| `MultiBackend.ReplyComesFromBackend` | auth/backend/multi.go:12-17 | every reply of the chain is either the plain denial or a reply that one of its backends gave |
| `MultiBackend.MatchedOnlyIfSomeBackendMatched` | auth/backend/multi.go:13-17 | the chain matches only if some backend in it matched |
| `MultiBackend.Scenarios` | auth/backend/multi_test.go:17-87 | the test table (no backends; one that matches; one that denies; deny then match; two denials; one that fails), plus two orderings of a failing and a matching backend: whichever comes first decides |
| `Authenticator.NewDomainAuthenticator` | auth/authenticator.go:18-22 | a new authenticator delegates to the given backend, with no default domain and no user map |
| `Authenticator.Authenticate` | auth/authenticator.go:24-35 | the backend is asked exactly once, with the username and password untouched and the domain replaced by the default only when it is empty; a backend error becomes a denial carrying a backend-kind error that wraps it; otherwise the backend's boolean is returned with no error; a match never comes with an error |
| `Authenticator.AuthenticateMailAddress` | auth/authenticator.go:37-57 | the reply is an invalid-address error exactly when the address does not have exactly one '@'; then nothing is asked, neither the user map nor the backend; a match never comes with an error |
| `Authenticator.ExplicitDomainIgnoresDefault` | auth/authenticator.go:24-29 | with a non-empty domain the result does not depend on the default domain, and the backend is asked about that domain |
| `Authenticator.EmptyDomainIsDefault` | auth/authenticator.go:25-29 | an empty domain is the same request as one naming the default domain, even when the default is itself empty |
| `Authenticator.MailAddressWithoutAlias` | auth/authenticator.go:43-56 | without a user map, or when the local part is not an alias, the reply is that of `Authenticate(local, password, domain)`; the user map, if present, is asked only `IsAlias`; the last call is the backend with the local part and the effective domain |
| `Authenticator.MailAddressWithAlias` | auth/authenticator.go:46-56 | for an alias that resolves, the reply is that of `Authenticate(canonical name, password, domain)`, and the calls are, in order, `IsAlias`, `Resolve`, then the backend with the canonical name |
| `Authenticator.MailAddressAliasFailure` | auth/authenticator.go:46-51 | for an alias that fails to resolve, the result is a denial carrying an alias-kind error that wraps the cause; the local part is not tried instead and the backend is never asked |
| `Authenticator.MailAddressParts` | auth/authenticator.go:38-56 | for an address with exactly one '@', the parts rebuild the address; every user-map call is about the local part and the split domain; every backend call is about the effective domain of the split domain |
| `Authenticator.EmptyLocalPartAccepted` | auth/authenticator.go:38-45 | without a user map, "@" + domain is accepted, and the backend is asked with an empty username |
| `Authenticator.EmptyDomainPartGetsDefault` | auth/authenticator.go:25-27 | without a user map, local + "@" is accepted, and the backend is asked about the default domain |
| `Authenticator.AuthenticateScenarios` | auth/authenticator_test.go:30-88 | the test table for `Authenticate`: unknown credentials are denied; valid ones match; an empty domain with default "domain.com" matches |
| `Authenticator.InvalidAddressScenario` | auth/authenticator_test.go:99-105 | "invalid" (no '@') gives the invalid-address error |
| `Authenticator.PlainAddressScenario` | auth/authenticator_test.go:106-112 | "realuser@domain.com" matches without a user map |
| `Authenticator.AliasAddressScenario` | auth/authenticator_test.go:113-130 | "alias@domain.com" matches once the user map resolves "alias" to "realuser" |

## Left out

- Error message text and Go's error wrapping are not modelled. Each error is a
  kind constructor that carries the error it wraps.
- Backends and user maps other than the two in-memory implementations are pure
  functions of their arguments (`Backend.Custom`, `UserMap.UserMapper`). A
  collaborator whose answers change between calls is not modelled. That
  includes an alias that disappears between `IsAlias` and `Resolve`. The
  model still covers the case where `IsAlias` says yes and `Resolve` fails.
- Concurrency is not modelled. The core holds no per-call mutable state. Every
  operation is a function, or a method that changes no state
  (`MultiBackend.Authenticate`), so repeated identical calls give identical
  results by construction.
- Go strings are byte sequences; here they are sequences of characters. This
  changes nothing for this code: '@' is one byte that never occurs inside a
  multi-byte UTF-8 sequence, and passwords are only compared for equality.
- The in-memory backend's user list is a value, so an authentication cannot
  change it. Go's sharing of the map by reference is not modelled.
- Assigning `DefaultDomain` or `UserMap` after construction is modelled as a
  datatype update. Go's pointer receivers and nil interfaces are modelled as
  `Option`.
- The mock types in the test files are not modelled. Their scenarios are
  restated as concrete backends and user maps in the `Scenarios` lemmas.
- `MultiBackend.Authenticate`'s invocation log only covers the backends the
  chain itself calls. The calls made inside a nested chain are covered by
  `Backend.FirstDecisive`.
