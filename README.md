# JWKS server: key store and token issuance

This project models the core of a small JSON Web Key Set (JWKS) server. The
server keeps an in-memory list of RSA signing keys. Each key has a key id
(`kid`), a private key as PEM text, a public descriptor in JWK form and an
expiry time `expires_at`. At startup the server appends one valid key and one
expired key to the list. It answers two requests:

- **discovery** (`/jwks`, `/.well-known/jwks.json`) publishes the descriptors
  of the keys with `expires_at > now`, in list order;
- **auth** (`/auth?expired=…`) takes the first key of the requested class. An
  expired request wants `expires_at <= now`; a normal one wants
  `expires_at > now`. It fails with 404 when there is no such key. Otherwise it
  signs the claims `sub = "fake_user"`, `iat = now` and
  `exp = now - 60` (expired) or `exp = now + 3600` (normal), with the key's
  `kid` in the token header.

Modules, one per component of `main.py`:

- `Wrappers`: `Option` and `Result`.
- `Keys`: the key record, the descriptor stamping (`kid`, `alg = RS256`,
  `kty = RSA`, `use = sig`), key generation with its ±3600 s expiry, validity,
  the selection classes and the invariant of the key list.
- `Store`: class `KeyStore`, whose `keys` field is the list. Its methods are
  the appends done at startup.
- `Discovery`: the discovery filter `Jwks` and lemmas that pin down its result
  exactly: membership, position and order.
- `Issuance`: first-match key selection, claim construction, the `Auth`
  handler and how issued tokens relate to the discovery document.
- `Server`: what the server answers after the startup seeding.

Inputs the server gets from its environment are parameters:

- the clock reading is an integer `now` (each call to the key generator reads
  its own clock, so `Startup` takes two times);
- the random UUID is a `kid` argument that must not already be in use;
- the RSA key material is a `KeyMaterial` value (private PEM and the library's
  JWK dictionary);
- RS256 signing is a function-typed `Signer` argument.

`Auth` returns the header and claims along with the signer's compact string.
These are what any reader decodes from the token without checking its
signature. The handlers are functions of the key list, so they cannot change it.

## Model

| member | source | states |
|---|---|---|
| `Keys.InClass` | main.py:84 | the selection condition for `expired` / not `expired`; a key is in exactly one of the two classes at any time |
| `Keys.Stamp` | main.py:43-48 | the updated descriptor carries the given `kid`, `alg = "RS256"`, `kty = "RSA"`, `use = "sig"`; it has exactly the library's fields plus those four; every other field is kept unchanged |
| `Keys.GenerateKeypair` | main.py:42-58 | the record's `kid` equals its descriptor's `kid`; the private PEM and the library's other JWK fields are carried over; `expires_at` is `now - 3600` when expired, else `now + 3600`; so an expired key is expired at creation and a valid key is valid; each stays in its class for the following hour |
| `Keys.KidsAppend` | main.py:62-63 | appending a record adds exactly its `kid` to the set of ids in use |
| `Keys.AppendPreservesInvariant` | main.py:62-63 | appending a well-formed record under an unused `kid` keeps every descriptor naming its own record's `kid` and all `kid`s distinct |
| `Store.KeyStore.constructor` | main.py:13 | the key list starts empty and satisfies the invariant |
| `Store.KeyStore.Add` | main.py:62-63 | the list becomes the old list plus the generated record, the ids in use grow by that `kid`, and the invariant is kept |
| `Store.Startup` | main.py:13-63 | startup yields a list holding exactly the valid key and then the expired key, satisfying the invariant |
| `Discovery.Jwks` | main.py:72 | at most one descriptor per record; the lemmas below pin down its content |
| `Discovery.JwksPrefix` | main.py:72 | the document for a prefix of the key list is a prefix of the whole document, so the filter keeps list order |
| `Discovery.JwksAt` | main.py:72 | every key with `expires_at > now` has its descriptor in the document, at the position given by the number of valid keys before it |
| `Discovery.JwksInOrder` | main.py:72 | an earlier valid key is published at an earlier position than any later key |
| `Discovery.JwksPositions` | main.py:72 | every position of the document holds the descriptor of some valid key, so nothing else is published |
| `Discovery.JwksMembership` | main.py:72 | a descriptor is published iff some key with `expires_at > now` carries it |
| `Discovery.JwksEmpty` | main.py:72-73 | the document is empty iff no key is valid, and that empty list is a normal result |
| `Discovery.ExpiredKidNeverPublished` | main.py:72 | under the invariant, every published descriptor has a `kid` and none equals the `kid` of a key with `expires_at <= now` |
| `Issuance.SelectKey` | main.py:84 | returns the first index whose key is in the requested class, with none before it in that class; returns none iff no key is in that class |
| `Issuance.BuildClaims` | main.py:90-95 | `sub = "fake_user"`, `iat = now`, `exp = now - 60` when expired and `now + 3600` otherwise; so `exp < iat` iff expired and `exp > iat` iff not |
| `Issuance.Auth` | main.py:81-101 | fails iff no key is in the requested class, and then with 404 "Requested key type not found"; on success the claims are those of `BuildClaims`, the header `kid` is the first matching key's `kid`, and the token is the signer applied to those claims, that header and that key's private PEM |
| `Issuance.ValidTokenKidPublished` | main.py:72-96 | for a normal request, the header `kid` belongs to a descriptor in the discovery document at the same `now`; the only published descriptor with that `kid` is the signing key's own |
| `Issuance.ExpiredTokenKidUnpublished` | main.py:72-96 | for an expired request, no published descriptor at the same `now` carries the header `kid` |
| `Server.StartupAnswers` | main.py:62-96 | while the startup valid key is within its hour: discovery returns exactly that key's descriptor (so at least one key, as test_main.py:14 expects); a normal request is signed with the valid key and an expired request with the expired key (test_main.py:16-26) |
| `Server.StartupKeysLapse` | main.py:62-87 | once the startup valid key's hour is over, discovery is empty and a normal request fails with 404, because nothing adds keys after startup |

## Left out

- RSA key generation, PEM serialisation and `jwk.construct(...).to_dict()` (main.py:19-39) are calls into cryptographic libraries. Their results enter as an opaque `KeyMaterial` argument.
- `jwt.encode` (main.py:99) is RS256 signing and compact serialisation. It is the unconstrained `Signer` argument. Signature verification is not modelled. The header fields the library adds itself (`alg`, `typ`) are not modelled either.
- `uuid.uuid4()` (main.py:42) is random and only unique with high probability. The `kid` is an argument; `Add` and `Startup` require it not to be in use already.
- `time.time()` (main.py:51, 71, 81) is read from the clock. It becomes the integer parameter `now`, already truncated to whole seconds as `int(...)` does.
- The FastAPI routes and decorators, the `{"keys": …}` and `{"token": …}` response wrappers, the `HTTPException` transport and `uvicorn.run` (main.py:6-10, 65-66, 73, 75-76, 87, 101-104) are HTTP plumbing. The 404 is the `KeyNotFound(404, …)` error value.
- Concurrency is not modelled: the list is written only at startup, before any request is served.
