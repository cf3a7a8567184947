# booth-core: verified models of its dense cores

booth-core is a control plane. Most of it is plumbing, but it holds a few small protocols, codecs and
loops whose correctness cannot be read off one function. This project models those in Dafny, one
module per component, and proves what the components promise together:

* the PostgreSQL wire codec, the startup message, the SCRAM-SHA-256 client, the verifier that the
  database provisioner stores for it, and the login loop that drives them;
* the credential sidecar's lease renewer and the proxy state it feeds, and the startup retry;
* the create-then-adopt protocol for keys shared by replicas, and the Secret/server password protocol;
* the debounced user-directory recorder and the role cap on minted tokens that depends on it;
* the identity-settings merge, the iframe session token, public-path cleaning, event-bus grants and the
  module minting credential.

Code that works by changing things in place is modelled by classes and methods (a connection, the
renewer, the recorder and its store, the API server as one replica sees it, the provisioner, nested
maps on the heap), each proved equal to a function of its inputs and old state. The theorems are about
those functions, over every input, every run and every interleaving. Strings and byte slices are
sequences of bytes. SHA-256, HMAC, PBKDF2, MD5 and key parsing are function-valued parameters, so every
statement holds for all such functions; base64, percent-encoding, decimal numbers, XOR, byte order and
sorting are modelled in full.

Places where the code does not do what its comments or a reader would expect are stated as results, each
with its exact condition:

* `Recorder.FingerprintUnambiguous`, `Recorder.DebounceExactly`: a NUL in a display claim, and nothing
  else, lets the debounce take one token for another.
* `IframeToken.ClaimCodec`, `Credential.RoundTrip`: the separators are assumed absent, not checked, so
  decoding fails exactly when one occurs.
* `IdentityLaws.OrderFreeAt`, `IdentityLaws.OrderFreeExactly`: overlapping annotation paths that the caller
  left open make an install depend on Go's map order.
* `ProxyCredential.ToldTooEarlyExactly`, `ProxyCredential.TornExactly`: the proxy's two atomics are stored
  and loaded one by one, so in two windows a client is told that there never was a lease.
* `PasswordAgreement.CompletesExactly`: a lost role or database goes unnoticed exactly when a usable Secret
  is read within the recheck window.
* `PasswordAgreement.ClosedExactly`, `PasswordAgreement.LeftOpen`: an ensure that makes a lost database again
  and fails before its last statement leaves it open to other roles, and later ones do not close it.
* `KeyAgreement.RenderedExactly`: a ConfigMap left from other keys of the same account is kept.
* `Startup.StartupRoundTrip`: NULs are written but not read back, and a long body wraps the length.
* `Frame.MessageRoundTrip`: a payload of 2^32-4 bytes or more wraps the length.

## Layout

| file | component |
|---|---|
| Text, Base64, Urls, Sorting | the parts of Go's standard library the code relies on |
| Frame, Startup, Scram, ScramServer, Handshake, Login | internal/sidecar/pgwire, internal/sidecar/postgres.go, the verifier of internal/dbprov/admin.go |
| Renewal, Coverage, ProxyCredential, Retry | internal/sidecar/renewal.go, internal/sidecar/postgres.go, internal/dbwait |
| KeyAgreement, PasswordAgreement | internal/natsauth/bootstrap.go, internal/workload/keys.go, internal/dbprov |
| Roles, Directory, Recorder, Mint | internal/auth, internal/directory, internal/workload/service.go |
| Identity, IdentityLaws | internal/lifecycle/identity.go |
| Grammars | the regular expressions of internal/natsauth, internal/eventbus, internal/auth and internal/workload |
| IframeToken, PublicPath, Grants, Credential | internal/gateway, internal/natsauth/permissions.go, internal/eventbus, internal/workload/keys.go |

`dafny verify dfyconfig.toml` checks everything.

## Model

| member | source | states |
|---|---|---|
| Frame.MessageRoundTrip | internal/sidecar/pgwire/frame.go:59-83 | A written message followed by anything is read back exactly, leaving what follows, if and only if its length fits 32 bits. |
| Frame.StreamRoundTrip | internal/sidecar/pgwire/frame.go:59-83 | Reading the concatenation of any sequence of written messages yields exactly that sequence and stops at the boundary. |
| Frame.StrictPrefixFails | internal/sidecar/pgwire/frame.go:59-73 | No strict prefix of a written message decodes. |
| Frame.DecodeExact | internal/sidecar/pgwire/frame.go:59-73 | Whatever decodes is the encoding of the message read, followed by what is left: framing is unambiguous. |
| Frame.MessageLayout | internal/sidecar/pgwire/frame.go:76-83 | Byte for byte: the kind, then four length bytes with the most significant first, counting themselves, then the payload. |
| Frame.ReadMessage | internal/sidecar/pgwire/frame.go:59-73 | Reading consumes and returns what the decoder says, on short streams and bad lengths too. |
| Frame.WriteMessage | internal/sidecar/pgwire/frame.go:76-83 | One write of the encoded message, or nothing when the connection fails. |
| Frame.ParseAuthenticationMessage | internal/sidecar/pgwire/frame.go:218-226 | An 'R' message splits back into its non-negative sub-code and the rest. |
| Startup.SplitCStrings | internal/sidecar/pgwire/frame.go:140-153 | The scanning loop cuts exactly at the NULs and refuses an unterminated last string. |
| Startup.ParseCStringPairs | internal/sidecar/pgwire/frame.go:121-138 | The loop gives the map of the pairs, the last value winning, with the terminator dropped and odd counts refused. |
| Startup.PairMapExactly | internal/sidecar/pgwire/frame.go:121-138 | Every other string names a parameter, the next one is its value, and the last value of a repeated name counts. |
| Startup.ReadStartupOrSslRequest | internal/sidecar/pgwire/frame.go:93-119 | The reader agrees with the specification of the untyped first message in every branch, and on what is consumed. |
| Startup.SslRequestExactly | internal/sidecar/pgwire/frame.go:101-106 | The eight bytes 0 0 0 8 04 d2 16 2f followed by anything, and nothing else, are read as an SSL request. |
| Startup.VersionAndLength | internal/sidecar/pgwire/frame.go:107-116 | A startup message is only read from protocol version 3.0 and is exactly as long as its first four bytes say. |
| Startup.WriteStartupMessage | internal/sidecar/pgwire/frame.go:162-177 | Writes the pairs in some order of the map, each once, with version, terminator and length. |
| Startup.StartupRoundTrip | internal/sidecar/pgwire/frame.go:93-177 | In whatever order the pairs are written, reading gives back the map, is no SSL probe and consumes exactly the written bytes, if and only if no key or value holds a NUL and the length fits 32 bits. |
| Scram.SaslEscapeRoundTrip | internal/sidecar/pgwire/scram.go:52-56 | Escaping removes every comma and RFC 5802 section 5.1 unescaping recovers every name. |
| Scram.EscapeFirst | internal/sidecar/pgwire/scram.go:52-56 | Character by character: "=3D" for "=", "=2C" for ",", and every other character itself. |
| Base64.EncodedBits | internal/sidecar/pgwire/scram.go:110-121 | The symbols of a base64 text hold the very bits of its bytes, most significant first, with zero bits and "=" at the end. |
| Base64.Alphabet | internal/sidecar/pgwire/scram.go:110-121 | Which symbol stands for which six bits, in both alphabets. |
| Scram.XorInvolution | internal/sidecar/pgwire/scram.go:149-155 | XOR with the same key twice is the identity, so the proof reveals the client key to the server. |
| Scram.XorBytes | internal/sidecar/pgwire/scram.go:149-155 | The array loop computes the exclusive or: every bit of every byte is one exactly when the bits of the two inputs differ. |
| Scram.XorEachBit | internal/sidecar/pgwire/scram.go:149-155 | Bit by bit: zero where the inputs agree and one where they differ. |
| Scram.ParseServerFirstLoop | internal/sidecar/pgwire/scram.go:74-101 | The attribute loop equals the recursive reading, with its skipped and refused attributes. |
| Scram.ServerFirstExactly | internal/sidecar/pgwire/scram.go:74-101 | Exactly which messages are read, and as what: all salts and counts decode, and the last nonce, salt and count are there, not empty and positive. |
| Scram.Client.ClientFirstWire | internal/sidecar/pgwire/scram.go:62-65 | Sends the GS2 header and the bare message, and remembers the latter for the proof. |
| Scram.Client.ClientFinalMessage | internal/sidecar/pgwire/scram.go:106-123 | Final message and expected signature over the same AuthMessage. |
| Scram.PerformScram | internal/sidecar/pgwire/scram.go:173-237 | Succeeds if and only if two writes work and the next three messages complete the exchange, and consumes exactly those; however it ends, it sends the first message if it can, and the final one exactly if the server's first message is in order and it can be written. |
| ScramServer.VerifierRoundTrip | internal/dbprov/admin.go:309-328 | The stored verifier text loses nothing: iterations, salt and both keys are read back. |
| ScramServer.ServerFirstReadBack | internal/sidecar/pgwire/scram.go:74-101 | The client reads back exactly the nonce, salt and count a server prints, and refuses exactly an empty nonce or a count that is not a positive 64-bit integer. |
| ScramServer.ClientFirstReadBack | internal/sidecar/pgwire/scram.go:52-65 | A server reads back exactly the user name, whatever bytes it holds, and the nonce. |
| ScramServer.InitialResponseReadBack | internal/sidecar/pgwire/scram.go:159-166 | A server reads back the mechanism and the response from the first message, if and only if the response's length fits 32 bits. |
| ScramServer.ServerAcceptsClient | internal/sidecar/pgwire/scram.go:106-123 | A server holding only the stored verifier accepts the client's proof (RFC 5802 section 3). |
| ScramServer.ClientAcceptsServer | internal/sidecar/pgwire/scram.go:128-141 | The client accepts a server-final-message exactly when it decodes to HMAC(ServerKey, AuthMessage). |
| ScramServer.MutualAuthentication | internal/sidecar/pgwire/scram.go:62-141 | For every user, password, salt, positive count and comma-free nonce extending the client's: through the printed texts in both directions, the verifier's holder accepts the client, and the client accepts that server's signature and nothing that decodes differently. |
| ScramServer.ProvisionedRoleAuthenticates | internal/dbprov/admin.go:309-328 | In particular for the text the provisioner hands to the database, with a drawn client nonce. |
| Login.ProvisionedLogin | internal/sidecar/postgres.go:211-299 | When the server holds the text the provisioner stored, offers SCRAM-SHA-256, answers as RFC 5802 says and gets ready, the login loop hands the connection back and leaves unread exactly what follows. |
| Login.StartupReadBack | internal/sidecar/postgres.go:218-222 | A server reads back exactly the credential's user and database under those names, and the client encoding. |
| Login.Md5Accepted | internal/sidecar/pgwire/frame.go:229-240 | A server that holds only "md5" and the digest of password and user accepts the reply to its four salt bytes. |
| Login.ClearTextRead | internal/sidecar/postgres.go:248-252 | A server that asked for clear text reads back the password. |
| Login.FirstSentRead | internal/sidecar/pgwire/scram.go:179-181 | A server that asked for SASL reads back mechanism, user and nonce from the first message of the exchange. |
| Login.FinalSentRead | internal/sidecar/pgwire/scram.go:196-209 | And the final message, letter for letter, from the second. |
| Login.SimpleLogins | internal/sidecar/postgres.go:243-258 | Against a server that trusts the client, or is satisfied with its password or MD5 answer, the login succeeds too. |
| ScramServer.HonestExchangeSucceeds | internal/sidecar/pgwire/scram.go:173-237 | Against an honest server the exchange on the wire succeeds and consumes exactly its three messages. |
| ScramServer.NonceCommaFree | internal/sidecar/pgwire/scram.go:43-49 | A drawn nonce never holds a comma. |
| Handshake.DialAndAuthenticate | internal/sidecar/postgres.go:211-280 | Terminates on every finite stream, hands back a connection exactly when the login specification accepts the stream with the writes available, and, however it ends, has sent one startup message and what the specification owes to each message read. |
| Handshake.AwaitDecision | internal/sidecar/postgres.go:225-279 | The message loop runs the login specification, from any point of the stream, and sends exactly what it owes. |
| Handshake.DrainToReadyForQuery | internal/sidecar/postgres.go:286-299 | Stops after the first ReadyForQuery unless an ErrorResponse or the end comes first. |
| Handshake.LoginCharacterised | internal/sidecar/postgres.go:211-299 | Exactly which streams log in: undecided messages, then AuthenticationOK or a completed SCRAM exchange, then messages up to ReadyForQuery; with the rest left unread. |
| Handshake.RepliesInOrder | internal/sidecar/postgres.go:225-279 | What a decided run of messages makes the loop send: one reply for each password request, in order, and then what the exchange sends. |
| Handshake.LoginSends | internal/sidecar/postgres.go:259-274 | For the proxy, the exchange is the client's two SCRAM messages if the server asked for SASL, and nothing otherwise. |
| Handshake.VerdictExactly | internal/sidecar/postgres.go:225-276 | What the loop makes of every message, by its kind, code and mechanism list. |
| Handshake.SaltExactly | internal/sidecar/postgres.go:253-256 | The salt is the first four bytes of the request, filled up with NULs. |
| Handshake.HandshakeSafety | internal/sidecar/postgres.go:211-299 | A connection comes back only after an AuthenticationOK and then a ReadyForQuery with no ErrorResponse before it; if the server asked for SASL, the nonce extended the client's and the signature matched before that AuthenticationOK. |
| Handshake.ExchangeExactly | internal/sidecar/pgwire/scram.go:173-237 | Three messages complete the exchange exactly when they carry an extended nonce, the signature of RFC 5802 section 3 and AuthenticationOK. |
| Renewal.Renewer.Run | internal/sidecar/renewal.go:100-118 | The imperative renewer equals the specification of a run on every history of answers and cancellations, with the way it returns: the refusal, the context's error, or nil. |
| Renewal.Renewer.ObtainFirst | internal/sidecar/renewal.go:120-143 | First acquisition: success, fatal refusal or cancellation, after exactly one wait of the doubling backoff for each retried outage. |
| Renewal.Renewer.MaybeRenew | internal/sidecar/renewal.go:147-158 | Asks the broker exactly when the lease is due, and keeps the lease on any failure. |
| Renewal.Renewer.Apply | internal/sidecar/renewal.go:169-175 | Stores response and local time together, becomes ready, and hands the response to OnRenew. |
| Renewal.RunsAreFaithful | internal/sidecar/renewal.go:100-175 | In every run OnRenew has seen exactly the successes in order, Current is the latest, Ready means there is one; a run ends by refusal exactly when the last answer is a refusal with no success before it; a cancelled run returns an error only before the first lease and nil only after it. |
| Renewal.ObtainedAt | internal/sidecar/renewal.go:120-143 | After any number of uncancelled outages, an issued lease makes the renewer ready with it, a refusal is returned, and a cancelled wait returns the context's error; every call up to it was made. |
| Renewal.ObtainedNever | internal/sidecar/renewal.go:120-143 | As long as every call is an uncancelled outage the acquisition goes on. |
| Renewal.RunEndsExactly | internal/sidecar/renewal.go:100-143 | Exactly how every run ends: by a refusal, by the context's error only in the wait after an outage, and with nil exactly at a cancellation after the first lease. |
| Renewal.GoesOnUntilCancelled | internal/sidecar/renewal.go:100-118 | Renewals handle every tick before the first cancellation and none after it. |
| Renewal.OneMoreTick | internal/sidecar/renewal.go:147-175 | One tick at any point of a run: the broker is asked exactly when the remaining time is at most the margin or half the lifetime; only an issued answer changes the lease. |
| Renewal.ReadyNeverReverts | internal/sidecar/renewal.go:65-79 | As a run goes on Ready stays true and what OnRenew has seen only grows. |
| Renewal.BackoffClosedForm | internal/sidecar/renewal.go:120-143 | The waits are 1, 2, 4, 8, 16 and then 30 seconds. |
| Coverage.NoGap | internal/sidecar/renewal.go:100-175 | Every instant from the first lease on is covered by an unexpired lease whenever every lifetime is at least (k+1)*(Interval+C) and every margin at least one unit less, calls last at most C and at most k renewals fail in a row. |
| Coverage.LifetimeIsExact | internal/sidecar/renewal.go:147-167 | One unit of lifetime less and it fails, however large the margin: for every interval, call bound and k a run within the bounds has a gap. |
| Coverage.MarginIsExact | internal/sidecar/renewal.go:147-167 | One unit of margin less and it fails, however long the lifetimes. |
| Coverage.HalfLifetimeRoom | internal/sidecar/renewal.go:162-167 | In half-lifetime mode, truncation included, a lease meets the bounds of NoGap for room r exactly when its lifetime is at least 2*(r-1), or 1 when r is 1. |
| Coverage.HalfLifetimeIsExact | internal/sidecar/renewal.go:147-167 | One unit of lifetime less in half-lifetime mode and there is a run with a gap. |
| Coverage.TracksRenewer | internal/sidecar/renewal.go:100-158 | The lease the coverage result speaks of is the one Current returns. |
| ProxyCredential.PostgresProxy.SetCredential | internal/sidecar/postgres.go:71-92 | A null stores no credential and then the revoked flag; a decodable credential is stored and then the flag cleared; anything else stores nothing. |
| ProxyCredential.PostgresProxy.AnswerClient | internal/sidecar/postgres.go:159-167 | Two loads with whatever the renewer stores in between: a credential in the first is forwarded, else the flag in the second decides what the client is told. |
| ProxyCredential.LastWord | internal/sidecar/postgres.go:71-100 | Between two calls of setCredential the (current, revoked) pair depends only on the last null-or-decodable response, and revoked then implies no credential. |
| ProxyCredential.NullOrAbsentExactly | internal/sidecar/postgres.go:97-100 | A credential is null or absent exactly when it is `null` between ASCII white space, or white space alone. |
| ProxyCredential.AnswerInEveryRun | internal/sidecar/postgres.go:71-167 | Composed with the renewer, for clients whose loads overlap no setCredential: at every point of every run "revoked" is told exactly when the last meaningful lease was null, "no lease yet" exactly when there was none, and otherwise that lease's credential is used. |
| ProxyCredential.AnsweredExactly | internal/sidecar/postgres.go:71-167 | For every interleaving of the two loads with the stores: a forwarded credential is that of the last response begun before the first load; otherwise "revoked" is told exactly when the last response finished before the second load is a null. |
| ProxyCredential.ToldTooEarlyExactly | internal/sidecar/postgres.go:71-167 | Once a meaningful response has begun before the first load, "no lease yet" is told exactly when it is a null and both loads fall between its two stores (it being the first, or following a grant), or a later grant is stored whole between the loads. |
| ProxyCredential.ToldTooEarly | internal/sidecar/postgres.go:71-167 | Both windows are real. |
| ProxyCredential.TornExactly | internal/sidecar/postgres.go:82-91 | Revoked with a credential is seen exactly between the two stores of a grant right after a null. |
| ProxyCredential.AnswersAcrossRun | internal/sidecar/postgres.go:71-167 | In every interleaving of every run, "revoked" is told only after the broker sent a null, and only a credential the broker granted is forwarded. |
| Retry.Retry | internal/dbwait/retry.go:34-61 | Terminates with measure deadline minus now and equals the specification of a run. |
| Retry.RetryBounds | internal/dbwait/retry.go:34-61 | With timers that never fire early: total wait after n sleeps is at least the closed form, giving up only at or after maxElapsed, success at the first succeeding call, and no more attempts than the closed form allows. |
| Retry.BackoffSumClosedForm | internal/dbwait/retry.go:39-59 | n sleeps ask for 500*(2^n-1) ms up to n = 4 and 7500+8000*(n-4) ms after. |
| Retry.DefaultAttempts | internal/dbwait/retry.go:34-61 | The one-minute default makes at most twelve attempts. |
| Retry.BoundReached | internal/dbwait/retry.go:34-61 | The attempt bound is exact for every deadline. |
| Retry.TwelveReached | internal/dbwait/retry.go:34-61 | The twelfth attempt of the default is reached, after 63.5 seconds. |
| Retry.ExactSleeps | internal/dbwait/retry.go:34-61 | With exact sleeps a run ends at most eight seconds and one call after maxElapsed. |
| KeyAgreement.KeysAgree | internal/natsauth/bootstrap.go:41-138 | Any number of replicas, every interleaving of calls, faults and restarts: stored keys never change, every success holds exactly them then and later, and each event-bus success leaves a ConfigMap rendered from keys of the same account public name, which no later step un-renders. |
| KeyAgreement.RenderedExactly | internal/natsauth/bootstrap.go:99-138 | Every success in every run leaves a ConfigMap rendered from the very keys it returns, then and later, if and only if a ConfigMap found at the start was not rendered from other usable keys with the public name of the account that the Secret holds or could come to hold. |
| KeyAgreement.SuccessesAgree | internal/natsauth/bootstrap.go:41-97 | Any two successes at any moments hold the same keys. |
| KeyAgreement.LoserAdopts | internal/natsauth/bootstrap.go:74-97 | For each of the three protocols: a replica that loses the race to create the Secret adopts the winner's keys, drops its own, and succeeds unless they do not parse; a password it adopts whatever it is. |
| KeyAgreement.UndisturbedSucceeds | internal/natsauth/bootstrap.go:41-138 | For each protocol: left alone, a replica ends with the stored keys, or else the drawn ones, and succeeds exactly when they are usable; drawn workload keys and passwords always are. |
| KeyAgreement.UndisturbedLoads | internal/natsauth/bootstrap.go:41-138 | Alone and with a Secret, a replica succeeds exactly when the stored keys are usable (the password: not empty), leaves the Secret alone, and writes the ConfigMap only if it does not carry their public name. |
| KeyAgreement.UndisturbedCreates | internal/workload/keys.go:93-128 | Alone and without a Secret, a replica stores and takes the keys it drew; only the event bus parses them again. |
| KeyAgreement.RenderRaces | internal/natsauth/bootstrap.go:115-138 | A ConfigMap that another replica creates first is accepted, and one it changes first is a failure. |
| KeyAgreement.ErrorsFail | internal/natsauth/bootstrap.go:41-138 | A call that reports an error ends in failure, with the effect it had or none. |
| KeyAgreement.LoadOrCreate | internal/natsauth/bootstrap.go:41-59 | The code makes exactly the machine's steps, whatever other replicas and faults do between its calls; among others that do only what replicas do, returned keys are the stored ones and the ConfigMap is rendered for them. |
| KeyAgreement.ExecutionKeeps | internal/natsauth/bootstrap.go:41-138 | A replica among cooperating others ends in the state the invariant of the whole machine describes. |
| KeyAgreement.RunsCooperate | internal/natsauth/bootstrap.go:41-138 | Whole runs of other replicas are cooperative in that sense. |
| KeyAgreement.CreateSeeds | internal/natsauth/bootstrap.go:74-97 | Creates, or adopts when another replica won. |
| KeyAgreement.EnsureServerConfig | internal/natsauth/bootstrap.go:99-138 | Get, then create or a versioned update, only when missing or rendered from other keys. |
| KeyAgreement.LoadOrCreateKeys | internal/workload/keys.go:93-128 | The workload keys' code makes exactly the machine's steps, and returned keys are the stored ones. |
| KeyAgreement.EnsureAdminPassword | internal/dbprov/provision.go:270-305 | The superuser password's code makes exactly the machine's steps, the unchecked adopted value included, and a returned password is the stored one. |
| PasswordAgreement.PasswordsAgree | internal/dbprov/provision.go:136-231 | One provisioner, failures after any step, crashes, lost role, database or Secret: the published password equals the role's whenever both exist, at every moment of every run. |
| PasswordAgreement.NothingDropped | internal/dbprov/provision.go:201-218 | No step of the provisioner, removal included, drops a database or role. |
| PasswordAgreement.SuccessIsComplete | internal/dbprov/provision.go:136-199 | In every run, an ensure that asked the server and succeeded without a loss since it began leaves role, database and Secret present and in agreement. |
| PasswordAgreement.EnsureCompletes | internal/dbprov/provision.go:136-225 | An ensure that begins without a usable Secret or after the recheck window, without losses while it runs, either fails or leaves everything present and in agreement. |
| PasswordAgreement.EnsureHeals | internal/dbprov/provision.go:136-199 | Without faults and losses an ensure always succeeds, whatever it finds, and when it asks the server it leaves everything present and in agreement. |
| PasswordAgreement.CompletesExactly | internal/dbprov/provision.go:149-178 | For every Secret, memory and clock: every ensure without losses fails or completes, whatever agreeing role and database it finds, if and only if there is no usable Secret or the last verification is a recheck interval ago. |
| PasswordAgreement.WindowHidesLoss | internal/dbprov/provision.go:149-178 | Otherwise, for every Secret, memory and clock, a fault-free ensure succeeds although the role is gone. |
| PasswordAgreement.PasswordHonoured | internal/dbprov/provision.go:144-158 | A published password is the one in use; only for want of one is the drawn one. |
| PasswordAgreement.NothingToDo | internal/dbprov/provision.go:159-178 | An ensure that finds everything in place changes nothing. |
| PasswordAgreement.ClosedExactly | internal/dbprov/admin.go:255-272 | A success that asked the server remembers when, and leaves a database that is closed to other roles, if and only if it did not find role, published password and an open database in place. |
| PasswordAgreement.LeftOpen | internal/dbprov/provision.go:159-172 | So two ensures, the first failing at its last statement, leave a database open although the second succeeds without any fault. |
| PasswordAgreement.RemovesOursOnly | internal/dbprov/provision.go:203-218 | Removal, whatever happens around it: an unmarked Secret is left alone with every fault, a marked one is gone when no call fails, and role and database are not touched. |
| PasswordAgreement.ExecutionIsRun | internal/dbprov/provision.go:136-218 | A whole call of the provisioner with events between its steps is a run of the machine. |
| PasswordAgreement.ExecutionAgrees | internal/dbprov/provision.go:136-218 | Whatever fails or is lost while one ensure or removal runs, agreement is kept. |
| PasswordAgreement.Provisioner.Ensure | internal/dbprov/provision.go:136-199 | The code makes exactly the machine's steps, returns the DSN of the password in use, and leaves the memory of other databases alone. |
| PasswordAgreement.Provisioner.AdminEnsure | internal/dbprov/admin.go:197-272 | Role and password, database, revocation, in that order, stopping at the first failure. |
| PasswordAgreement.Provisioner.Publish | internal/secrets/provisioner.go:45-69 | Reads the Secret and creates or updates it. |
| PasswordAgreement.Provisioner.RemoveOurs | internal/dbprov/provision.go:203-218 | Deletes only a Secret that carries the mark. |
| Roles.GroupEntryReadBack | internal/auth/workspace.go:51-76 | Exactly the entries "/workspaces/", slug, "/" and owner, editor or viewer are read, as what they say. |
| Roles.MembershipsOf | internal/auth/workspace.go:63-76 | Memberships are exactly the readable entries. |
| Roles.DeriveMembershipsLoop | internal/auth/workspace.go:63-76 | The loop collects them in order. |
| Roles.LesserRoleNamed | internal/auth/workspace.go:19-43 | Of two real roles the lesser is viewer if either is, else editor if either is, else owner; with any other role there is none. |
| Directory.MemoryStore.Upsert | internal/directory/memory.go:24-30 | Stores the merge of the old entry and the new one, and touches no other subject. |
| Directory.MemoryStore.Get | internal/directory/memory.go:32-40 | Finds a user only through a workspace it belongs to. |
| Directory.RolesOfLeast | internal/directory/recorder.go:113-122 | The recorded role is one of those listed for the workspace and ranks at most every one of them, whatever order or duplicates. |
| Directory.RecordedRole | internal/directory/recorder.go:113-122 | For a groups claim, letter for letter: a workspace is recorded as viewer if any entry says so, else editor, else owner, and not at all if no entry names it. |
| Directory.RolesOfLoop | internal/directory/recorder.go:113-122 | The loop computes that map. |
| Directory.WorkspacesOfLoop | internal/directory/recorder.go:95-107 | The loop lists each workspace once, in byte order. |
| Directory.RecordedWorkspaces | internal/directory/recorder.go:95-107 | The recorded workspaces are exactly those that some entry names, once each, in byte order. |
| Directory.FingerprintOrderFree | internal/directory/recorder.go:126-133 | The fingerprint does not depend on the iteration order of the role map. |
| Directory.FingerprintLoop | internal/directory/recorder.go:126-133 | The loop computes it in any order. |
| Sorting.SortStringsOrderFree | internal/directory/recorder.go:126-133 | Sorting forgets the order of its input, duplicates included. |
| Sorting.LeqExactly | internal/directory/recorder.go:126-133 | The order of strings: the first differing byte decides, and a prefix comes first. |
| Recorder.FingerprintInjective | internal/directory/recorder.go:126-133 | As soon as one of two users has no NUL in its display claims, fingerprints are equal if and only if claims, workspaces and roles are. |
| Recorder.NulCollides | internal/directory/recorder.go:126-133 | Every user with a NUL in username, name or email shares its fingerprint with one whose username or name a store would show differently. |
| Recorder.FingerprintUnambiguous | internal/directory/recorder.go:124-133 | A fingerprint stands for one user's data alone if and only if no display claim of that user holds a NUL. |
| Recorder.FingerprintFixesAccess | internal/directory/recorder.go:124-133 | Equal fingerprints mean equal workspaces and roles, whatever the display claims hold. |
| Recorder.Recorder.Observe | internal/directory/recorder.go:56-93 | The code makes exactly the step of the specification, failed writes and skipped tokens included. |
| Recorder.Recorder.ResetSeen | internal/directory/recorder.go:48-52 | Forgets what was written, and leaves the store alone. |
| Recorder.DebounceRefines | internal/directory/recorder.go:56-93 | Over every serialised run with any failures: workspaces, roles and FirstSeenAt equal those of a recorder that upserts on every call and LastSeenAt trails by less than the interval; so do the display claims when no subject has two different recorded tokens with a NUL in them. |
| Recorder.DebounceExactly | internal/directory/recorder.go:56-93 | A token is debounced faithfully, whatever token of its subject comes next, if and only if none of its display claims holds a NUL. |
| Recorder.LosesToken | internal/directory/recorder.go:72-92 | The run of two calls at which the debounce takes a different token for the one before it. |
| Recorder.ClaimsNeverErased | internal/directory/directory.go:68-85 | Over every such run each display claim held for a subject is the last non-empty one among its recorded tokens. |
| Recorder.KnownExactly | internal/directory/recorder.go:56-93 | Exactly the non-empty subjects of tokens that could be written are in the directory. |
| Recorder.FirstSeen | internal/directory/directory.go:68-85 | FirstSeenAt is the time of the subject's first recorded token. |
| Recorder.RepeatWritten | internal/directory/recorder.go:72-92 | A token that repeats the one written just before is written again exactly when the interval has passed. |
| Recorder.ChangeWritten | internal/directory/recorder.go:124-126 | A token with other workspaces or roles is written at once. |
| Recorder.WrittenAfterReset | internal/directory/recorder.go:48-52 | After a reset the next token is written at once. |
| Recorder.RolesOfLastToken | internal/directory/recorder.go:56-122 | The directory holds, for each workspace of the subject's last recorded token, the least of the roles it lists for it, by name. |
| Mint.TokenReadsBack | internal/workload/service.go:255-323 | A minted token's groups are read back as exactly the requested workspace and granted role: viewer if ceiling or owner's role is viewer, else editor if either is, and owner only if both are. |
| Mint.RoleCapPerson | internal/workload/service.go:330-350 | Through recorder, store and mint: a person's token carries the lesser of the ceiling and of every role the person's last recorded token lists for that workspace, and that token does list it. |
| Mint.OwnerSeenRecently | internal/workload/service.go:325-350 | With a clock that does not run backwards, a person's token is minted only if the person's last recorded token is at most the maximal owner age old. |
| Mint.RecentOwnerMints | internal/workload/service.go:255-350 | Conversely, an admissible request is granted for a person whose last recorded token lists the workspace and is at most that age less the debounce interval old. |
| Mint.RoleCapServiceAccount | internal/workload/service.go:355-377 | A service account's token carries the lesser of the ceiling and the live stored role of an enabled account of the requested workspace. |
| Mint.ReservedKind | internal/workload/service.go:255-290 | A token with a subject of the kind "apiwrite" is minted only for the module "api". |
| Mint.GrantedExactly | internal/workload/service.go:255-391 | Exactly when a token is granted, and which refusal comes first: a malformed request, a module that may not mint that subject, an owner that holds no real role in the workspace. |
| Mint.OwnerRefusals | internal/workload/service.go:330-377 | Exactly when an owner is refused because the store cannot answer or the service account is disabled. |
| Mint.TokenSays | internal/workload/service.go:292-316 | What the token says: the one groups entry, subject, module and owner of the request, valid from now for the lifetime, and the lesser of the ceiling and a role the owner holds. |
| Grammars.SubjectExactly | internal/workload/service.go:115 | A run subject is accepted exactly when the regular expression matches it. |
| Grammars.GroupExactly | internal/auth/workspace.go:57 | So is a groups entry. |
| Identity.Values.HasLeafAt | internal/lifecycle/identity.go:126-144 | The walk over nested maps finds exactly a present path or a non-map on the way. |
| Identity.Values.SetLeafAt | internal/lifecycle/identity.go:147-162 | The walk writes the leaf in place and makes the maps on the way; nothing changes but that path, its prefixes and what was below it. |
| Identity.MergeIdentitySettings | internal/lifecycle/identity.go:84-121 | For the order the runtime picks, the maps in place and the sorted report equal the fold of single fills over that order; no annotation leaves everything alone. |
| IdentityLaws.NoEmptySetting | internal/lifecycle/identity.go:54-69 | Only recognised names, and never an empty value, are on offer. |
| IdentityLaws.GapFilled | internal/lifecycle/identity.go:147-162 | Filling a gap adds the path and the maps on the way and changes nothing: setLeaf never replaces anything. |
| IdentityLaws.MergeFillsGaps | internal/lifecycle/identity.go:84-162 | For every tree, mapping and order: what the caller set is unchanged, maps stay maps, each reported path was open and holds exactly core's value, nothing else is added, and every usable name ends up present. |
| IdentityLaws.SecondMergeAddsNothing | internal/lifecycle/identity.go:84-121 | A second merge, in whatever order, changes and reports nothing. |
| IdentityLaws.OrderFreeAt | internal/lifecycle/identity.go:101-120 | For every values tree: tree and report are the same for every iteration order if and only if, among the usable paths the caller left open, none equals another or is a prefix of it. |
| IdentityLaws.OrderFreeExactly | internal/lifecycle/identity.go:101-120 | On every tree at once: if and only if the usable paths are pairwise neither equal nor prefixes of one another. |
| IdentityLaws.MergeLaws | internal/lifecycle/identity.go:54-121 | The same laws for the plan that is run, in terms of the settings' own fields, the annotation, and what sits at each path. |
| Urls.QueryRoundTrip | internal/gateway/iframetoken.go:103-141 | Query escaping is undone by unescaping, for all bytes. |
| Urls.UnescapeExactly | internal/gateway/proxy.go:143-150 | A percent sign and two hexadecimal digits in either case are that byte, without them the text is refused, and "+" is a space in queries only. |
| IframeToken.ClaimCodec | internal/gateway/iframetoken.go:103-141 | Decoding gives back the claims with the expiry cut to whole seconds, for any bytes in the username, exactly when module, workspace, role and subject hold no pipe; otherwise it fails on the field count. |
| IframeToken.PayloadText | internal/gateway/iframetoken.go:103-113 | The text that is signed: the seven fields in order, with pipes between them. |
| IframeToken.VerifyInvertsIssue | internal/gateway/iframetoken.go:57-92 | Verify undoes Issue until the whole second of expiry, then refuses. |
| IframeToken.AcceptedExactly | internal/gateway/iframetoken.go:65-86 | A token is accepted exactly when it is a dot-free payload, a dot and the payload's signature, and the payload decodes to unexpired claims. |
| PublicPath.PublicPathIsSafe | internal/gateway/proxy.go:213-223 | The loop refuses exactly backslash, NUL and dot segments. |
| PublicPath.MatchesPublicRoute | internal/gateway/proxy.go:242-252 | The loop finds exactly whether some declared prefix starts the path. |
| PublicPath.PublicForward | internal/gateway/proxy.go:143-171 | Decode once, check, clean, match, as composed in the handler. |
| PublicPath.PrefixBySegments | internal/gateway/proxy.go:242-252 | A prefix ending in a slash is a textual prefix exactly when it is one element by element. |
| PublicPath.Confinement | internal/gateway/proxy.go:143-236 | A forwarded path has exactly the input's non-empty segments in order, no dot, dot-dot or empty interior segment, the input's trailing slash; it lies under a declared prefix segment by segment; cleaning again changes nothing. |
| PublicPath.ForwardedExactly | internal/gateway/proxy.go:143-252 | Exactly which requests are forwarded: those that decode to a rooted path without backslash, NUL and dot segments whose elements, with its own trailing slash, lie under a declared prefix. |
| Grants.GrantsFor | internal/natsauth/permissions.go:85-117 | The loops compute the grants of the specification, or the first malformed pattern. |
| Grants.DedupeLoop | internal/natsauth/permissions.go:125-136 | First occurrences, in order, without duplicates. |
| Grants.DedupeInOrder | internal/natsauth/permissions.go:125-136 | The grants stay in the order of their first occurrences. |
| Grants.GrantLanguage | internal/natsauth/permissions.go:62-117 | Granting fails exactly when some pattern is malformed; otherwise publishing is allowed for exactly the declared events, the six consumer API prefixes (for subscribers only) and the two info subjects, and subscribing for the inbox only. |
| Grants.InvalidExactly | internal/natsauth/permissions.go:92-107 | Refused is exactly the first malformed pattern, published ones first. |
| Grants.EventTexts | internal/natsauth/permissions.go:92-97 | A pattern grants "booth.*." and the pattern; an event goes to "booth.", workspace, "." and type. |
| Grammars.PatternExactly | internal/natsauth/permissions.go:27 | A pattern is well formed exactly when the regular expression matches it. |
| Grammars.EventTypeExactly | internal/eventbus/subjects.go:19 | So is an event type. |
| Grammars.WorkspaceExactly | internal/eventbus/subjects.go:20 | So is a workspace. |
| Grants.PublishExactly | internal/natsauth/permissions.go:92-97 | Subject(ws, e) may be published if and only if some declared pattern matches e token for token. |
| Grants.SplitDotted | internal/eventbus/subjects.go:24-32 | A subject's tokens are the literal, the workspace and the event type's own tokens. |
| Grants.NothingDestructive | internal/natsauth/permissions.go:62-81 | No declaration allows a stream delete, purge or update, a message delete or a consumer delete. |
| Grants.HashInputExactly | internal/natsauth/permissions.go:53-60 | Two grants hash the same text exactly when their lists hold the same entries equally often. |
| Grants.HashText | internal/natsauth/permissions.go:53-60 | The hashed text: publish grants one to a line, a NUL, the subscribe grants. |
| Grants.GrantsAreClean | internal/natsauth/permissions.go:53-60 | Derived grants never hold the separators that result relies on. |
| Credential.RoundTrip | internal/workload/keys.go:173-200 | An issued credential authenticates its own module exactly when the id is non-empty and dot-free, and otherwise nobody. |
| Credential.AuthenticatesExactly | internal/workload/keys.go:190-200 | A text authenticates a module exactly when it is the prefix, the id and a text decoding to that id's hash. |

## Left out

- HTTP handlers, routing, reverse-proxy transport, Helm, logging, configuration, `cmd/`: plumbing over libraries; only the logic named above is modelled.
- Cryptography: hash functions, MD5, key generation and parsing, JWT signing and random draws are parameters. Agreement results need nothing of them; where freshness matters (`PasswordAgreement.NewPassword`) it is an explicit assumption about the drawn password.
- White space in a null credential is ASCII only.
- Errors are modelled by their kind or by failure, not by their message text.
- A connection's write failures are a number of writes left; the read side is any finite byte stream. Dialling is a boolean. Bytes held in buffered readers across the hand-over to `relay` are not modelled.
- Handshake.DialAndAuthenticate: the client half of `handleConn` (the fabricated login towards the application) is not modelled beyond the credential branch.
- Renewal.Renewer.Apply: the stores of the lease and of the ready flag are one step; a concurrent reader could see the lease first.
- Coverage.NoGap: the ticker is assumed to deliver its next tick at most one interval after the loop goes back to waiting, and one clock serves broker and sidecar.
- Recorder.DebounceRefines: serialised calls only, since the lock is released between the check and the write, and display claims only where NULs cannot confuse them (`Recorder.DebounceExactly`). Each call has one clock reading, shared by recorder and store, and a fixed outcome for its write should it make one. The SQL store and `Search` are not modelled.
- KeyAgreement.KeysAgree: "rendered from" means the account's public name here, and the exact keys in `KeyAgreement.RenderedExactly`. The Secret is not deleted while replicas run, and a ConfigMap found at the start is blank or was rendered from the account its annotation names.
- PasswordAgreement.PasswordsAgree: one provisioner per database (two can each set their own password before either publishes), no server restored with an older password; the advisory lock, the identifier length check, the other keys of the Secret, owner references and the namespace label are left out, and the role check and role statement are one step, as are the maintenance-database revocations with the last one. Completeness does not include that the database is closed to other roles, which holds under the condition of `PasswordAgreement.ClosedExactly`.
- Identity.Values.SetLeafAt: values that are not string-keyed maps are opaque scalars, and the caller's maps do not share nodes.
- Annotation JSON parsing is a parameter: no annotation and an unreadable one are the same case.
- IframeToken.VerifyInvertsIssue: expiry times are those whose seconds fit 64 bits; `now + ttl` is computed by the caller.
- The project hierarchy store, the `Switchable` wrappers, `Unavailable` stores, TLS provisioning, node pinning and single-branch permission checks would only add easy members.
