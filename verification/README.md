# ssh-helper pairing authorization, modelled in Dafny

ssh-helper pairs two machines for SSH. The offerer runs a small HTTP server
that holds one short-lived pairing token. The accepter proves it knows the
token, either by holding it or by typing an eight-character code derived from
it, and submits its public key. The offerer appends that key to
`authorized_keys`. With the same token it can also hand out its own public
key, or grant a user sudo rights through a `/etc/sudoers.d` fragment.

This project models that authorization state machine:

- the server's `state` record;
- the token-gated handlers for status, code resolution, key submission, sudo
  grant, public-key fetch, install script and reset;
- the CLI helpers that parse flags and choose the token.

Every handler is a pure function. It takes the state, a map of file contents
and the request's decoded fields, and returns the new state, the new files and
the response. The outside world is passed in as an `Env` value:

- the clock at the age check, and for pairing again once the body has arrived;
- the next random token;
- the ISO timestamp;
- the offerer's own key;
- whether the append or write fails;
- whether the process is root;
- whether visudo accepts the fragment;
- whether removing a rejected fragment succeeds.

SHA-1 is a parameter `sha1Hex: string -> string`.

Modules:

- `Common`: options, results, a few JavaScript string operations and truthiness.
- `JsText`: `String.prototype.trim` and the CR/LF-run replacement.
- `KeyFormat`: the key normaliser and a recognizer for the key pattern, with a
  parser and printer it is proved against.
- `Tokens`: the state, token age and expiry, rotation, and the short code.
- `Sudoers`: the sudoers directive, the fragment file and the manual command.
- `Server`: the handlers and the request router.
- `Protocol`: properties across requests: replay, reset, expiry, grant re-runs,
  and sequences of requests.
- `CliArgs`: `parseArgs` as a loop, proved against a reference reading of the
  argument list.
- `CliToken`: `resolveToken` and the `--host` precondition of `accept`/`grant`.

Behaviours of the code worth knowing, which the model keeps:

- No token-gated handler (pairing, grant, public key, install script) checks
  `paired`. Only the status read tests it, and only the status read and reset
  clear it, so the token issued after a successful pairing is accepted at once
  (`Protocol.PairedStateStillAcceptsNewToken`).
- The pairing handler checks the token's age before it reads the body. A body
  that arrives after the token has expired is still accepted, and the next
  token is issued at that later instant (`Protocol.LateBodyAccepted`).
- The grant handler does the opposite: it reads the body first and checks
  the age afterwards, so a grant whose body arrives after the token has
  expired is refused. For a grant, `env.now` is the instant after the body.
- When visudo rejects a fragment and removing it fails, the failure is
  swallowed and the rejected fragment stays in place (`Server.GrantSudoHandler`).
- Public keys written with an elided blob such as `AAAAB3NzaC1yc2E...` are
  rejected by the key pattern, because `.` is not a blob character
  (`KeyFormat.ElidedBlobRejected`).
- `expiresIn` is computed from the age measured before the status read's
  rotation. After an expiry rotation it reports the old token's negative
  remainder, even though the new token has a full TTL.
- A token is accepted until `floor(elapsed / 1000) > 900`, so the window is
  just under 901 s rather than 900 s (`Tokens.ExpiryInMilliseconds`).

Neither the username in a sudo grant nor the path derived from it is escaped.
A name with `/`, spaces or shell metacharacters flows into the fragment path
and the manual command unchanged. As root, the same path is also interpolated
into the `visudo -c -f` command line, so a name such as `x;cmd` runs `cmd` as
root. visudo is a yes/no answer in `Env` here, so the model cannot show that
command running.

The `user` and `hostname` fields of a pairing body are not checked either.
They are copied into the attribution comment written above the key. A newline
in either ends the comment, and what follows becomes a line of its own in
`authorized_keys`, bypassing the key-format check (`Protocol.HostnameInjectsLine`).

## Model

| member | source | states |
|---|---|---|
| Tokens.Initial | server.js:58-66 | the first state holds the generated token, is issued now with a 900 s TTL, is unpaired and has no pairing metadata |
| Tokens.ExpiryInMilliseconds | server.js:207-208 | a token is unexpired exactly when less than (ttl + 1) × 1000 ms have passed since issue; the age is floor division |
| Tokens.ExpiryIsPermanent | server.js:207-208 | with a clock that does not go back, an expired token stays expired |
| Tokens.Rotate | server.js:296-299 | the new token and issue time are installed and `paired` is cleared; TTL and pairing metadata are kept, and the new token is not expired at its issue time |
| Tokens.RotateIfStale | server.js:123-128 | the token is rotated exactly when it has expired or is paired, and otherwise the state is unchanged; afterwards the state is unpaired and unexpired |
| Tokens.CodeOf | server.js:131 | the short code is a prefix of the token's SHA-1 hex digest, eight characters long when the digest has at least eight |
| Tokens.InitialInvariant | server.js:58-66 | the initial state satisfies the invariant: TTL is 900 and recorded user/host are never empty |
| JsText.Trim | server.js:212 | the result is a contiguous piece of the input with only whitespace cut from both ends, and it neither starts nor ends with whitespace |
| JsText.TrimPadding | server.js:212 | a text that neither starts nor ends with whitespace, followed by any whitespace, trims to itself |
| JsText.CollapseRemovesLineBreaks | server.js:212 | the replacement leaves no CR or LF and never lengthens the text |
| JsText.CollapseIdentity | server.js:212 | a text without CR or LF is unchanged by the replacement |
| JsText.CollapseConcat | server.js:212 | splitting a text anywhere except inside a run of CR/LF commutes with the replacement |
| JsText.MaximalRunBecomesOneSpace | server.js:212 | each maximal run of CR/LF is replaced by exactly one space, and the text on both sides is processed independently |
| JsText.CollapseIdempotent | server.js:212 | applying the replacement twice is the same as once |
| KeyFormat.RecognizerAgrees | server.js:214 | the key pattern accepts a text exactly when the structural parser splits it into type, blob and comment |
| KeyFormat.ParseSound | server.js:214 | a parsed key line is well formed and prints back to the text it was parsed from |
| KeyFormat.ParseComplete | server.js:214 | every well-formed key line parses back to itself |
| KeyFormat.ValidKeyIsRenderedKeyLine | server.js:214 | the pattern accepts exactly the texts `<type> <blob>[ <comment>]` with one of the five types, a non-empty blob of `[A-Za-z0-9+/=]` and a comment without line terminators |
| KeyFormat.UntypedTextRejected | server.js:214 | a text whose first character cannot begin a key type name is rejected |
| KeyFormat.NormalizeIdentity | server.js:212 | a text without CR/LF and without whitespace at either end is unchanged by normalisation |
| KeyFormat.NotAKeyRejected | server.js:212-215 | the bare word "not-a-key" is unchanged by normalisation and rejected |
| KeyFormat.WrappedKeyAccepted | server.js:212-214 | a well-formed key whose type and blob are separated by any run of CR/LF, followed by trailing whitespace, normalises to its one-line form `<type> <blob>[ <comment>]` and is accepted, when the comment does not itself end in whitespace |
| KeyFormat.ElidedBlobRejected | server.js:214 | for every key type, a blob run followed by `.` (an elided blob such as `AAAAB3NzaC1yc2E...`) is rejected, whatever follows |
| Sudoers.SudoLineRoundTrip | server.js:249 | the directive determines the grant: user and password choice are read back exactly |
| Sudoers.SudoLineInjective | server.js:249 | different grants give different directives |
| Sudoers.FragmentPathInjective | server.js:250 | two users share a fragment path exactly when they are the same user |
| Sudoers.ManualCommandCarriesFragment | server.js:269 | the manual command contains the fragment the root branch writes, and with it the exact directive |
| Sudoers.ManualCommandNamesPath | server.js:269 | the manual command names the fragment's path |
| Server.Status | server.js:121-136 | files are untouched; the token is rotated exactly when expired or paired and metadata is kept; the report shows the state's token and its code, always unpaired; `hasPubkey` is the key's truthiness; `expiresIn` is at most the TTL, equals TTL − age for a non-negative age and the TTL for a negative one, and is negative exactly when the token had expired |
| Server.Resolve | server.js:277-282 | the current token is returned exactly when the code equals the current token's code, otherwise 404 "not found"; nothing changes |
| Server.Attribution | server.js:221 | the comment starts and ends with a newline, its line starts with the ssh-helper tag, and it holds a further newline exactly when the timestamp, user or hostname does |
| Server.AppendKey | server.js:221-222 | the old content is kept as a prefix and exactly the attribution, the key and a newline follow it; the file ends with a line holding the key, and no other file changes |
| Server.SubmitKeyHandler | server.js:203-235 | checks in order: invalid token, token expired, unreadable body (500), missing pubkey, invalid pubkey format, append error (500); every failure leaves state and files unchanged; success happens exactly when all checks pass, and then exactly the attribution comment for the body's user and hostname, the normalised key and a newline are appended after the old content, the state is paired, user/host are recorded with empty as null, and the new token is issued at the instant the body arrived |
| Server.GrantToken | server.js:241 | the body's token when it is a non-empty string, otherwise the query's token |
| Server.GrantUser | server.js:242 | the body's username when non-empty, else the user recorded at pairing, else empty; empty exactly when neither is present |
| Server.GrantSudoHandler | server.js:238-274 | the state never changes and no file but the user's fragment changes; checks in order: unreadable body (500), missing or mismatched token, expiry, empty username; the token is taken from the body, else the query; the username from the body, else the recorded user; as root the fragment is written and reported, a visudo rejection removes it when removal succeeds, and a write error changes nothing; otherwise the manual command for the same grant is returned and nothing is written. Once every check passes, each branch's outcome is exact: not root gives the manual command; a write error gives "failed to write sudoers file" with files unchanged; a visudo acceptance writes the fragment and reports its path; a visudo rejection reports "visudo validation failed" and leaves the files without the fragment when removal succeeds, and with the rejected fragment when it fails |
| Server.PublicKeyHandler | server.js:285-294 | the key text plus a newline is served exactly when the query token is the current, unexpired token and the offerer has a key; the two refusals are 400 and 404 with their messages |
| Server.InstallScriptHandler | server.js:156-158 | the script is served exactly when the path token is the current token; there is no expiry check |
| Server.ResetHandler | server.js:296-301 | rotates unconditionally, keeps TTL, metadata and files, and returns the new token |
| Server.Handle | server.js:121-301 | only the status read, key submission and reset change the state; only key submission and grant change the files |
| Protocol.ResponseNamesRoute | server.js:121-301 | each success response comes only from its own route: a status report exactly from the status read, a reset answer exactly from reset, and pairing, grant, key, script and resolution answers only from theirs |
| Protocol.HandlePreservesInvariant | server.js:58-66 | every request keeps the TTL at 900 and never records an empty user or host |
| Protocol.OnlyCurrentTokenWrites | server.js:205-208 | a request changes files only if it is a key submission or grant presenting the current, unexpired token |
| Protocol.StaleTokenOpensNothing | server.js:158-288 | at each of the four token gates (install script at line 158, pairing at 205, grant at 244, public key at 288), a request presenting a token other than the current one gets a 400 and changes neither state nor files |
| Protocol.ReplayRejected | server.js:225-230 | after a key is accepted under a token, presenting that token again is refused unchanged, unless the generator returned the same token |
| Protocol.ResetInvalidatesOldToken | server.js:296-300 | after a reset, the previous token opens nothing, unless the generator returned the same token |
| Protocol.StatusCodeResolves | server.js:131 | the code the status read reports resolves to the token it reports |
| Protocol.ExpiredTokenRefused | server.js:207-208 | with an expired token, key submission fails without changing state; a readable grant fails; grants write nothing; the public key is refused |
| Protocol.InstallScriptIgnoresExpiry | server.js:156-158 | with the current token expired, the public-key route refuses it while the install script is still served for it |
| Protocol.PairedStateStillAcceptsNewToken | server.js:225-230 | right after a successful pairing the state is paired, yet the newly issued token pairs again |
| Protocol.PairedUserPrefillsGrant | server.js:242 | the user recorded at pairing survives the status read's rotation and is the grant's username when the request names none |
| Protocol.LateBodyAccepted | server.js:206-230 | with the token unexpired when the handler starts, an acceptable key is paired however late the body arrives, and the next token is issued at that later instant |
| Protocol.AttributionSplits | server.js:221 | with a newline in the hostname, the attribution ends with a line holding what follows it |
| Protocol.PairedAppendsEntry | server.js:221-222 | after a successful pairing, what follows the old content of `authorized_keys` is exactly the attribution, the normalised key and a newline |
| Protocol.HostnameInjectsLine | server.js:221-222 | after a successful pairing whose hostname is `h` + newline + `line`, `line` stands on a line of its own in `authorized_keys`, whatever it is |
| Protocol.GrantRerunOverwrites | server.js:250-255 | a second root grant for the same user rewrites the same single fragment with the second request's content |
| Protocol.RejectedGrantLeavesNoFragment | server.js:257-260 | when visudo rejects the fragment and removal succeeds, no fragment remains and other files are untouched |
| Protocol.RunPreservesInvariant | server.js:58-66 | the invariant holds after any sequence of requests |
| Protocol.HandleOnlyAppends | server.js:222 | one request only appends to a file outside the sudoers fragments |
| Protocol.RunOnlyAppends | server.js:222 | over any sequence of requests, `authorized_keys` keeps its earlier content as a prefix |
| CliArgs.BeforeSep | bin/ssh-helper.js:18 | the key is the prefix up to, not including, the first `=` |
| CliArgs.AfterSep | bin/ssh-helper.js:18 | there is a remainder exactly when the text has an `=`, and the text is the key, `=` and the remainder |
| CliArgs.FlagValue | bin/ssh-helper.js:18-19 | `true` exactly when there is no `=`; otherwise the text between the first `=` and the next `=` or the end |
| CliArgs.ParseArgs | bin/ssh-helper.js:14-23 | the parse fails exactly when a positional argument follows a `--_` flag; otherwise each key holds its last flag's value, `_` holds the positional arguments in order, and `__proto__` is never set |
| CliArgs.LastOccurrenceWins | bin/ssh-helper.js:19 | a repeated key takes the value of its last occurrence |
| CliArgs.PositionalsConcat | bin/ssh-helper.js:20 | positional arguments keep their original order |
| CliArgs.EmptyValue | bin/ssh-helper.js:18-19 | `--k=` sets `k` to the empty string |
| CliArgs.SplitAtFirstSep | bin/ssh-helper.js:18 | for a key without `=`, the split yields that key as first piece and everything after its `=` as the remainder |
| CliArgs.SecondSeparatorTruncates | bin/ssh-helper.js:18-19 | `--k=v=w` with `k` and `v` free of `=` sets `k` to `v`: everything from the second `=` on is dropped |
| CliArgs.BareFlagIsOn | bin/ssh-helper.js:19 | `--host` sets `host` to `true` |
| CliToken.ResolveToken | bin/ssh-helper.js:77-84 | an explicit token is returned as given; no token and no code fails "Pass --token or --code"; a code not eight UTF-16 units long fails before any lookup; otherwise a failed lookup passes its message on, a reply without a truthy token fails "Failed to resolve code to token", and a reply with one succeeds with that token |
| CliToken.CommandTarget | bin/ssh-helper.js:86-90 | without a truthy `--host` the result is "Missing --host"; otherwise it succeeds exactly when the token resolves, carrying host and token, and fails with the resolution's own message when it does not |
| CliToken.ExplicitTokenIgnoresCode | bin/ssh-helper.js:78 | with an explicit token, the code and the lookup do not affect the result |
| CliToken.LookupOnlyAtCode | bin/ssh-helper.js:77-84 | two lookups that answer the same for the given code give the same resolution |
| CliToken.CodeLengthCheckedBeforeLookup | bin/ssh-helper.js:80 | a wrongly sized code fails the same way whatever the lookup answers |
| CliToken.HostCheckedFirst | bin/ssh-helper.js:99-103 | without `--host`, `grant` and `accept` fail the same way whatever the lookup answers |
| CliToken.BareCodeRefused | bin/ssh-helper.js:80 | a bare `--code` reads as "true" and is refused for its length |
| CliToken.BareTokenNeverMatches | bin/ssh-helper.js:78 | a bare `--token` resolves to `true`, whose text is never a server token |
| CliToken.ServerLookup | server.js:277-282 | the lookup answers the current token for the current code and fails for every other code |
| CliToken.DisplayedCodeResolves | bin/ssh-helper.js:77-84 | the code shown by the status read, given as `--code`, resolves to the token that status read reports |

## Left out

- The HTTP layer is not modelled: `readJson` stream assembly, `send`, `url.parse` and `decodeURIComponent`. Requests arrive as decoded fields. A body that fails to parse is `Malformed` with its error message. The body `null` or `false` is `Falsy`.
- JSON fields of other types are left out. `user`, `hostname`, `username` and `token` are strings or absent, so `toString()` and template conversion of other JSON types are not covered. Repeated query parameters that arrive as arrays are not covered either.
- The clock is read at two instants. `now` is the age check: on entry for every handler except the grant, which reads its body first, so for the grant `now` is after the body. For pairing, `bodyReceivedAt` is once the body has arrived, and the new token's issue time uses it. Within each of these stretches the source reads `Date.now()` and `new Date()` separately, with no request I/O in between; the model uses one instant for each stretch. The ISO timestamp `isoNow` is a separate oracle and is not tied to either instant.
- Randomness and hashing are not computed. `genToken` is an oracle returning eight lowercase hex characters, and SHA-1 is the uninterpreted parameter `sha1Hex`.
- The filesystem, `execSync('visudo')`, `process.getuid` and `getLocalPublicKey` are oracles in `Env`. `chmod` calls and file modes are not modelled, since their failures are swallowed. The visudo `detail` text is not modelled.
- File writes are all-or-nothing in the model: `appendError` and `writeError` leave the files as they were. In the source, `appendFileSync` can fail part-way and leave a partial entry in `authorized_keys`. `writeFileSync` truncates or creates the fragment before writing, so a failure part-way can leave an empty or partial fragment in `/etc/sudoers.d`, or wipe a valid one on a re-run. Its catch neither runs visudo nor removes the file. The `detail` text of the write-error response is dropped, like visudo's.
- Text templating is not modelled: the install script, the HTML pages, the QR endpoint, the status one-liners, `port` and `getLocalIPs`. The install endpoint is modelled only as its token gate.
- `serveStatic` is not modelled; its path check depends on Node's `path` semantics.
- public/app.js is not modelled. It is display and polling code with no authorization logic.
- Concurrency is not modelled. The token check in the pairing handler runs before the body is read asynchronously, so two concurrent submissions with one token could both append. Replay rejection is proved only for requests handled one after another.
- CLI I/O is not modelled: `httpJSON`, `fetch`, `spawn`, `ensureKey`, `readPubKey` and the commands' work after the token is resolved. The lookup is a parameter already bound to host and port, and `Number(flags.port || 4321)` is not modelled.
- CliToken.CommandTarget: does not model `Number()` of the port or the URL it builds, because the port only addresses the lookup, which is a parameter here.
- Server.Status: does not state the `oneliner`, `grantOneliner` and `port` fields, because they are templating over values the model does not hold.
