/**
 The server's API handlers as pure transitions. Each takes the credential
 state, the files the handler may touch, the already-decoded request fields
 and the environment's answers (clock, next random token, filesystem and
 privilege outcomes), and returns the new state, the new files and the
 response.
 */
module Server {
  import opened Common
  import opened Tokens
  import opened KeyFormat
  import opened Sudoers

  /** A request body after `readJson`: a parse error, a falsy JSON value, or a value whose fields are read. */
  datatype Json<T> = Malformed(message: string) | Falsy | Object(fields: T)

  /** A JSON member as `typeof` sees it: missing, a string, or some other value. */
  datatype Field = Absent | Text(text: string) | NotText

  /** The fields `/api/pairing/` reads from its body. */
  datatype PairingBody = PairingBody(pubkey: Field, user: Option<string>, hostname: Option<string>)

  /** The fields `/api/grant-sudo` reads from its body; `nopass` is already `!!body.nopass`. */
  datatype GrantBody = GrantBody(token: Option<string>, username: Option<string>, nopass: bool)

  /** The routed requests of the core, with path and query parameters already decoded. */
  datatype Request =
    | GetStatus
    | ResolveCode(code: string)
    | SubmitKey(pathToken: string, pairing: Json<PairingBody>)
    | RequestGrant(queryToken: Option<string>, grant: Json<GrantBody>)
    | FetchPublicKey(keyToken: Option<string>)
    | FetchInstallScript(scriptToken: string)
    | Reset

  datatype Response =
    | StatusReport(token: string, code: string, paired: bool, expiresIn: int, hasPubkey: bool)
    | Resolved(token: string)
    | Paired
    | SudoApplied(file: string)
    | SudoDeferred(command: string)
    | PublicKeyText(text: string)
    | InstallScript(token: string)
    | ResetDone(newToken: string)
    | Error(status: int, error: string)

  /** File contents by path: the authorized-keys file and the sudoers fragments. */
  type Files = map<string, string>

  datatype Outcome = Outcome(state: State, files: Files, response: Response)

  /** Everything a handler learns from outside the state. */
  datatype Env = Env(
    now: int,                     // Date.now() at the age check: on entry, or for a grant once its body is read
    bodyReceivedAt: int,          // Date.now() once the pairing body has arrived
    nextToken: Token,             // genToken()
    isoNow: string,               // new Date().toISOString()
    localKey: Option<string>,     // getLocalPublicKey(): trimmed text or null
    authorizedKeys: string,       // ~/.ssh/authorized_keys
    appendError: Option<string>,  // message if mkdirSync/appendFileSync throws
    isRoot: bool,                 // process.getuid() === 0
    writeError: Option<string>,   // message if writing the sudoers fragment throws
    visudoAccepts: bool,          // visudo -c -f <fragment> exits 0
    unlinkSucceeds: bool)         // removing a rejected fragment does not throw

  /** What a file holds before an append: nothing when it does not exist yet. */
  function Content(files: Files, path: string): string {
    if path in files then files[path] else ""
  }

  // ---------------------------------------------------------------------------
  // GET /api/status

  /**
   Rotates a stale token, then reports the current token and its code. The
   reported `expiresIn` is computed from the age before any rotation.
   */
  function Status(s: State, files: Files, env: Env, sha1Hex: string -> string): (o: Outcome)
    ensures o.files == files
    ensures Expired(s, env.now) || s.paired ==>
      o.state.token == env.nextToken && o.state.tokenIssuedAt == env.now && !o.state.paired
    ensures !(Expired(s, env.now) || s.paired) ==> o.state == s
    ensures o.state.tokenTtlSec == s.tokenTtlSec
    ensures o.state.lastInstallFrom == s.lastInstallFrom && o.state.lastInstallUser == s.lastInstallUser
    ensures o.response.StatusReport?
    ensures o.response.token == o.state.token && o.response.code == CodeOf(sha1Hex, o.state.token)
    ensures !o.response.paired
    ensures o.response.hasPubkey <==> IsTruthy(env.localKey)
    ensures o.response.expiresIn <= s.tokenTtlSec
    ensures AgeSec(s, env.now) >= 0 ==> o.response.expiresIn == s.tokenTtlSec - AgeSec(s, env.now)
    ensures AgeSec(s, env.now) < 0 ==> o.response.expiresIn == s.tokenTtlSec
    ensures s.tokenTtlSec >= 0 ==> (o.response.expiresIn < 0 <==> Expired(s, env.now))
  {
    var age := AgeSec(s, env.now);
    var st := RotateIfStale(s, env.now, env.nextToken);
    var report := StatusReport(
      st.token, CodeOf(sha1Hex, st.token), st.paired,
      s.tokenTtlSec - (if age > 0 then age else 0), IsTruthy(env.localKey));
    Outcome(st, files, report)
  }

  // ---------------------------------------------------------------------------
  // GET /api/resolve/<code>

  /** Answers with the current token exactly when the code is the current token's code. */
  function Resolve(s: State, files: Files, code: string, sha1Hex: string -> string): (o: Outcome)
    ensures o.state == s && o.files == files
    ensures o.response.Resolved? <==> code == CodeOf(sha1Hex, s.token)
    ensures o.response.Resolved? ==> o.response.token == s.token
    ensures !o.response.Resolved? ==> o.response == Error(404, "not found")
  {
    if code == CodeOf(sha1Hex, s.token) then Outcome(s, files, Resolved(s.token))
    else Outcome(s, files, Error(404, "not found"))
  }

  // ---------------------------------------------------------------------------
  // POST /api/pairing/<token>

  const AttributionTag: string := "# @hexafield/ssh-helper "

  /**
   The attribution comment written above an accepted key: a newline, then a
   comment line naming the time, user and host. The line break is the only
   separator, so the comment spans one line exactly when none of the three
   values holds a newline.
   */
  function Attribution(stamp: string, user: Option<string>, hostname: Option<string>): (a: string)
    ensures a != [] && a[0] == '\n' && a[|a| - 1] == '\n'
    ensures AttributionTag <= a[1..]
    ensures '\n' in a[1..|a| - 1] <==> '\n' in stamp || '\n' in OrEmpty(user) || '\n' in OrEmpty(hostname)
  {
    var line := AttributionTag + stamp + " " + OrEmpty(user) + "@" + OrEmpty(hostname);
    var a := "\n" + line + "\n";
    assert a[1..|a| - 1] == line;
    assert a[1..][..|AttributionTag|] == AttributionTag;
    a
  }

  /** `appendFileSync(path, attribution + key + "\n")`: the old content is kept and the key ends the file. */
  function AppendKey(files: Files, path: string, attribution: string, pub: string): (r: Files)
    requires attribution != [] && attribution[|attribution| - 1] == '\n'
    ensures path in r && Content(files, path) <= r[path]
    ensures r[path][|Content(files, path)|..] == attribution + pub + "\n"
    ensures EndsWith(r[path], "\n" + pub + "\n")
    ensures r - {path} == files - {path}
  {
    var before := Content(files, path);
    var after := before + attribution + pub + "\n";
    assert after == (before + attribution[..|attribution| - 1]) + ("\n" + pub + "\n");
    assert after == before + (attribution + pub + "\n");
    files[path := after]
  }

  /** The key a pairing body carries, if it is a string. */
  predicate HasPubkey(body: Json<PairingBody>) {
    body.Object? && body.fields.pubkey.Text?
  }

  /** Whether the submitted key, once normalised, has the accepted shape. */
  predicate AcceptableKey(body: Json<PairingBody>) {
    HasPubkey(body) && IsValidKey(Normalize(body.fields.pubkey.text))
  }

  /**
   Checks the token, then its age, then the body, then the key's shape; on
   success appends the key, marks the state paired, records who paired and
   issues a new token. Every failure leaves state and files as they were.
   */
  function SubmitKeyHandler(s: State, files: Files, token: string, body: Json<PairingBody>, env: Env): (o: Outcome)
    ensures token != s.token ==> o == Outcome(s, files, Error(400, "invalid token"))
    ensures token == s.token && Expired(s, env.now) ==> o == Outcome(s, files, Error(400, "token expired"))
    ensures token == s.token && !Expired(s, env.now) && body.Malformed? ==>
      o == Outcome(s, files, Error(500, body.message))
    ensures token == s.token && !Expired(s, env.now) && !body.Malformed? && !HasPubkey(body) ==>
      o == Outcome(s, files, Error(400, "missing pubkey"))
    ensures token == s.token && !Expired(s, env.now) && HasPubkey(body) && !AcceptableKey(body) ==>
      o == Outcome(s, files, Error(400, "invalid pubkey format"))
    ensures token == s.token && !Expired(s, env.now) && AcceptableKey(body) && env.appendError.Some? ==>
      o == Outcome(s, files, Error(500, env.appendError.value))
    ensures o.response == Paired || o.response.Error?
    ensures o.response == Paired <==>
      token == s.token && !Expired(s, env.now) && AcceptableKey(body) && env.appendError.None?
    ensures o.response != Paired ==> o.state == s && o.files == files
    ensures o.response == Paired ==>
      && o.state.paired
      && o.state.token == env.nextToken && o.state.tokenIssuedAt == env.bodyReceivedAt
      && o.state.tokenTtlSec == s.tokenTtlSec
      && o.state.lastInstallFrom == OrNull(body.fields.hostname)
      && o.state.lastInstallUser == OrNull(body.fields.user)
    ensures o.response == Paired ==>
      && env.authorizedKeys in o.files
      && Content(files, env.authorizedKeys) <= o.files[env.authorizedKeys]
      && EndsWith(o.files[env.authorizedKeys], "\n" + Normalize(body.fields.pubkey.text) + "\n")
      && o.files[env.authorizedKeys][|Content(files, env.authorizedKeys)|..]
         == Attribution(env.isoNow, body.fields.user, body.fields.hostname) + Normalize(body.fields.pubkey.text) + "\n"
      && o.files - {env.authorizedKeys} == files - {env.authorizedKeys}
  {
    if token != s.token then Outcome(s, files, Error(400, "invalid token"))
    else if AgeSec(s, env.now) > s.tokenTtlSec then Outcome(s, files, Error(400, "token expired"))
    else match body
      case Malformed(message) => Outcome(s, files, Error(500, message))
      case Falsy => Outcome(s, files, Error(400, "missing pubkey"))
      case Object(fields) =>
        if !fields.pubkey.Text? then Outcome(s, files, Error(400, "missing pubkey"))
        else
          var pub := Normalize(fields.pubkey.text);
          if !IsValidKey(pub) then Outcome(s, files, Error(400, "invalid pubkey format"))
          else if env.appendError.Some? then Outcome(s, files, Error(500, env.appendError.value))
          else
            var st := s.(
              paired := true,
              lastInstallFrom := OrNull(fields.hostname),
              lastInstallUser := OrNull(fields.user),
              token := env.nextToken,
              tokenIssuedAt := env.bodyReceivedAt);
            Outcome(st, AppendKey(files, env.authorizedKeys, Attribution(env.isoNow, fields.user, fields.hostname), pub), Paired)
  }

  // ---------------------------------------------------------------------------
  // POST /api/grant-sudo

  /** `body?.token || query.token`: the body's token when it is a non-empty string, else the query's. */
  function GrantToken(queryToken: Option<string>, body: Json<GrantBody>): (r: Option<string>)
    ensures body.Object? && IsTruthy(body.fields.token) ==> r == body.fields.token
    ensures !(body.Object? && IsTruthy(body.fields.token)) ==> r == queryToken
  {
    if body.Object? then Or(body.fields.token, queryToken) else queryToken
  }

  /**
   `(body?.username || state.lastInstallUser || '').toString()`: the body's
   username when it is non-empty, else the user recorded at pairing, else empty.
   */
  function GrantUser(s: State, body: Json<GrantBody>): (r: string)
    ensures body.Object? && IsTruthy(body.fields.username) ==> r == body.fields.username.value
    ensures !(body.Object? && IsTruthy(body.fields.username)) && IsTruthy(s.lastInstallUser) ==> r == s.lastInstallUser.value
    ensures r == "" <==> !(body.Object? && IsTruthy(body.fields.username)) && !IsTruthy(s.lastInstallUser)
  {
    OrEmpty(if body.Object? then Or(body.fields.username, s.lastInstallUser) else s.lastInstallUser)
  }

  /** `!!body?.nopass`. */
  function GrantNopass(body: Json<GrantBody>): bool {
    body.Object? && body.fields.nopass
  }

  /** Whether a grant request passes every check: readable body, current token, unexpired, a username. */
  predicate GrantChecksPass(s: State, queryToken: Option<string>, body: Json<GrantBody>, env: Env) {
    && !body.Malformed? && GrantToken(queryToken, body) == Some(s.token)
    && !Expired(s, env.now) && GrantUser(s, body) != ""
  }

  /** The grant a request asks for. */
  function RequestedGrant(s: State, body: Json<GrantBody>): Grant {
    Grant(GrantUser(s, body), GrantNopass(body))
  }

  /**
   Reads the body, checks token, age and username, then either writes and
   validates the fragment (as root) or returns the manual command. The state
   never changes, and no file other than the user's fragment is touched.
   */
  function GrantSudoHandler(s: State, files: Files, queryToken: Option<string>, body: Json<GrantBody>, env: Env): (o: Outcome)
    ensures o.state == s
    ensures o.response.SudoApplied? || o.response.SudoDeferred? || o.response.Error?
    ensures o.files - {FragmentPath(GrantUser(s, body))} == files - {FragmentPath(GrantUser(s, body))}
    ensures body.Malformed? ==> o.response == Error(500, body.message) && o.files == files
    ensures !body.Malformed? && GrantToken(queryToken, body) != Some(s.token) ==>
      o.response == Error(400, "invalid token") && o.files == files
    ensures !body.Malformed? && GrantToken(queryToken, body) == Some(s.token) && Expired(s, env.now) ==>
      o.response == Error(400, "token expired") && o.files == files
    ensures (!body.Malformed? && GrantToken(queryToken, body) == Some(s.token) && !Expired(s, env.now)
      && GrantUser(s, body) == "") ==> o.response == Error(400, "missing username") && o.files == files
    ensures o.files != files ==> env.isRoot
    ensures o.response.SudoApplied? ==>
      && env.isRoot && env.visudoAccepts
      && o.response.file == FragmentPath(GrantUser(s, body))
      && o.files == files[FragmentPath(GrantUser(s, body)) := Fragment(RequestedGrant(s, body), env.isoNow)]
    ensures o.response.SudoDeferred? ==>
      && !env.isRoot && o.files == files
      && o.response.command == ManualCommand(RequestedGrant(s, body), env.isoNow)
    ensures o.response.SudoApplied? || o.response.SudoDeferred? ==> GrantChecksPass(s, queryToken, body, env)
    ensures GrantChecksPass(s, queryToken, body, env) && !env.isRoot ==>
      o == Outcome(s, files, SudoDeferred(ManualCommand(RequestedGrant(s, body), env.isoNow)))
    ensures GrantChecksPass(s, queryToken, body, env) && env.isRoot && env.writeError.Some? ==>
      o == Outcome(s, files, Error(500, "failed to write sudoers file"))
    ensures GrantChecksPass(s, queryToken, body, env) && env.isRoot && env.writeError.None? && env.visudoAccepts ==>
      var path := FragmentPath(GrantUser(s, body));
      o == Outcome(s, files[path := Fragment(RequestedGrant(s, body), env.isoNow)], SudoApplied(path))
    ensures GrantChecksPass(s, queryToken, body, env) && env.isRoot && env.writeError.None? && !env.visudoAccepts ==>
      var path := FragmentPath(GrantUser(s, body));
      o == Outcome(s,
                   if env.unlinkSucceeds then files - {path} else files[path := Fragment(RequestedGrant(s, body), env.isoNow)],
                   Error(500, "visudo validation failed"))
    ensures !body.Malformed? && o.response == Error(500, "visudo validation failed") ==>
      && env.isRoot && !env.visudoAccepts
      && (env.unlinkSucceeds ==> FragmentPath(GrantUser(s, body)) !in o.files)
    ensures !body.Malformed? && o.response == Error(500, "failed to write sudoers file") ==> o.files == files
  {
    if body.Malformed? then Outcome(s, files, Error(500, body.message))
    else
      var token := GrantToken(queryToken, body);
      var user := GrantUser(s, body);
      if !IsTruthy(token) || token.value != s.token then Outcome(s, files, Error(400, "invalid token"))
      else if AgeSec(s, env.now) > s.tokenTtlSec then Outcome(s, files, Error(400, "token expired"))
      else if user == "" then Outcome(s, files, Error(400, "missing username"))
      else
        var grant := RequestedGrant(s, body);
        var path := FragmentPath(user);
        if env.isRoot then
          if env.writeError.Some? then Outcome(s, files, Error(500, "failed to write sudoers file"))
          else
            var written := files[path := Fragment(grant, env.isoNow)];
            if !env.visudoAccepts then
              var rolledBack := if env.unlinkSucceeds then written - {path} else written;
              Outcome(s, rolledBack, Error(500, "visudo validation failed"))
            else Outcome(s, written, SudoApplied(path))
        else Outcome(s, files, SudoDeferred(ManualCommand(grant, env.isoNow)))
  }

  // ---------------------------------------------------------------------------
  // GET /api/publickey?token=..., GET /api/install/<token>, POST /api/reset

  /** Serves the offerer's own public key to a holder of the current, unexpired token. */
  function PublicKeyHandler(s: State, files: Files, queryToken: Option<string>, env: Env): (o: Outcome)
    ensures o.state == s && o.files == files
    ensures queryToken != Some(s.token) || Expired(s, env.now) ==>
      o.response == Error(400, "invalid or expired token")
    ensures queryToken == Some(s.token) && !Expired(s, env.now) && !IsTruthy(env.localKey) ==>
      o.response == Error(404, "no public key found on offerer")
    ensures o.response.PublicKeyText? <==>
      queryToken == Some(s.token) && !Expired(s, env.now) && IsTruthy(env.localKey)
    ensures o.response.PublicKeyText? || o.response.Error?
    ensures o.response.PublicKeyText? ==> o.response.text == env.localKey.value + "\n"
  {
    if !IsTruthy(queryToken) || queryToken.value != s.token || AgeSec(s, env.now) > s.tokenTtlSec then
      Outcome(s, files, Error(400, "invalid or expired token"))
    else if !IsTruthy(env.localKey) then Outcome(s, files, Error(404, "no public key found on offerer"))
    else Outcome(s, files, PublicKeyText(env.localKey.value + "\n"))
  }

  /** The install script is served for the current token, with no age check. */
  function InstallScriptHandler(s: State, files: Files, token: string): (o: Outcome)
    ensures o.state == s && o.files == files
    ensures o.response.InstallScript? <==> token == s.token
    ensures o.response.InstallScript? ==> o.response.token == s.token
    ensures !o.response.InstallScript? ==> o.response == Error(400, "invalid token")
  {
    if token != s.token then Outcome(s, files, Error(400, "invalid token"))
    else Outcome(s, files, InstallScript(s.token))
  }

  /** Unconditional rotation, returning the new token. */
  function ResetHandler(s: State, files: Files, env: Env): (o: Outcome)
    ensures o.files == files
    ensures o.state.token == env.nextToken && o.state.tokenIssuedAt == env.now && !o.state.paired
    ensures o.state.tokenTtlSec == s.tokenTtlSec
    ensures o.state.lastInstallFrom == s.lastInstallFrom && o.state.lastInstallUser == s.lastInstallUser
    ensures o.response == ResetDone(env.nextToken)
  {
    var st := Rotate(s, env.now, env.nextToken);
    Outcome(st, files, ResetDone(st.token))
  }

  // ---------------------------------------------------------------------------
  // Routing

  /**
   One request, routed to its handler. Only the status read, a key
   submission and a reset can change the state; only a key submission and a
   grant can change the files.
   */
  function Handle(s: State, files: Files, req: Request, env: Env, sha1Hex: string -> string): (o: Outcome)
    ensures !(req.GetStatus? || req.SubmitKey? || req.Reset?) ==> o.state == s
    ensures !(req.SubmitKey? || req.RequestGrant?) ==> o.files == files
  {
    match req
    case GetStatus => Status(s, files, env, sha1Hex)
    case ResolveCode(code) => Resolve(s, files, code, sha1Hex)
    case SubmitKey(token, body) => SubmitKeyHandler(s, files, token, body, env)
    case RequestGrant(token, body) => GrantSudoHandler(s, files, token, body, env)
    case FetchPublicKey(token) => PublicKeyHandler(s, files, token, env)
    case FetchInstallScript(token) => InstallScriptHandler(s, files, token)
    case Reset => ResetHandler(s, files, env)
  }
}
