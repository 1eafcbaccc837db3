/**
 Properties of the server across requests: what one token can still open
 after it has been used or rotated away, how the status read and code
 resolution fit together, and what a whole sequence of requests can do to
 the state and to the files.
 */
module Protocol {
  import opened Common
  import opened Tokens
  import opened KeyFormat
  import opened Sudoers
  import opened Server

  /** Every handler keeps the TTL at its constant and never records an empty user or host. */
  lemma HandlePreservesInvariant(s: State, files: Files, req: Request, env: Env, sha1Hex: string -> string)
    requires Invariant(s)
    ensures Invariant(Handle(s, files, req, env, sha1Hex).state)
  {
  }

  /** Each success response comes only from its own route. */
  lemma ResponseNamesRoute(s: State, files: Files, req: Request, env: Env, sha1Hex: string -> string)
    ensures var r := Handle(s, files, req, env, sha1Hex).response;
      && (r.StatusReport? <==> req.GetStatus?)
      && (r.ResetDone? <==> req.Reset?)
      && (r.Resolved? ==> req.ResolveCode?)
      && (r.Paired? ==> req.SubmitKey?)
      && (r.SudoApplied? || r.SudoDeferred? ==> req.RequestGrant?)
      && (r.PublicKeyText? ==> req.FetchPublicKey?)
      && (r.InstallScript? ==> req.FetchInstallScript?)
  {
    match req {
      case GetStatus =>
      case ResolveCode(_) =>
      case SubmitKey(_, _) =>
      case RequestGrant(_, _) =>
      case FetchPublicKey(_) =>
      case FetchInstallScript(_) =>
      case Reset =>
    }
  }

  /** Whether a request carries `t` as its token for a token-gated handler. */
  predicate Presents(req: Request, t: string) {
    match req
    case SubmitKey(token, _) => token == t
    case RequestGrant(token, body) => !body.Malformed? && GrantToken(token, body) == Some(t)
    case FetchPublicKey(token) => token == Some(t)
    case FetchInstallScript(token) => token == t
    case _ => false
  }

  /**
   The files change only when a request presents the current token, and it
   has not expired: the key submission and the grant are the only writers.
   */
  lemma OnlyCurrentTokenWrites(s: State, files: Files, req: Request, env: Env, sha1Hex: string -> string)
    ensures Handle(s, files, req, env, sha1Hex).files != files ==>
      (req.SubmitKey? || req.RequestGrant?) && Presents(req, s.token) && !Expired(s, env.now)
  {
  }

  /** A request that presents a token other than the current one changes nothing and opens nothing. */
  lemma StaleTokenOpensNothing(s: State, files: Files, req: Request, env: Env, sha1Hex: string -> string, t: string)
    requires t != s.token && Presents(req, t)
    ensures Handle(s, files, req, env, sha1Hex) == Outcome(s, files, Handle(s, files, req, env, sha1Hex).response)
    ensures Handle(s, files, req, env, sha1Hex).response.Error?
    ensures Handle(s, files, req, env, sha1Hex).response.status == 400
  {
    var o := Handle(s, files, req, env, sha1Hex);
    match req {
      case SubmitKey(token, body) =>
      case RequestGrant(token, body) =>
        assert GrantToken(token, body) != Some(s.token);
      case FetchPublicKey(token) =>
      case FetchInstallScript(token) =>
    }
  }

  /**
   Replay rejection: once a key has been accepted under `t`, presenting `t`
   again is refused as long as the generator did not hand out `t` once more.
   */
  lemma ReplayRejected(s: State, files: Files, t: string, body: Json<PairingBody>, env: Env,
                       req: Request, env2: Env, sha1Hex: string -> string)
    requires SubmitKeyHandler(s, files, t, body, env).response == Paired
    requires env.nextToken != t
    requires Presents(req, t)
    ensures var o := SubmitKeyHandler(s, files, t, body, env);
      Handle(o.state, o.files, req, env2, sha1Hex) == Outcome(o.state, o.files, Error(400, "invalid token"))
      || Handle(o.state, o.files, req, env2, sha1Hex) == Outcome(o.state, o.files, Error(400, "invalid or expired token"))
  {
    var o := SubmitKeyHandler(s, files, t, body, env);
    StaleTokenOpensNothing(o.state, o.files, req, env2, sha1Hex, t);
  }

  /** After a reset, the token that was current before it opens nothing, unless the generator repeated it. */
  lemma ResetInvalidatesOldToken(s: State, files: Files, env: Env, req: Request, env2: Env, sha1Hex: string -> string)
    requires env.nextToken != s.token
    requires Presents(req, s.token)
    ensures var o := ResetHandler(s, files, env);
      Handle(o.state, o.files, req, env2, sha1Hex).state == o.state
      && Handle(o.state, o.files, req, env2, sha1Hex).files == files
      && Handle(o.state, o.files, req, env2, sha1Hex).response.Error?
  {
    var o := ResetHandler(s, files, env);
    StaleTokenOpensNothing(o.state, o.files, req, env2, sha1Hex, s.token);
  }

  /**
   The code the status read reports resolves to the token it reports, until
   the token changes: both use the same derivation of the same token.
   */
  lemma StatusCodeResolves(s: State, files: Files, env: Env, sha1Hex: string -> string)
    ensures var o := Status(s, files, env, sha1Hex);
      Resolve(o.state, o.files, o.response.code, sha1Hex).response == Resolved(o.response.token)
  {
  }

  /** An expired token is refused by every TTL-checked gate, whatever the body. */
  lemma ExpiredTokenRefused(s: State, files: Files, env: Env, token: string, pairing: Json<PairingBody>,
                            queryToken: Option<string>, grant: Json<GrantBody>)
    requires Expired(s, env.now)
    ensures SubmitKeyHandler(s, files, token, pairing, env).response.Error?
    ensures SubmitKeyHandler(s, files, token, pairing, env).state == s
    ensures !grant.Malformed? ==> GrantSudoHandler(s, files, queryToken, grant, env).response.Error?
    ensures GrantSudoHandler(s, files, queryToken, grant, env).files == files
    ensures PublicKeyHandler(s, files, queryToken, env).response == Error(400, "invalid or expired token")
  {
  }

  /**
   The install-script gate checks the token only: with the token expired,
   the public-key route refuses it while the install route still serves it.
   */
  lemma InstallScriptIgnoresExpiry(s: State, files: Files, env: Env, sha1Hex: string -> string)
    requires Expired(s, env.now)
    ensures Handle(s, files, FetchPublicKey(Some(s.token)), env, sha1Hex).response.Error?
    ensures Handle(s, files, FetchInstallScript(s.token), env, sha1Hex).response == InstallScript(s.token)
  {
  }

  /**
   The pairing handlers never consult `paired`: right after a successful
   submission, the newly issued token can pair again before any status read
   clears the flag.
   */
  lemma PairedStateStillAcceptsNewToken(s: State, files: Files, t: string, body: Json<PairingBody>, env: Env,
                                        body2: Json<PairingBody>, env2: Env)
    requires SubmitKeyHandler(s, files, t, body, env).response == Paired
    requires var o := SubmitKeyHandler(s, files, t, body, env);
      !Expired(o.state, env2.now) && AcceptableKey(body2) && env2.appendError.None?
    ensures var o := SubmitKeyHandler(s, files, t, body, env);
      o.state.paired && SubmitKeyHandler(o.state, o.files, o.state.token, body2, env2).response == Paired
  {
  }

  /**
   The user recorded at pairing survives the status read's rotation and
   becomes the grant's username when the grant request names none.
   */
  lemma PairedUserPrefillsGrant(s: State, files: Files, t: string, body: Json<PairingBody>, env: Env,
                                env2: Env, sha1Hex: string -> string, token: Option<string>, nopass: bool)
    requires SubmitKeyHandler(s, files, t, body, env).response == Paired
    requires IsTruthy(body.fields.user)
    ensures var o := SubmitKeyHandler(s, files, t, body, env);
      var st := Status(o.state, o.files, env2, sha1Hex).state;
      GrantUser(st, Object(GrantBody(token, None, nopass))) == body.fields.user.value
      && GrantUser(st, Falsy) == body.fields.user.value
  {
  }

  /**
   Re-running a root grant for the same user rewrites the same single
   fragment: the set of files is the same after one or two runs, and the
   second request's directive is what remains.
   */
  lemma GrantRerunOverwrites(s: State, files: Files, q1: Option<string>, b1: Json<GrantBody>, env1: Env,
                             q2: Option<string>, b2: Json<GrantBody>, env2: Env)
    requires GrantSudoHandler(s, files, q1, b1, env1).response.SudoApplied?
    requires GrantUser(s, b2) == GrantUser(s, b1)
    requires GrantSudoHandler(s, GrantSudoHandler(s, files, q1, b1, env1).files, q2, b2, env2).response.SudoApplied?
    ensures var f1 := GrantSudoHandler(s, files, q1, b1, env1).files;
      var f2 := GrantSudoHandler(s, f1, q2, b2, env2).files;
      f2.Keys == f1.Keys
      && f2[FragmentPath(GrantUser(s, b1))] == Fragment(RequestedGrant(s, b2), env2.isoNow)
  {
  }

  /** A grant refused by visudo leaves no fragment behind when the removal succeeds. */
  lemma RejectedGrantLeavesNoFragment(s: State, files: Files, q: Option<string>, b: Json<GrantBody>, env: Env)
    requires !b.Malformed? && GrantToken(q, b) == Some(s.token) && !Expired(s, env.now) && GrantUser(s, b) != ""
    requires env.isRoot && env.writeError.None? && !env.visudoAccepts && env.unlinkSucceeds
    ensures GrantSudoHandler(s, files, q, b, env).response == Error(500, "visudo validation failed")
    ensures GrantSudoHandler(s, files, q, b, env).files == files - {FragmentPath(GrantUser(s, b))}
  {
  }

  /**
   The token's age is checked before the body is read, so a body that
   arrives after the token has expired is still accepted, and the new token
   is issued at the later instant.
   */
  lemma LateBodyAccepted(s: State, files: Files, token: string, body: Json<PairingBody>, env: Env)
    requires token == s.token && !Expired(s, env.now) && AcceptableKey(body) && env.appendError.None?
    ensures SubmitKeyHandler(s, files, token, body, env).response == Paired
    ensures SubmitKeyHandler(s, files, token, body, env).state.tokenIssuedAt == env.bodyReceivedAt
  {
  }

  /** With a newline in the hostname, the attribution ends with a line of its own. */
  lemma AttributionSplits(stamp: string, user: Option<string>, h: string, line: string)
    ensures var a := Attribution(stamp, user, Some(h + "\n" + line));
      var m := "\n" + line + "\n";
      |a| >= |m| && a[|a| - |m|..] == m
  {
    var hn := h + "\n" + line;
    assert OrEmpty(Some(hn)) == hn;
    var x := AttributionTag + stamp + " " + OrEmpty(user) + "@";
    var a := Attribution(stamp, user, Some(hn));
    assert a == ("\n" + (x + hn)) + "\n";
    var p := "\n" + x;
    var q := p + h;
    var m := "\n" + line + "\n";
    ConcatAssoc("\n", x, hn);
    ConcatAssoc(p, h + "\n", line);
    ConcatAssoc(p, h, "\n");
    ConcatAssoc(q, "\n", line);
    ConcatAssoc(q, "\n" + line, "\n");
    assert a == q + m;
    assert (q + m)[|q|..] == m;
  }

  /**
   The hostname (and likewise the user) is copied into the attribution
   comment unchecked: a newline in it ends the comment, and whatever follows
   becomes a line of its own in the authorized-keys file, whether or not it
   has the shape of a key.
   */
  lemma HostnameInjectsLine(s: State, files: Files, token: string, body: Json<PairingBody>, env: Env,
                            h: string, line: string)
    requires SubmitKeyHandler(s, files, token, body, env).response == Paired
    requires body.fields.hostname == Some(h + "\n" + line)
    ensures IsInfix("\n" + line + "\n", SubmitKeyHandler(s, files, token, body, env).files[env.authorizedKeys])
  {
    PairedAppendsEntry(s, files, token, body, env);
    EntryCarriesLine(SubmitKeyHandler(s, files, token, body, env).files[env.authorizedKeys],
                     |Content(files, env.authorizedKeys)|, env.isoNow, body.fields.user, h, line,
                     Normalize(body.fields.pubkey.text));
  }

  /** An appended entry whose hostname holds a newline carries the text after it as a line. */
  lemma EntryCarriesLine(f: string, n: nat, stamp: string, user: Option<string>, h: string, line: string, pub: string)
    requires n <= |f| && f[n..] == Attribution(stamp, user, Some(h + "\n" + line)) + (pub + "\n")
    ensures IsInfix("\n" + line + "\n", f)
  {
    AttributionSplits(stamp, user, h, line);
    InfixInAppended(f, n, Attribution(stamp, user, Some(h + "\n" + line)), pub + "\n", "\n" + line + "\n");
  }

  /** What a successful pairing writes after the old content of the authorized-keys file. */
  lemma PairedAppendsEntry(s: State, files: Files, token: string, body: Json<PairingBody>, env: Env)
    requires SubmitKeyHandler(s, files, token, body, env).response == Paired
    ensures var f := SubmitKeyHandler(s, files, token, body, env).files[env.authorizedKeys];
      var n := |Content(files, env.authorizedKeys)|;
      n <= |f| && f[n..] == Attribution(env.isoNow, body.fields.user, body.fields.hostname)
                            + (Normalize(body.fields.pubkey.text) + "\n")
  {
    ConcatAssoc(Attribution(env.isoNow, body.fields.user, body.fields.hostname), Normalize(body.fields.pubkey.text), "\n");
  }

  /** A piece that ends the first part of an appended text occurs in the whole text. */
  lemma InfixInAppended(f: string, n: nat, a: string, b: string, m: string)
    requires n <= |f| && f[n..] == a + b
    requires |m| <= |a| && a[|a| - |m|..] == m
    ensures IsInfix(m, f)
  {
    var i := n + |a| - |m|;
    assert f[i..n + |a|] == (a + b)[|a| - |m|..|a|];
    assert (a + b)[|a| - |m|..|a|] == a[|a| - |m|..];
  }

  // ---------------------------------------------------------------------------
  // Sequences of requests

  /** The state and files after handling `reqs` one after another, the i-th under `envs[i]`. */
  function Run(s: State, files: Files, reqs: seq<Request>, envs: seq<Env>, sha1Hex: string -> string): (r: (State, Files))
    requires |envs| == |reqs|
    decreases |reqs|
  {
    if reqs == [] then (s, files)
    else
      var o := Handle(s, files, reqs[0], envs[0], sha1Hex);
      Run(o.state, o.files, reqs[1..], envs[1..], sha1Hex)
  }

  lemma {:induction false} RunPreservesInvariant(s: State, files: Files, reqs: seq<Request>, envs: seq<Env>, sha1Hex: string -> string)
    requires |envs| == |reqs|
    requires Invariant(s)
    ensures Invariant(Run(s, files, reqs, envs, sha1Hex).0)
    decreases |reqs|
  {
    if reqs != [] {
      var o := Handle(s, files, reqs[0], envs[0], sha1Hex);
      HandlePreservesInvariant(s, files, reqs[0], envs[0], sha1Hex);
      RunPreservesInvariant(o.state, o.files, reqs[1..], envs[1..], sha1Hex);
    }
  }

  /** A path outside the sudoers fragments, such as the authorized-keys file. */
  predicate OutsideFragments(path: string) {
    !(FragmentPrefix <= path)
  }

  /** One request only ever appends to a file outside the sudoers fragments. */
  lemma HandleOnlyAppends(s: State, files: Files, req: Request, env: Env, sha1Hex: string -> string, path: string)
    requires OutsideFragments(path)
    ensures Content(files, path) <= Content(Handle(s, files, req, env, sha1Hex).files, path)
  {
    var o := Handle(s, files, req, env, sha1Hex);
    if req.RequestGrant? {
      var user := GrantUser(s, req.grant);
      assert FragmentPrefix <= FragmentPath(user);
      assert path != FragmentPath(user);
      assert path in o.files <==> path in files;
      if path in files {
        assert o.files[path] == files[path];
      }
    } else if req.SubmitKey? && o.response == Paired && path != env.authorizedKeys {
      assert path in o.files <==> path in files;
      if path in files {
        assert o.files[path] == files[path];
      }
    }
  }

  /**
   Over any sequence of requests, the authorized-keys file (and any other
   file outside the sudoers fragments) keeps its earlier content as a prefix:
   keys are only ever added.
   */
  lemma {:induction false} RunOnlyAppends(s: State, files: Files, reqs: seq<Request>, envs: seq<Env>,
                                          sha1Hex: string -> string, path: string)
    requires |envs| == |reqs|
    requires OutsideFragments(path)
    ensures Content(files, path) <= Content(Run(s, files, reqs, envs, sha1Hex).1, path)
    decreases |reqs|
  {
    if reqs != [] {
      var o := Handle(s, files, reqs[0], envs[0], sha1Hex);
      HandleOnlyAppends(s, files, reqs[0], envs[0], sha1Hex, path);
      RunOnlyAppends(o.state, o.files, reqs[1..], envs[1..], sha1Hex, path);
    }
  }
}
