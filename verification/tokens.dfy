/**
 The single pairing credential: the current token, when it was issued, its
 time-to-live, whether a key has been accepted under it, and who paired last.
 */
module Tokens {
  import opened Common

  predicate IsLowerHex(c: char) {
    ('0' <= c <= '9') || ('a' <= c <= 'f')
  }

  /** `crypto.randomBytes(4).toString('hex').slice(0, 8)`: eight lowercase hex digits. */
  predicate IsToken(s: string) {
    |s| == 8 && forall i | 0 <= i < |s| :: IsLowerHex(s[i])
  }

  /** What the random token generator can return. */
  type Token = s: string | IsToken(s) witness "00000000"

  /** `15 * 60` seconds. */
  const TokenTtlSec: int := 900

  /** The server's mutable `state` record, as a value. */
  datatype State = State(
    token: Token,
    tokenIssuedAt: int,   // milliseconds since the epoch
    tokenTtlSec: int,
    paired: bool,
    lastInstallFrom: Option<string>,
    lastInstallUser: Option<string>)

  /** The state at process start, given the clock and the generator's first token. */
  function Initial(now: int, nextToken: Token): (s: State)
    ensures s.token == nextToken && s.tokenIssuedAt == now && s.tokenTtlSec == TokenTtlSec
    ensures !s.paired && s.lastInstallFrom.None? && s.lastInstallUser.None?
  {
    State(nextToken, now, TokenTtlSec, false, None, None)
  }

  /** `Math.floor((now - tokenIssuedAt) / 1000)`; Dafny's `/` by a positive divisor is floor division. */
  function AgeSec(s: State, now: int): int {
    (now - s.tokenIssuedAt) / 1000
  }

  /** The age check every token-gated handler applies: `ageSec > tokenTtlSec`. */
  predicate Expired(s: State, now: int) {
    AgeSec(s, now) > s.tokenTtlSec
  }

  /** The age is the elapsed time in whole seconds, rounded down, also when the clock went back. */
  lemma AgeIsFloor(s: State, now: int)
    ensures AgeSec(s, now) * 1000 <= now - s.tokenIssuedAt < AgeSec(s, now) * 1000 + 1000
  {
  }

  /**
   In milliseconds: a token is still accepted strictly before `ttl + 1` seconds
   have elapsed, so the window is 900.999 s rather than 900 s.
   */
  lemma ExpiryInMilliseconds(s: State, now: int)
    ensures !Expired(s, now) <==> now - s.tokenIssuedAt < (s.tokenTtlSec + 1) * 1000
  {
    AgeIsFloor(s, now);
  }

  /** With a clock that does not go back, an expired token stays expired. */
  lemma ExpiryIsPermanent(s: State, now: int, later: int)
    requires now <= later
    requires Expired(s, now)
    ensures Expired(s, later)
  {
    ExpiryInMilliseconds(s, now);
    ExpiryInMilliseconds(s, later);
  }

  /** Issues a fresh token at `now` and clears `paired`; the pairing metadata is kept. */
  function Rotate(s: State, now: int, nextToken: Token): (r: State)
    ensures r.token == nextToken && r.tokenIssuedAt == now && !r.paired
    ensures r.tokenTtlSec == s.tokenTtlSec
    ensures r.lastInstallFrom == s.lastInstallFrom && r.lastInstallUser == s.lastInstallUser
    ensures s.tokenTtlSec >= 0 ==> !Expired(r, now)
  {
    s.(token := nextToken, tokenIssuedAt := now, paired := false)
  }

  /**
   The status read's lazy rotation: when the token has expired or a key was
   already accepted under it, a fresh one is issued; otherwise nothing changes.
   */
  function RotateIfStale(s: State, now: int, nextToken: Token): (r: State)
    ensures Expired(s, now) || s.paired ==> r == Rotate(s, now, nextToken)
    ensures !(Expired(s, now) || s.paired) ==> r == s
    ensures !r.paired
    ensures s.tokenTtlSec >= 0 ==> !Expired(r, now)
  {
    if AgeSec(s, now) > s.tokenTtlSec || s.paired then Rotate(s, now, nextToken) else s
  }

  /** `code`: the SHA-1 hex digest of the token, truncated to eight characters. */
  function CodeOf(sha1Hex: string -> string, token: string): (c: string)
    ensures c <= sha1Hex(token)
    ensures |sha1Hex(token)| >= 8 ==> |c| == 8
  {
    Take(sha1Hex(token), 8)
  }

  /** What a SHA-1 hex digest looks like: forty lowercase hex digits. */
  predicate IsHexDigest(d: string) {
    |d| == 40 && forall i | 0 <= i < |d| :: IsLowerHex(d[i])
  }

  /** The state properties every handler preserves. */
  predicate Invariant(s: State) {
    && s.tokenTtlSec == TokenTtlSec
    && (s.lastInstallFrom.Some? ==> s.lastInstallFrom.value != "")
    && (s.lastInstallUser.Some? ==> s.lastInstallUser.value != "")
  }

  lemma InitialInvariant(now: int, nextToken: Token)
    ensures Invariant(Initial(now, nextToken))
  {
  }
}
