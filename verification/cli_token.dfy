/**
 The CLI's choice of token for `accept` and `grant`: `--host` is required
 first, then an explicit `--token` wins, else an eight-character `--code` is
 looked up on the offerer. The lookup (an HTTP request) is a parameter.
 */
module CliToken {
  import opened Common
  import opened Tokens
  import opened Server
  import opened CliArgs

  /** What the code lookup gives back: the request threw, or the reply's `token` field. */
  datatype Reply = Unreachable(message: string) | Replied(token: Option<string>)

  const NoTokenOrCode: string := "Pass --token or --code"
  const BadCodeLength: string := "Code must be 8 characters"
  const LookupFailed: string := "Failed to resolve code to token"
  const MissingHost: string := "Missing --host"

  /**
   JavaScript truthiness of a parsed flag: `true`, a non-empty string, or any
   array. `Common.IsTruthy` is the same rule for optional strings; this one
   covers the parser's values, where a missing key reads as `undefined`.
   */
  predicate Truthy(v: Option<ArgValue>) {
    v.Some? && (v.value.Str? ==> v.value.text != "")
  }

  /**
   `items.join(',')`. `ParseArgs` stores a list only under `_`, so `--token`
   and `--code` never reach the list cases below; they keep `JsString` and
   `Truthy` total over every parsed value.
   */
  function Join(items: seq<string>): (r: string)
    ensures |items| == 1 ==> r == items[0]
  {
    if items == [] then "" else if |items| == 1 then items[0] else items[0] + "," + Join(items[1..])
  }

  /** `String(v)` of a parsed flag. */
  function JsString(v: ArgValue): (r: string)
    ensures v.Str? ==> r == v.text
  {
    match v
    case On => "true"
    case Str(text) => text
    case List(items) => Join(items)
  }

  /** No explicit token, and a code of the right length: the case in which the offerer is asked. */
  predicate AsksOfferer(token: Option<ArgValue>, code: Option<ArgValue>) {
    !Truthy(token) && Truthy(code) && Utf16Length(JsString(code.value)) == 8
  }

  /** `resolveToken({ code, token })`, with the lookup of `/api/resolve/<code>` as `lookup`. */
  function ResolveToken(token: Option<ArgValue>, code: Option<ArgValue>, lookup: string -> Reply): (r: Result<ArgValue>)
    ensures Truthy(token) ==> r == Success(token.value)
    ensures !Truthy(token) && !Truthy(code) ==> r == Failure(NoTokenOrCode)
    ensures !Truthy(token) && Truthy(code) && Utf16Length(JsString(code.value)) != 8 ==> r == Failure(BadCodeLength)
    ensures AsksOfferer(token, code) && lookup(JsString(code.value)).Unreachable? ==>
      r == Failure(lookup(JsString(code.value)).message)
    ensures AsksOfferer(token, code) && lookup(JsString(code.value)).Replied? && !IsTruthy(lookup(JsString(code.value)).token) ==>
      r == Failure(LookupFailed)
    ensures AsksOfferer(token, code) && lookup(JsString(code.value)).Replied? && IsTruthy(lookup(JsString(code.value)).token) ==>
      r == Success(Str(lookup(JsString(code.value)).token.value))
    ensures r.Success? && !Truthy(token) ==>
      && Truthy(code) && Utf16Length(JsString(code.value)) == 8
      && lookup(JsString(code.value)).Replied?
      && IsTruthy(lookup(JsString(code.value)).token)
      && r.value == Str(lookup(JsString(code.value)).token.value)
  {
    if Truthy(token) then Success(token.value)
    else if !Truthy(code) then Failure(NoTokenOrCode)
    else
      var c := JsString(code.value);
      if Utf16Length(c) != 8 then Failure(BadCodeLength)
      else match lookup(c)
        case Unreachable(message) => Failure(message)
        case Replied(t) => if IsTruthy(t) then Success(Str(t.value)) else Failure(LookupFailed)
  }

  /** The host and token `cmdAccept` and `cmdGrant` go on to use, from the parsed flags. */
  function CommandTarget(flags: map<string, ArgValue>, lookup: string -> Reply): (r: Result<(ArgValue, ArgValue)>)
    ensures !Truthy(Lookup(flags, "host")) ==> r == Failure(MissingHost)
    ensures Truthy(Lookup(flags, "host")) ==> r.Success? == ResolveToken(Lookup(flags, "token"), Lookup(flags, "code"), lookup).Success?
    ensures Truthy(Lookup(flags, "host")) && ResolveToken(Lookup(flags, "token"), Lookup(flags, "code"), lookup).Failure? ==>
      r == Failure(ResolveToken(Lookup(flags, "token"), Lookup(flags, "code"), lookup).message)
    ensures r.Success? ==>
      r.value.0 == flags["host"] && r.value.1 == ResolveToken(Lookup(flags, "token"), Lookup(flags, "code"), lookup).value
  {
    var host := Lookup(flags, "host");
    if !Truthy(host) then Failure(MissingHost)
    else match ResolveToken(Lookup(flags, "token"), Lookup(flags, "code"), lookup)
      case Failure(message) => Failure(message)
      case Success(token) => Success((host.value, token))
  }

  /** An explicit token ends the resolution: the code and the lookup play no part. */
  lemma ExplicitTokenIgnoresCode(token: ArgValue, code1: Option<ArgValue>, code2: Option<ArgValue>,
                                 lookup1: string -> Reply, lookup2: string -> Reply)
    requires Truthy(Some(token))
    ensures ResolveToken(Some(token), code1, lookup1) == ResolveToken(Some(token), code2, lookup2) == Success(token)
  {
  }

  /** The lookup matters only through its answer for the code given. */
  lemma LookupOnlyAtCode(token: Option<ArgValue>, code: Option<ArgValue>, lookup1: string -> Reply, lookup2: string -> Reply)
    requires code.Some? ==> lookup1(JsString(code.value)) == lookup2(JsString(code.value))
    ensures ResolveToken(token, code, lookup1) == ResolveToken(token, code, lookup2)
  {
  }

  /** A code of the wrong length is refused whatever the offerer would have answered. */
  lemma CodeLengthCheckedBeforeLookup(code: ArgValue, lookup1: string -> Reply, lookup2: string -> Reply)
    requires Truthy(Some(code)) && Utf16Length(JsString(code)) != 8
    ensures ResolveToken(None, Some(code), lookup1) == ResolveToken(None, Some(code), lookup2) == Failure(BadCodeLength)
  {
  }

  /** Without `--host`, neither flags for the token nor the offerer are consulted. */
  lemma HostCheckedFirst(flags: map<string, ArgValue>, lookup1: string -> Reply, lookup2: string -> Reply)
    requires !Truthy(Lookup(flags, "host"))
    ensures CommandTarget(flags, lookup1) == CommandTarget(flags, lookup2) == Failure(MissingHost)
  {
  }

  /** A bare `--code` is the string "true", four characters: always refused before any lookup. */
  lemma BareCodeRefused(lookup: string -> Reply)
    ensures ResolveToken(None, Some(On), lookup) == Failure(BadCodeLength)
  {
    assert Utf16Length("true") == 4;
  }

  /**
   A bare `--token` resolves to `true`, which the CLI then presents as the
   text "true": never a token the server issues, so every gate refuses it.
   */
  lemma BareTokenNeverMatches(lookup: string -> Reply, code: Option<ArgValue>, s: State)
    ensures ResolveToken(Some(On), code, lookup) == Success(On)
    ensures JsString(On) != s.token
  {
    assert !IsLowerHex('t');
    assert !IsToken("true");
  }

  /** The offerer's answer to `/api/resolve/<code>`: the token, or a request failure with `notFound`. */
  function ServerLookup(s: State, sha1Hex: string -> string, notFound: string): (lookup: string -> Reply)
    ensures forall c :: lookup(c) == if c == CodeOf(sha1Hex, s.token) then Replied(Some(s.token)) else Unreachable(notFound)
  {
    c => if Resolve(s, map[], c, sha1Hex).response.Resolved? then Replied(Some(s.token)) else Unreachable(notFound)
  }

  /** A short code made of a hex digest's first eight digits is eight UTF-16 units long. */
  lemma DigestCodeLength(sha1Hex: string -> string, token: string)
    requires IsHexDigest(sha1Hex(token))
    ensures Utf16Length(CodeOf(sha1Hex, token)) == 8
  {
    var c := CodeOf(sha1Hex, token);
    forall i | 0 <= i < |c|
      ensures c[i] as int < 0x1_0000
    {
      assert c[i] == sha1Hex(token)[i];
      assert IsLowerHex(sha1Hex(token)[i]);
    }
  }

  /**
   End to end: the code the offerer's status read displays, typed into the
   accepting machine's `--code`, resolves to the token that status read
   reports, as long as no other request changes the token in between.
   */
  lemma DisplayedCodeResolves(s: State, files: Files, env: Env, sha1Hex: string -> string, notFound: string)
    requires IsHexDigest(sha1Hex(Status(s, files, env, sha1Hex).state.token))
    ensures var o := Status(s, files, env, sha1Hex);
      ResolveToken(None, Some(Str(o.response.code)), ServerLookup(o.state, sha1Hex, notFound))
        == Success(Str(o.response.token))
  {
    var o := Status(s, files, env, sha1Hex);
    DigestCodeLength(sha1Hex, o.state.token);
    assert JsString(Str(o.response.code)) == CodeOf(sha1Hex, o.state.token);
  }
}
