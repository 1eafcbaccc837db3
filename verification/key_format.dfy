/**
 The syntactic check applied to a submitted SSH public key: the text is
 trimmed, runs of CR/LF become one space, and the result must have the shape
 `<key-type> <base64-blob>[ <comment>]`.

 The check is written twice: `IsValidKey` follows the regular expression
 step by step as recursive predicates, and `ParseKey`/`Render` describe the
 same language as a parse into a `KeyLine` and its printing. The lemmas at the
 end show the two agree.
 */
module KeyFormat {
  import opened Common
  import opened JsText

  /** The key types the pattern admits. */
  datatype KeyType = Ed25519 | Rsa | EcdsaNistp256 | EcdsaNistp384 | EcdsaNistp521 {
    function Name(): string {
      match this
      case Ed25519 => "ssh-ed25519"
      case Rsa => "ssh-rsa"
      case EcdsaNistp256 => "ecdsa-sha2-nistp256"
      case EcdsaNistp384 => "ecdsa-sha2-nistp384"
      case EcdsaNistp521 => "ecdsa-sha2-nistp521"
    }
  }

  /** The character class `[A-Za-z0-9+/=]`. */
  predicate IsBlobChar(c: char) {
    ('A' <= c <= 'Z') || ('a' <= c <= 'z') || ('0' <= c <= '9') || c == '+' || c == '/' || c == '='
  }

  /** The characters a JavaScript `.` refuses to match (no `s` flag). */
  predicate IsLineTerminator(c: char) {
    c == '\n' || c == '\r' || c == '\U{2028}' || c == '\U{2029}'
  }

  /** The normalisation applied before the pattern: trim, then CR/LF runs to one space. */
  function Normalize(raw: string): string {
    CollapseLineBreaks(Trim(raw))
  }

  // ---------------------------------------------------------------------------
  // The recognizer: the regular expression, one predicate per piece.

  /** `.*$`: the rest of the text holds no line terminator. */
  predicate AnyText(s: string)
    decreases |s|
  {
    s == [] || (!IsLineTerminator(s[0]) && AnyText(s[1..]))
  }

  /** `[A-Za-z0-9+/=]*( .*)?$`: more blob characters, then the end or a comment. */
  predicate BlobTail(s: string)
    decreases |s|
  {
    s == [] || (IsBlobChar(s[0]) && BlobTail(s[1..])) || (s[0] == ' ' && AnyText(s[1..]))
  }

  /** `[A-Za-z0-9+/=]+( .*)?$`. */
  predicate BlobAndComment(s: string) {
    s != [] && IsBlobChar(s[0]) && BlobTail(s[1..])
  }

  /** `s` starts with the name of `k` followed by exactly one space. */
  predicate StartsWithType(s: string, k: KeyType) {
    var n := k.Name();
    |s| > |n| && s[..|n|] == n && s[|n|] == ' '
  }

  predicate MatchesWith(s: string, k: KeyType) {
    StartsWithType(s, k) && BlobAndComment(s[|k.Name()| + 1..])
  }

  /** `/^(ssh-(ed25519|rsa)|ecdsa-sha2-nistp(256|384|521)) [A-Za-z0-9+/=]+( .*)?$/.test(s)`. */
  predicate IsValidKey(s: string) {
    || MatchesWith(s, Ed25519) || MatchesWith(s, Rsa)
    || MatchesWith(s, EcdsaNistp256) || MatchesWith(s, EcdsaNistp384) || MatchesWith(s, EcdsaNistp521)
  }

  // ---------------------------------------------------------------------------
  // The same language as structured data.

  /** A key line: its type, its blob and an optional comment. */
  datatype KeyLine = KeyLine(kind: KeyType, blob: string, comment: Option<string>)

  predicate NoLineTerminator(s: string) {
    forall i | 0 <= i < |s| :: !IsLineTerminator(s[i])
  }

  predicate AllBlob(s: string) {
    forall i | 0 <= i < |s| :: IsBlobChar(s[i])
  }

  /** The key lines the pattern is meant to describe. */
  predicate WellFormed(k: KeyLine) {
    |k.blob| > 0 && AllBlob(k.blob) && (k.comment.Some? ==> NoLineTerminator(k.comment.value))
  }

  function CommentText(c: Option<string>): string {
    match c
    case None => ""
    case Some(t) => " " + t
  }

  /** Prints a key line as `<type> <blob>[ <comment>]`. */
  function Render(k: KeyLine): string {
    k.kind.Name() + " " + k.blob + CommentText(k.comment)
  }

  /** The length of the longest prefix made of blob characters. */
  function BlobRunLength(s: string): (n: nat)
    ensures n <= |s|
    ensures forall i | 0 <= i < n :: IsBlobChar(s[i])
    ensures n < |s| ==> !IsBlobChar(s[n])
  {
    if s != [] && IsBlobChar(s[0]) then 1 + BlobRunLength(s[1..]) else 0
  }

  /** The key type whose name (and a space) starts `s`, if any. */
  function TypeOf(s: string): (r: Option<KeyType>)
    ensures r.Some? ==> StartsWithType(s, r.value)
    ensures r.None? ==> forall k: KeyType :: !StartsWithType(s, k)
  {
    if StartsWithType(s, Ed25519) then Some(Ed25519)
    else if StartsWithType(s, Rsa) then Some(Rsa)
    else if StartsWithType(s, EcdsaNistp256) then Some(EcdsaNistp256)
    else if StartsWithType(s, EcdsaNistp384) then Some(EcdsaNistp384)
    else if StartsWithType(s, EcdsaNistp521) then Some(EcdsaNistp521)
    else None
  }

  /** Splits what follows `<type> ` into blob and comment. */
  function ParseAfterType(k: KeyType, rest: string): Option<KeyLine> {
    var n := BlobRunLength(rest);
    var tail := rest[n..];
    if n == 0 then None
    else if tail == [] then Some(KeyLine(k, rest[..n], None))
    else if tail[0] == ' ' && NoLineTerminator(tail[1..]) then Some(KeyLine(k, rest[..n], Some(tail[1..])))
    else None
  }

  /** Splits a key line into type, blob and comment, or `None` when it has the wrong shape. */
  function ParseKey(s: string): Option<KeyLine> {
    match TypeOf(s)
    case None => None
    case Some(k) => ParseAfterType(k, s[|k.Name()| + 1..])
  }

  // ---------------------------------------------------------------------------
  // The recognizer and the parser agree.

  /** No text starts with two different key types. */
  lemma TypeUnique(s: string, k1: KeyType, k2: KeyType)
    requires StartsWithType(s, k1) && StartsWithType(s, k2)
    ensures k1 == k2
  {
  }

  /** A text that starts with a key type is the type's name, a space, and the rest. */
  lemma SplitAtType(s: string, k: KeyType)
    requires StartsWithType(s, k)
    ensures s == k.Name() + " " + s[|k.Name()| + 1..]
  {
    var n := k.Name();
    assert s == s[..|n|] + [s[|n|]] + s[|n| + 1..];
  }

  /** The name of a key type, a space and anything after it starts with that type. */
  lemma JoinAtType(k: KeyType, rest: string)
    ensures StartsWithType(k.Name() + " " + rest, k)
    ensures (k.Name() + " " + rest)[|k.Name()| + 1..] == rest
  {
    var s := k.Name() + " " + rest;
    assert s[..|k.Name()|] == k.Name();
  }

  lemma {:induction false} AnyTextIff(s: string)
    ensures AnyText(s) <==> NoLineTerminator(s)
    decreases |s|
  {
    if s != [] {
      AnyTextIff(s[1..]);
      assert forall i | 0 <= i < |s[1..]| :: s[1..][i] == s[i + 1];
    }
  }

  /** What `BlobTail` accepts: the blob run ends at the end of text or at a comment. */
  ghost predicate TailAfterRun(s: string) {
    var n := BlobRunLength(s);
    n == |s| || (s[n] == ' ' && NoLineTerminator(s[n + 1..]))
  }

  lemma {:induction false} BlobTailIff(s: string)
    ensures BlobTail(s) <==> TailAfterRun(s)
    decreases |s|
  {
    if s != [] {
      if IsBlobChar(s[0]) {
        BlobTailIff(s[1..]);
        assert BlobRunLength(s) == 1 + BlobRunLength(s[1..]);
        assert s[1..][BlobRunLength(s[1..])..] == s[BlobRunLength(s)..];
      } else {
        AnyTextIff(s[1..]);
      }
    }
  }

  /** After the type, the pattern and the parser accept the same texts. */
  lemma BlobAndCommentAgrees(k: KeyType, rest: string)
    ensures BlobAndComment(rest) <==> ParseAfterType(k, rest).Some?
  {
    if rest != [] && IsBlobChar(rest[0]) {
      BlobTailIff(rest[1..]);
      assert BlobRunLength(rest) == 1 + BlobRunLength(rest[1..]);
      assert rest[1..][BlobRunLength(rest[1..])..] == rest[BlobRunLength(rest)..];
    }
  }

  /** Only the type `TypeOf` finds can match. */
  lemma MatchesOnlyFound(s: string, k: KeyType)
    ensures MatchesWith(s, k) <==> TypeOf(s) == Some(k) && BlobAndComment(s[|k.Name()| + 1..])
  {
    if StartsWithType(s, k) {
      TypeUnique(s, k, TypeOf(s).value);
    }
  }

  /** The recognizer accepts exactly the texts the parser can split. */
  lemma RecognizerAgrees(s: string)
    ensures IsValidKey(s) <==> ParseKey(s).Some?
  {
    MatchesOnlyFound(s, Ed25519);
    MatchesOnlyFound(s, Rsa);
    MatchesOnlyFound(s, EcdsaNistp256);
    MatchesOnlyFound(s, EcdsaNistp384);
    MatchesOnlyFound(s, EcdsaNistp521);
    if TypeOf(s).Some? {
      var k := TypeOf(s).value;
      BlobAndCommentAgrees(k, s[|k.Name()| + 1..]);
    }
  }

  /** A blob run followed by the end of text or a non-blob character has exactly that length. */
  lemma BlobRunOf(blob: string, after: string)
    requires AllBlob(blob)
    requires after == [] || !IsBlobChar(after[0])
    ensures BlobRunLength(blob + after) == |blob|
  {
    var s := blob + after;
    assert forall i | 0 <= i < |blob| :: s[i] == blob[i];
    if |after| > 0 {
      assert s[|blob|] == after[0];
    }
  }

  lemma ParseAfterTypeSound(k: KeyType, rest: string)
    requires ParseAfterType(k, rest).Some?
    ensures ParseAfterType(k, rest).value.kind == k
    ensures WellFormed(ParseAfterType(k, rest).value)
    ensures ParseAfterType(k, rest).value.blob + CommentText(ParseAfterType(k, rest).value.comment) == rest
  {
    var n := BlobRunLength(rest);
    var tail := rest[n..];
    assert rest == rest[..n] + tail;
    if tail != [] {
      assert tail == [' '] + tail[1..];
    }
  }

  lemma ParseAfterTypeComplete(k: KeyLine)
    requires WellFormed(k)
    ensures ParseAfterType(k.kind, k.blob + CommentText(k.comment)) == Some(k)
  {
    var after := CommentText(k.comment);
    var rest := k.blob + after;
    BlobRunOf(k.blob, after);
    assert rest[..|k.blob|] == k.blob;
    assert rest[|k.blob|..] == after;
    if k.comment.Some? {
      assert after[1..] == k.comment.value;
    }
  }

  /** Whatever the parser returns is well formed and prints back to the input. */
  lemma ParseSound(s: string)
    requires ParseKey(s).Some?
    ensures WellFormed(ParseKey(s).value)
    ensures Render(ParseKey(s).value) == s
  {
    var k := TypeOf(s).value;
    var rest := s[|k.Name()| + 1..];
    SplitAtType(s, k);
    ParseAfterTypeSound(k, rest);
    var line := ParseAfterType(k, rest).value;
    assert ParseKey(s) == Some(line);
    ConcatAssoc(k.Name() + " ", line.blob, CommentText(line.comment));
  }

  /** Every well-formed key line is parsed back to itself. */
  lemma ParseComplete(k: KeyLine)
    requires WellFormed(k)
    ensures ParseKey(Render(k)) == Some(k)
  {
    var rest := k.blob + CommentText(k.comment);
    ConcatAssoc(k.kind.Name() + " ", k.blob, CommentText(k.comment));
    JoinAtType(k.kind, rest);
    assert TypeOf(Render(k)) == Some(k.kind) by {
      TypeUnique(Render(k), k.kind, TypeOf(Render(k)).value);
    }
    ParseAfterTypeComplete(k);
  }

  /** The recognizer accepts exactly the printed forms of well-formed key lines. */
  lemma ValidKeyIsRenderedKeyLine(s: string)
    ensures IsValidKey(s) <==> exists k :: WellFormed(k) && Render(k) == s
  {
    RecognizerAgrees(s);
    if IsValidKey(s) {
      ParseSound(s);
    }
    if exists k :: WellFormed(k) && Render(k) == s {
      var k :| WellFormed(k) && Render(k) == s;
      ParseComplete(k);
    }
  }

  // ---------------------------------------------------------------------------
  // Examples.

  /** Every key type name starts with `s` or `e`, and holds no CR or LF. */
  lemma NameShape(k: KeyType)
    ensures k.Name() != [] && (k.Name()[0] == 's' || k.Name()[0] == 'e')
    ensures NoCrLf(k.Name())
  {
  }

  /** A text that does not start with `s` or `e` names no key type, so it is rejected. */
  lemma UntypedTextRejected(s: string)
    requires s == [] || (s[0] != 's' && s[0] != 'e')
    ensures !IsValidKey(s)
  {
    forall k: KeyType ensures !StartsWithType(s, k) {
      NameShape(k);
      if |s| > |k.Name()| {
        assert s[..|k.Name()|][0] == s[0];
      }
    }
  }

  /** A text without line breaks and without whitespace at either end is unchanged by normalisation. */
  lemma NormalizeIdentity(s: string)
    requires s != [] && !IsTrimmable(s[0]) && !IsTrimmable(s[|s| - 1])
    requires NoCrLf(s)
    ensures Normalize(s) == s
  {
    TrimPadding(s, []);
    assert s + [] == s;
    CollapseIdentity(s);
  }

  /** A bare word such as `not-a-key` passes through normalisation unchanged and is rejected. */
  lemma NotAKeyRejected(s: string)
    requires s == "not-a-key"
    ensures Normalize(s) == s
    ensures !IsValidKey(Normalize(s))
  {
    assert !IsTrimmable(s[0]) && !IsTrimmable(s[|s| - 1]);
    NormalizeIdentity(s);
    UntypedTextRejected(s);
  }

  /** Blob text and well-formed comments hold no CR or LF. */
  lemma BodyUnbroken(k: KeyLine)
    requires WellFormed(k)
    ensures NoCrLf(k.blob + CommentText(k.comment))
  {
    assert NoCrLf(k.blob) by {
      forall i | 0 <= i < |k.blob| ensures !IsCrLf(k.blob[i]) {
        assert IsBlobChar(k.blob[i]);
      }
    }
    if k.comment.Some? {
      var c := k.comment.value;
      assert NoCrLf(c) by {
        forall i | 0 <= i < |c| ensures !IsCrLf(c[i]) {
          assert !IsLineTerminator(c[i]);
        }
      }
      assert NoCrLf(" ");
      NoCrLfConcat(" ", c);
    }
    NoCrLfConcat(k.blob, CommentText(k.comment));
  }

  /** The blob starts the body, and the body ends in a blob character or the comment's last character. */
  lemma BodyEnds(k: KeyLine)
    requires WellFormed(k)
    requires k.comment.Some? ==> k.comment.value != [] && !IsTrimmable(k.comment.value[|k.comment.value| - 1])
    ensures var body := k.blob + CommentText(k.comment);
      body != [] && body[0] == k.blob[0] && !IsTrimmable(body[|body| - 1])
  {
    var body := k.blob + CommentText(k.comment);
    assert body[0] == k.blob[0];
    if k.comment.Some? {
      var c := k.comment.value;
      assert body[|body| - 1] == c[|c| - 1];
    } else {
      assert body[|body| - 1] == k.blob[|k.blob| - 1];
      assert IsBlobChar(k.blob[|k.blob| - 1]);
    }
  }

  /** Trimming drops the trailing whitespace and keeps the rest, whose ends are not whitespace. */
  lemma PaddedLineTrimmed(name: string, run: string, body: string, pad: string)
    requires name != [] && !IsTrimmable(name[0])
    requires body != [] && !IsTrimmable(body[|body| - 1])
    requires AllTrimmable(pad)
    ensures Trim(name + run + body + pad) == name + (run + body)
  {
    var x := name + (run + body);
    ConcatAssoc(name, run, body);
    assert x[0] == name[0];
    assert x[|x| - 1] == body[|body| - 1];
    TrimPadding(x, pad);
  }

  /** The run between type and blob becomes the one space `Render` puts there. */
  lemma WrappedKeyJoined(k: KeyLine, run: string)
    requires WellFormed(k)
    requires |run| > 0 && forall i | 0 <= i < |run| :: IsCrLf(run[i])
    ensures CollapseLineBreaks(k.kind.Name() + (run + (k.blob + CommentText(k.comment)))) == Render(k)
  {
    var name := k.kind.Name();
    var body := k.blob + CommentText(k.comment);
    NameShape(k.kind);
    BodyUnbroken(k);
    assert body[0] == k.blob[0];
    MaximalRunBecomesOneSpace(name, run, body);
    CollapseIdentity(name);
    CollapseIdentity(body);
    ConcatAssoc(name + " ", k.blob, CommentText(k.comment));
    ConcatAssoc(name, " ", body);
  }

  /**
   A key pasted with a run of CR/LF between its type and its blob, and
   trailing whitespace after it, normalises to the one-line form and is
   accepted, provided the comment, if any, does not itself end in whitespace.
   */
  lemma WrappedKeyAccepted(k: KeyLine, run: string, pad: string)
    requires WellFormed(k)
    requires |run| > 0 && forall i | 0 <= i < |run| :: IsCrLf(run[i])
    requires AllTrimmable(pad)
    requires k.comment.Some? ==> k.comment.value != [] && !IsTrimmable(k.comment.value[|k.comment.value| - 1])
    ensures Normalize(k.kind.Name() + run + (k.blob + CommentText(k.comment)) + pad) == Render(k)
    ensures IsValidKey(Normalize(k.kind.Name() + run + (k.blob + CommentText(k.comment)) + pad))
  {
    NameShape(k.kind);
    BodyEnds(k);
    PaddedLineTrimmed(k.kind.Name(), run, k.blob + CommentText(k.comment), pad);
    WrappedKeyJoined(k, run);
    ParseComplete(k);
    RecognizerAgrees(Render(k));
  }

  /**
   A blob cut short by `...`, as in `AAAAB3NzaC1yc2E... user@host`, is
   refused: `.` is not a blob character.
   */
  lemma ElidedBlobRejected(k: KeyType, blob: string, rest: string)
    requires AllBlob(blob)
    requires rest != [] && rest[0] == '.'
    ensures !IsValidKey(k.Name() + " " + blob + rest)
  {
    var s := k.Name() + " " + blob + rest;
    ConcatAssoc(k.Name() + " ", blob, rest);
    JoinAtType(k, blob + rest);
    assert TypeOf(s) == Some(k) by {
      TypeUnique(s, k, TypeOf(s).value);
    }
    BlobRunOf(blob, rest);
    assert (blob + rest)[|blob|..] == rest;
    RecognizerAgrees(s);
  }
}
