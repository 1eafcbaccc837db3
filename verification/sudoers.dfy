/**
 The sudo grant as a structured value: which user, and whether a password is
 still asked for. One rendering function each for the sudoers directive, the
 fragment file's path and content, and the command handed to an operator
 when the server cannot write the fragment itself.
 */
module Sudoers {
  import opened Common

  /** A request to let `user` run anything as any user, with or without a password. */
  datatype Grant = Grant(user: string, nopass: bool)

  const PasswordSuffix: string := " ALL=(ALL) ALL"
  const NoPasswordSuffix: string := " ALL=(ALL) NOPASSWD: ALL"
  const FragmentPrefix: string := "/etc/sudoers.d/ssh-helper-"

  /** The sudoers directive for a grant. */
  function SudoLine(g: Grant): string {
    g.user + (if g.nopass then NoPasswordSuffix else PasswordSuffix)
  }

  /** The dedicated fragment file for a user. */
  function FragmentPath(user: string): string {
    FragmentPrefix + user
  }

  /** The fragment's content: a dated comment line, then the directive. */
  function Fragment(g: Grant, stamp: string): string {
    "# added by ssh-helper on " + stamp + "\n" + SudoLine(g) + "\n"
  }

  /**
   The command returned when the server is not root: a heredoc that writes the
   same fragment, then `chmod 440` and a `visudo -c` syntax check of it.
   */
  function ManualCommand(g: Grant, stamp: string): string {
    var path := FragmentPath(g.user);
    "sudo bash -c 'cat > " + path + " <<'EOF'\n" + Fragment(g, stamp)
      + "EOF' && sudo chmod 440 " + path + " && sudo visudo -c -f " + path
  }

  /** Reads a directive back into the grant it expresses. */
  function ParseSudoLine(line: string): Option<Grant> {
    if EndsWith(line, NoPasswordSuffix) then Some(Grant(line[..|line| - |NoPasswordSuffix|], true))
    else if EndsWith(line, PasswordSuffix) then Some(Grant(line[..|line| - |PasswordSuffix|], false))
    else None
  }

  lemma EndsWithConcat(a: string, b: string)
    ensures EndsWith(a + b, b)
    ensures (a + b)[..|a + b| - |b|] == a
  {
    assert (a + b)[|a + b| - |b|..] == b;
  }

  /** A password-keeping directive never reads as a passwordless one. */
  lemma PasswordLineIsNotNoPassword(u: string)
    ensures !EndsWith(u + PasswordSuffix, NoPasswordSuffix)
  {
    var line := u + PasswordSuffix;
    assert line[|line| - 10] == '=';
    if |line| >= |NoPasswordSuffix| {
      assert line[|line| - |NoPasswordSuffix|..][14] == line[|line| - 10];
      assert NoPasswordSuffix[14] == 'A';
    }
  }

  /** The directive determines the grant: the user and the password choice are recovered exactly. */
  lemma SudoLineRoundTrip(g: Grant)
    ensures ParseSudoLine(SudoLine(g)) == Some(g)
  {
    if g.nopass {
      EndsWithConcat(g.user, NoPasswordSuffix);
    } else {
      EndsWithConcat(g.user, PasswordSuffix);
      PasswordLineIsNotNoPassword(g.user);
    }
  }

  /** Different grants give different directives. */
  lemma SudoLineInjective(g1: Grant, g2: Grant)
    requires SudoLine(g1) == SudoLine(g2)
    ensures g1 == g2
  {
    SudoLineRoundTrip(g1);
    SudoLineRoundTrip(g2);
  }

  /** One fragment file per user: two users never share a path, and a re-run reuses it. */
  lemma FragmentPathInjective(u1: string, u2: string)
    ensures FragmentPath(u1) == FragmentPath(u2) <==> u1 == u2
  {
    if FragmentPath(u1) == FragmentPath(u2) {
      assert u1 == FragmentPath(u1)[|FragmentPrefix|..];
      assert u2 == FragmentPath(u2)[|FragmentPrefix|..];
    }
  }

  /** The manual command in three parts: the heredoc opening, the fragment, the checks. */
  lemma ManualCommandParts(g: Grant, stamp: string)
    ensures ManualCommand(g, stamp)
         == ("sudo bash -c 'cat > " + FragmentPath(g.user) + " <<'EOF'\n")
          + Fragment(g, stamp)
          + ("EOF' && sudo chmod 440 " + FragmentPath(g.user) + " && sudo visudo -c -f " + FragmentPath(g.user))
  {
  }

  /**
   The manual command carries, verbatim, the fragment the root branch would
   write, and with it the exact directive.
   */
  lemma ManualCommandCarriesFragment(g: Grant, stamp: string)
    ensures IsInfix(Fragment(g, stamp), ManualCommand(g, stamp))
    ensures IsInfix(SudoLine(g), ManualCommand(g, stamp))
  {
    var head := "sudo bash -c 'cat > " + FragmentPath(g.user) + " <<'EOF'\n";
    var tail := "EOF' && sudo chmod 440 " + FragmentPath(g.user) + " && sudo visudo -c -f " + FragmentPath(g.user);
    ManualCommandParts(g, stamp);
    InfixOfConcat(head, Fragment(g, stamp), tail);
    var pre := head + "# added by ssh-helper on " + stamp + "\n";
    assert head + Fragment(g, stamp) + tail == pre + SudoLine(g) + ("\n" + tail);
    InfixOfConcat(pre, SudoLine(g), "\n" + tail);
  }

  /** The manual command names the fragment's path. */
  lemma ManualCommandNamesPath(g: Grant, stamp: string)
    ensures IsInfix(FragmentPath(g.user), ManualCommand(g, stamp))
  {
    var path := FragmentPath(g.user);
    var rest := " <<'EOF'\n" + Fragment(g, stamp)
      + "EOF' && sudo chmod 440 " + path + " && sudo visudo -c -f " + path;
    assert ManualCommand(g, stamp) == "sudo bash -c 'cat > " + path + rest;
    InfixOfConcat("sudo bash -c 'cat > ", path, rest);
  }
}
