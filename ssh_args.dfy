/**
 * The argument lists and the remote command line the script builds for ssh:
 * the optional login arguments, the remote `jupyter lab` command, the port
 * forward and the tunnel's argv. A small reader of ssh argument lists and a
 * reader of the forward specification are the partners that show what each
 * built value means to the program that receives it.
 */
module SshArgs {
  import opened Wrappers
  import opened Text
  import opened ShellWords

  /** `get_ssh_user_args`: `-l user` when a user is given, nothing otherwise. */
  function SshUserArgs(user: Option<string>): seq<string>
  {
    match user
    case Some(u) => ["-l", u]
    case None => []
  }

  /** The settings an ssh client takes from its argument list. */
  datatype SshCall = SshCall(login: Option<string>, port: Option<string>, tty: bool,
                             forward: Option<string>, host: string, command: seq<string>)

  const NoOptions := SshCall(None, None, false, None, "", [])

  /** An argument ssh's option parser takes as an option: `-` followed by something; a lone `-` is not one. */
  predicate IsOption(arg: string) {
    |arg| >= 2 && arg[0] == '-'
  }

  /** The position of the last `@` among the first `n` characters of `s`, if there is one. */
  function LastAtBefore(s: string, n: nat): (r: Option<nat>)
    requires n <= |s|
    ensures r.Some? ==> r.value < n && s[r.value] == '@' && forall k :: r.value < k < n ==> s[k] != '@'
    ensures r.None? ==> forall k :: 0 <= k < n ==> s[k] != '@'
  {
    if n == 0 then None
    else if s[n - 1] == '@' then Some(n - 1)
    else LastAtBefore(s, n - 1)
  }

  /** The position of the last `@` in `s`, if there is one. */
  function LastAt(s: string): Option<nat>
  {
    LastAtBefore(s, |s|)
  }

  /**
   * The destination as ssh reads it: `login@host` is split at its last `@`,
   * the part before it is the login unless `-l` already gave one, and an empty
   * part before the `@` is refused. A destination without `@` is the host.
   */
  function ReadDestination(dest: string, command: seq<string>, acc: SshCall): Option<SshCall>
  {
    match LastAt(dest)
    case None => Some(acc.(host := dest, command := command))
    case Some(i) =>
      if i == 0 then None
      else Some(acc.(login := if acc.login.Some? then acc.login else Some(dest[..i]),
                     host := dest[i + 1..], command := command))
  }

  /** A destination without `@` is taken as the host, and the login is left as it was. */
  lemma PlainDestination(dest: string, command: seq<string>, acc: SshCall)
    requires '@' !in dest
    ensures ReadDestination(dest, command, acc) == Some(acc.(host := dest, command := command))
  {
  }

  /**
   * `login@host` connects to `host`; `login` is the login unless `-l` gave one,
   * and then the `-l` login wins.
   */
  lemma LoginAtHostDestination(login: string, host: string, command: seq<string>, acc: SshCall)
    requires login != [] && '@' !in host
    ensures ReadDestination(login + "@" + host, command, acc)
         == Some(acc.(login := if acc.login.Some? then acc.login else Some(login), host := host, command := command))
  {
    var d := login + "@" + host;
    assert d[|login|] == '@';
    assert forall k :: |login| < k < |d| ==> d[k] == host[k - |login| - 1];
    assert d[..|login|] == login && d[|login| + 1..] == host;
  }

  /** A destination whose `@` has nothing before it is refused. */
  lemma EmptyLoginRefused(host: string, command: seq<string>, acc: SshCall)
    requires '@' !in host
    ensures ReadDestination("@" + host, command, acc) == None
  {
    var d := "@" + host;
    assert d[0] == '@';
    assert forall k :: 0 < k < |d| ==> d[k] == host[k - 1];
  }

  /** A port number ssh accepts: 1 to 65535. */
  predicate IsPort(n: int)
  {
    1 <= n <= 65535
  }

  /** Reads a port argument as ssh does: a decimal number from 1 to 65535, or nothing. */
  function ReadPort(s: string): (r: Option<int>)
    ensures r.Some? ==> IsPort(r.value) && ParseInt(s) == r
  {
    match ParseInt(s)
    case Some(n) => if IsPort(n) then Some(n) else None
    case None => None
  }

  /** A printed integer is read as a port exactly when it lies from 1 to 65535. */
  lemma DecimalPort(n: int)
    ensures ReadPort(IntToDecimal(n)) == if IsPort(n) then Some(n) else None
  {
    DecimalRoundTrip(n);
  }

  /**
   * Reads the options ssh accepts here (`-l login`, `-p port`, `-t`,
   * `-L forward`) up to the first argument that is not an option: that one is
   * the host and the rest is the remote command. A `-p` port or a `-L`
   * forward that ssh cannot read ends the reading with nothing, as ssh exits
   * then. Any other option is refused too. The reader is meant for argument
   * lists without a repeated option: here a later one replaces an earlier one.
   */
  function ReadOptions(args: seq<string>, acc: SshCall): Option<SshCall>
    decreases |args|
  {
    if args == [] then None
    else if args[0] == "-t" then ReadOptions(args[1..], acc.(tty := true))
    else if args[0] == "-l" || args[0] == "-p" || args[0] == "-L" then
      if |args| < 2 then None
      else
        var v := args[1];
        if args[0] == "-p" && ReadPort(v).None? then None
        else if args[0] == "-L" && ReadForward(v).None? then None
        else
          var next :=
            if args[0] == "-l" then acc.(login := Some(v))
            else if args[0] == "-p" then acc.(port := Some(v))
            else acc.(forward := Some(v));
          ReadOptions(args[2..], next)
    else if IsOption(args[0]) then None
    else ReadDestination(args[0], args[1..], acc)
  }

  function ReadSshArgv(argv: seq<string>): Option<SshCall>
  {
    if |argv| == 0 || argv[0] != "ssh" then None else ReadOptions(argv[1..], NoOptions)
  }

  /** The login arguments set the login to `user` when there is one and leave everything else as it was. */
  lemma UserArgsReadBack(user: Option<string>, rest: seq<string>, acc: SshCall)
    ensures ReadOptions(SshUserArgs(user) + rest, acc)
         == ReadOptions(rest, if user.Some? then acc.(login := user) else acc)
  {
    if user.Some? {
      var args := SshUserArgs(user) + rest;
      assert args[0] == "-l" && args[1] == user.value && args[2..] == rest;
    } else {
      assert SshUserArgs(user) + rest == rest;
    }
  }

  /** What follows the directory in the remote command: `;` and the server command with its port. */
  function ServerTail(tunnelPort: int): string
  {
    "; jupyter lab --no-browser --port=" + IntToDecimal(tunnelPort)
  }

  /** `jupyter_command` as written: the directory between single quotes, then the server command. */
  function JupyterCommand(directory: string, tunnelPort: int): string
  {
    "cd '" + directory + "'" + ServerTail(tunnelPort)
  }

  /** The remote command with the directory quoted so that any directory survives the shell. */
  function QuotedJupyterCommand(directory: string, tunnelPort: int): string
  {
    "cd " + QuoteWord(directory) + ServerTail(tunnelPort)
  }

  /** For a directory without a single quote the two commands are the same string. */
  lemma QuotingAgreesWithoutQuotes(directory: string, tunnelPort: int)
    requires '\'' !in directory
    ensures QuotedJupyterCommand(directory, tunnelPort) == JupyterCommand(directory, tunnelPort)
  {
    EscapeQuotesIdentity(directory);
  }

  /** The words of the server command that follows `cd`. */
  function ServerWords(tunnelPort: int): seq<string>
  {
    ["jupyter", "lab", "--no-browser", "--port=" + IntToDecimal(tunnelPort)]
  }

  lemma DecimalIsPlain(n: int)
    ensures IsPlainWord(IntToDecimal(n))
  {
  }

  /** The words of the server command before its port option. */
  const ServerFixedWords := ["jupyter", "lab", "--no-browser"]

  lemma FixedWordsPlain()
    ensures IsPlainWord("cd")
    ensures forall i :: 0 <= i < |ServerFixedWords| ==> ServerFixedWords[i] != [] && IsPlainWord(ServerFixedWords[i])
  {
  }

  lemma PortWordPlain(digits: string)
    requires IsPlainWord(digits)
    ensures IsPlainWord("--port=" + digits)
  {
  }

  lemma SpacedFixedWords()
    ensures Spaced(ServerFixedWords) == "jupyter lab --no-browser "
  {
  }

  lemma ServerHead()
    ensures "; jupyter lab --no-browser --port=" == [';', ' '] + Spaced(ServerFixedWords) + "--port="
  {
    SpacedFixedWords();
  }

  lemma ServerText(digits: string)
    ensures "; jupyter lab --no-browser --port=" + digits
         == [';', ' '] + (Spaced(ServerFixedWords) + ("--port=" + digits))
  {
    ServerHead();
    var head := "; jupyter lab --no-browser --port=";
    var spaced := Spaced(ServerFixedWords);
    assert head + digits == [';', ' '] + spaced + "--port=" + digits;
  }

  /** After the `cd` command has ended, the server command reads as its four words. */
  lemma ServerWordsReadBack(digits: string, done: seq<seq<string>>)
    requires IsPlainWord("--port=" + digits)
    ensures Read([' '] + (Spaced(ServerFixedWords) + ("--port=" + digits)), Reader(Unquoted, done, [], None))
         == Commands(done + [ServerFixedWords + ["--port=" + digits]])
  {
    var port := "--port=" + digits;
    FixedWordsPlain();
    var r0 := Reader(Unquoted, done, [], None);
    var r1 := r0.(words := ServerFixedWords);
    assert Feed(r0, ' ') == Next(r0);
    ReadCons(' ', Spaced(ServerFixedWords) + port, r0);
    assert [] + ServerFixedWords == ServerFixedWords;
    ReadSpaced(ServerFixedWords, port, r0);
    assert port + [] == port;
    ReadPlainWord(port, [], r1);
    assert "" + port == port;
  }

  /** A command line that starts with the word `cd` and a blank. */
  lemma ReadCd(rest: string)
    ensures Read("cd " + rest, Start) == Read(rest, Reader(Unquoted, [], ["cd"], None))
  {
    assert "cd " + rest == Spaced(["cd"]) + rest;
    FixedWordsPlain();
    ReadSpaced(["cd"], rest, Start);
    assert [] + ["cd"] == ["cd"];
  }

  /** `;` ends the `cd` command. */
  lemma ReadCdEnds(directory: string, rest: string)
    ensures Read([';'] + rest, Reader(Unquoted, [], ["cd"], Some(directory)))
         == Read(rest, Reader(Unquoted, [["cd", directory]], [], None))
  {
    var r := Reader(Unquoted, [], ["cd"], Some(directory));
    assert ["cd"] + [directory] == ["cd", directory];
    assert [] + [["cd", directory]] == [["cd", directory]];
    assert Feed(r, ';') == Next(Reader(Unquoted, [["cd", directory]], [], None));
    ReadCons(';', rest, r);
  }

  /**
   * The shell on the remote side reads the command as two commands: `cd` into
   * exactly `directory`, then the server bound to `tunnelPort` without a browser.
   */
  lemma QuotedJupyterCommandReadsBack(directory: string, tunnelPort: int)
    ensures ReadCommandLine(QuotedJupyterCommand(directory, tunnelPort))
         == Commands([["cd", directory], ServerWords(tunnelPort)])
  {
    var digits := IntToDecimal(tunnelPort);
    var server := [' '] + (Spaced(ServerFixedWords) + ("--port=" + digits));
    assert "cd " + QuoteWord(directory) + ServerTail(tunnelPort) == "cd " + (QuoteWord(directory) + ServerTail(tunnelPort));
    ReadCd(QuoteWord(directory) + ServerTail(tunnelPort));
    QuoteWordReadsBack(directory, ServerTail(tunnelPort), Reader(Unquoted, [], ["cd"], None));
    ServerText(digits);
    assert ServerTail(tunnelPort) == [';'] + server;
    ReadCdEnds(directory, server);
    DecimalIsPlain(tunnelPort);
    PortWordPlain(digits);
    ServerWordsReadBack(digits, [["cd", directory]]);
    assert ServerWords(tunnelPort) == ServerFixedWords + ["--port=" + digits];
  }

  /** After `cd '`, the text `a'b'` leaves a quote open again. */
  lemma ReadQuoteInDirectory(rest: string)
    ensures Read("'a'b'" + rest, Reader(Unquoted, [], ["cd"], None))
         == Read(rest, Reader(SingleQuoted, [], ["cd"], Some("ab")))
  {
    var r1 := Reader(Unquoted, [], ["cd"], None);
    assert "'a'b'" + rest == ['\''] + (['a'] + (['\''] + (['b'] + (['\''] + rest))));
    var q1 := r1.(mode := SingleQuoted, cur := Some(""));
    assert Feed(r1, '\'') == Next(q1);
    ReadCons('\'', ['a'] + (['\''] + (['b'] + (['\''] + rest))), r1);
    var q2 := q1.(cur := Some("a"));
    assert "" + ['a'] == "a";
    assert Feed(q1, 'a') == Next(q2);
    ReadCons('a', ['\''] + (['b'] + (['\''] + rest)), q1);
    var q3 := q2.(mode := Unquoted);
    assert Feed(q2, '\'') == Next(q3);
    ReadCons('\'', ['b'] + (['\''] + rest), q2);
    var q4 := q3.(cur := Some("ab"));
    assert "a" + ['b'] == "ab";
    assert Feed(q3, 'b') == Next(q4);
    ReadCons('b', ['\''] + rest, q3);
    assert Feed(q4, '\'') == Next(q4.(mode := SingleQuoted));
    ReadCons('\'', rest, q4);
  }

  /** The server command holds no quote that could close one left open. */
  lemma ServerTailHasNoQuote(tunnelPort: int)
    ensures '\'' !in ServerTail(tunnelPort)
  {
  }

  /**
   * As written, a directory with a single quote in it, such as `a'b`, closes
   * the quote early and leaves a quote open to the end of the line: the shell
   * cannot even read the command.
   */
  lemma JupyterCommandBreaksOnQuote(tunnelPort: int)
    ensures ReadCommandLine(JupyterCommand("a'b", tunnelPort)) == Unterminated
  {
    var tail := ServerTail(tunnelPort);
    assert "cd '" + "a'b" + "'" + tail == "cd " + ("'a'b'" + tail);
    ReadCd("'a'b'" + tail);
    ReadQuoteInDirectory(tail);
    ServerTailHasNoQuote(tunnelPort);
    ReadUnclosedQuote(tail, Reader(SingleQuoted, [], ["cd"], Some("ab")));
  }

  /** The forward `localhost:p:localhost:p`: the same port on both ends of the tunnel. */
  function ForwardSpec(tunnelPort: int): string
  {
    "localhost:" + IntToDecimal(tunnelPort) + ":localhost:" + IntToDecimal(tunnelPort)
  }

  /** A forward as ssh reads it: bind host and port, then destination host and port. */
  datatype Forward = Forward(bindHost: string, bindPort: int, destHost: string, destPort: int)

  /** `s.split(':')`. */
  function SplitColons(s: string): (fields: seq<string>)
    ensures |fields| >= 1
  {
    if s == [] then [""]
    else
      var r := SplitColons(s[1..]);
      if s[0] == ':' then [""] + r else [[s[0]] + r[0]] + r[1..]
  }

  lemma {:induction false} SplitColonFree(a: string, rest: string)
    requires ':' !in a
    ensures SplitColons(a + rest) == [a + SplitColons(rest)[0]] + SplitColons(rest)[1..]
  {
    var r := SplitColons(rest);
    if a != [] {
      assert a[0] in a;
      assert forall c :: c in a[1..] ==> c in a;
      var s := a + rest;
      assert s[0] == a[0] && s[1..] == a[1..] + rest;
      SplitColonFree(a[1..], rest);
      var t := SplitColons(s[1..]);
      assert t == [a[1..] + r[0]] + r[1..];
      assert SplitColons(s) == [[a[0]] + t[0]] + t[1..];
      assert [a[0]] + (a[1..] + r[0]) == a + r[0];
    } else {
      assert a + rest == rest;
      assert a + r[0] == r[0];
      assert r == [r[0]] + r[1..];
    }
  }

  /** Splitting `a:rest` at its colons, for `a` without a colon. */
  lemma SplitField(a: string, rest: string)
    requires ':' !in a
    ensures SplitColons(a + ":" + rest) == [a] + SplitColons(rest)
  {
    assert a + ":" + rest == a + (":" + rest);
    SplitColonFree(a, ":" + rest);
    var s := ":" + rest;
    assert s[0] == ':' && s[1..] == rest;
    assert SplitColons(s) == [""] + SplitColons(rest);
    assert a + "" == a;
  }

  /** Reads `bind_host:port:host:hostport`, with both ports from 1 to 65535. */
  function ReadForward(spec: string): Option<Forward>
  {
    var fields := SplitColons(spec);
    if |fields| != 4 then None
    else
      match (ReadPort(fields[1]), ReadPort(fields[3]))
      case (Some(p), Some(q)) => Some(Forward(fields[0], p, fields[2], q))
      case _ => None
  }

  lemma DecimalHasNoColon(n: int)
    ensures ':' !in IntToDecimal(n)
  {
  }

  /**
   * The forward binds `localhost:p` and leads to `localhost:p` on the remote
   * side, one port at both ends; a port outside 1 to 65535 is refused.
   */
  lemma ForwardSpecReadsBack(tunnelPort: int)
    ensures ReadForward(ForwardSpec(tunnelPort))
         == if IsPort(tunnelPort) then Some(Forward("localhost", tunnelPort, "localhost", tunnelPort)) else None
  {
    var d := IntToDecimal(tunnelPort);
    DecimalHasNoColon(tunnelPort);
    assert ForwardSpec(tunnelPort) == "localhost" + ":" + (d + ":" + ("localhost" + ":" + d));
    SplitField("localhost", d + ":" + ("localhost" + ":" + d));
    SplitField(d, "localhost" + ":" + d);
    SplitField("localhost", d);
    SplitColonFree(d, "");
    assert d + "" == d;
    DecimalPort(tunnelPort);
  }

  /**
   * For a directory without a single quote, the remote shell reads the command
   * as written as `cd` into exactly that directory, then the server command.
   */
  lemma JupyterCommandReadsBack(directory: string, tunnelPort: int)
    requires '\'' !in directory
    ensures ReadCommandLine(JupyterCommand(directory, tunnelPort))
         == Commands([["cd", directory], ServerWords(tunnelPort)])
  {
    QuotingAgreesWithoutQuotes(directory, tunnelPort);
    QuotedJupyterCommandReadsBack(directory, tunnelPort);
  }

  /** The ssh argv at the start of `run_remote_jupyter`, with the remote command as written. */
  function TunnelArgv(host: string, sshPort: int, directory: string, user: Option<string>, tunnelPort: int): seq<string>
  {
    ["ssh"] + SshUserArgs(user) +
    ["-p", IntToDecimal(sshPort), "-t", "-L", ForwardSpec(tunnelPort), host, JupyterCommand(directory, tunnelPort)]
  }

  lemma ReadPortOption(v: string, more: seq<string>, acc: SshCall)
    ensures ReadOptions(["-p", v] + more, acc)
         == if ReadPort(v).Some? then ReadOptions(more, acc.(port := Some(v))) else None
  {
  }

  lemma ReadTtyOption(more: seq<string>, acc: SshCall)
    ensures ReadOptions(["-t"] + more, acc) == ReadOptions(more, acc.(tty := true))
  {
  }

  lemma ReadForwardOption(v: string, more: seq<string>, acc: SshCall)
    ensures ReadOptions(["-L", v] + more, acc)
         == if ReadForward(v).Some? then ReadOptions(more, acc.(forward := Some(v))) else None
  {
  }

  /** The first argument that is not an option is the destination; the rest is the remote command. */
  lemma ReadHostAndCommand(host: string, command: seq<string>, acc: SshCall)
    requires !IsOption(host)
    ensures ReadOptions([host] + command, acc) == ReadDestination(host, command, acc)
  {
  }

  /**
   * ssh reads the tunnel's argv as: login `user`, port `sshPort`, a terminal,
   * the forward for `tunnelPort`, the destination `host`, and the one remote
   * command; when either port lies outside 1 to 65535 it refuses the argv.
   * For a host without `@` the host is `host` and the login is `user`.
   */
  lemma TunnelArgvReadsBack(host: string, sshPort: int, directory: string, user: Option<string>, tunnelPort: int)
    requires !IsOption(host)
    ensures ReadSshArgv(TunnelArgv(host, sshPort, directory, user, tunnelPort))
         == if IsPort(sshPort) && IsPort(tunnelPort) then
              ReadDestination(host, [JupyterCommand(directory, tunnelPort)],
                              SshCall(user, Some(IntToDecimal(sshPort)), true, Some(ForwardSpec(tunnelPort)), "", []))
            else None
    ensures '@' !in host ==>
              (ReadSshArgv(TunnelArgv(host, sshPort, directory, user, tunnelPort))
               == if IsPort(sshPort) && IsPort(tunnelPort) then
                    Some(SshCall(user, Some(IntToDecimal(sshPort)), true, Some(ForwardSpec(tunnelPort)), host,
                                 [JupyterCommand(directory, tunnelPort)]))
                  else None)
  {
    var port, forward, command := IntToDecimal(sshPort), ForwardSpec(tunnelPort), JupyterCommand(directory, tunnelPort);
    var last := [host] + [command];
    var afterTty := ["-L", forward] + last;
    var afterPort := ["-t"] + afterTty;
    var rest := ["-p", port] + afterPort;
    var argv := TunnelArgv(host, sshPort, directory, user, tunnelPort);
    assert argv[1..] == SshUserArgs(user) + rest;
    UserArgsReadBack(user, rest, NoOptions);
    var acc := if user.Some? then NoOptions.(login := user) else NoOptions;
    DecimalPort(sshPort);
    ForwardSpecReadsBack(tunnelPort);
    ReadPortOption(port, afterPort, acc);
    ReadTtyOption(afterTty, acc.(port := Some(port)));
    ReadForwardOption(forward, last, acc.(port := Some(port), tty := true));
    ReadHostAndCommand(host, [command], acc.(port := Some(port), tty := true, forward := Some(forward)));
    if '@' !in host {
      PlainDestination(host, [command], acc.(port := Some(port), tty := true, forward := Some(forward)));
    }
  }
}
