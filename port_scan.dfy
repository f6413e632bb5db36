/**
 * The port scanner: the commands whose output is scanned, the per-line match
 * of a `ss -tln` LISTEN line, and the scan of local then remote output.
 */
module PortScan {
  import opened Wrappers
  import opened Text
  import SshArgs

  /** The local query, `ss -tln`. */
  function LocalScanArgv(): seq<string>
  {
    ["ss", "-tln"]
  }

  /** The remote query: `ss -tln` run through ssh on the remote host. */
  function RemoteScanArgv(host: string, sshPort: int, user: Option<string>): seq<string>
  {
    ["ssh"] + SshArgs.SshUserArgs(user) + ["-p", IntToDecimal(sshPort), host, "ss -tln"]
  }

  /**
   * An ssh client reads the remote query back as: login `user`, port
   * `sshPort`, no tty, no forward, `ss -tln` on the destination `host`; it
   * refuses a port outside 1 to 65535. For a host without `@` the host is
   * `host` and the login is `user`.
   */
  lemma RemoteScanArgvReadsBack(host: string, sshPort: int, user: Option<string>)
    requires !SshArgs.IsOption(host)
    ensures SshArgs.ReadSshArgv(RemoteScanArgv(host, sshPort, user))
         == if SshArgs.IsPort(sshPort) then
              SshArgs.ReadDestination(host, ["ss -tln"],
                                      SshArgs.SshCall(user, Some(IntToDecimal(sshPort)), false, None, "", []))
            else None
    ensures '@' !in host ==>
              (SshArgs.ReadSshArgv(RemoteScanArgv(host, sshPort, user))
               == if SshArgs.IsPort(sshPort) then
                    Some(SshArgs.SshCall(user, Some(IntToDecimal(sshPort)), false, None, host, ["ss -tln"]))
                  else None)
  {
    var port := IntToDecimal(sshPort);
    var rest := ["-p", port] + ([host] + ["ss -tln"]);
    assert RemoteScanArgv(host, sshPort, user)[1..] == SshArgs.SshUserArgs(user) + rest;
    SshArgs.UserArgsReadBack(user, rest, SshArgs.NoOptions);
    var acc := if user.Some? then SshArgs.NoOptions.(login := user) else SshArgs.NoOptions;
    SshArgs.DecimalPort(sshPort);
    SshArgs.ReadPortOption(port, [host] + ["ss -tln"], acc);
    SshArgs.ReadHostAndCommand(host, ["ss -tln"], acc.(port := Some(port)));
    if '@' !in host {
      SshArgs.PlainDestination(host, ["ss -tln"], acc.(port := Some(port)));
    }
  }

  /**
   * A host given as `login@host` logs in as `login` on `host`, unless a user
   * was given, whose `-l` wins.
   */
  lemma LoginInHost(login: string, host: string, sshPort: int, user: Option<string>)
    requires login != [] && login[0] != '-' && '@' !in host
    requires SshArgs.IsPort(sshPort)
    ensures SshArgs.ReadSshArgv(RemoteScanArgv(login + "@" + host, sshPort, user))
         == Some(SshArgs.SshCall(if user.Some? then user else Some(login), Some(IntToDecimal(sshPort)),
                                 false, None, host, ["ss -tln"]))
  {
    var dest := login + "@" + host;
    assert dest[0] == login[0];
    RemoteScanArgvReadsBack(dest, sshPort, user);
    SshArgs.LoginAtHostDestination(login, host, ["ss -tln"],
                                   SshArgs.SshCall(user, Some(IntToDecimal(sshPort)), false, None, "", []));
  }

  /**
   * The host is passed to ssh unchecked, so a host that starts with `-` is
   * read as an option: with `-t` as the host, ssh turns on a terminal and
   * takes `ss -tln` as the host, with no remote command.
   */
  lemma DashHostReadAsOption(sshPort: int)
    ensures SshArgs.ReadSshArgv(RemoteScanArgv("-t", sshPort, None))
         == if SshArgs.IsPort(sshPort) then
              Some(SshArgs.SshCall(None, Some(IntToDecimal(sshPort)), true, None, "ss -tln", []))
            else None
  {
    var port := IntToDecimal(sshPort);
    SshArgs.DecimalPort(sshPort);
    assert RemoteScanArgv("-t", sshPort, None)[1..] == ["-p", port] + (["-t"] + ["ss -tln"]);
    SshArgs.ReadPortOption(port, ["-t"] + ["ss -tln"], SshArgs.NoOptions);
    SshArgs.ReadTtyOption(["ss -tln"], SshArgs.NoOptions.(port := Some(port)));
    assert ["ss -tln"] == ["ss -tln"] + [];
    SshArgs.ReadHostAndCommand("ss -tln", [], SshArgs.NoOptions.(port := Some(port), tty := true));
    SshArgs.PlainDestination("ss -tln", [], SshArgs.NoOptions.(port := Some(port), tty := true));
  }

  /**
   * The `address:port` test applied to the fourth field, anchored at both ends:
   * one or more characters, a colon, then one or more digits up to the end of
   * the field. The digits are those after the last colon.
   */
  function AddressPort(field: string): Option<nat>
  {
    var j := DigitSuffixStart(field);
    if 2 <= j < |field| && field[j - 1] == ':' then Some(DigitsValue(field[j..])) else None
  }

  /** Where the longest all-digit suffix of `s` begins. */
  function DigitSuffixStart(s: string): (j: nat)
    ensures j <= |s|
    ensures AllDigits(s[j..])
    ensures j == 0 || !IsDigit(s[j - 1])
  {
    if s != [] && IsDigit(s[|s| - 1]) then
      var j := DigitSuffixStart(s[..|s| - 1]);
      assert s[j..] == s[..|s| - 1][j..] + [s[|s| - 1]];
      j
    else
      |s|
  }

  lemma DigitSuffixStartAt(s: string, j: nat)
    requires j <= |s|
    requires AllDigits(s[j..])
    requires j == 0 || !IsDigit(s[j - 1])
    ensures DigitSuffixStart(s) == j
  {
  }

  /**
   * The pattern `^LISTEN\s+\S+\s+\S+\s+\S+:(\d+)\s`, searched for in an
   * already right-stripped line: the marker at the start, three whitespace
   * separated fields after it, the third of the form `address:digits`, and
   * whitespace after it.
   */
  function MatchListen(l: string): Option<nat>
  {
    if |l| < 6 || l[..6] != "LISTEN" then None
    else
      var a := SkipSpace(l, 6);
      var b := SkipNonSpace(l, a);
      var c := SkipSpace(l, b);
      var d := SkipNonSpace(l, c);
      var e := SkipSpace(l, d);
      var f := SkipNonSpace(l, e);
      if a == 6 || b == a || c == b || d == c || e == d || f == e || f == |l| then None
      else AddressPort(l[e..f])
  }

  /** One line of `ss` output: right-strip it, then match it. */
  function ParseListenLine(line: string): Option<nat>
  {
    MatchListen(RStrip(line))
  }

  /**
   * The shape the pattern describes, written as a decomposition of the line:
   * the marker, whitespace, a field, whitespace, a field, whitespace, the
   * address, a colon, the digits, then whitespace and anything at all.
   */
  predicate ListenShape(l: string, w1: string, f1: string, w2: string, f2: string, w3: string,
                        addr: string, digits: string, tail: string)
  {
    && l == "LISTEN" + w1 + f1 + w2 + f2 + w3 + addr + ":" + digits + tail
    && |w1| > 0 && AllSpace(w1)
    && |f1| > 0 && AllNonSpace(f1)
    && |w2| > 0 && AllSpace(w2)
    && |f2| > 0 && AllNonSpace(f2)
    && |w3| > 0 && AllSpace(w3)
    && |addr| > 0 && AllNonSpace(addr)
    && |digits| > 0 && AllDigits(digits)
    && |tail| > 0 && IsSpace(tail[0])
  }

  /**
   * The field walk of MatchListen on a line made of the marker, three fields and
   * a rest: a match needs whitespace right after the third field.
   */
  lemma MatchListenFields(l: string, w1: string, f1: string, w2: string, f2: string, w3: string,
                          field: string, tail: string)
    requires l == "LISTEN" + w1 + f1 + w2 + f2 + w3 + field + tail
    requires |w1| > 0 && AllSpace(w1) && |f1| > 0 && AllNonSpace(f1)
    requires |w2| > 0 && AllSpace(w2) && |f2| > 0 && AllNonSpace(f2)
    requires |w3| > 0 && AllSpace(w3) && |field| > 0 && AllNonSpace(field)
    requires tail == [] || IsSpace(tail[0])
    ensures MatchListen(l) == if tail == [] then None else AddressPort(field)
  {
    var a := 6 + |w1|;
    var b := a + |f1|;
    var c := b + |w2|;
    var d := c + |f2|;
    var e := d + |w3|;
    var f := e + |field|;
    FieldSlices(l, w1, f1, w2, f2, w3, field, tail);
    SkipSpaceAt(l, 6, a);
    SkipNonSpaceAt(l, a, b);
    SkipSpaceAt(l, b, c);
    SkipNonSpaceAt(l, c, d);
    SkipSpaceAt(l, d, e);
    SkipNonSpaceAt(l, e, f);
  }

  /** The slices of a line made of the marker, five pieces and a rest. */
  lemma FieldSlices(l: string, w1: string, f1: string, w2: string, f2: string, w3: string,
                    field: string, tail: string)
    requires l == "LISTEN" + w1 + f1 + w2 + f2 + w3 + field + tail
    ensures var a := 6 + |w1|; var b := a + |f1|; var c := b + |w2|;
            var d := c + |f2|; var e := d + |w3|; var f := e + |field|;
            && l[..6] == "LISTEN" && l[6..a] == w1 && l[a..b] == f1 && l[b..c] == w2
            && l[c..d] == f2 && l[d..e] == w3 && l[e..f] == field && l[f..] == tail
  {
  }

  lemma AddressPortOf(addr: string, digits: string)
    requires |addr| > 0 && |digits| > 0 && AllDigits(digits)
    ensures AddressPort(addr + ":" + digits) == Some(DigitsValue(digits))
  {
    var field := addr + ":" + digits;
    assert field[|addr| + 1..] == digits;
    DigitSuffixStartAt(field, |addr| + 1);
  }

  /** Every line of the listening shape yields the port its digits spell. */
  lemma MatchListenComplete(l: string, w1: string, f1: string, w2: string, f2: string, w3: string,
                            addr: string, digits: string, tail: string)
    requires ListenShape(l, w1, f1, w2, f2, w3, addr, digits, tail)
    ensures MatchListen(l) == Some(DigitsValue(digits))
  {
    var field := addr + ":" + digits;
    assert l == "LISTEN" + w1 + f1 + w2 + f2 + w3 + field + tail;
    assert AllNonSpace(field) by {
      forall i | 0 <= i < |field| ensures !IsSpace(field[i]) {
        if i < |addr| { assert field[i] == addr[i]; }
        else if i > |addr| { assert field[i] == digits[i - |addr| - 1]; }
      }
    }
    MatchListenFields(l, w1, f1, w2, f2, w3, field, tail);
    AddressPortOf(addr, digits);
  }

  /** The walk of MatchListen, on a line it matches, cuts the line into its fields. */
  lemma MatchListenWalk(l: string, p: nat) returns (a: nat, b: nat, c: nat, d: nat, e: nat, f: nat)
    requires MatchListen(l) == Some(p)
    ensures 6 < a < b < c < d < e < f < |l|
    ensures l[..6] == "LISTEN"
    ensures AllSpace(l[6..a]) && AllNonSpace(l[a..b]) && AllSpace(l[b..c])
    ensures AllNonSpace(l[c..d]) && AllSpace(l[d..e]) && AllNonSpace(l[e..f])
    ensures IsSpace(l[f])
    ensures AddressPort(l[e..f]) == Some(p)
  {
    a := SkipSpace(l, 6);
    b := SkipNonSpace(l, a);
    c := SkipSpace(l, b);
    d := SkipNonSpace(l, c);
    e := SkipSpace(l, d);
    f := SkipNonSpace(l, e);
  }

  /** A field that AddressPort accepts is an address, a colon and the digits of the port. */
  lemma AddressPortSplit(field: string, p: nat) returns (addr: string, digits: string)
    requires AddressPort(field) == Some(p)
    ensures field == addr + ":" + digits
    ensures |addr| > 0 && |digits| > 0 && AllDigits(digits) && p == DigitsValue(digits)
  {
    var j := DigitSuffixStart(field);
    addr, digits := field[..j - 1], field[j..];
    assert field == field[..j - 1] + [field[j - 1]] + field[j..];
  }

  /** Cut points that bound the fields, and a field split at its colon, give the listening shape. */
  lemma ShapeOfCuts(l: string, a: nat, b: nat, c: nat, d: nat, e: nat, f: nat, addr: string, digits: string)
    requires 6 < a < b < c < d < e < f < |l|
    requires l[..6] == "LISTEN"
    requires AllSpace(l[6..a]) && AllNonSpace(l[a..b]) && AllSpace(l[b..c])
    requires AllNonSpace(l[c..d]) && AllSpace(l[d..e]) && AllNonSpace(l[e..f])
    requires IsSpace(l[f])
    requires l[e..f] == addr + ":" + digits
    requires |addr| > 0 && |digits| > 0 && AllDigits(digits)
    ensures ListenShape(l, l[6..a], l[a..b], l[b..c], l[c..d], l[d..e], addr, digits, l[f..])
  {
    var field := l[e..f];
    assert l == l[..6] + l[6..a] + l[a..b] + l[b..c] + l[c..d] + l[d..e] + field + l[f..];
    assert AllNonSpace(addr) by {
      forall i | 0 <= i < |addr| ensures !IsSpace(addr[i]) {
        assert addr[i] == field[i];
      }
    }
    assert l[f..][0] == l[f];
  }

  /** Only lines of the listening shape yield a port. */
  lemma MatchListenSound(l: string, p: nat)
    requires MatchListen(l) == Some(p)
    ensures exists w1, f1, w2, f2, w3, addr, digits, tail ::
              ListenShape(l, w1, f1, w2, f2, w3, addr, digits, tail) && p == DigitsValue(digits)
  {
    var a, b, c, d, e, f := MatchListenWalk(l, p);
    var addr, digits := AddressPortSplit(l[e..f], p);
    ShapeOfCuts(l, a, b, c, d, e, f, addr, digits);
  }

  /**
   * The strip before the match matters: a listening line whose `address:port`
   * field is its last field yields nothing, because no whitespace is left after it.
   */
  lemma LastFieldYieldsNothing(line: string, w1: string, f1: string, w2: string, f2: string, w3: string,
                               addr: string, digits: string, trailing: string)
    requires line == "LISTEN" + w1 + f1 + w2 + f2 + w3 + addr + ":" + digits + trailing
    requires |w1| > 0 && AllSpace(w1) && |f1| > 0 && AllNonSpace(f1)
    requires |w2| > 0 && AllSpace(w2) && |f2| > 0 && AllNonSpace(f2)
    requires |w3| > 0 && AllSpace(w3) && |addr| > 0 && AllNonSpace(addr)
    requires |digits| > 0 && AllDigits(digits)
    requires AllSpace(trailing)
    ensures ParseListenLine(line) == None
  {
    var field := addr + ":" + digits;
    var l := "LISTEN" + w1 + f1 + w2 + f2 + w3 + field;
    assert line == l + trailing;
    assert l[|l| - 1] == digits[|digits| - 1];
    assert line[|l|..] == trailing;
    RStripUnique(line, l);
    assert AllNonSpace(field) by {
      forall i | 0 <= i < |field| ensures !IsSpace(field[i]) {
        if i < |addr| { assert field[i] == addr[i]; }
        else if i > |addr| { assert field[i] == digits[i - |addr| - 1]; }
      }
    }
    assert l == "LISTEN" + w1 + f1 + w2 + f2 + w3 + field + [];
    MatchListenFields(l, w1, f1, w2, f2, w3, field, []);
  }

  /** The values `parse` yields from a sequence of lines, in order; a line it yields nothing for adds nothing. */
  function Collect(parse: string -> Option<nat>, lines: seq<string>): seq<int>
  {
    if lines == [] then []
    else Collect(parse, lines[..|lines| - 1]) + Emit(parse(lines[|lines| - 1]))
  }

  /** The port a line yields, if any. */
  function Emit(m: Option<nat>): seq<int>
  {
    match m
    case Some(p) => [p]
    case None => []
  }

  /** The ports the scan yields from a sequence of output lines, in order. */
  function ListenPorts(lines: seq<string>): seq<int>
  {
    Collect(ParseListenLine, lines)
  }

  /** Collecting from one more line adds what it yields, if anything, at the end. */
  lemma CollectSnoc(parse: string -> Option<nat>, lines: seq<string>, line: string)
    ensures Collect(parse, lines + [line]) == Collect(parse, lines) + Emit(parse(line))
  {
  }

  /** Collecting from two sequences of lines one after the other. */
  lemma {:induction false} CollectAppend(parse: string -> Option<nat>, xs: seq<string>, ys: seq<string>)
    ensures Collect(parse, xs + ys) == Collect(parse, xs) + Collect(parse, ys)
    decreases |ys|
  {
    if ys == [] {
      assert xs + ys == xs;
    } else {
      assert (xs + ys)[..|xs + ys| - 1] == xs + ys[..|ys| - 1];
      CollectAppend(parse, xs, ys[..|ys| - 1]);
    }
  }

  /** A value is collected exactly when some line yields it. */
  lemma {:induction false} CollectMembers(parse: string -> Option<nat>, lines: seq<string>, p: int)
    ensures p in Collect(parse, lines) <==> exists k :: 0 <= k < |lines| && parse(lines[k]) == Some(p)
  {
    if lines != [] {
      var init := lines[..|lines| - 1];
      CollectMembers(parse, init, p);
      if exists k :: 0 <= k < |init| && parse(init[k]) == Some(p) {
        var k :| 0 <= k < |init| && parse(init[k]) == Some(p);
        assert lines[k] == init[k];
      }
      if exists k :: 0 <= k < |lines| && parse(lines[k]) == Some(p) {
        var k :| 0 <= k < |lines| && parse(lines[k]) == Some(p);
        if k < |init| { assert init[k] == lines[k]; }
      }
    }
  }

  /** Scanning two outputs one after the other yields the ports of the first, then those of the second. */
  lemma ListenPortsAppend(xs: seq<string>, ys: seq<string>)
    ensures ListenPorts(xs + ys) == ListenPorts(xs) + ListenPorts(ys)
  {
    CollectAppend(ParseListenLine, xs, ys);
  }

  /** A port is yielded exactly when some line parses to it. */
  lemma ListenPortsMembers(lines: seq<string>, p: int)
    ensures p in ListenPorts(lines) <==> exists k :: 0 <= k < |lines| && ParseListenLine(lines[k]) == Some(p)
  {
    CollectMembers(ParseListenLine, lines, p);
  }

  /** The set of ports in use, `set(used_ports_iter(...))`. */
  function UsedPorts(localLines: seq<string>, remoteLines: seq<string>): set<int>
  {
    set p | p in ListenPorts(localLines + remoteLines)
  }

  /**
   * The used ports are exactly those parsed from a local line together with
   * those parsed from a remote line; a line that does not match adds nothing.
   */
  lemma UsedPortsExactly(localLines: seq<string>, remoteLines: seq<string>, p: int)
    ensures p in UsedPorts(localLines, remoteLines) <==>
              || (exists k :: 0 <= k < |localLines| && ParseListenLine(localLines[k]) == Some(p))
              || (exists k :: 0 <= k < |remoteLines| && ParseListenLine(remoteLines[k]) == Some(p))
  {
    ListenPortsAppend(localLines, remoteLines);
    ListenPortsMembers(localLines, p);
    ListenPortsMembers(remoteLines, p);
  }

  /** One step of the line scan: the next line adds its port, if it has one. */
  lemma ScanStep(lines: seq<string>, line: string, m: Option<nat>)
    requires m == ParseListenLine(line)
    ensures ListenPorts(lines + [line]) == ListenPorts(lines) + (if m.Some? then [m.value] else [])
  {
    CollectSnoc(ParseListenLine, lines, line);
  }

  /** The scan of one command's output, line by line. */
  method ScanLines(output: seq<string>) returns (ports: seq<int>)
    ensures ports == ListenPorts(output)
  {
    ports := [];
    for j := 0 to |output|
      invariant ports == ListenPorts(output[..j])
    {
      var line := output[j];
      var m := ParseListenLine(line);
      ScanStep(output[..j], line, m);
      assert output[..j + 1] == output[..j] + [line];
      if m.Some? {
        ports := ports + [m.value];
      }
    }
    assert output[..|output|] == output;
  }

  /**
   * `used_ports_iter` followed by `set(...)`: runs the local query, then the
   * remote one, and collects every port parsed from their output lines.
   * The output of each command is given, in the order the two commands run.
   */
  method UsedPortsIter(host: string, sshPort: int, user: Option<string>,
                       localLines: seq<string>, remoteLines: seq<string>)
    returns (commands: seq<seq<string>>, ports: seq<int>)
    ensures commands == [LocalScanArgv(), RemoteScanArgv(host, sshPort, user)]
    ensures ports == ListenPorts(localLines + remoteLines)
  {
    commands := [LocalScanArgv(), RemoteScanArgv(host, sshPort, user)];
    var outputs := [localLines, remoteLines];
    ports := [];
    for c := 0 to |commands|
      invariant ports == ListenPorts(if c == 0 then [] else if c == 1 then localLines else localLines + remoteLines)
    {
      var found := ScanLines(outputs[c]);
      ListenPortsAppend(if c == 0 then [] else localLines, outputs[c]);
      assert c == 0 ==> [] + localLines == localLines;
      ports := ports + found;
    }
  }
}
