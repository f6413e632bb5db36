/**
 * The remote session: the ssh command that opens the tunnel and starts the
 * server, and the watch over its output that opens the first server URL in a
 * browser, once, while echoing every line.
 */
module Session {
  import opened Wrappers
  import opened Text
  import SshArgs
  import PortSelection

  /** The text a server URL starts with. */
  const UrlPrefix := "http://localhost:"

  /** At `i` the pattern `http://localhost:\S+` can start: the prefix, then at least one non-whitespace character. */
  predicate UrlAt(l: string, i: nat)
  {
    i + |UrlPrefix| < |l| && l[i..i + |UrlPrefix|] == UrlPrefix && !IsSpace(l[i + |UrlPrefix|])
  }

  /** The leftmost position at or after `i` where a URL starts, if there is one. */
  function FindUrlFrom(l: string, i: nat): (r: Option<nat>)
    ensures r.Some? ==> i <= r.value && UrlAt(l, r.value)
    ensures forall k :: i <= k && (r.None? || k < r.value) ==> !UrlAt(l, k)
    decreases |l| - i
  {
    if i + |UrlPrefix| >= |l| then None
    else if UrlAt(l, i) then Some(i)
    else FindUrlFrom(l, i + 1)
  }

  /**
   * `u` is matched at `i` by `http://localhost:\S+`: it occurs there, starts
   * with the prefix, has at least one character after it, holds no
   * whitespace, and is followed by whitespace or the end of the line.
   */
  predicate UrlMatch(l: string, i: nat, u: string)
  {
    && i + |u| <= |l| && l[i..i + |u|] == u
    && |u| > |UrlPrefix| && u[..|UrlPrefix|] == UrlPrefix
    && AllNonSpace(u)
    && (i + |u| == |l| || IsSpace(l[i + |u|]))
  }

  /** `re.search('(http://localhost:\S+)', l).group(1)`, or nothing. */
  function FindUrl(l: string): Option<string>
  {
    match FindUrlFrom(l, 0)
    case None => None
    case Some(i) => Some(l[i..SkipNonSpace(l, i + |UrlPrefix|)])
  }

  /** The greedy run from a URL start is a match. */
  lemma UrlRunMatches(l: string, i: nat)
    requires UrlAt(l, i)
    ensures UrlMatch(l, i, l[i..SkipNonSpace(l, i + |UrlPrefix|)])
  {
    var n := |UrlPrefix|;
    var j := SkipNonSpace(l, i + n);
    var u := l[i..j];
    assert u[..n] == l[i..i + n];
    assert u[n..] == l[i + n..j];
    forall k | 0 <= k < |u| ensures !IsSpace(u[k]) {
      if k >= n { assert u[k] == l[i + n..j][k - n]; }
      else { assert u[k] == UrlPrefix[k]; }
    }
  }

  /** Every match starting at a position is the same greedy run. */
  lemma UrlMatchUnique(l: string, i: nat, u: string)
    requires UrlMatch(l, i, u)
    ensures UrlAt(l, i) && u == l[i..SkipNonSpace(l, i + |UrlPrefix|)]
  {
  }

  /** A match can only start where a URL starts. */
  lemma UrlMatchStarts(l: string, i: nat, u: string)
    requires UrlMatch(l, i, u)
    ensures UrlAt(l, i)
  {
  }

  /**
   * The search finds `u` exactly when `u` is matched at some position and no
   * match starts further left; it finds nothing exactly when no position matches.
   */
  lemma FindUrlSpec(l: string, u: string)
    ensures FindUrl(l) == Some(u) <==>
              exists i: nat :: UrlMatch(l, i, u) && forall k: nat :: k < i ==> !UrlAt(l, k)
    ensures FindUrl(l) == None <==> forall k: nat :: !UrlAt(l, k)
  {
    match FindUrlFrom(l, 0)
    case None =>
      if exists i': nat :: UrlMatch(l, i', u) && forall k: nat :: k < i' ==> !UrlAt(l, k) {
        var i': nat :| UrlMatch(l, i', u) && forall k: nat :: k < i' ==> !UrlAt(l, k);
        UrlMatchStarts(l, i', u);
      }
    case Some(i) =>
      UrlRunMatches(l, i);
      if exists i': nat :: UrlMatch(l, i', u) && forall k: nat :: k < i' ==> !UrlAt(l, k) {
        var i': nat :| UrlMatch(l, i', u) && forall k: nat :: k < i' ==> !UrlAt(l, k);
        UrlMatchStarts(l, i', u);
        assert i' == i;
        UrlMatchUnique(l, i', u);
      }
  }

  /** No URL starts at whitespace. */
  lemma NoUrlAtSpace(l: string, k: nat)
    requires k < |l| && IsSpace(l[k])
    ensures !UrlAt(l, k)
  {
  }

  /** A URL after leading whitespace, up to the next whitespace or the end of the line, is the one found. */
  lemma UrlAfterIndent(indent: string, rest: string, tail: string)
    requires AllSpace(indent)
    requires |rest| > 0 && AllNonSpace(rest)
    requires tail == [] || IsSpace(tail[0])
    ensures FindUrl(indent + UrlPrefix + rest + tail) == Some(UrlPrefix + rest)
  {
    var l := indent + UrlPrefix + rest + tail;
    var u := UrlPrefix + rest;
    var i := |indent|;
    assert l == indent + u + tail;
    assert l[i..i + |u|] == u;
    assert u[..|UrlPrefix|] == UrlPrefix;
    forall k | 0 <= k < |u| ensures !IsSpace(u[k]) {
      if k >= |UrlPrefix| { assert u[k] == rest[k - |UrlPrefix|]; }
    }
    assert i + |u| < |l| ==> l[i + |u|] == tail[0];
    forall k: nat | k < i ensures !UrlAt(l, k) {
      assert l[k] == indent[k];
      NoUrlAtSpace(l, k);
    }
    assert UrlMatch(l, i, u);
    FindUrlSpec(l, u);
  }

  /** The URL of the first line, in order, in which the search finds one. */
  function FirstUrl(lines: seq<string>): Option<string>
  {
    if lines == [] then None
    else if FindUrl(lines[0]).Some? then FindUrl(lines[0])
    else FirstUrl(lines[1..])
  }

  /** The first URL of more lines is the one already found, or else the one in the next line. */
  lemma {:induction false} FirstUrlSnoc(lines: seq<string>, line: string)
    ensures FirstUrl(lines + [line]) == if FirstUrl(lines).Some? then FirstUrl(lines) else FindUrl(line)
  {
    if lines == [] {
      assert lines + [line] == [line];
      assert [line][1..] == [];
    } else {
      assert (lines + [line])[0] == lines[0];
      assert (lines + [line])[1..] == lines[1..] + [line];
      FirstUrlSnoc(lines[1..], line);
    }
  }

  /** Whether some line before `k` holds a URL. */
  predicate NoUrlBefore(lines: seq<string>, k: int)
    requires k <= |lines|
  {
    forall j :: 0 <= j < k ==> FindUrl(lines[j]) == None
  }

  /** The first URL is `u` exactly when some line yields `u` and no earlier line yields one. */
  lemma {:induction false} FirstUrlSome(lines: seq<string>, u: string)
    ensures FirstUrl(lines) == Some(u) <==>
              exists k :: 0 <= k < |lines| && FindUrl(lines[k]) == Some(u) && NoUrlBefore(lines, k)
  {
    if lines != [] && FindUrl(lines[0]).None? {
      var rest := lines[1..];
      FirstUrlSome(rest, u);
      if exists k :: 0 <= k < |lines| && FindUrl(lines[k]) == Some(u) && NoUrlBefore(lines, k) {
        var k :| 0 <= k < |lines| && FindUrl(lines[k]) == Some(u) && NoUrlBefore(lines, k);
        assert rest[k - 1] == lines[k];
        forall j | 0 <= j < k - 1 ensures FindUrl(rest[j]) == None {
          assert rest[j] == lines[j + 1];
        }
      }
      if FirstUrl(rest) == Some(u) {
        var k :| 0 <= k < |rest| && FindUrl(rest[k]) == Some(u) && NoUrlBefore(rest, k);
        assert lines[k + 1] == rest[k];
        forall j | 0 <= j < k + 1 ensures FindUrl(lines[j]) == None {
          if j > 0 { assert lines[j] == rest[j - 1]; }
        }
      }
    } else if lines != [] && FindUrl(lines[0]) == Some(u) {
      assert NoUrlBefore(lines, 0);
    }
  }

  /** No URL is found exactly when no line yields one. */
  lemma {:induction false} FirstUrlNone(lines: seq<string>)
    ensures FirstUrl(lines) == None <==> NoUrlBefore(lines, |lines|)
  {
    if lines != [] && FindUrl(lines[0]).None? {
      var rest := lines[1..];
      FirstUrlNone(rest);
      if NoUrlBefore(lines, |lines|) {
        forall k | 0 <= k < |rest| ensures FindUrl(rest[k]) == None {
          assert rest[k] == lines[k + 1];
        }
      }
      if FirstUrl(rest) == None {
        forall k | 0 <= k < |lines| ensures FindUrl(lines[k]) == None {
          if k > 0 { assert lines[k] == rest[k - 1]; }
        }
      }
    }
  }

  /**
   * The URL opened is found in some line, and no line before that one holds a
   * URL; and when no line holds one, no URL is opened.
   */
  lemma FirstUrlIsFirst(lines: seq<string>, u: string)
    ensures FirstUrl(lines) == Some(u) <==>
              exists k :: 0 <= k < |lines| && FindUrl(lines[k]) == Some(u) &&
                          forall j :: 0 <= j < k ==> FindUrl(lines[j]) == None
    ensures FirstUrl(lines) == None <==> forall k :: 0 <= k < |lines| ==> FindUrl(lines[k]) == None
  {
    FirstUrlSome(lines, u);
    FirstUrlNone(lines);
  }

  /**
   * With 65535 in use and as the default, the search picks 65536, and ssh
   * refuses the tunnel built on it: the script has no range check.
   */
  lemma PastTopPortRefused(host: string, sshPort: int, directory: string, user: Option<string>)
    requires !SshArgs.IsOption(host)
    ensures SshArgs.ReadSshArgv(SshArgs.TunnelArgv(host, sshPort, directory, user,
                                                  PortSelection.FirstFree(65535, {65535}))) == None
  {
    PortSelection.NoUpperClamp();
    SshArgs.TunnelArgvReadsBack(host, sshPort, directory, user, 65536);
  }

  /** The browser launch: a private window on the URL. */
  function BrowserArgv(url: string): seq<string>
  {
    ["firefox", "--private-window", url]
  }

  /**
   * `run_remote_jupyter`: starts ssh with the tunnel and the server command,
   * then reads its output line by line. Until a URL has been seen, each line
   * is searched for one; the first found is opened in a browser and the search
   * stops. Every line is echoed as it comes. The output of the ssh command is
   * given as its sequence of lines.
   */
  method RunRemoteJupyter(host: string, sshPort: int, directory: string, user: Option<string>,
                          tunnelPort: int, output: seq<string>)
    returns (argv: seq<string>, browserLaunches: seq<seq<string>>, echoed: seq<string>)
    ensures argv == SshArgs.TunnelArgv(host, sshPort, directory, user, tunnelPort)
    ensures echoed == output
    ensures browserLaunches == match FirstUrl(output) case Some(u) => [BrowserArgv(u)] case None => []
    ensures |browserLaunches| <= 1
  {
    argv := SshArgs.TunnelArgv(host, sshPort, directory, user, tunnelPort);
    browserLaunches := [];
    echoed := [];
    var urlFound := false;
    for j := 0 to |output|
      invariant echoed == output[..j]
      invariant urlFound == FirstUrl(output[..j]).Some?
      invariant browserLaunches == match FirstUrl(output[..j]) case Some(u) => [BrowserArgv(u)] case None => []
    {
      var line := output[j];
      FirstUrlSnoc(output[..j], line);
      assert output[..j + 1] == output[..j] + [line];
      if !urlFound {
        var m := FindUrl(line);
        if m.Some? {
          browserLaunches := browserLaunches + [BrowserArgv(m.value)];
          urlFound := true;
        }
      }
      echoed := echoed + [line];
    }
    assert output[..|output|] == output;
  }
}
