# jupyter-tunnel, modelled in Dafny

`jupyter-tunnel.py` starts a JupyterLab server on a remote host and reaches it
through an ssh tunnel. It first lists the TCP ports in LISTEN state with
`ss -tln`, locally and then on the remote host over ssh, and takes the first
port from the default up that neither host uses. Then it runs ssh with a
`-L localhost:p:localhost:p` forward and the remote command
`cd '<dir>'; jupyter lab --no-browser --port=<p>`. It echoes the session's
output, and opens the first `http://localhost:...` URL it sees in a private
browser window, once.

The model has these modules:

- `Text` (text.dfy) holds Python's whitespace (`str.isspace`, which is also
  what `\s` and `\S` mean), `str.rstrip()`, `str(n)` for integers, and the
  reading of decimal digits (`int(...)`).
- `PortScan` (port_scan.dfy) holds the two `ss` command lines and the per-line
  match `^LISTEN\s+\S+\s+\S+\s+\S+:(\d+)\s` on the right-stripped line. It also
  holds the scan of the local output followed by the remote output, as a
  method with loops proved against the fold `ListenPorts`.
- `PortSelection` (port_selection.dfy) holds the `while i in used_ports: i += 1`
  loop, proved against the recursive definition `FirstFree`, which is proved to
  be the least free port at or above the default.
- `SshArgs` (ssh_args.dfy) holds `get_ssh_user_args`, `jupyter_command`, the
  forward and the tunnel's ssh argv. Each is paired with a reader: an ssh
  option reader for the argv, a `split(':')` reader for the forward, and a
  shell word reader for the remote command. Lemmas prove that each built value
  reads back as what it was built from, with two exceptions. A directory
  holding `'` breaks the remote command (`SshArgs.JupyterCommandBreaksOnQuote`),
  and a host starting with `-` is read as an option
  (`PortScan.DashHostReadAsOption`). The ssh reader also applies ssh's port
  range, 1 to 65535, to `-p` and to both ports of `-L`. It splits a
  `login@host` destination at its last `@`, and a `-l` login wins over the
  part before it.
- `ShellWords` (shell_words.dfy) is a small POSIX shell reader. It handles
  blanks, `;`, newlines, single quotes and backslashes, and reports every
  other special character as unsupported.
- `Session` (session.dfy) holds the search `re.search('(http://localhost:\S+)', l)`,
  the first URL over the output lines, and `run_remote_jupyter` as a loop that
  echoes every line and launches the browser at most once.

Processes are not run. Their output is passed in as sequences of lines, and
the commands the script would start are returned as argv values.

The listening-line pattern takes the third field after `LISTEN`, the local
`address:port`, and needs whitespace after its digits. The line is
right-stripped before the match, so a line whose `address:port` field is the
last one yields no port (`PortScan.LastFieldYieldsNothing`).

## Model

| member | source | states |
|---|---|---|
| SshArgs.UserArgsReadBack | jupyter-tunnel.py:17-24 | ssh reads the user arguments as setting the login to `user` when one is given and as nothing otherwise; the arguments after them are read as before |
| PortScan.RemoteScanArgvReadsBack | jupyter-tunnel.py:30-31 | for a host that is not an option, ssh reads the remote query as: login `user`, port `str(ssh_port)`, no tty, no forward, remote command `ss -tln`, and `host` read as a destination (split at its last `@`, the `-l` login winning); for a host without `@` that is host `host` with login `user`; when `ssh_port` lies outside 1 to 65535, ssh refuses the query |
| PortScan.LoginInHost | jupyter-tunnel.py:17-31 | a host given as `login@host` makes ssh log in as `login` on `host`, unless a user was given, whose `-l` login wins |
| Text.RStrip | jupyter-tunnel.py:36 | `rstrip()` returns a prefix of the line that is empty or ends in non-whitespace, and everything it drops is whitespace |
| Text.RStripUnique | jupyter-tunnel.py:36 | those three properties determine the stripped line |
| PortScan.MatchListenComplete | jupyter-tunnel.py:37-39 | every line of the form `LISTEN`, whitespace, field, whitespace, field, whitespace, `address:digits`, whitespace, anything, yields the number its digits spell |
| PortScan.MatchListenSound | jupyter-tunnel.py:37-39 | a line yields a port only if it has that form, and the port is the value of its digits |
| PortScan.LastFieldYieldsNothing | jupyter-tunnel.py:36-37 | a listening line whose `address:port` field is its last field, with trailing whitespace or none, yields nothing: the strip leaves no whitespace for the closing `\s` |
| PortScan.ListenPortsAppend | jupyter-tunnel.py:33-39 | scanning the local output and then the remote output yields the local ports followed by the remote ports |
| PortScan.ListenPortsMembers | jupyter-tunnel.py:35-39 | a port is yielded exactly when some output line parses to it |
| PortScan.ScanLines | jupyter-tunnel.py:35-39 | the line loop yields, in order, the port of every matching line and nothing for the others |
| PortScan.UsedPortsIter | jupyter-tunnel.py:27-39 | runs `ss -tln` and then the remote query, and yields the ports of the local output followed by those of the remote output |
| PortScan.UsedPortsExactly | jupyter-tunnel.py:44 | the set of used ports is exactly the ports parsed from some local line or some remote line |
| PortSelection.FirstFreeIsLeast | jupyter-tunnel.py:45-48 | the port the search stops at is at or above the default, is not used, and every port from the default up to it is used |
| PortSelection.FirstFreeUnique | jupyter-tunnel.py:45-48 | only one port fits that description, so it is the port the search returns |
| PortSelection.FreeDefaultKept | jupyter-tunnel.py:45-48 | a default that is not used is returned as it is |
| PortSelection.FirstFreeBound | jupyter-tunnel.py:45-48 | the result lies between the default and the default plus the number of used ports at or above it, which is at most the number of used ports |
| PortSelection.NoUpperClamp | jupyter-tunnel.py:45-47 | nothing caps the search at 65535: with 65535 used and 65535 as the default, the result is 65536 |
| PortSelection.DefaultExample | jupyter-tunnel.py:42-48 | with 8888 as the default and {8888, 8889, 8891} used, the result is 8890 |
| PortSelection.FirstUnused | jupyter-tunnel.py:45-48 | the `while i in used_ports` loop returns the least unused port at or above the default |
| PortSelection.GetAvailablePort | jupyter-tunnel.py:42-48 | runs the two queries and returns the least port at or above the default that no line of either output reports as listening |
| PortSelection.ChosenPortIsFree | jupyter-tunnel.py:42-48 | no local line and no remote line reports the chosen port, and every port from the default up to it is used |
| SshArgs.QuotingAgreesWithoutQuotes | jupyter-tunnel.py:51-53 | for a directory without a single quote, the remote command with proper quoting is the very string `jupyter_command` builds |
| SshArgs.QuotedJupyterCommandReadsBack | jupyter-tunnel.py:51-53 | the shell reads the corrected remote command, which escapes each `'` in the directory, as two commands: `cd` with exactly the directory, whatever characters it holds, then `jupyter lab --no-browser --port=<p>` |
| SshArgs.JupyterCommandBreaksOnQuote | jupyter-tunnel.py:51-53 | as written, the directory `a'b` closes the quote early and leaves one open, so the shell cannot read the command at all |
| SshArgs.ForwardSpecReadsBack | jupyter-tunnel.py:65 | for a tunnel port from 1 to 65535, the forward reads back as bind `localhost` on the tunnel port and destination `localhost` on the same port; for any other port ssh refuses it |
| SshArgs.TunnelArgvReadsBack | jupyter-tunnel.py:60-67 | for a host that is not an option, ssh reads the tunnel argv as: login `user`, port `str(ssh_port)`, a tty, the forward for the tunnel port, `jupyter_command(directory, tunnel_port)`, as written, as the one remote command, and `host` read as a destination; for a host without `@` that is host `host` with login `user`; when either port lies outside 1 to 65535, ssh refuses the argv |
| SshArgs.LoginAtHostDestination | jupyter-tunnel.py:17-24 | ssh reads the destination `login@host` as host `host`, with `login` as the login unless a `-l` login was given before it |
| SshArgs.EmptyLoginRefused | jupyter-tunnel.py:31 | a destination `@host`, with nothing before the `@`, is refused |
| SshArgs.DecimalPort | jupyter-tunnel.py:62-65 | a printed port is read back by ssh as that port exactly when it lies from 1 to 65535, and refused otherwise |
| Session.PastTopPortRefused | jupyter-tunnel.py:60-67 | with 65535 in use and as the default, the search returns 65536, and ssh refuses the tunnel argv built on it |
| SshArgs.JupyterCommandReadsBack | jupyter-tunnel.py:51-53 | for a directory without a single quote, the remote shell reads the command as written as `cd` with exactly the directory, then `jupyter lab --no-browser --port=<p>` |
| PortScan.DashHostReadAsOption | jupyter-tunnel.py:31 | the host is passed unchecked: with `-t` as the host, ssh reads a tty flag and takes `ss -tln` as the host, with no remote command (for an ssh port ssh accepts) |
| Text.DecimalRoundTrip | jupyter-tunnel.py:31 | `str(n)` reads back as `n`, negative values included |
| Text.DecimalInjective | jupyter-tunnel.py:65 | different ports print differently |
| Session.FindUrlFrom | jupyter-tunnel.py:73 | the search returns the leftmost position at or after the start where `http://localhost:` is followed by a non-whitespace character, and nothing when there is none |
| Session.FindUrlSpec | jupyter-tunnel.py:73 | the search finds `u` exactly when `u` is the greedy `http://localhost:\S+` match at the leftmost position that starts one, and finds nothing exactly when no position starts one |
| Session.UrlAfterIndent | jupyter-tunnel.py:73 | after leading whitespace, the URL found runs up to the next whitespace, so the line's newline is left out |
| Session.FirstUrlIsFirst | jupyter-tunnel.py:69-81 | the URL opened comes from a line that holds one, no earlier line holds one, and no URL is opened when no line holds one |
| Session.RunRemoteJupyter | jupyter-tunnel.py:58-82 | starts the tunnel argv with the remote command as written, echoes every output line in order, and launches the browser exactly once on the first URL found, or not at all |

## Left out

- Starting processes, reading their output, `decode()` and `print` are left out. Each command's output is a parameter (a sequence of lines), and the commands the script would start are returned as argv values.
- Failures of the child processes are not modelled: a missing `ss`, a missing `firefox` (which ends the session before the URL line is echoed), a failed ssh connection, a non-zero exit, or undecodable output.
- `main` and its argument parsing (defaults for host, directory, user, ports) are not modelled. The model's operations take those values as parameters.
- `UsedPortsIter` receives both outputs up front, so the lazy interleaving of the generator with the processes is not captured.
- `ParseListenLine` reads only the ASCII digits `0`-`9` as `\d`, because the model has no Unicode digit table. Python's `\d` on `str` and `int()` also accept other Unicode decimal digits.
- `RunRemoteJupyter` returns the browser launches and the echoed lines as two separate sequences. It does not capture that a line's browser launch comes before the echo of that line.
- The browser process's standard streams going to `/dev/null` are not modelled.
- `ReadSshArgv` reads only the options the script passes (`-l`, `-p`, `-t`, `-L`) and stops at the host. OpenSSH parses options again after the host, but no argv built here has an option there.
- `ReadSshArgv` takes the destination as `[login@]host` only. OpenSSH also reads `ssh://[login@]host[:port]` URIs, which the model does not parse.
- `ReadSshArgv` is meant for argument lists without a repeated option. It lets a later option replace an earlier one, whereas OpenSSH keeps the first `-l` and `-p` and collects every `-L`. No argv built here repeats an option.
- `ReadCommandLine` reads the remote command as a POSIX shell does. ssh hands that command to the remote user's login shell, which is assumed to be POSIX. A shell such as fish reads backslashes inside single quotes differently, so `JupyterCommandReadsBack`, `QuotedJupyterCommandReadsBack` and `JupyterCommandBreaksOnQuote` describe a POSIX login shell only.
- `ReadCommandLine` reads only the shell syntax the remote command uses: blanks, `;`, newlines, single quotes and backslashes. Any other special character is reported as unsupported rather than interpreted.
- A host of two or more characters that starts with `-` (such as `-oProxyCommand=...`) is passed to ssh unchecked and read as an option, not as the host (`PortScan.DashHostReadAsOption`). `RemoteScanArgvReadsBack` and `TunnelArgvReadsBack` state the reading for every other host only. A lone `-` is not an option and is read as the destination.
- Port numbers are unbounded integers, as in Python. The script checks no range, so the search can return a port above 65535 (`PortSelection.NoUpperClamp`). ssh then refuses the tunnel (`Session.PastTopPortRefused`), and that failure is not modelled further.

## Findings

| source | as written | input that shows it | evidently intended | confidence | as-written member | corrected member |
|---|---|---|---|---|---|---|
| jupyter-tunnel.py:51-53 | the directory is put between single quotes with no escaping, so a `'` in it ends the quoted text | the directory `a'b` makes the remote shell read `cd 'a'b'; ...` with a quote left open, so the command cannot be read | the remote shell runs `cd` with exactly the given directory, whatever it contains | not executed | SshArgs.JupyterCommandBreaksOnQuote | SshArgs.QuotedJupyterCommandReadsBack |
