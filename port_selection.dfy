/**
 * Choosing the tunnel port: the first port at or above the default that no
 * listening socket holds, on either host.
 */
module PortSelection {
  import opened Wrappers
  import PortScan

  /** The used ports at or above `d`: what the search can still run into. */
  function Above(used: set<int>, d: int): set<int>
  {
    set x | x in used && d <= x
  }

  /** `p` is the answer the search promises: at or above `d`, free, and every port from `d` up to it is used. */
  predicate IsFirstFree(d: int, used: set<int>, p: int)
  {
    d <= p && p !in used && forall x :: d <= x < p ==> x in used
  }

  lemma SubsetSize(a: set<int>, b: set<int>)
    requires a <= b
    ensures |a| <= |b|
  {
    assert b == a + (b - a);
    assert a * (b - a) == {};
  }

  /** Passing a used port leaves one used port fewer ahead. */
  lemma AboveShrinks(used: set<int>, d: int)
    requires d in used
    ensures |Above(used, d + 1)| < |Above(used, d)|
  {
    var ahead := Above(used, d);
    assert Above(used, d + 1) <= ahead - {d};
    SubsetSize(Above(used, d + 1), ahead - {d});
  }

  /** The port the search stops at, defined by recursion on the used ports still ahead. */
  function FirstFree(d: int, used: set<int>): int
    decreases |Above(used, d)|
  {
    if d in used then
      AboveShrinks(used, d);
      FirstFree(d + 1, used)
    else d
  }

  /** The search stops at the least free port at or above the default. */
  lemma {:induction false} FirstFreeIsLeast(d: int, used: set<int>)
    ensures IsFirstFree(d, used, FirstFree(d, used))
    decreases |Above(used, d)|
  {
    if d in used {
      AboveShrinks(used, d);
      FirstFreeIsLeast(d + 1, used);
    }
  }

  /** There is only one such port, so any port with that description is the one the search finds. */
  lemma FirstFreeUnique(d: int, used: set<int>, p: int)
    requires IsFirstFree(d, used, p)
    ensures p == FirstFree(d, used)
  {
    FirstFreeIsLeast(d, used);
  }

  /** A free default is kept. */
  lemma FreeDefaultKept(d: int, used: set<int>)
    requires d !in used
    ensures FirstFree(d, used) == d
  {
  }

  /** The search passes over at most every used port, so it ends within `|used|` steps of the default. */
  lemma {:induction false} FirstFreeBound(d: int, used: set<int>)
    ensures d <= FirstFree(d, used) <= d + |Above(used, d)|
    ensures |Above(used, d)| <= |used|
    decreases |Above(used, d)|
  {
    SubsetSize(Above(used, d), used);
    if d in used {
      AboveShrinks(used, d);
      FirstFreeBound(d + 1, used);
    }
  }

  /** Nothing caps the result at 65535: with the top port in use the search goes past it. */
  lemma NoUpperClamp()
    ensures FirstFree(65535, {65535}) == 65536
  {
  }

  /** With 8888 and 8889 in use and 8890 free, 8890 is chosen even though 8891 is in use too. */
  lemma DefaultExample()
    ensures FirstFree(8888, {8888, 8889, 8891}) == 8890
  {
  }

  /** The `while i in used_ports: i += 1` loop. */
  method FirstUnused(defaultTunnelPort: int, usedPorts: set<int>) returns (i: int)
    ensures i == FirstFree(defaultTunnelPort, usedPorts)
    ensures IsFirstFree(defaultTunnelPort, usedPorts, i)
  {
    i := defaultTunnelPort;
    while i in usedPorts
      invariant defaultTunnelPort <= i
      invariant forall x :: defaultTunnelPort <= x < i ==> x in usedPorts
      decreases |Above(usedPorts, i)|
    {
      AboveShrinks(usedPorts, i);
      i := i + 1;
    }
    FirstFreeUnique(defaultTunnelPort, usedPorts, i);
  }

  /**
   * `get_available_port`: the ports in use, collected from the local then the
   * remote `ss -tln` output, then the first port from the default up that is
   * not among them.
   */
  method GetAvailablePort(defaultTunnelPort: int, host: string, sshPort: int, user: Option<string>,
                          localLines: seq<string>, remoteLines: seq<string>)
    returns (commands: seq<seq<string>>, port: int)
    ensures commands == [PortScan.LocalScanArgv(), PortScan.RemoteScanArgv(host, sshPort, user)]
    ensures port == FirstFree(defaultTunnelPort, PortScan.UsedPorts(localLines, remoteLines))
  {
    var ports;
    commands, ports := PortScan.UsedPortsIter(host, sshPort, user, localLines, remoteLines);
    var usedPorts := set p | p in ports;
    port := FirstUnused(defaultTunnelPort, usedPorts);
  }

  /**
   * The chosen port is held by no listening socket on either host, and every
   * port from the default up to it is held by one on one of them.
   */
  lemma ChosenPortIsFree(defaultTunnelPort: int, localLines: seq<string>, remoteLines: seq<string>)
    ensures var p := FirstFree(defaultTunnelPort, PortScan.UsedPorts(localLines, remoteLines));
      && defaultTunnelPort <= p
      && (forall x :: defaultTunnelPort <= x < p ==> x in PortScan.UsedPorts(localLines, remoteLines))
      && (forall k :: 0 <= k < |localLines| ==> PortScan.ParseListenLine(localLines[k]) != Some(p))
      && (forall k :: 0 <= k < |remoteLines| ==> PortScan.ParseListenLine(remoteLines[k]) != Some(p))
  {
    var used := PortScan.UsedPorts(localLines, remoteLines);
    var p := FirstFree(defaultTunnelPort, used);
    FirstFreeIsLeast(defaultTunnelPort, used);
    PortScan.UsedPortsExactly(localLines, remoteLines, p);
  }
}
