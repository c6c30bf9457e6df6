/**
 Configured discovery: the enumerated ports sorted by name, the likely ones
 (a wider set of patterns than automatic discovery uses) first, then the
 rest, and the first port whose ping probe is answered.
 */
module Discovery {
  import opened Text
  import opened Ranking
  import opened PortNames
  import opened Probing
  import AutoDiscovery

  /** The enumerated device names in ascending order. */
  function AvailablePorts(enumerated: seq<string>): seq<string>
  {
    SortBy(enumerated, NameRank)
  }

  /** The likely ports among the available ones, ranked for the system; on an
      unknown system, all of them. */
  function LikelyPorts(system: string, enumerated: seq<string>): seq<string>
  {
    var all := AvailablePorts(enumerated);
    match PlatformOf(system)
    case Linux => SortBy(Filter(all, LinuxSerial), LinuxRank)
    case Darwin => SortBy(Filter(all, DarwinSerial), DarwinRank)
    case Windows => SortBy(Filter(all, ComPort), ComRank)
    case OtherSystem => all
  }

  /** The test order: the likely ports, then the other available ports. */
  function PortsToTest(system: string, enumerated: seq<string>): seq<string>
  {
    Ranked(LikelyPorts(system, enumerated), AvailablePorts(enumerated))
  }

  /** The probing loop of `discover`, each port's probe attempt given by `probe`. */
  function Discover(system: string, enumerated: seq<string>, probe: string -> Attempt): Search
  {
    FirstLive(PortsToTest(system, enumerated), probe, ConfiguredProbe)
  }

  /** The available ports are the enumeration, each as often, in name order. */
  lemma AvailablePortsSorted(enumerated: seq<string>)
    ensures multiset(AvailablePorts(enumerated)) == multiset(enumerated)
    ensures InNameOrder(AvailablePorts(enumerated))
  {
    var a := AvailablePorts(enumerated);
    SortSorted(enumerated, NameRank);
    forall i, j | 0 <= i < j < |a|
      ensures LexLe(a[i], a[j])
    {
      assert RankLe(NameRank(a[i]), NameRank(a[j]));
    }
  }

  /** Every enumerated port is tested, as often as enumerated, and nothing else is. */
  lemma PortsToTestPermutation(system: string, enumerated: seq<string>)
    ensures multiset(PortsToTest(system, enumerated)) == multiset(enumerated)
  {
    var all := AvailablePorts(enumerated);
    var likely := LikelyPorts(system, enumerated);
    match PlatformOf(system)
    case Linux => RankedPermutation(all, LinuxSerial, likely);
    case Darwin => RankedPermutation(all, DarwinSerial, likely);
    case Windows => RankedPermutation(all, ComPort, likely);
    case OtherSystem => OthersEmpty(all, all);
  }

  /** On an unknown system the ports are tested in name order. */
  lemma OtherSystemByName(system: string, enumerated: seq<string>)
    requires PlatformOf(system) == OtherSystem
    ensures PortsToTest(system, enumerated) == AvailablePorts(enumerated)
  {
    var all := AvailablePorts(enumerated);
    OthersEmpty(all, all);
  }

  /** On Linux the likely ports are those naming a USB, ACM or on-board serial
      device; USB and ACM devices come before the others, and within each
      group the names ascend. */
  lemma LinuxUsbFirst(system: string, enumerated: seq<string>)
    requires PlatformOf(system) == Linux
    ensures forall p :: p in LikelyPorts(system, enumerated) <==> p in enumerated && LinuxSerial(p)
    ensures var l := LikelyPorts(system, enumerated);
      forall i, j :: 0 <= i < j < |l| ==>
        && (UsbOrAcm(l[j]) ==> UsbOrAcm(l[i]))
        && (UsbOrAcm(l[i]) == UsbOrAcm(l[j]) ==> LexLe(l[i], l[j]))
  {
    var all := AvailablePorts(enumerated);
    var f := Filter(all, LinuxSerial);
    var l := LikelyPorts(system, enumerated);
    SortSorted(f, LinuxRank);
    forall p
      ensures p in l <==> p in enumerated && LinuxSerial(p)
    {
      assert p in l <==> p in multiset(f);
      assert p in all <==> p in multiset(enumerated);
    }
    forall i, j | 0 <= i < j < |l|
      ensures UsbOrAcm(l[j]) ==> UsbOrAcm(l[i])
      ensures UsbOrAcm(l[i]) == UsbOrAcm(l[j]) ==> LexLe(l[i], l[j])
    {
      assert RankLe(LinuxRank(l[i]), LinuxRank(l[j]));
    }
  }

  /** On macOS the likely ports match one of four adapter patterns; usbserial
      and usbmodem devices come before the others, and within each group the
      names ascend. */
  lemma DarwinUsbFirst(system: string, enumerated: seq<string>)
    requires PlatformOf(system) == Darwin
    ensures forall p :: p in LikelyPorts(system, enumerated) <==> p in enumerated && DarwinSerial(p)
    ensures var l := LikelyPorts(system, enumerated);
      forall i, j :: 0 <= i < j < |l| ==>
        && (UsbSerialOrModem(l[j]) ==> UsbSerialOrModem(l[i]))
        && (UsbSerialOrModem(l[i]) == UsbSerialOrModem(l[j]) ==> LexLe(l[i], l[j]))
  {
    var all := AvailablePorts(enumerated);
    var f := Filter(all, DarwinSerial);
    var l := LikelyPorts(system, enumerated);
    SortSorted(f, DarwinRank);
    forall p
      ensures p in l <==> p in enumerated && DarwinSerial(p)
    {
      assert p in l <==> p in multiset(f);
      assert p in all <==> p in multiset(enumerated);
    }
    forall i, j | 0 <= i < j < |l|
      ensures UsbSerialOrModem(l[j]) ==> UsbSerialOrModem(l[i])
      ensures UsbSerialOrModem(l[i]) == UsbSerialOrModem(l[j]) ==> LexLe(l[i], l[j])
    {
      assert RankLe(DarwinRank(l[i]), DarwinRank(l[j]));
    }
  }

  /** A WCH adapter is also a usbserial device, so it ranks in the first group. */
  lemma WchAdapterFirstGroup(p: string)
    requires Contains(p, "/dev/cu.wchusbserial")
    ensures DarwinSerial(p) && UsbSerialOrModem(p)
  {
    assert "/dev/cu.wchusbserial"[11..20] == "usbserial";
    ContainsPart(p, "/dev/cu.wchusbserial", 11, 20);
  }

  /** On Windows the likely ports are the COM ports by ascending number, ports
      of equal number in name order. */
  lemma WindowsByNumber(system: string, enumerated: seq<string>)
    requires PlatformOf(system) == Windows
    ensures forall p :: p in LikelyPorts(system, enumerated) <==> p in enumerated && ComPort(p)
    ensures var l := LikelyPorts(system, enumerated);
      forall i, j :: 0 <= i < j < |l| ==>
        && ComNumber(l[i]) <= ComNumber(l[j])
        && (ComNumber(l[i]) == ComNumber(l[j]) ==> LexLe(l[i], l[j]))
  {
    var all := AvailablePorts(enumerated);
    var f := Filter(all, ComPort);
    var l := LikelyPorts(system, enumerated);
    SortSorted(f, ComRank);
    AvailablePortsSorted(enumerated);
    forall p
      ensures p in l <==> p in enumerated && ComPort(p)
    {
      assert p in l <==> p in multiset(f);
      assert p in all <==> p in multiset(enumerated);
    }
    FilterKeepsNameOrder(all, ComPort);
    SortKeepsTies(f, ComRank);
    forall i, j | 0 <= i < j < |l|
      ensures ComNumber(l[i]) <= ComNumber(l[j])
      ensures ComNumber(l[i]) == ComNumber(l[j]) ==> LexLe(l[i], l[j])
    {
      assert RankLe(ComRank(l[i]), ComRank(l[j]));
    }
  }

  /** What `discover` returns: the first port in test order whose probe is
      live, having probed only dead ports before it; nothing exactly when no
      enumerated port answers. */
  lemma DiscoverFindsFirstLive(system: string, enumerated: seq<string>, probe: string -> Attempt)
    ensures var r := Discover(system, enumerated, probe);
      && r.probed <= PortsToTest(system, enumerated)
      && (r.found.None? <==> forall p :: p in enumerated ==> !DiscoveryLive(probe(p)))
      && (r.found.Some? ==>
            (r.found.value in enumerated && DiscoveryLive(probe(r.found.value))
             && r.probed[|r.probed| - 1] == r.found.value))
      && (forall i :: 0 <= i < |r.probed| - 1 ==> !DiscoveryLive(probe(r.probed[i])))
  {
    PortsToTestPermutation(system, enumerated);
    FirstLiveOfPermutation(PortsToTest(system, enumerated), enumerated, probe, ConfiguredProbe);
  }

  /** The two discovery procedures, given the same probe attempts, agree on
      whether a port answers, and when a single port answers they both
      return it, whatever order each tests in. */
  lemma DiscoveriesAgree(system: string, enumerated: seq<string>, probe: string -> Attempt)
    ensures Discover(system, enumerated, probe).found.None?
      <==> AutoDiscovery.Run(system, enumerated, probe).found.None?
    ensures (forall p, q ::
               p in enumerated && q in enumerated && AutoLive(probe(p)) && AutoLive(probe(q)) ==> p == q)
      ==> Discover(system, enumerated, probe).found == AutoDiscovery.Run(system, enumerated, probe).found
  {
    DiscoverFindsFirstLive(system, enumerated, probe);
    AutoDiscovery.RunFindsFirstLive(system, enumerated, probe);
    forall p
      ensures AutoLive(probe(p)) <==> DiscoveryLive(probe(p))
    {
      LiveVerdictsAgree(probe(p));
    }
  }
}
