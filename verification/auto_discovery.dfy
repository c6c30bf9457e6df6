/**
 Automatic discovery: rank the enumerated ports for the running system (the
 likely adapters first, sorted, then every other port in enumeration order)
 and return the first whose ping probe is answered.
 */
module AutoDiscovery {
  import opened Text
  import opened Ranking
  import opened PortNames
  import opened Probing

  /** The likely ports: on a known system the adapters, sorted by that system's
      key; on any other system the enumeration unchanged. */
  function LikelyPorts(system: string, all: seq<string>): seq<string>
  {
    match PlatformOf(system)
    case Linux => SortBy(Filter(all, LinuxAdapter), LinuxRank)
    case Darwin => SortBy(Filter(all, DarwinAdapter), DarwinRank)
    case Windows => SortBy(Filter(all, ComPort), ComRank)
    case OtherSystem => all
  }

  /** The candidate order: the likely ports, then the remaining ones. */
  function RankedPorts(system: string, all: seq<string>): seq<string>
  {
    Ranked(LikelyPorts(system, all), all)
  }

  /** The probing loop, each port's probe attempt given by `probe`. */
  function Run(system: string, all: seq<string>, probe: string -> Attempt): Search
  {
    FirstLive(RankedPorts(system, all), probe, AutoProbe)
  }

  /** The likely ports are exactly the enumerated ports that match the system's
      patterns, each as often as enumerated, and ranking adds and drops nothing. */
  lemma RankedPortsPermutation(system: string, all: seq<string>)
    ensures multiset(RankedPorts(system, all)) == multiset(all)
    ensures PlatformOf(system) == Linux ==> multiset(LikelyPorts(system, all)) == multiset(Filter(all, LinuxAdapter))
    ensures PlatformOf(system) == Darwin ==> multiset(LikelyPorts(system, all)) == multiset(Filter(all, DarwinAdapter))
    ensures PlatformOf(system) == Windows ==> multiset(LikelyPorts(system, all)) == multiset(Filter(all, ComPort))
  {
    match PlatformOf(system)
    case Linux => RankedPermutation(all, LinuxAdapter, LikelyPorts(system, all));
    case Darwin => RankedPermutation(all, DarwinAdapter, LikelyPorts(system, all));
    case Windows => RankedPermutation(all, ComPort, LikelyPorts(system, all));
    case OtherSystem => OthersEmpty(all, all);
  }

  /** On a system without known patterns the candidates are the enumeration as is. */
  lemma OtherSystemKeepsOrder(system: string, all: seq<string>)
    requires PlatformOf(system) == OtherSystem
    ensures RankedPorts(system, all) == all
  {
    OthersEmpty(all, all);
  }

  /** The likely ports come first. */
  lemma LikelyPortsFirst(system: string, all: seq<string>)
    ensures RankedPorts(system, all)[..|LikelyPorts(system, all)|] == LikelyPorts(system, all)
  {
  }

  /** Sorted candidates that all sit in the first group are in name order. */
  lemma FirstGroupByName(s: seq<string>, rank: string -> Rank)
    requires Sorted(s, rank)
    requires forall i :: 0 <= i < |s| ==> rank(s[i]) == Rank(0, s[i])
    ensures forall i, j :: 0 <= i < j < |s| ==> LexLe(s[i], s[j])
  {
    forall i, j | 0 <= i < j < |s|
      ensures LexLe(s[i], s[j])
    {
      assert RankLe(rank(s[i]), rank(s[j]));
    }
  }

  /** On Linux every likely port is a USB or ACM device, so the likely ports
      are in name order. */
  lemma LinuxLikelyByName(system: string, all: seq<string>)
    requires PlatformOf(system) == Linux
    ensures forall p :: p in LikelyPorts(system, all) <==> p in all && LinuxAdapter(p)
    ensures forall i, j :: 0 <= i < j < |LikelyPorts(system, all)| ==>
      LexLe(LikelyPorts(system, all)[i], LikelyPorts(system, all)[j])
  {
    var f := Filter(all, LinuxAdapter);
    var likely := LikelyPorts(system, all);
    SortSorted(f, LinuxRank);
    forall p
      ensures p in likely <==> p in f
    {
      assert p in likely <==> p in multiset(f);
    }
    forall i | 0 <= i < |likely|
      ensures LinuxRank(likely[i]) == Rank(0, likely[i])
    {
      LinuxAdapterFirstGroup(likely[i]);
    }
    FirstGroupByName(likely, LinuxRank);
  }

  /** On macOS every likely port is a usbserial or usbmodem device, so the
      likely ports are in name order. */
  lemma DarwinLikelyByName(system: string, all: seq<string>)
    requires PlatformOf(system) == Darwin
    ensures forall p :: p in LikelyPorts(system, all) <==> p in all && DarwinAdapter(p)
    ensures forall i, j :: 0 <= i < j < |LikelyPorts(system, all)| ==>
      LexLe(LikelyPorts(system, all)[i], LikelyPorts(system, all)[j])
  {
    var f := Filter(all, DarwinAdapter);
    var likely := LikelyPorts(system, all);
    SortSorted(f, DarwinRank);
    forall p
      ensures p in likely <==> p in f
    {
      assert p in likely <==> p in multiset(f);
    }
    forall i | 0 <= i < |likely|
      ensures DarwinRank(likely[i]) == Rank(0, likely[i])
    {
      DarwinAdapterFirstGroup(likely[i]);
    }
    FirstGroupByName(likely, DarwinRank);
  }

  /** On Windows the likely ports are the COM ports by ascending number; ports
      with equal numbers (all the non-numeric ones among them) keep their
      enumeration order. */
  lemma WindowsLikelyByNumber(system: string, all: seq<string>)
    requires PlatformOf(system) == Windows
    ensures forall p :: p in LikelyPorts(system, all) <==> p in all && ComPort(p)
    ensures forall i, j :: 0 <= i < j < |LikelyPorts(system, all)| ==>
      ComNumber(LikelyPorts(system, all)[i]) <= ComNumber(LikelyPorts(system, all)[j])
    ensures forall k :: WithRank(LikelyPorts(system, all), ComRank, k) == WithRank(Filter(all, ComPort), ComRank, k)
  {
    var f := Filter(all, ComPort);
    var likely := LikelyPorts(system, all);
    SortSorted(f, ComRank);
    forall p
      ensures p in likely <==> p in f
    {
      assert p in likely <==> p in multiset(f);
    }
    forall i, j | 0 <= i < j < |likely|
      ensures ComNumber(likely[i]) <= ComNumber(likely[j])
    {
      assert RankLe(ComRank(likely[i]), ComRank(likely[j]));
    }
    forall k
      ensures WithRank(likely, ComRank, k) == WithRank(f, ComRank, k)
    {
      SortStable(f, ComRank, k);
    }
  }

  /** What `run` returns: the first candidate whose probe is live, having
      probed only the candidates before it, all of them dead; nothing exactly
      when no enumerated port answers. */
  lemma RunFindsFirstLive(system: string, all: seq<string>, probe: string -> Attempt)
    ensures var r := Run(system, all, probe);
      && r.probed <= RankedPorts(system, all)
      && (r.found.None? <==> forall p :: p in all ==> !AutoLive(probe(p)))
      && (r.found.Some? ==>
            (r.found.value in all && AutoLive(probe(r.found.value))
             && r.probed[|r.probed| - 1] == r.found.value))
      && (forall i :: 0 <= i < |r.probed| - 1 ==> !AutoLive(probe(r.probed[i])))
  {
    RankedPortsPermutation(system, all);
    FirstLiveOfPermutation(RankedPorts(system, all), all, probe, AutoProbe);
  }
}
