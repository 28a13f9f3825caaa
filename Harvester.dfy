/**
 * ProxyCrawler.run (daili2/proxy_manager.py): which source adapters a
 * source name selects, in what order, and the tagging of the collected
 * pairs with the requested kind. What each adapter downloads is an input.
 */
module Harvester {
  import opened Wrappers
  import opened Proxy

  /** The nineteen `crawl_*` adapters, in the order `run` tests their names. */
  datatype Adapter =
    | ProxyListOrg | ProxyNova | FreeProxyWorld | ProxyDb | OpenProxy | PremProxy
    | ProxyListPlus | FreeProxyList | Geonode | ProxyScrape | Freedom | HideMyAss
    | ProXpn | Storm | SpysOne | ProxyDaily | CoolProxy | ProxyListDownload | ProxyRanker

  /** Every adapter, in that order. */
  const Adapters: seq<Adapter> := [
    ProxyListOrg, ProxyNova, FreeProxyWorld, ProxyDb, OpenProxy, PremProxy,
    ProxyListPlus, FreeProxyList, Geonode, ProxyScrape, Freedom, HideMyAss,
    ProXpn, Storm, SpysOne, ProxyDaily, CoolProxy, ProxyListDownload, ProxyRanker
  ]

  /** The source name that selects one adapter on its own. */
  function SourceName(a: Adapter): string {
    match a
    case ProxyListOrg => "proxy-list-org"
    case ProxyNova => "proxynova"
    case FreeProxyWorld => "freeproxy"
    case ProxyDb => "proxydb"
    case OpenProxy => "openproxy"
    case PremProxy => "premproxy"
    case ProxyListPlus => "proxylistplus"
    case FreeProxyList => "free-proxy-list"
    case Geonode => "geonode"
    case ProxyScrape => "proxyscrape"
    case Freedom => "freedom"
    case HideMyAss => "hidemyass"
    case ProXpn => "proxpn"
    case Storm => "storm"
    case SpysOne => "spys.one"
    case ProxyDaily => "proxy-daily"
    case CoolProxy => "cool-proxy"
    case ProxyListDownload => "proxy-list.download"
    case ProxyRanker => "proxyranker"
  }

  const AllSources: string := "all-sources"

  /** The `if`/`elif` chain on single source names. */
  function AdapterFor(name: string): (r: Option<Adapter>)
    ensures r.Some? ==> SourceName(r.value) == name
  {
    if name == "proxy-list-org" then Some(ProxyListOrg)
    else if name == "proxynova" then Some(ProxyNova)
    else if name == "freeproxy" then Some(FreeProxyWorld)
    else if name == "proxydb" then Some(ProxyDb)
    else if name == "openproxy" then Some(OpenProxy)
    else if name == "premproxy" then Some(PremProxy)
    else if name == "proxylistplus" then Some(ProxyListPlus)
    else if name == "free-proxy-list" then Some(FreeProxyList)
    else if name == "geonode" then Some(Geonode)
    else if name == "proxyscrape" then Some(ProxyScrape)
    else if name == "freedom" then Some(Freedom)
    else if name == "hidemyass" then Some(HideMyAss)
    else if name == "proxpn" then Some(ProXpn)
    else if name == "storm" then Some(Storm)
    else if name == "spys.one" then Some(SpysOne)
    else if name == "proxy-daily" then Some(ProxyDaily)
    else if name == "cool-proxy" then Some(CoolProxy)
    else if name == "proxy-list.download" then Some(ProxyListDownload)
    else if name == "proxyranker" then Some(ProxyRanker)
    else None
  }

  /** Each adapter's own name selects it, and only names of adapters select one. */
  lemma AdapterForName(a: Adapter)
    ensures AdapterFor(SourceName(a)) == Some(a)
  {
    match a
    case ProxyListOrg =>
    case ProxyNova =>
    case FreeProxyWorld =>
    case ProxyDb =>
    case OpenProxy =>
    case PremProxy =>
    case ProxyListPlus =>
    case FreeProxyList =>
    case Geonode =>
    case ProxyScrape =>
    case Freedom =>
    case HideMyAss =>
    case ProXpn =>
    case Storm =>
    case SpysOne =>
    case ProxyDaily =>
    case CoolProxy =>
    case ProxyListDownload =>
    case ProxyRanker =>
  }

  lemma AdapterForUnknown(name: string)
    requires forall a: Adapter :: SourceName(a) != name
    ensures AdapterFor(name) == None
  {
  }

  /** The list above names every adapter. */
  lemma AdaptersComplete(a: Adapter)
    ensures a in Adapters
  {
    match a
    case ProxyListOrg => assert Adapters[0] == a;
    case ProxyNova => assert Adapters[1] == a;
    case FreeProxyWorld => assert Adapters[2] == a;
    case ProxyDb => assert Adapters[3] == a;
    case OpenProxy => assert Adapters[4] == a;
    case PremProxy => assert Adapters[5] == a;
    case ProxyListPlus => assert Adapters[6] == a;
    case FreeProxyList => assert Adapters[7] == a;
    case Geonode => assert Adapters[8] == a;
    case ProxyScrape => assert Adapters[9] == a;
    case Freedom => assert Adapters[10] == a;
    case HideMyAss => assert Adapters[11] == a;
    case ProXpn => assert Adapters[12] == a;
    case Storm => assert Adapters[13] == a;
    case SpysOne => assert Adapters[14] == a;
    case ProxyDaily => assert Adapters[15] == a;
    case CoolProxy => assert Adapters[16] == a;
    case ProxyListDownload => assert Adapters[17] == a;
    case ProxyRanker => assert Adapters[18] == a;
  }

  /** Where an adapter stands in that list. */
  function Position(a: Adapter): (i: nat)
    ensures i < |Adapters| && Adapters[i] == a
  {
    match a
    case ProxyListOrg => 0
    case ProxyNova => 1
    case FreeProxyWorld => 2
    case ProxyDb => 3
    case OpenProxy => 4
    case PremProxy => 5
    case ProxyListPlus => 6
    case FreeProxyList => 7
    case Geonode => 8
    case ProxyScrape => 9
    case Freedom => 10
    case HideMyAss => 11
    case ProXpn => 12
    case Storm => 13
    case SpysOne => 14
    case ProxyDaily => 15
    case CoolProxy => 16
    case ProxyListDownload => 17
    case ProxyRanker => 18
  }

  /** No adapter is listed twice. */
  lemma AdaptersDistinct()
    ensures forall i, j :: 0 <= i < j < |Adapters| ==> Adapters[i] != Adapters[j]
  {
    forall i | 0 <= i < |Adapters| ensures Position(Adapters[i]) == i {
      PositionAt(i);
    }
  }

  lemma PositionAt(i: nat)
    requires i < |Adapters|
    ensures Position(Adapters[i]) == i
  {
  }

  /**
   * The adapters `run` calls for a source name, in call order: the single
   * adapter of that name; for "all-sources" all of them, free-proxy-list.net
   * only for "http"; for any other name none.
   */
  function Selected(name: string, kind: string): seq<Adapter> {
    if name == AllSources then
      [ProxyListOrg, ProxyNova, FreeProxyWorld, ProxyDb, OpenProxy, PremProxy, ProxyListPlus]
      + (if kind == Http then [FreeProxyList] else [])
      + [Geonode, ProxyScrape, Freedom, HideMyAss, ProXpn, Storm, SpysOne, ProxyDaily,
         CoolProxy, ProxyListDownload, ProxyRanker]
    else
      match AdapterFor(name)
      case Some(a) => [a]
      case None => []
  }

  /**
   * "all-sources" calls every adapter once, in the order of the single-name
   * branches, except that free-proxy-list.net (an HTTP-only list) is called
   * only when the requested kind is "http".
   */
  lemma AllSourcesOrder(kind: string)
    ensures kind == Http ==> Selected(AllSources, kind) == Adapters
    ensures kind != Http ==> Selected(AllSources, kind) == Adapters[..7] + Adapters[8..]
  {
  }

  lemma AllSourcesFreeProxyList(kind: string)
    ensures FreeProxyList in Selected(AllSources, kind) <==> kind == Http
  {
    AllSourcesOrder(kind);
    assert Adapters[7] == FreeProxyList;
    if kind != Http {
      var sel := Selected(AllSources, kind);
      assert forall i :: 0 <= i < |sel| ==> sel[i] != FreeProxyList;
    }
  }

  /** The pairs the selected adapters returned, concatenated in call order. */
  function Collected(adapters: seq<Adapter>, fetched: Adapter -> seq<Pair>): seq<Pair>
    decreases |adapters|
  {
    if adapters == [] then [] else fetched(adapters[0]) + Collected(adapters[1..], fetched)
  }

  /** `run`: the `typed_proxies` batch it emits. */
  function Harvest(name: string, kind: string, fetched: Adapter -> seq<Pair>): (batch: seq<Candidate>)
    ensures forall c :: c in batch ==> c.kind == kind
  {
    Tag(Collected(Selected(name, kind), fetched), kind)
  }

  /** A name that is neither an adapter's nor "all-sources" emits an empty batch. */
  lemma HarvestUnknown(name: string, kind: string, fetched: Adapter -> seq<Pair>)
    requires name != AllSources
    requires forall a: Adapter :: SourceName(a) != name
    ensures Harvest(name, kind, fetched) == []
  {
    AdapterForUnknown(name);
  }

  /** A single-source name emits exactly that adapter's pairs, tagged. */
  lemma HarvestSingle(a: Adapter, kind: string, fetched: Adapter -> seq<Pair>)
    ensures Harvest(SourceName(a), kind, fetched) == Tag(fetched(a), kind)
  {
    AdapterForName(a);
    assert SourceName(a) != AllSources;
    assert Collected([a], fetched) == fetched(a) + [];
  }

  lemma {:induction false} CollectedAppend(a: seq<Adapter>, b: seq<Adapter>, fetched: Adapter -> seq<Pair>)
    ensures Collected(a + b, fetched) == Collected(a, fetched) + Collected(b, fetched)
    decreases |a|
  {
    if a != [] {
      assert (a + b)[0] == a[0];
      assert (a + b)[1..] == a[1..] + b;
      CollectedAppend(a[1..], b, fetched);
    } else {
      assert a + b == b;
    }
  }

  /**
   * The batch is the concatenation of the selected adapters' batches, each
   * tagged on its own: no pair is lost, reordered or tagged differently.
   */
  lemma {:induction false} HarvestConcat(adapters: seq<Adapter>, kind: string, fetched: Adapter -> seq<Pair>)
    ensures Tag(Collected(adapters, fetched), kind) ==
      if adapters == [] then []
      else Tag(fetched(adapters[0]), kind) + Tag(Collected(adapters[1..], fetched), kind)
  {
    if adapters != [] {
      TagAppend(fetched(adapters[0]), Collected(adapters[1..], fetched), kind);
    }
  }
}
