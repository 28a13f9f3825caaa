/**
 * The source-name list of the main window and the ProxySourceManager
 * dialog that edits a copy of it (daili2/proxy_manager.py).
 */
module Sources {
  import opened Wrappers
  import opened Text
  import opened Harvester

  /** The names offered when the window opens: every adapter's name, then "all-sources". */
  const DefaultSources: seq<string> := [
    "proxy-list-org", "proxynova", "freeproxy", "proxydb", "openproxy",
    "premproxy", "proxylistplus", "free-proxy-list", "geonode", "proxyscrape",
    "freedom", "hidemyass", "proxpn", "storm", "spys.one",
    "proxy-daily", "cool-proxy", "proxy-list.download", "proxyranker", AllSources
  ]

  predicate Distinct(names: seq<string>) {
    forall i, j :: 0 <= i < j < |names| ==> names[i] != names[j]
  }

  /** Each adapter's name sits at the adapter's position in the default list. */
  lemma DefaultSourceNamed(a: Adapter)
    ensures DefaultSources[Position(a)] == SourceName(a)
    ensures AdapterFor(DefaultSources[Position(a)]) == Some(a)
  {
    AdapterForName(a);
    match a
    case ProxyListOrg =>
    case ProxyNova =>
    case FreeProxyWorld =>
    case ProxyDb =>
    case OpenProxy =>
    case PremProxy =>
    case ProxyListPlus =>
    case FreeProxyList =>
    case Geonode =>
    case ProxyScrape =>
    case Freedom =>
    case HideMyAss =>
    case ProXpn =>
    case Storm =>
    case SpysOne =>
    case ProxyDaily =>
    case CoolProxy =>
    case ProxyListDownload =>
    case ProxyRanker =>
  }

  /**
   * The default list names the adapters in the order `run` tests them and
   * ends with "all-sources", so every default name selects adapters.
   */
  lemma DefaultSourcesSelect()
    ensures |DefaultSources| == |Adapters| + 1
    ensures forall i :: 0 <= i < |Adapters| ==> DefaultSources[i] == SourceName(Adapters[i])
    ensures forall i :: 0 <= i < |Adapters| ==> AdapterFor(DefaultSources[i]) == Some(Adapters[i])
    ensures DefaultSources[|Adapters|] == AllSources
  {
    forall i | 0 <= i < |Adapters|
      ensures DefaultSources[i] == SourceName(Adapters[i]) && AdapterFor(DefaultSources[i]) == Some(Adapters[i])
    {
      PositionAt(i);
      DefaultSourceNamed(Adapters[i]);
    }
  }

  lemma DefaultSourcesDistinct()
    ensures Distinct(DefaultSources)
  {
    DefaultSourcesSelect();
    AdaptersDistinct();
    assert AdapterFor(AllSources) == None;
    forall i, j | 0 <= i < j < |DefaultSources| ensures DefaultSources[i] != DefaultSources[j] {
      assert AdapterFor(DefaultSources[i]) == Some(Adapters[i]);
      if j < |Adapters| {
        assert AdapterFor(DefaultSources[j]) == Some(Adapters[j]);
      }
    }
  }

  /** The first position of a listed name. */
  function IndexOf(names: seq<string>, x: string): (k: nat)
    requires x in names
    ensures k < |names| && names[k] == x && x !in names[..k]
    decreases |names|
  {
    if names[0] == x then 0
    else
      var k := IndexOf(names[1..], x);
      assert names[..k + 1] == [names[0]] + names[1..][..k];
      k + 1
  }

  /** Python's `list.remove(x)` for an `x` in the list: the first occurrence goes. */
  function RemoveFirst(names: seq<string>, x: string): (r: seq<string>)
    requires x in names
    ensures |r| == |names| - 1
  {
    var k := IndexOf(names, x);
    names[..k] + names[k + 1..]
  }

  /** In a list without repeats, removing the name at a row removes exactly that row. */
  lemma RemoveFirstAt(names: seq<string>, current: nat)
    requires Distinct(names) && current < |names|
    ensures RemoveFirst(names, names[current]) == names[..current] + names[current + 1..]
    ensures Distinct(RemoveFirst(names, names[current]))
  {
    var k := IndexOf(names, names[current]);
    assert k == current;
    var r := names[..k] + names[k + 1..];
    forall i, j | 0 <= i < j < |r| ensures r[i] != r[j] {
      var i' := if i < k then i else i + 1;
      var j' := if j < k then j else j + 1;
      assert r[i] == names[i'] && r[j] == names[j'];
    }
  }

  class ProxySourceManager {
    var sources: seq<string>

    /** The dialog works on a copy of the window's list. */
    constructor (initial: seq<string>)
      ensures sources == initial
    {
      sources := initial;
    }

    /** `add_source`: the stripped text is appended unless it is empty or already listed. */
    method AddSource(text: string)
      modifies this
      ensures var s := Strip(text);
        sources == if s != [] && s !in old(sources) then old(sources) + [s] else old(sources)
      ensures Distinct(old(sources)) ==> Distinct(sources)
    {
      var source := Strip(text);
      if source != [] && source !in sources {
        sources := sources + [source];
      }
    }

    /**
     * `delete_source`: with no row selected (-1) nothing happens; otherwise
     * the selected row's name is removed from the list once.
     */
    method DeleteSource(current: int)
      requires -1 <= current < |sources|
      modifies this
      ensures current < 0 ==> sources == old(sources)
      ensures current >= 0 ==> sources == RemoveFirst(old(sources), old(sources)[current])
      ensures current >= 0 && Distinct(old(sources)) ==>
        sources == old(sources)[..current] + old(sources)[current + 1..] && Distinct(sources)
    {
      if current >= 0 {
        var name := sources[current];
        if Distinct(sources) {
          RemoveFirstAt(sources, current);
        }
        sources := RemoveFirst(sources, name);
      }
    }

    /** `get_sources`. */
    method GetSources() returns (r: seq<string>)
      ensures r == sources
    {
      r := sources;
    }
  }
}
