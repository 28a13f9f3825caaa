/**
 * The model-level state of ProxyManagerApp (daili2/proxy_manager.py): the
 * working list, the verified results of the latest verification and the
 * proxy store, with the handlers that change them. Widgets, dialogs and
 * messages are not modelled; the selected kind of the type selector, the
 * chosen filter, file contents and the clock are parameters.
 */
module App {
  import opened Wrappers
  import opened Text
  import opened Proxy
  import opened LineFormat
  import opened Store
  import opened Verifier
  import opened WorkingSet

  /** One entry of `valid_proxies`: `(ip, port, response_time)`. */
  datatype VerifiedProxy = VerifiedProxy(ip: string, port: int, responseTime: real)

  /** How a manual add ends. */
  datatype ManualOutcome =
    | EmptyInput               // "请输入代理地址"
    | NoColon                  // "代理格式错误"
    | Failed                   // the `except` branch: bad split or port
    | AlreadyListed            // "该代理已在列表中"
    | Added(c: Candidate)

  /** The filter entry that shows every kind ("全部"). */
  const ShowAll: string := "\U{5168}\U{90E8}"

  /** The address pairs the verifier is handed (`proxy[:2]`). */
  function Addresses(list: seq<Candidate>): (r: seq<Pair>)
    ensures |r| == |list| && forall i :: 0 <= i < |list| ==> r[i] == AddressOf(list[i])
    decreases |list|
  {
    if list == [] then [] else Addresses(list[..|list| - 1]) + [AddressOf(list[|list| - 1])]
  }

  /** `[(ip, port, kind) for ip, port, _ in valid_proxies]`. */
  function Retagged(vs: seq<VerifiedProxy>, kind: string): (r: seq<Candidate>)
    ensures |r| == |vs|
    ensures forall i :: 0 <= i < |vs| ==> r[i] == Candidate(vs[i].ip, vs[i].port, kind)
    decreases |vs|
  {
    if vs == [] then []
    else
      var v := vs[|vs| - 1];
      Retagged(vs[..|vs| - 1], kind) + [Candidate(v.ip, v.port, kind)]
  }

  /** The list entries a database listing becomes: `(ip, port, protocol)`. */
  function FromListings(ls: seq<Listing>): (r: seq<Candidate>)
    ensures |r| == |ls|
    ensures forall i :: 0 <= i < |ls| ==> r[i] == Candidate(ls[i].ip, ls[i].port, ls[i].protocol)
    decreases |ls|
  {
    if ls == [] then []
    else
      var l := ls[|ls| - 1];
      FromListings(ls[..|ls| - 1]) + [Candidate(l.ip, l.port, l.protocol)]
  }

  /** The `add_proxy` calls after a verification, one per verified proxy, all with one kind. */
  function AddAll(t: Table, vs: seq<VerifiedProxy>, kind: string, now: int): Table
    decreases |vs|
  {
    if vs == [] then t
    else
      var v := vs[|vs| - 1];
      Add(AddAll(t, vs[..|vs| - 1], kind, now), v.ip, v.port, kind, Some(v.responseTime), now)
  }

  /** One more verified proxy: the definition's step, for loops that go forward. */
  lemma AddAllSnoc(t: Table, vs: seq<VerifiedProxy>, v: VerifiedProxy, kind: string, now: int)
    ensures AddAll(t, vs + [v], kind, now) ==
      Add(AddAll(t, vs, kind, now), v.ip, v.port, kind, Some(v.responseTime), now)
  {
    assert (vs + [v])[..|vs|] == vs;
  }

  /** Adding keeps the id order and the one-row-per-key property. */
  lemma {:induction false} AddAllValid(t: Table, vs: seq<VerifiedProxy>, kind: string, now: int)
    requires WellFormed(t) && UniqueKeys(t.rows)
    ensures var r := AddAll(t, vs, kind, now); WellFormed(r) && UniqueKeys(r.rows)
    decreases |vs|
  {
    if vs != [] {
      var v := vs[|vs| - 1];
      var m := AddAll(t, vs[..|vs| - 1], kind, now);
      AddAllValid(t, vs[..|vs| - 1], kind, now);
      AddKeepsWellFormed(m, v.ip, v.port, kind, Some(v.responseTime), now);
      AddKeepsUnique(m, v.ip, v.port, kind, Some(v.responseTime), now);
    }
  }

  lemma PrefixTrans(a: seq<Row>, b: seq<Row>, c: seq<Row>)
    requires |a| <= |b| <= |c| && c[..|b|] == b && b[..|a|] == a
    ensures c[..|a|] == a
  {
    assert c[..|a|] == c[..|b|][..|a|];
  }

  /** The old rows stay in front, and at most one row is added per verified proxy. */
  lemma {:induction false} AddAllExtends(t: Table, vs: seq<VerifiedProxy>, kind: string, now: int)
    ensures var r := AddAll(t, vs, kind, now);
      |t.rows| <= |r.rows| <= |t.rows| + |vs| && r.rows[..|t.rows|] == t.rows
    decreases |vs|
  {
    if vs != [] {
      var v := vs[|vs| - 1];
      var m := AddAll(t, vs[..|vs| - 1], kind, now);
      AddAllExtends(t, vs[..|vs| - 1], kind, now);
      AddExtends(m, v.ip, v.port, kind, Some(v.responseTime), now);
      PrefixTrans(t.rows, m.rows, AddAll(t, vs, kind, now).rows);
    }
  }

  /** A key is in the table afterwards iff it was before or one of the verified proxies has it. */
  lemma {:induction false} AddAllKeys(t: Table, vs: seq<VerifiedProxy>, kind: string, now: int, k: Key)
    ensures HasKey(AddAll(t, vs, kind, now).rows, k) <==>
      HasKey(t.rows, k) || exists i :: 0 <= i < |vs| && k == Key(vs[i].ip, vs[i].port, kind)
    decreases |vs|
  {
    if vs != [] {
      var init, v := vs[..|vs| - 1], vs[|vs| - 1];
      var m := AddAll(t, init, kind, now);
      AddAllKeys(t, init, kind, now, k);
      var r := AddAll(t, vs, kind, now);
      var kv := Key(v.ip, v.port, kind);
      if !HasKey(m.rows, kv) {
        assert r.rows == m.rows + [Row(m.nextId, v.ip, v.port, kind, Some(v.responseTime), now, 1)];
        assert KeyOf(r.rows[|m.rows|]) == kv;
        assert HasKey(m.rows, k) ==> HasKey(r.rows, k) by {
          if HasKey(m.rows, k) {
            var i :| 0 <= i < |m.rows| && KeyOf(m.rows[i]) == k;
            assert r.rows[i] == m.rows[i];
          }
        }
        assert HasKey(r.rows, k) ==> HasKey(m.rows, k) || k == kv by {
          if HasKey(r.rows, k) {
            var i :| 0 <= i < |r.rows| && KeyOf(r.rows[i]) == k;
            if i < |m.rows| {
              assert m.rows[i] == r.rows[i];
            }
          }
        }
      }
      assert (exists i :: 0 <= i < |init| && k == Key(init[i].ip, init[i].port, kind)) ==>
        (exists i :: 0 <= i < |vs| && k == Key(vs[i].ip, vs[i].port, kind)) by {
        if exists i :: 0 <= i < |init| && k == Key(init[i].ip, init[i].port, kind) {
          var i :| 0 <= i < |init| && k == Key(init[i].ip, init[i].port, kind);
          assert vs[i] == init[i];
        }
      }
      assert (exists i :: 0 <= i < |vs| && k == Key(vs[i].ip, vs[i].port, kind)) ==>
        (exists i :: 0 <= i < |init| && k == Key(init[i].ip, init[i].port, kind)) || k == kv by {
        if exists i :: 0 <= i < |vs| && k == Key(vs[i].ip, vs[i].port, kind) {
          var i :| 0 <= i < |vs| && k == Key(vs[i].ip, vs[i].port, kind);
          if i < |init| {
            assert init[i] == vs[i];
          }
        }
      }
    }
  }

  /** Every row the additions create has the verified kind, `is_valid = 1` and the timestamp. */
  predicate Fresh(rows: seq<Row>, kind: string, now: int) {
    forall i :: 0 <= i < |rows| ==> rows[i].protocol == kind && rows[i].isValid == 1 && rows[i].lastChecked == now
  }

  lemma {:induction false} AddAllFresh(t: Table, vs: seq<VerifiedProxy>, kind: string, now: int)
    requires Fresh(t.rows, kind, now)
    ensures Fresh(AddAll(t, vs, kind, now).rows, kind, now)
    decreases |vs|
  {
    if vs != [] {
      AddAllFresh(t, vs[..|vs| - 1], kind, now);
    }
  }

  lemma {:induction false} FreshListings(rows: seq<Row>, kind: string, now: int)
    requires Fresh(rows, kind, now)
    ensures ValidListing(rows) == TypedListing(rows, kind)
    ensures |ValidListing(rows)| == |rows|
    decreases |rows|
  {
    if rows != [] {
      FreshListings(rows[..|rows| - 1], kind, now);
    }
  }

  /**
   * The reconcile step after a database verification: once the table is
   * cleared and the verified proxies re-added under the selected kind,
   * the table holds exactly one valid row of that kind per distinct
   * verified address, and both queries list every row.
   */
  lemma Reconcile(nextId: nat, vs: seq<VerifiedProxy>, kind: string, now: int)
    requires nextId >= 1
    ensures var r := AddAll(Table([], nextId), vs, kind, now);
      && WellFormed(r) && UniqueKeys(r.rows) && Fresh(r.rows, kind, now)
      && (forall ip, port :: HasKey(r.rows, Key(ip, port, kind)) <==>
            exists i :: 0 <= i < |vs| && vs[i].ip == ip && vs[i].port == port)
      && ValidListing(r.rows) == TypedListing(r.rows, kind)
      && |TypedListing(r.rows, kind)| == |r.rows| == |KeySet(r.rows)|
  {
    var t := Table([], nextId);
    var r := AddAll(t, vs, kind, now);
    AddAllValid(t, vs, kind, now);
    AddAllFresh(t, vs, kind, now);
    FreshListings(r.rows, kind, now);
    UniqueKeySetSize(r.rows);
    forall ip, port ensures HasKey(r.rows, Key(ip, port, kind)) <==>
      exists i :: 0 <= i < |vs| && vs[i].ip == ip && vs[i].port == port
    {
      AddAllKeys(t, vs, kind, now, Key(ip, port, kind));
    }
  }

  /** The entries `filter_proxies` shows for a filter. */
  function Visible(list: seq<Candidate>, filter: string): (r: seq<Candidate>)
    ensures |r| <= |list|
    ensures forall c :: c in r <==> c in list && (filter == ShowAll || c.kind == filter)
    decreases |list|
  {
    if list == [] then []
    else
      assert list == list[..|list| - 1] + [list[|list| - 1]];
      var init := Visible(list[..|list| - 1], filter);
      var c := list[|list| - 1];
      if filter == ShowAll || c.kind == filter then init + [c] else init
  }

  /** How many entries have a kind (the `sum(1 for ...)` of `update_stats`). */
  function KindCount(list: seq<Candidate>, kind: string): (n: nat)
    ensures n <= |list|
    ensures n == 0 <==> forall i :: 0 <= i < |list| ==> list[i].kind != kind
    ensures n == |list| <==> forall i :: 0 <= i < |list| ==> list[i].kind == kind
    decreases |list|
  {
    if list == [] then 0
    else KindCount(list[..|list| - 1], kind) + (if list[|list| - 1].kind == kind then 1 else 0)
  }

  /** `update_stats`: the total and the SOCKS5 and HTTP counts. */
  datatype Stats = Stats(total: nat, socks5: nat, http: nat)

  function StatsOf(list: seq<Candidate>): (s: Stats)
    ensures s.socks5 + s.http <= s.total == |list|
  {
    KindsPartition(list);
    Stats(|list|, KindCount(list, Socks5), KindCount(list, Http))
  }

  /** An entry is one kind or the other, never both, so the two counts never exceed the total. */
  lemma {:induction false} KindsPartition(list: seq<Candidate>)
    ensures KindCount(list, Socks5) + KindCount(list, Http) <= |list|
    decreases |list|
  {
    if list != [] {
      KindsPartition(list[..|list| - 1]);
    }
  }

  /** "全部" shows every entry; any other filter shows exactly the entries of that kind, in order. */
  lemma {:induction false} VisibleAll(list: seq<Candidate>)
    ensures Visible(list, ShowAll) == list
    decreases |list|
  {
    if list != [] {
      VisibleAll(list[..|list| - 1]);
    }
  }

  lemma {:induction false} VisibleKind(list: seq<Candidate>, kind: string)
    requires kind != ShowAll
    ensures |Visible(list, kind)| == KindCount(list, kind)
    decreases |list|
  {
    if list != [] {
      VisibleKind(list[..|list| - 1], kind);
      assert list == list[..|list| - 1] + [list[|list| - 1]];
    }
  }

  /** The three numbers `deduplicate_database` shows: records before, duplicates removed, records left. */
  datatype DedupReport = DedupReport(original: int, removed: int, remaining: int)

  /**
   * The report as the source computes it: the records left are counted
   * with `get_all_proxies`, which returns the valid rows only.
   */
  function ReportedAsWritten(before: seq<Row>): DedupReport {
    var removed := |before| - |KeySet(before)|;
    var remaining := |ValidListing(Compact(before))|;
    DedupReport(removed + remaining, removed, remaining)
  }

  /** One invalid row and nothing to merge: the report says the table held no records. */
  lemma ReportedAsWrittenMiscounts()
    ensures var before := [Row(1, "10.0.0.1", 8080, Http, None, 0, 0)];
      ReportedAsWritten(before).original == 0 != |before|
  {
    var before := [Row(1, "10.0.0.1", 8080, Http, None, 0, 0)];
    assert before[..0] == [];
    assert Compact(before) == before;
    assert KeySet(before) == {KeyOf(before[0])};
  }

  /** The report counting every row left. */
  function Reported(before: seq<Row>): DedupReport {
    var removed := |before| - |KeySet(before)|;
    var remaining := |Compact(before)|;
    DedupReport(removed + remaining, removed, remaining)
  }

  /** The corrected report adds up: what was there is what was removed plus what is left, one record per key. */
  lemma ReportedCounts(before: seq<Row>)
    ensures var r := Reported(before);
      r.original == |before| && r.remaining == |KeySet(before)| && r.removed >= 0
  {
    CompactCount(before);
    KeySetBound(before);
  }

  /** One more line of an import: its entry, if any, goes through the existence check. */
  lemma ImportStep(list: seq<Candidate>, lines: seq<string>, n: nat, kind: string)
    requires n < |lines|
    ensures var m := Merged(list, ImportedEntries(lines[..n], kind));
      var e := ParseImportLine(lines[n], kind);
      Merged(list, ImportedEntries(lines[..n + 1], kind)) ==
        if e.Entry? && !Listed(m, e.c.ip, e.c.port) then m + [e.c] else m
  {
    assert lines[..n + 1] == lines[..n] + [lines[n]];
    ImportedEntriesStep(lines[..n], lines[n], kind);
    var e := ParseImportLine(lines[n], kind);
    var a := ImportedEntries(lines[..n], kind);
    if e.Entry? {
      MergedSnoc(list, a, e.c);
    } else {
      assert a + [] == a;
    }
  }

  class ProxyManager {
    var proxyList: seq<Candidate>
    var validProxies: seq<VerifiedProxy>
    var totalProxies: int
    const db: ProxyStore

    predicate Valid()
      reads this, db
    {
      db.Valid()
    }

    /** `__init__`: empty lists, and the store over the table the database file holds. */
    constructor (t: Table)
      requires WellFormed(t)
      ensures Valid() && fresh(db)
      ensures proxyList == [] && validProxies == [] && db.Snapshot() == t
    {
      proxyList := [];
      validProxies := [];
      totalProxies := 0;
      db := new ProxyStore(t);
    }

    /** The existence check shared by the three ways entries enter the list. */
    method IsListed(ip: string, port: int) returns (found: bool)
      ensures found <==> Listed(proxyList, ip, port)
    {
      found := false;
      for i := 0 to |proxyList|
        invariant !found ==> forall j :: 0 <= j < i ==> !(proxyList[j].ip == ip && proxyList[j].port == port)
        invariant found ==> Listed(proxyList, ip, port)
      {
        if proxyList[i].ip == ip && proxyList[i].port == port {
          found := true;
          break;
        }
      }
    }

    /** The existence check and append shared by the three ways entries enter the list. */
    method Admit(c: Candidate) returns (added: bool)
      modifies this
      ensures added <==> !Listed(old(proxyList), c.ip, c.port)
      ensures proxyList == if added then old(proxyList) + [c] else old(proxyList)
      ensures validProxies == old(validProxies) && totalProxies == old(totalProxies)
    {
      var present := IsListed(c.ip, c.port);
      added := !present;
      if added {
        proxyList := proxyList + [c];
      }
    }

    /** `update_proxy_list`: appends the batch's new addresses and counts them. */
    method UpdateProxyList(proxies: seq<Candidate>) returns (count: nat)
      modifies this
      ensures proxyList == Merged(old(proxyList), proxies)
      ensures count == |proxyList| - |old(proxyList)|
      ensures validProxies == old(validProxies) && totalProxies == old(totalProxies)
    {
      count := 0;
      for n := 0 to |proxies|
        invariant validProxies == old(validProxies) && totalProxies == old(totalProxies)
        invariant proxyList == Merged(old(proxyList), proxies[..n])
        invariant |proxyList| >= |old(proxyList)| && count == |proxyList| - |old(proxyList)|
      {
        var c := proxies[n];
        MergedSnoc(old(proxyList), proxies[..n], c);
        assert proxies[..n + 1] == proxies[..n] + [c];
        var added := Admit(c);
        if added {
          count := count + 1;
        }
      }
      assert proxies[..|proxies|] == proxies;
    }

    /** `add_proxy_manually`: the stripped text, read as `ip:port`, is added under the selected kind. */
    method AddProxyManually(text: string, kind: string) returns (outcome: ManualOutcome)
      modifies this
      ensures var t := Strip(text);
        && (t == [] ==> outcome == EmptyInput)
        && (t != [] && ':' !in t ==> outcome == NoColon)
        && (t != [] && ':' in t && ParsePair(t).None? ==> outcome == Failed)
        && (t != [] && ':' in t && ParsePair(t).Some? ==>
              var p := ParsePair(t).value;
              outcome == if Listed(old(proxyList), p.ip, p.port) then AlreadyListed
                         else Added(Candidate(p.ip, p.port, kind)))
      ensures proxyList == if outcome.Added? then old(proxyList) + [outcome.c] else old(proxyList)
      ensures validProxies == old(validProxies) && totalProxies == old(totalProxies)
    {
      var t := Strip(text);
      if t == [] {
        return EmptyInput;
      }
      if ':' !in t {
        return NoColon;
      }
      var parts := Split(t, ":");
      if |parts| != 2 {
        return Failed;
      }
      match ParseInt(parts[1]) {
        case None =>
          return Failed;
        case Some(port) =>
          var ip := parts[0];
          var present := IsListed(ip, port);
          if present {
            return AlreadyListed;
          }
          proxyList := proxyList + [Candidate(ip, port, kind)];
          return Added(Candidate(ip, port, kind));
      }
    }

    /** `import_proxies` over the lines of the chosen file, with the selected kind as default. */
    method ImportProxies(lines: seq<string>, kind: string) returns (importedCount: nat)
      modifies this
      ensures proxyList == Merged(old(proxyList), ImportedEntries(lines, kind))
      ensures importedCount == |proxyList| - |old(proxyList)|
      ensures validProxies == old(validProxies) && totalProxies == old(totalProxies)
    {
      importedCount := 0;
      for n := 0 to |lines|
        invariant validProxies == old(validProxies) && totalProxies == old(totalProxies)
        invariant proxyList == Merged(old(proxyList), ImportedEntries(lines[..n], kind))
        invariant |proxyList| >= |old(proxyList)| && importedCount == |proxyList| - |old(proxyList)|
      {
        ImportStep(old(proxyList), lines, n, kind);
        var e := ParseImportLine(lines[n], kind);
        if e.Entry? {
          var added := Admit(e.c);
          if added {
            importedCount := importedCount + 1;
          }
        }
      }
      assert lines[..|lines|] == lines;
    }

    /** `export_proxies`: the file's lines, or nothing when the list is empty. */
    method ExportProxies() returns (file: Option<seq<string>>)
      ensures file == if proxyList == [] then None else Some(ExportLines(proxyList))
    {
      if proxyList == [] {
        return None;
      }
      var lines: seq<string> := [];
      for i := 0 to |proxyList|
        invariant lines == ExportLines(proxyList[..i])
      {
        assert proxyList[..i + 1][..i] == proxyList[..i];
        lines := lines + [ExportLine(proxyList[i])];
      }
      assert proxyList[..|proxyList|] == proxyList;
      return Some(lines);
    }

    /** `filter_proxies`: the item texts the list widget shows, in the export line format. */
    method FilterProxies(filter: string) returns (shown: seq<string>)
      ensures shown == ExportLines(Visible(proxyList, filter))
    {
      shown := [];
      for i := 0 to |proxyList|
        invariant shown == ExportLines(Visible(proxyList[..i], filter))
      {
        assert proxyList[..i + 1][..i] == proxyList[..i];
        var c := proxyList[i];
        if filter == ShowAll || c.kind == filter {
          shown := shown + [ExportLine(c)];
        }
      }
      assert proxyList[..|proxyList|] == proxyList;
    }

    /** `update_stats`. */
    method UpdateStats() returns (s: Stats)
      ensures s == StatsOf(proxyList)
      ensures s.socks5 + s.http <= s.total
    {
      s := StatsOf(proxyList);
    }

    /** `clear_proxy_list`. */
    method ClearProxyList()
      modifies this
      ensures proxyList == [] && validProxies == old(validProxies) && totalProxies == old(totalProxies)
    {
      proxyList := [];
    }

    /** `update_proxy_status`, the handler of each update signal. */
    method OnStatus(ip: string, port: int, valid: bool, rt: real, now: int)
      requires Valid()
      modifies this, db
      ensures Valid()
      ensures validProxies == old(validProxies) + (if valid then [VerifiedProxy(ip, port, rt)] else [])
      ensures db.rows == Updated(old(db.rows), ip, port, valid, Some(rt), now) && db.nextId == old(db.nextId)
      ensures UniqueKeys(old(db.rows)) ==> UniqueKeys(db.rows)
      ensures proxyList == old(proxyList) && totalProxies == old(totalProxies)
    {
      if valid {
        validProxies := validProxies + [VerifiedProxy(ip, port, rt)];
      }
      if UniqueKeys(db.rows) {
        UpdatedUnique(db.rows, ip, port, valid, Some(rt), now);
      }
      db.UpdateProxyStatus(ip, port, valid, Some(rt), now);
    }

    /** `verify_list_proxies`: nothing to do on an empty list; otherwise a verifier over the list's addresses. */
    method VerifyListProxies(threads: int, kind: string) returns (verifier: ProxyVerifier?)
      modifies this
      ensures verifier == null <==> old(proxyList) == []
      ensures verifier != null ==>
        && fresh(verifier) && verifier.proxyList == Addresses(proxyList) && verifier.isRunning
        && verifier.verifiedCount == 0 && verifier.totalCount == |proxyList|
        && verifier.proxyType == kind && verifier.maxWorkers == threads
        && validProxies == [] && totalProxies == |proxyList|
      ensures proxyList == old(proxyList)
      ensures verifier == null ==> validProxies == old(validProxies) && totalProxies == old(totalProxies)
    {
      if proxyList == [] {
        return null;
      }
      validProxies := [];
      totalProxies := |proxyList|;
      verifier := new ProxyVerifier(Addresses(proxyList), threads, kind);
    }

    /** The `add_proxy` loop of both finished handlers: every verified proxy, under one kind. */
    method StoreAll(vs: seq<VerifiedProxy>, kind: string, now: int) returns (insertedCount: nat)
      requires Valid()
      modifies db
      ensures Valid()
      ensures db.Snapshot() == AddAll(old(db.Snapshot()), vs, kind, now)
      ensures insertedCount == |db.rows| - |old(db.rows)| && insertedCount <= |vs|
      ensures UniqueKeys(old(db.rows)) ==> UniqueKeys(db.rows)
    {
      insertedCount := 0;
      ghost var t0 := db.Snapshot();
      for n := 0 to |vs|
        invariant db.Valid()
        invariant db.Snapshot() == AddAll(t0, vs[..n], kind, now)
        invariant |db.rows| >= |t0.rows| && insertedCount == |db.rows| - |t0.rows| <= n
      {
        var v := vs[n];
        AddAllSnoc(t0, vs[..n], v, kind, now);
        assert vs[..n + 1] == vs[..n] + [v];
        var inserted := db.AddProxy(v.ip, v.port, kind, Some(v.responseTime), now);
        if inserted {
          insertedCount := insertedCount + 1;
        }
      }
      assert vs[..|vs|] == vs;
      if UniqueKeys(t0.rows) {
        AddAllValid(t0, vs, kind, now);
      }
    }

    /** `on_list_verification_finished`: stores the verified proxies and keeps only them in the list. */
    method OnListVerificationFinished(kind: string, now: int) returns (insertedCount: nat, invalidCount: int)
      requires Valid()
      modifies this, db
      ensures Valid()
      ensures invalidCount == old(totalProxies) - |old(validProxies)|
      ensures db.Snapshot() == AddAll(old(db.Snapshot()), old(validProxies), kind, now)
      ensures insertedCount == |db.rows| - |old(db.rows)| && insertedCount <= |old(validProxies)|
      ensures UniqueKeys(old(db.rows)) ==> UniqueKeys(db.rows)
      ensures proxyList == Retagged(old(validProxies), kind)
      ensures validProxies == old(validProxies) && totalProxies == old(totalProxies)
    {
      invalidCount := totalProxies - |validProxies|;
      insertedCount := StoreAll(validProxies, kind, now);
      proxyList := Retagged(validProxies, kind);
    }

    /**
     * `verify_db_proxies`: the valid rows become the list (after it is
     * cleared) and the verifier's input; nothing to do when there are none.
     */
    method VerifyDbProxies(threads: int, kind: string) returns (verifier: ProxyVerifier?)
      modifies this
      ensures var listed := ValidListing(db.rows);
        && (verifier == null <==> listed == [])
        && (verifier == null ==> proxyList == old(proxyList) && validProxies == old(validProxies) && totalProxies == old(totalProxies))
        && (verifier != null ==>
              && proxyList == FromListings(listed)
              && fresh(verifier) && verifier.proxyList == Addresses(proxyList) && verifier.isRunning
              && verifier.verifiedCount == 0 && verifier.totalCount == |listed|
              && validProxies == [] && totalProxies == |listed|)
    {
      var proxies := db.GetAllProxies();
      if proxies == [] {
        return null;
      }
      ClearProxyList();
      ShowListings(proxies);
      validProxies := [];
      totalProxies := |proxies|;
      verifier := new ProxyVerifier(Addresses(proxyList), threads, kind);
    }

    /** The loop shared by `verify_db_proxies` and `export_db_proxies`: the listings, appended to the cleared list. */
    method ShowListings(proxies: seq<Listing>)
      requires proxyList == []
      modifies this
      ensures proxyList == FromListings(proxies)
      ensures validProxies == old(validProxies) && totalProxies == old(totalProxies)
    {
      for i := 0 to |proxies|
        invariant proxyList == FromListings(proxies[..i])
        invariant validProxies == old(validProxies) && totalProxies == old(totalProxies)
      {
        assert proxies[..i + 1][..i] == proxies[..i];
        var l := proxies[i];
        proxyList := proxyList + [Candidate(l.ip, l.port, l.protocol)];
      }
      assert proxies[..|proxies|] == proxies;
    }

    /** `export_db_proxies`: the list is replaced by the store's valid rows. */
    method ExportDbProxies()
      modifies this
      ensures proxyList == FromListings(ValidListing(db.rows))
      ensures validProxies == old(validProxies) && totalProxies == old(totalProxies)
    {
      ClearProxyList();
      var proxies := db.GetAllProxies();
      ShowListings(proxies);
    }

    /** `deduplicate_database`, with the counts it reports corrected to the whole table. */
    method DeduplicateDatabase() returns (report: DedupReport)
      requires Valid()
      modifies db
      ensures Valid() && UniqueKeys(db.rows)
      ensures db.rows == Compact(old(db.rows)) && db.nextId == old(db.nextId)
      ensures report == Reported(old(db.rows))
      ensures report.original == |old(db.rows)| && report.remaining == |db.rows|
    {
      CompactWellFormed(db.Snapshot());
      CompactKeys(db.rows);
      var removed := db.DeduplicateProxies();
      var remaining := |db.rows|;
      report := DedupReport(removed + remaining, removed, remaining);
      ReportedCounts(old(db.rows));
    }

    /** `on_db_verification_finished`: the store is cleared and refilled with the verified proxies only. */
    method OnDbVerificationFinished(kind: string, now: int) returns (invalidCount: int)
      requires Valid()
      modifies this, db
      ensures Valid() && UniqueKeys(db.rows)
      ensures invalidCount == old(totalProxies) - |old(validProxies)|
      ensures db.Snapshot() == AddAll(Table([], old(db.nextId)), old(validProxies), kind, now)
      ensures proxyList == Retagged(old(validProxies), kind)
      ensures validProxies == old(validProxies) && totalProxies == old(totalProxies)
    {
      invalidCount := totalProxies - |validProxies|;
      proxyList := Retagged(validProxies, kind);
      db.ClearAllProxies();
      var _ := StoreAll(validProxies, kind, now);
    }
  }

  /** Re-importing an exported list into an empty one gives the list back, whatever the default kind. */
  lemma ExportImportList(list: seq<Candidate>, kind: string)
    requires UniqueAddresses(list) && forall i :: 0 <= i < |list| ==> Exportable(list[i])
    ensures Merged([], ImportedEntries(ExportLines(list), kind)) == list
  {
    ImportExportLines(list, kind);
    assert [] + list == list;
    MergedFresh([], list);
  }
}
