/**
 * The in-memory working list of ProxyManagerApp (daili2/proxy_manager.py):
 * a sequence of `(ip, port, proxy_type)` candidates in which an address
 * `(ip, port)` is listed at most once, whatever its kind.
 */
module WorkingSet {
  import opened Proxy

  predicate Listed(list: seq<Candidate>, ip: string, port: int) {
    exists i :: 0 <= i < |list| && list[i].ip == ip && list[i].port == port
  }

  predicate UniqueAddresses(list: seq<Candidate>) {
    forall i, j :: 0 <= i < j < |list| ==> AddressOf(list[i]) != AddressOf(list[j])
  }

  /**
   * The list after a batch went through the existence check of
   * `update_proxy_list` (and of the manual add and the import): a candidate
   * is appended unless its address is already listed, counting the
   * candidates of the same batch appended before it.
   */
  function Merged(list: seq<Candidate>, batch: seq<Candidate>): seq<Candidate>
    decreases |batch|
  {
    if batch == [] then list
    else
      var m := Merged(list, batch[..|batch| - 1]);
      var c := batch[|batch| - 1];
      if Listed(m, c.ip, c.port) then m else m + [c]
  }

  /** One more candidate: the definition's step, for loops that go forward. */
  lemma MergedSnoc(list: seq<Candidate>, batch: seq<Candidate>, c: Candidate)
    ensures Merged(list, batch + [c]) ==
      var m := Merged(list, batch); if Listed(m, c.ip, c.port) then m else m + [c]
  {
    assert (batch + [c])[..|batch|] == batch;
  }

  /** Existing entries are never modified, removed or reordered. */
  lemma {:induction false} MergedExtends(list: seq<Candidate>, batch: seq<Candidate>)
    ensures |Merged(list, batch)| >= |list|
    ensures Merged(list, batch)[..|list|] == list
    decreases |batch|
  {
    if batch != [] {
      MergedExtends(list, batch[..|batch| - 1]);
      var m := Merged(list, batch[..|batch| - 1]);
      assert (m + [batch[|batch| - 1]])[..|list|] == m[..|list|];
    }
  }

  /** The list stays free of repeated addresses. */
  lemma {:induction false} MergedUnique(list: seq<Candidate>, batch: seq<Candidate>)
    requires UniqueAddresses(list)
    ensures UniqueAddresses(Merged(list, batch))
    decreases |batch|
  {
    if batch != [] {
      MergedUnique(list, batch[..|batch| - 1]);
      var m := Merged(list, batch[..|batch| - 1]);
      var c := batch[|batch| - 1];
      if !Listed(m, c.ip, c.port) {
        var r := m + [c];
        forall i, j | 0 <= i < j < |r| ensures AddressOf(r[i]) != AddressOf(r[j]) {
          if j == |m| {
            assert r[i] == m[i];
          } else {
            assert r[i] == m[i] && r[j] == m[j];
          }
        }
      }
    }
  }

  /** An address is listed afterwards iff it was listed before or came in the batch. */
  lemma {:induction false} MergedListed(list: seq<Candidate>, batch: seq<Candidate>, ip: string, port: int)
    ensures Listed(Merged(list, batch), ip, port) <==> Listed(list, ip, port) || Listed(batch, ip, port)
    decreases |batch|
  {
    if batch != [] {
      var init, c := batch[..|batch| - 1], batch[|batch| - 1];
      MergedListed(list, init, ip, port);
      MergedListed(list, init, c.ip, c.port);
      var m := Merged(list, init);
      assert Listed(init, ip, port) ==> Listed(batch, ip, port) by {
        if Listed(init, ip, port) {
          var i :| 0 <= i < |init| && init[i].ip == ip && init[i].port == port;
          assert batch[i] == init[i];
        }
      }
      assert Listed(batch, ip, port) ==> Listed(init, ip, port) || (c.ip == ip && c.port == port) by {
        if Listed(batch, ip, port) {
          var i :| 0 <= i < |batch| && batch[i].ip == ip && batch[i].port == port;
          if i < |init| {
            assert init[i] == batch[i];
          }
        }
      }
      if c.ip == ip && c.port == port {
        assert batch[|batch| - 1] == c;
        if !Listed(m, c.ip, c.port) {
          assert (m + [c])[|m|] == c;
        }
      }
      if !Listed(m, c.ip, c.port) {
        var r := m + [c];
        assert Listed(m, ip, port) ==> Listed(r, ip, port) by {
          if Listed(m, ip, port) {
            var i :| 0 <= i < |m| && m[i].ip == ip && m[i].port == port;
            assert r[i] == m[i];
          }
        }
        assert Listed(r, ip, port) ==> Listed(m, ip, port) || (c.ip == ip && c.port == port) by {
          if Listed(r, ip, port) {
            var i :| 0 <= i < |r| && r[i].ip == ip && r[i].port == port;
            if i < |m| {
              assert m[i] == r[i];
            }
          }
        }
      }
    }
  }

  /** Every appended entry is a candidate of the batch whose address was not listed before. */
  lemma {:induction false} MergedNew(list: seq<Candidate>, batch: seq<Candidate>)
    ensures var r := Merged(list, batch);
      forall i :: |list| <= i < |r| ==> r[i] in batch && !Listed(list, r[i].ip, r[i].port)
    decreases |batch|
  {
    MergedExtends(list, batch);
    if batch != [] {
      var init, c := batch[..|batch| - 1], batch[|batch| - 1];
      MergedNew(list, init);
      MergedExtends(list, init);
      var m := Merged(list, init);
      var r := Merged(list, batch);
      forall i | |list| <= i < |r| ensures r[i] in batch && !Listed(list, r[i].ip, r[i].port) {
        if i < |m| {
          assert r[i] == m[i];
          assert r[i] in init;
        } else {
          assert r[i] == c;
          MergedListed(list, init, c.ip, c.port);
        }
      }
    }
  }

  /** A batch whose addresses are all listed already changes nothing. */
  lemma {:induction false} MergedCovered(list: seq<Candidate>, batch: seq<Candidate>)
    requires forall i :: 0 <= i < |batch| ==> Listed(list, batch[i].ip, batch[i].port)
    ensures Merged(list, batch) == list
    decreases |batch|
  {
    if batch != [] {
      MergedCovered(list, batch[..|batch| - 1]);
    }
  }

  /** Applying the same batch a second time adds nothing. */
  lemma MergedAgain(list: seq<Candidate>, batch: seq<Candidate>)
    ensures Merged(Merged(list, batch), batch) == Merged(list, batch)
  {
    var once := Merged(list, batch);
    forall i | 0 <= i < |batch| ensures Listed(once, batch[i].ip, batch[i].port) {
      MergedListed(list, batch, batch[i].ip, batch[i].port);
    }
    MergedCovered(once, batch);
  }

  /** A batch without repeated or already listed addresses is appended whole. */
  lemma {:induction false} MergedFresh(list: seq<Candidate>, batch: seq<Candidate>)
    requires UniqueAddresses(list + batch)
    ensures Merged(list, batch) == list + batch
    decreases |batch|
  {
    if batch != [] {
      var init, c := batch[..|batch| - 1], batch[|batch| - 1];
      assert list + batch == (list + init) + [c];
      assert UniqueAddresses(list + init) by {
        forall i, j | 0 <= i < j < |list + init|
          ensures AddressOf((list + init)[i]) != AddressOf((list + init)[j])
        {
          assert (list + init)[i] == (list + batch)[i] && (list + init)[j] == (list + batch)[j];
        }
      }
      MergedFresh(list, init);
      var m := list + init;
      forall i | 0 <= i < |m| ensures !(m[i].ip == c.ip && m[i].port == c.port) {
        assert m[i] == (list + batch)[i] && c == (list + batch)[|m|];
      }
    }
  }
}
