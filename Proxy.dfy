/** The values that flow through the pipeline. */
module Proxy {

  /** An `(ip, port)` pair, as every source adapter yields it. */
  datatype Pair = Pair(ip: string, port: int)

  /**
   * One entry of the working list: the `(ip, port, proxy_type)` tuple.
   * The port is whatever `int()` read (the source checks no range) and the
   * kind is free text ("socks5" or "http" from the selector, anything from an
   * imported file).
   */
  datatype Candidate = Candidate(ip: string, port: int, kind: string)

  const Socks5: string := "socks5"
  const Http: string := "http"

  function AddressOf(c: Candidate): Pair {
    Pair(c.ip, c.port)
  }

  /**
   * `[(ip, port, proxy_type) for ip, port in proxies]`: every pair, in order,
   * tagged with the one requested kind.
   */
  function Tag(pairs: seq<Pair>, kind: string): (r: seq<Candidate>)
    ensures |r| == |pairs|
    ensures forall i :: 0 <= i < |r| ==> AddressOf(r[i]) == pairs[i] && r[i].kind == kind
    decreases |pairs|
  {
    if pairs == [] then []
    else
      var last := pairs[|pairs| - 1];
      Tag(pairs[..|pairs| - 1], kind) + [Candidate(last.ip, last.port, kind)]
  }

  lemma {:induction false} TagAppend(a: seq<Pair>, b: seq<Pair>, kind: string)
    ensures Tag(a + b, kind) == Tag(a, kind) + Tag(b, kind)
  {
    var l, r := Tag(a + b, kind), Tag(a, kind) + Tag(b, kind);
    assert |l| == |r|;
    forall i | 0 <= i < |l| ensures l[i] == r[i] {
      if i < |a| {
        assert (a + b)[i] == a[i];
      } else {
        assert (a + b)[i] == b[i - |a|];
      }
    }
  }
}
