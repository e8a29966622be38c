/**
 * The proxy pool of the scraper: a list of proxy records and a table of
 * failure counts keyed by the record's `str()` form. A proxy that has failed
 * `MaxFailed` times is evicted from the list.
 *
 * `Pool` and the functions `Added`, `Removed` and `MarkedFailed` are the
 * abstract state and what each operation does to it; the class `ProxyPool`
 * holds the same state in fields and its methods are proved to follow those
 * functions. The lemmas below state what the operations promise.
 */
module Proxies {
  import opened PyValue

  /** `max_failed`: the failure count at which a proxy is evicted. */
  const MaxFailed: int := 3

  /** A proxy record, the dict `{'http': ..., 'https': ...}`. */
  datatype Proxy = Proxy(http: string, https: string)

  /** The record as the Python dict it is. */
  function AsDict(p: Proxy): Value {
    Dict([("http", Str(p.http)), ("https", Str(p.https))])
  }

  /** `str(proxy)`, the key of the failure table. */
  function Key(p: Proxy): string {
    ToStr(AsDict(p))
  }

  /** The record `add_proxy(address)` builds. */
  function ForAddress(address: string): Proxy {
    Proxy("http://" + address, "http://" + address)
  }

  /** `failed_times.get(key, 0)`. */
  function Count(failedTimes: map<string, int>, key: string): int {
    if key in failedTimes then failedTimes[key] else 0
  }

  /** The first index at which `x` occurs in `s`. */
  function FirstIndex<T(==)>(s: seq<T>, x: T): (i: nat)
    requires x in s
    ensures i < |s| && s[i] == x && x !in s[..i]
  {
    if s[0] == x then 0
    else
      var i := FirstIndex(s[1..], x);
      assert s[..i + 1] == [s[0]] + s[1..][..i];
      i + 1
  }

  /** `list.remove(x)` where it succeeds, and the list unchanged otherwise:
      the first occurrence of `x` goes, the rest keep their order. */
  function RemoveFirst<T(==)>(s: seq<T>, x: T): (r: seq<T>)
    ensures x !in s ==> r == s
    ensures x in s ==> |r| == |s| - 1
  {
    if s == [] then []
    else if s[0] == x then
      assert s == [s[0]] + s[1..];
      s[1..]
    else
      var r := [s[0]] + RemoveFirst(s[1..], x);
      assert s == [s[0]] + s[1..];
      r
  }

  /** What remains after `RemoveFirst` is the list with exactly the first
      occurrence, at `i`, cut out. */
  lemma {:induction false} RemoveFirstCutsFirst<T>(s: seq<T>, x: T, i: nat)
    requires i < |s| && s[i] == x && x !in s[..i]
    ensures RemoveFirst(s, x) == s[..i] + s[i + 1..]
  {
    if i > 0 {
      var t := s[1..];
      assert s[0] in s[..i];
      assert t[..i - 1] == s[1..i];
      RemoveFirstCutsFirst(t, x, i - 1);
      assert s[..i] == [s[0]] + t[..i - 1];
      assert s[i + 1..] == t[i..];
    }
  }

  /** `list.remove(x)` takes exactly one copy of `x` out of the list and
      leaves every other element's count alone. */
  lemma RemoveFirstMultiset<T>(s: seq<T>, x: T)
    requires x in s
    ensures multiset(RemoveFirst(s, x)) == multiset(s) - multiset{x}
  {
    var i := FirstIndex(s, x);
    RemoveFirstCutsFirst(s, x, i);
    assert s == s[..i] + [x] + s[i + 1..];
  }

  // ----- the abstract state and the operations on it --------------------------

  /** `proxies` and `failed_times`. */
  datatype Pool = Pool(proxies: seq<Proxy>, failedTimes: map<string, int>)

  function Empty(): Pool {
    Pool([], map[])
  }

  /** `add_proxy(address)`. */
  function Added(pool: Pool, address: string): Pool {
    pool.(proxies := pool.proxies + [ForAddress(address)])
  }

  /** `remove_proxy(proxy)`. */
  function Removed(pool: Pool, proxy: Proxy): Pool {
    pool.(proxies := RemoveFirst(pool.proxies, proxy))
  }

  /** `mark_failed(proxy)`: bump the count, then evict at the limit. */
  function MarkedFailed(pool: Pool, proxy: Proxy): Pool {
    var key := Key(proxy);
    var n := Count(pool.failedTimes, key) + 1;
    var bumped := pool.(failedTimes := pool.failedTimes[key := n]);
    if n >= MaxFailed then Removed(bumped, proxy) else bumped
  }

  /** One call on the pool; `get_proxy` changes nothing. */
  datatype Op = AddProxy(address: string) | GetProxy | RemoveProxy(proxy: Proxy) | MarkFailed(proxy: Proxy)

  function Apply(pool: Pool, op: Op): Pool {
    match op
    case AddProxy(a) => Added(pool, a)
    case GetProxy => pool
    case RemoveProxy(p) => Removed(pool, p)
    case MarkFailed(p) => MarkedFailed(pool, p)
  }

  function Run(pool: Pool, ops: seq<Op>): Pool
    decreases |ops|
  {
    if ops == [] then pool else Run(Apply(pool, ops[0]), ops[1..])
  }

  function AddCount(ops: seq<Op>): nat {
    if ops == [] then 0 else (if ops[0].AddProxy? then 1 else 0) + AddCount(ops[1..])
  }

  // ----- what the operations promise ------------------------------------------

  /** `add_proxy` appends exactly one record whose two fields are both
      "http://" + address; what was there stays, so duplicates are kept. */
  lemma AddedAppendsOne(pool: Pool, address: string)
    ensures var after := Added(pool, address);
      && |after.proxies| == |pool.proxies| + 1
      && after.proxies[..|pool.proxies|] == pool.proxies
      && after.proxies[|pool.proxies|].http == "http://" + address
      && after.proxies[|pool.proxies|].https == "http://" + address
      && after.failedTimes == pool.failedTimes
  {
    assert (pool.proxies + [ForAddress(address)])[..|pool.proxies|] == pool.proxies;
  }

  /** `remove_proxy` of a proxy not in the pool changes nothing; otherwise
      only its first occurrence goes and the rest keep their order. */
  lemma RemovedCutsFirstOccurrence(pool: Pool, proxy: Proxy)
    ensures proxy !in pool.proxies ==> Removed(pool, proxy) == pool
    ensures proxy in pool.proxies ==>
      var i := FirstIndex(pool.proxies, proxy);
      Removed(pool, proxy) == pool.(proxies := pool.proxies[..i] + pool.proxies[i + 1..])
  {
    if proxy in pool.proxies {
      RemoveFirstCutsFirst(pool.proxies, proxy, FirstIndex(pool.proxies, proxy));
    }
  }

  /** `mark_failed` raises the count of `str(proxy)` by exactly one (from 0
      when absent) and leaves every other count alone. */
  lemma MarkedFailedBumpsOneCount(pool: Pool, proxy: Proxy, key: string)
    ensures var after := MarkedFailed(pool, proxy);
      Count(after.failedTimes, key) ==
        Count(pool.failedTimes, key) + (if key == Key(proxy) then 1 else 0)
  {
  }

  /** Below the limit the list is untouched; at or past it one occurrence of
      the proxy is removed, if there is one, and nothing else. */
  lemma MarkedFailedEvictsAtLimit(pool: Pool, proxy: Proxy)
    ensures var n := Count(pool.failedTimes, Key(proxy)) + 1;
      n < MaxFailed ==> MarkedFailed(pool, proxy).proxies == pool.proxies
    ensures var n := Count(pool.failedTimes, Key(proxy)) + 1;
      var after := MarkedFailed(pool, proxy).proxies;
      n >= MaxFailed && proxy in pool.proxies ==>
        |after| == |pool.proxies| - 1 &&
        multiset(after) == multiset(pool.proxies) - multiset{proxy}
  {
    if proxy in pool.proxies {
      RemoveFirstMultiset(pool.proxies, proxy);
    }
  }

  /** Marking a proxy that is no longer in the pool (for instance one that was
      already evicted) only bumps its count. */
  lemma MarkedFailedAfterEviction(pool: Pool, proxy: Proxy)
    requires proxy !in pool.proxies
    ensures MarkedFailed(pool, proxy).proxies == pool.proxies
    ensures Count(MarkedFailed(pool, proxy).failedTimes, Key(proxy)) == Count(pool.failedTimes, Key(proxy)) + 1
  {
  }

  /** A proxy that is in the pool once and has never failed survives two
      failures and is gone after the third. */
  lemma ThirdFailureEvicts(pool: Pool, proxy: Proxy)
    requires multiset(pool.proxies)[proxy] == 1
    requires Key(proxy) !in pool.failedTimes
    ensures MarkedFailed(pool, proxy).proxies == pool.proxies
    ensures MarkedFailed(MarkedFailed(pool, proxy), proxy).proxies == pool.proxies
    ensures proxy !in MarkedFailed(MarkedFailed(MarkedFailed(pool, proxy), proxy), proxy).proxies
    ensures Count(MarkedFailed(MarkedFailed(MarkedFailed(pool, proxy), proxy), proxy).failedTimes, Key(proxy)) == MaxFailed
  {
    var third := MarkedFailed(MarkedFailed(MarkedFailed(pool, proxy), proxy), proxy);
    assert proxy in pool.proxies by {
      assert multiset(pool.proxies)[proxy] > 0;
    }
    RemoveFirstMultiset(pool.proxies, proxy);
    assert multiset(third.proxies)[proxy] == 0;
  }

  /** No operation but `add_proxy` makes the list longer. */
  lemma OnlyAddGrows(pool: Pool, op: Op)
    ensures !op.AddProxy? ==> |Apply(pool, op).proxies| <= |pool.proxies|
    ensures op.AddProxy? ==> |Apply(pool, op).proxies| == |pool.proxies| + 1
  {
  }

  /** Over any run of calls the list grows by at most the number of adds. */
  lemma {:induction false} RunLengthBound(pool: Pool, ops: seq<Op>)
    ensures |Run(pool, ops).proxies| <= |pool.proxies| + AddCount(ops)
    decreases |ops|
  {
    if ops != [] {
      OnlyAddGrows(pool, ops[0]);
      RunLengthBound(Apply(pool, ops[0]), ops[1..]);
    }
  }

  /** Failure counts never decrease and are never reset, not even when a
      proxy is evicted. */
  lemma {:induction false} CountsNeverDecrease(pool: Pool, ops: seq<Op>, key: string)
    ensures Count(Run(pool, ops).failedTimes, key) >= Count(pool.failedTimes, key)
    decreases |ops|
  {
    if ops != [] {
      if ops[0].MarkFailed? {
        MarkedFailedBumpsOneCount(pool, ops[0].proxy, key);
      }
      CountsNeverDecrease(Apply(pool, ops[0]), ops[1..], key);
    }
  }

  /** Every recorded count is at least one: an entry only appears when a
      failure is marked. */
  ghost predicate CountsPositive(pool: Pool) {
    forall key :: key in pool.failedTimes ==> pool.failedTimes[key] >= 1
  }

  lemma {:induction false} RunKeepsCountsPositive(pool: Pool, ops: seq<Op>)
    requires CountsPositive(pool)
    ensures CountsPositive(Run(pool, ops))
    decreases |ops|
  {
    if ops != [] {
      var next := Apply(pool, ops[0]);
      assert CountsPositive(next);
      RunKeepsCountsPositive(next, ops[1..]);
    }
  }

  /** The key of a record built by `add_proxy`, written out:
      `{'http': 'http://<address>', 'https': 'http://<address>'}`. */
  lemma KeyOfAddress(address: string)
    ensures var u := "http://" + address;
      Key(ForAddress(address)) == "{'http': '" + u + "', 'https': '" + u + "'}"
  {
    var u := "http://" + address;
    DictReprOfTwo("http", Str(u), "https", Str(u));
    KeyRegrouped(Repr(Str(u)));
    KeyQuoted(u);
  }

  /** The literal pieces of a two-key dict's repr, merged. */
  lemma KeyRegrouped(q: string)
    ensures "{" + "'" + "http" + "': " + q + ", " + "'" + "https" + "': " + q + "}" ==
      "{'http': " + q + ", 'https': " + q + "}"
  {
    assert "{" + "'" + "http" + "': " == "{'http': ";
    var x := "{'http': " + q;
    assert x + ", " + "'" + "https" + "': " == x + ", 'https': ";
  }

  /** The quotes of each string value, merged into the literal pieces. */
  lemma KeyQuoted(u: string)
    ensures "{'http': " + Repr(Str(u)) + ", 'https': " + Repr(Str(u)) + "}" ==
      "{'http': '" + u + "', 'https': '" + u + "'}"
  {
    var q := "'" + u + "'";
    assert "{'http': " + q == "{'http': '" + u + "'";
    var x := "{'http': '" + u;
    assert x + "'" + ", 'https': " == x + "', 'https': ";
    var y := x + "', 'https': ";
    assert y + q + "}" == y + "'" + u + "'}";
  }

  /** Records built from different addresses have different keys, so their
      failure counts never interfere. */
  lemma KeyOfAddressInjective(a: string, b: string)
    requires Key(ForAddress(a)) == Key(ForAddress(b))
    ensures a == b
  {
    KeyOfAddress(a);
    KeyOfAddress(b);
    var ka := Key(ForAddress(a));
    var kb := Key(ForAddress(b));
    assert |ka| == 2 * |a| + 39;
    assert |kb| == 2 * |b| + 39;
    assert a == ka[17..17 + |a|];
    assert b == kb[17..17 + |b|];
  }

  /** Marking one added proxy as failed leaves the count of a proxy added
      from any other address untouched. */
  lemma MarkingIsolated(pool: Pool, a: string, b: string)
    requires a != b
    ensures Count(MarkedFailed(pool, ForAddress(a)).failedTimes, Key(ForAddress(b))) ==
            Count(pool.failedTimes, Key(ForAddress(b)))
  {
    if Key(ForAddress(a)) == Key(ForAddress(b)) {
      KeyOfAddressInjective(a, b);
    }
  }

  // ----- the class ------------------------------------------------------------

  class ProxyPool {
    var proxies: seq<Proxy>
    var failedTimes: map<string, int>

    function State(): Pool
      reads this
    {
      Pool(proxies, failedTimes)
    }

    constructor ()
      ensures State() == Empty()
    {
      proxies := [];
      failedTimes := map[];
    }

    method AddProxy(address: string)
      modifies this
      ensures State() == Added(old(State()), address)
    {
      proxies := proxies + [ForAddress(address)];
    }

    /** `random.choice` over the list: the choice is left open and only
        membership is promised. */
    method GetProxy() returns (r: Option<Proxy>)
      ensures r.None? <==> proxies == []
      ensures r.Some? ==> r.value in proxies
    {
      if proxies == [] {
        return None;
      }
      assert proxies[0] in proxies;
      var p :| p in proxies;
      return Some(p);
    }

    method RemoveProxy(proxy: Proxy)
      modifies this
      ensures State() == Removed(old(State()), proxy)
    {
      if proxy in proxies {
        proxies := RemoveFirst(proxies, proxy);
      }
    }

    method MarkFailed(proxy: Proxy)
      modifies this
      ensures State() == MarkedFailed(old(State()), proxy)
    {
      var key := Key(proxy);
      failedTimes := failedTimes[key := Count(failedTimes, key) + 1];
      if failedTimes[key] >= MaxFailed {
        RemoveProxy(proxy);
      }
    }
  }
}
