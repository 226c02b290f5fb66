/**
 The table of cache hosts: orderCacheHosts places every SRV record at the index in its name.
 */
module CacheHosts {
  import opened Wrappers
  import opened Promise
  import opened Planner
  import opened Header

  datatype Srv = Srv(target: string, port: nat)

  /** cacheIndexFor: the number in a host name, or None if it has none that fits. */
  type IndexOf = string -> Option<nat>

  function TrimDot(s: string): string {
    if s != [] && s[|s| - 1] == '.' then s[..|s| - 1] else s
  }

  function HostName(r: Srv): string {
    if r.port != 80 then TrimDot(r.target) + ":" + Digits(r.port) else TrimDot(r.target)
  }

  /** The entry of a record names its target without the dot at the end and, unless it is 80, its
      port: what a client that takes it apart at the colon gets. */
  lemma HostNameParts(target: string, port: nat, dot: bool)
    requires ':' !in target && (target != [] ==> target[|target| - 1] != '.') && port <= MAX_INT64
    ensures var parts := Split(HostName(Srv(if dot then target + "." else target, port)), ':');
            if port == 80 then parts == [target]
            else |parts| == 2 && parts[0] == target && ParseInt(parts[1]) == Some(port)
  {
    var given := if dot then target + "." else target;
    assert dot ==> given[..|given| - 1] == target;
    assert TrimDot(given) == target;
    if port == 80 {
      SplitClean(target, ':');
    } else {
      ParsePrinted(port);
      NoColon(port);
      SplitFirst(target, Digits(port), ':');
      SplitClean(Digits(port), ':');
    }
  }

  lemma {:induction false} NoColon(n: nat)
    ensures ':' !in Digits(n)
  {
    if n >= 10 {
      NoColon(n / 10);
    }
  }

  ghost predicate Indexed(srvs: seq<Srv>, index: IndexOf) {
    forall i :: 0 <= i < |srvs| ==> index(srvs[i].target).Some?
  }

  ghost predicate At(r: Srv, index: IndexOf, k: nat) {
    index(r.target) == Some(k)
  }

  /** output holds at k the host of the last record with index k, and nothing in the gaps. */
  ghost predicate IsTable(output: seq<string>, srvs: seq<Srv>, index: IndexOf)
    requires Indexed(srvs, index)
  {
    && |output| >= 1
    && (forall i :: 0 <= i < |srvs| ==> index(srvs[i].target).value < |output|)
    && (|output| > 1 ==> exists i :: 0 <= i < |srvs| && At(srvs[i], index, |output| - 1))
    && (forall k :: 0 <= k < |output| ==> output[k] == LastHost(srvs, index, k))
  }

  ghost function LastHost(srvs: seq<Srv>, index: IndexOf, k: nat): string {
    if srvs == [] then ""
    else if At(srvs[|srvs| - 1], index, k) then HostName(srvs[|srvs| - 1])
    else LastHost(srvs[..|srvs| - 1], index, k)
  }

  /** The host of the last record with index k, and none if there is no such record. */
  lemma {:induction false} LastRecordWins(srvs: seq<Srv>, index: IndexOf, k: nat, i: nat)
    requires i < |srvs| && At(srvs[i], index, k)
    requires forall j :: i < j < |srvs| ==> !At(srvs[j], index, k)
    ensures LastHost(srvs, index, k) == HostName(srvs[i])
    decreases |srvs|
  {
    var n := |srvs| - 1;
    if i < n {
      LastRecordWins(srvs[..n], index, k, i);
    }
  }

  method OrderCacheHosts(srvs: seq<Srv>, index: IndexOf) returns (output: seq<string>, err: Error)
    ensures err == NoError <==> Indexed(srvs, index)
    ensures err == NoError ==> IsTable(output, srvs, index)
  {
    var highestIndex := 0;
    for i := 0 to |srvs|
      invariant Indexed(srvs[..i], index)
      invariant forall j :: 0 <= j < i ==> index(srvs[j].target).value <= highestIndex
      invariant highestIndex > 0 ==> exists j :: 0 <= j < i && At(srvs[j], index, highestIndex)
    {
      var cacheIndex := index(srvs[i].target);
      if cacheIndex.None? {
        return [], Failure("couldn't parse hostname");
      }
      if cacheIndex.value > highestIndex {
        highestIndex := cacheIndex.value;
        assert At(srvs[i], index, highestIndex);
      }
    }
    assert srvs[..|srvs|] == srvs;
    var table := new string[highestIndex + 1](_ => "");
    for i := 0 to |srvs|
      invariant forall k :: 0 <= k < table.Length ==> table[k] == LastHost(srvs[..i], index, k)
    {
      assert srvs[..i + 1][..i] == srvs[..i];
      table[index(srvs[i].target).value] := HostName(srvs[i]);
    }
    return table[..], NoError;
  }

  ghost predicate DistinctIndexes(srvs: seq<Srv>, index: IndexOf) {
    forall i, j :: 0 <= i < j < |srvs| ==> index(srvs[i].target) != index(srvs[j].target)
  }

  lemma {:induction false} LastHostOf(srvs: seq<Srv>, index: IndexOf, k: nat, r: Srv)
    requires r in srvs && At(r, index, k)
    requires forall q :: q in srvs && At(q, index, k) ==> q == r
    ensures LastHost(srvs, index, k) == HostName(r)
    decreases |srvs|
  {
    var n := |srvs| - 1;
    if !At(srvs[n], index, k) {
      assert r in srvs[..n];
      LastHostOf(srvs[..n], index, k, r);
    }
  }

  lemma {:induction false} LastHostGap(srvs: seq<Srv>, index: IndexOf, k: nat)
    requires forall q :: q in srvs ==> !At(q, index, k)
    ensures LastHost(srvs, index, k) == ""
    decreases |srvs|
  {
    if srvs != [] {
      LastHostGap(srvs[..|srvs| - 1], index, k);
    }
  }

  lemma SameMembers(a: seq<Srv>, b: seq<Srv>, r: Srv)
    requires multiset(a) == multiset(b)
    ensures r in a <==> r in b
  {
    assert r in a <==> r in multiset(a);
    assert r in b <==> r in multiset(b);
  }

  lemma {:induction false} SameHostAt(a: seq<Srv>, b: seq<Srv>, index: IndexOf, k: nat)
    requires multiset(a) == multiset(b) && DistinctIndexes(a, index)
    ensures LastHost(a, index, k) == LastHost(b, index, k)
  {
    forall q | q in a || q in b
      ensures q in a && q in b
    {
      SameMembers(a, b, q);
    }
    if r :| r in a && At(r, index, k) {
      forall q | q in a && At(q, index, k)
        ensures q == r
      {
        var i :| 0 <= i < |a| && a[i] == q;
        var j :| 0 <= j < |a| && a[j] == r;
      }
      LastHostOf(a, index, k, r);
      LastHostOf(b, index, k, r);
    } else {
      LastHostGap(a, index, k);
      LastHostGap(b, index, k);
    }
  }

  lemma SameLength(a: seq<Srv>, b: seq<Srv>, index: IndexOf, s: seq<string>, t: seq<string>)
    requires multiset(a) == multiset(b) && Indexed(a, index) && Indexed(b, index)
    requires IsTable(s, a, index) && IsTable(t, b, index)
    ensures |s| <= |t|
  {
    if |s| > 1 {
      var i :| 0 <= i < |a| && At(a[i], index, |s| - 1);
      SameMembers(a, b, a[i]);
      var j :| 0 <= j < |b| && b[j] == a[i];
    }
  }

  /** The table does not depend on the order of the records when their indexes differ. */
  lemma OrderIndependent(a: seq<Srv>, b: seq<Srv>, index: IndexOf, s: seq<string>, t: seq<string>)
    requires multiset(a) == multiset(b) && DistinctIndexes(a, index)
    requires Indexed(a, index) && Indexed(b, index)
    requires IsTable(s, a, index) && IsTable(t, b, index)
    ensures s == t
  {
    SameLength(a, b, index, s, t);
    SameLength(b, a, index, t, s);
    forall k | 0 <= k < |s|
      ensures s[k] == t[k]
    {
      SameHostAt(a, b, index, k);
    }
  }
}
