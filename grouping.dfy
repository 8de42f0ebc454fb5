/**
 groupTabsByFreqSite: the tabs of the popup, bucketed by the hostname of
 their URL into a JavaScript object whose keys keep insertion order.
 */
module SiteGrouping {
  import opened Tabs

  /**
   The object `freqSiteTabs`. `keys` is the order in which its properties
   were created, which is the order `Object.entries` walks them
   (hostnames are never integer-like property names, so insertion order
   is the enumeration order); `buckets` maps each property to its array.
   */
  datatype SiteTabs = SiteTabs(keys: seq<string>, buckets: map<string, seq<Tab>>)

  predicate Distinct(s: seq<string>) {
    forall i, j | 0 <= i < j < |s| :: s[i] != s[j]
  }

  /** The keys list names each property of the object exactly once. */
  ghost predicate WellFormed(g: SiteTabs) {
    && Distinct(g.keys)
    && forall h :: h in g.buckets <==> h in g.keys
  }

  /** Some tab of `tabs` has hostname `h`. */
  predicate Occurs(tabs: seq<Tab>, hostname: UrlPart, h: string) {
    exists i | 0 <= i < |tabs| :: hostname(tabs[i].url) == h
  }

  lemma OccursSnoc(tabs: seq<Tab>, t: Tab, hostname: UrlPart, h: string)
    ensures Occurs(tabs + [t], hostname, h) <==> Occurs(tabs, hostname, h) || hostname(t.url) == h
  {
    var s := tabs + [t];
    if Occurs(s, hostname, h) && hostname(t.url) != h {
      var i :| 0 <= i < |s| && hostname(s[i].url) == h;
      assert i < |tabs| && s[i] == tabs[i];
    }
    if Occurs(tabs, hostname, h) {
      var i :| 0 <= i < |tabs| && hostname(tabs[i].url) == h;
      assert s[i] == tabs[i];
    }
    if hostname(t.url) == h {
      assert s[|tabs|] == t;
    }
  }

  /** The tabs whose hostname is `h`, in input order: what ends up pushed onto `freqSiteTabs[h]`. */
  function Bucket(tabs: seq<Tab>, hostname: UrlPart, h: string): (r: seq<Tab>)
    ensures |r| <= |tabs|
    ensures forall t | t in r :: t in tabs && hostname(t.url) == h
    ensures r == [] <==> !Occurs(tabs, hostname, h)
  {
    if tabs == [] then []
    else
      var init, last := tabs[..|tabs| - 1], tabs[|tabs| - 1];
      assert tabs == init + [last];
      OccursSnoc(init, last, hostname, h);
      var r0 := Bucket(init, hostname, h);
      if hostname(last.url) == h then r0 + [last] else r0
  }

  /** The hostnames of `tabs`, each once, in the order each is first met. */
  function FirstSeen(tabs: seq<Tab>, hostname: UrlPart): (r: seq<string>)
    ensures Distinct(r)
    ensures forall h :: h in r <==> Occurs(tabs, hostname, h)
  {
    if tabs == [] then []
    else
      var init, last := tabs[..|tabs| - 1], tabs[|tabs| - 1];
      assert tabs == init + [last];
      var r0 := FirstSeen(init, hostname);
      var h := hostname(last.url);
      OccursSnoc(init, last, hostname, h);
      assert forall k :: Occurs(tabs, hostname, k) <==> Occurs(init, hostname, k) || h == k by {
        forall k ensures Occurs(tabs, hostname, k) <==> Occurs(init, hostname, k) || h == k {
          OccursSnoc(init, last, hostname, k);
        }
      }
      if h in r0 then r0 else r0 + [h]
  }

  /**
   The buckets the loop builds: each tab in turn is pushed onto the array
   of its hostname, which is created empty the first time.
   */
  function BucketMap(tabs: seq<Tab>, hostname: UrlPart): (r: map<string, seq<Tab>>)
    ensures forall h | h in r :: r[h] != [] && forall t | t in r[h] :: t in tabs && hostname(t.url) == h
  {
    if tabs == [] then map[]
    else
      var m := BucketMap(tabs[..|tabs| - 1], hostname);
      var last := tabs[|tabs| - 1];
      var h := hostname(last.url);
      m[h := (if h in m then m[h] else []) + [last]]
  }

  lemma {:induction false} BucketSnoc(tabs: seq<Tab>, t: Tab, hostname: UrlPart, k: string)
    ensures Bucket(tabs + [t], hostname, k)
            == Bucket(tabs, hostname, k) + (if hostname(t.url) == k then [t] else [])
  {
    var s := tabs + [t];
    assert s[..|s| - 1] == tabs && s[|s| - 1] == t;
  }

  /** The loop's buckets are the input filtered by hostname, one per hostname met. */
  lemma {:induction false} BucketMapIsFilter(tabs: seq<Tab>, hostname: UrlPart)
    ensures forall h :: h in BucketMap(tabs, hostname) <==> Occurs(tabs, hostname, h)
    ensures forall h | h in BucketMap(tabs, hostname) :: BucketMap(tabs, hostname)[h] == Bucket(tabs, hostname, h)
  {
    if tabs != [] {
      var init, last := tabs[..|tabs| - 1], tabs[|tabs| - 1];
      assert tabs == init + [last];
      BucketMapIsFilter(init, hostname);
      var m, m' := BucketMap(init, hostname), BucketMap(tabs, hostname);
      var h := hostname(last.url);
      forall k ensures (k in m' <==> Occurs(tabs, hostname, k)) && (k in m' ==> m'[k] == Bucket(tabs, hostname, k)) {
        OccursSnoc(init, last, hostname, k);
        BucketSnoc(init, last, hostname, k);
        if k != h {
          assert Bucket(tabs, hostname, k) == Bucket(init, hostname, k) + [];
        }
      }
    }
  }

  /**
   The object groupTabsByFreqSite returns for `tabs`: one property per
   hostname, created when that hostname is first met, holding the tabs
   with that hostname in input order.
   */
  function Group(tabs: seq<Tab>, hostname: UrlPart): (g: SiteTabs)
    ensures WellFormed(g)
    ensures forall h | h in g.buckets :: g.buckets[h] == Bucket(tabs, hostname, h)
  {
    BucketMapIsFilter(tabs, hostname);
    SiteTabs(FirstSeen(tabs, hostname), BucketMap(tabs, hostname))
  }

  /**
   The buckets partition the tabs by hostname: an empty input gives an
   empty object, every bucket is non-empty and holds only tabs of its
   own hostname, and every tab sits in the bucket of its hostname (so in
   exactly one bucket).
   */
  lemma GroupByHostname(tabs: seq<Tab>, hostname: UrlPart)
    ensures var g := Group(tabs, hostname);
            && (tabs == [] ==> g.keys == [] && g.buckets == map[])
            && (forall h | h in g.buckets :: g.buckets[h] != [])
            && (forall h, t | h in g.buckets && t in g.buckets[h] :: hostname(t.url) == h)
            && (forall i | 0 <= i < |tabs| ::
                  hostname(tabs[i].url) in g.buckets && tabs[i] in g.buckets[hostname(tabs[i].url)])
  {
    var g := Group(tabs, hostname);
    forall i | 0 <= i < |tabs|
      ensures hostname(tabs[i].url) in g.buckets && tabs[i] in g.buckets[hostname(tabs[i].url)]
    {
      var h := hostname(tabs[i].url);
      assert Occurs(tabs, hostname, h);
      BucketKeepsInputOrder(tabs, hostname, h);
      var idx := Positions(tabs, hostname, h);
      var k :| 0 <= k < |idx| && idx[k] == i;
      assert Bucket(tabs, hostname, h)[k] == tabs[i];
    }
  }

  /** One iteration of the loop: how the object changes when one more tab is grouped. */
  lemma {:induction false} GroupSnoc(tabs: seq<Tab>, t: Tab, hostname: UrlPart)
    ensures var g, g' := Group(tabs, hostname), Group(tabs + [t], hostname);
            var h := hostname(t.url);
            if h in g.buckets then
              g' == SiteTabs(g.keys, g.buckets[h := g.buckets[h] + [t]])
            else
              g' == SiteTabs(g.keys + [h], g.buckets[h := [t]])
  {
    var s := tabs + [t];
    assert s[..|s| - 1] == tabs && s[|s| - 1] == t;
    var g := Group(tabs, hostname);
    assert [] + [t] == [t];
  }

  /** Iteration i of the loop: how the object for tabs[..i] becomes the object for tabs[..i + 1]. */
  lemma GroupStep(tabs: seq<Tab>, i: nat, hostname: UrlPart)
    requires i < |tabs|
    ensures var g, g' := Group(tabs[..i], hostname), Group(tabs[..i + 1], hostname);
            var h := hostname(tabs[i].url);
            g' == if h in g.buckets then SiteTabs(g.keys, g.buckets[h := g.buckets[h] + [tabs[i]]])
                  else SiteTabs(g.keys + [h], g.buckets[h := [tabs[i]]])
  {
    assert tabs[..i + 1] == tabs[..i] + [tabs[i]];
    GroupSnoc(tabs[..i], tabs[i], hostname);
  }

  /** Creating an empty array under a new key and then pushing onto it is the same as storing a one-tab array. */
  lemma CreateThenPush(keys: seq<string>, buckets: map<string, seq<Tab>>, h: string, t: Tab)
    ensures var b := if h in buckets then buckets else buckets[h := []];
            var k := if h in buckets then keys else keys + [h];
            SiteTabs(k, b[h := b[h] + [t]])
            == if h in buckets then SiteTabs(keys, buckets[h := buckets[h] + [t]])
               else SiteTabs(keys + [h], buckets[h := [t]])
  {
    assert [] + [t] == [t];
  }

  /**
   groupTabsByFreqSite: walk the tabs once; the first time a hostname is
   met create an empty array under it, then push the tab onto its
   hostname's array.
   */
  method GroupTabsByFreqSite(tabs: seq<Tab>, hostname: UrlPart) returns (g: SiteTabs)
    ensures g == Group(tabs, hostname)
  {
    var keys: seq<string> := [];
    var buckets: map<string, seq<Tab>> := map[];
    for i := 0 to |tabs|
      invariant SiteTabs(keys, buckets) == Group(tabs[..i], hostname)
    {
      var tab := tabs[i];
      var h := hostname(tab.url);
      ghost var keys0, buckets0 := keys, buckets;
      if h !in buckets {
        buckets := buckets[h := []];
        keys := keys + [h];
      }
      buckets := buckets[h := buckets[h] + [tab]];
      CreateThenPush(keys0, buckets0, h, tab);
      GroupStep(tabs, i, hostname);
    }
    assert tabs[..|tabs|] == tabs;
    g := SiteTabs(keys, buckets);
  }

  /** The tabs of the buckets named by `keys`, bucket after bucket. */
  function Concat(keys: seq<string>, buckets: map<string, seq<Tab>>): seq<Tab>
    requires forall k | k in keys :: k in buckets
  {
    if keys == [] then [] else buckets[keys[0]] + Concat(keys[1..], buckets)
  }

  lemma {:induction false} ConcatSnocKey(keys: seq<string>, k: string, buckets: map<string, seq<Tab>>)
    requires forall k' | k' in keys + [k] :: k' in buckets
    ensures Concat(keys + [k], buckets) == Concat(keys, buckets) + buckets[k]
  {
    if keys != [] {
      assert (keys + [k])[1..] == keys[1..] + [k];
      ConcatSnocKey(keys[1..], k, buckets);
    }
  }

  lemma {:induction false} ConcatFrame(keys: seq<string>, b: map<string, seq<Tab>>, b': map<string, seq<Tab>>)
    requires forall k | k in keys :: k in b && k in b' && b[k] == b'[k]
    ensures Concat(keys, b) == Concat(keys, b')
  {
    if keys != [] {
      ConcatFrame(keys[1..], b, b');
    }
  }

  /** Pushing one tab onto one bucket adds exactly that tab to the concatenation. */
  lemma {:induction false} ConcatPush(keys: seq<string>, b: map<string, seq<Tab>>, h: string, t: Tab)
    requires Distinct(keys) && h in keys
    requires forall k | k in keys :: k in b
    ensures multiset(Concat(keys, b[h := b[h] + [t]])) == multiset(Concat(keys, b)) + multiset{t}
  {
    var b' := b[h := b[h] + [t]];
    var rest := keys[1..];
    assert Distinct(rest) by {
      forall i, j | 0 <= i < j < |rest| ensures rest[i] != rest[j] {
        assert rest[i] == keys[i + 1] && rest[j] == keys[j + 1];
      }
    }
    if keys[0] == h {
      assert h !in rest by {
        forall i | 0 <= i < |rest| ensures rest[i] != h {
          assert rest[i] == keys[i + 1];
        }
      }
      ConcatFrame(rest, b, b');
    } else {
      ConcatPush(rest, b, h, t);
    }
  }

  /**
   No tab is lost or duplicated: reading the buckets in key order gives
   the input tabs, rearranged, and the bucket lengths add up to the
   number of tabs.
   */
  lemma {:induction false} GroupIsPartition(tabs: seq<Tab>, hostname: UrlPart)
    ensures var g := Group(tabs, hostname);
            && multiset(Concat(g.keys, g.buckets)) == multiset(tabs)
            && |Concat(g.keys, g.buckets)| == |tabs|
  {
    if tabs != [] {
      var init, t := tabs[..|tabs| - 1], tabs[|tabs| - 1];
      assert tabs == init + [t];
      GroupIsPartition(init, hostname);
      GroupSnoc(init, t, hostname);
      var g, h := Group(init, hostname), hostname(t.url);
      if h in g.buckets {
        ConcatPush(g.keys, g.buckets, h, t);
      } else {
        var b' := g.buckets[h := [t]];
        ConcatSnocKey(g.keys, h, b');
        ConcatFrame(g.keys, g.buckets, b');
      }
      var g' := Group(tabs, hostname);
      assert |multiset(Concat(g'.keys, g'.buckets))| == |Concat(g'.keys, g'.buckets)|;
    }
  }

  /** The indices of the tabs whose hostname is `h`, ascending. */
  function Positions(tabs: seq<Tab>, hostname: UrlPart, h: string): (idx: seq<nat>)
    ensures forall k | 0 <= k < |idx| :: idx[k] < |tabs| && hostname(tabs[idx[k]].url) == h
    ensures forall k, l | 0 <= k < l < |idx| :: idx[k] < idx[l]
    ensures forall i | 0 <= i < |tabs| && hostname(tabs[i].url) == h :: i in idx
  {
    if tabs == [] then []
    else
      var n := |tabs| - 1;
      assert forall i | 0 <= i < n :: tabs[..n][i] == tabs[i];
      Positions(tabs[..n], hostname, h) + (if hostname(tabs[n].url) == h then [n] else [])
  }

  /**
   Each bucket keeps the input order: its k-th tab is the input tab at
   the k-th smallest index whose hostname is `h`.
   */
  lemma {:induction false} BucketKeepsInputOrder(tabs: seq<Tab>, hostname: UrlPart, h: string)
    ensures var b, idx := Bucket(tabs, hostname, h), Positions(tabs, hostname, h);
            && |b| == |idx|
            && forall k | 0 <= k < |b| :: b[k] == tabs[idx[k]]
  {
    if tabs != [] {
      var n := |tabs| - 1;
      var init := tabs[..n];
      BucketKeepsInputOrder(init, hostname, h);
      var b0, idx0 := Bucket(init, hostname, h), Positions(init, hostname, h);
      var b, idx := Bucket(tabs, hostname, h), Positions(tabs, hostname, h);
      var hit := hostname(tabs[n].url) == h;
      assert b == (if hit then b0 + [tabs[n]] else b0);
      assert idx == (if hit then idx0 + [n] else idx0);
      PickedSnoc(tabs, n, b0, idx0, hit);
    }
  }

  /** Tabs picked from `tabs[..n]` at `idx`, plus possibly tabs[n] at n, are picked from `tabs` at those indices. */
  lemma PickedSnoc(tabs: seq<Tab>, n: nat, b0: seq<Tab>, idx0: seq<nat>, hit: bool)
    requires n < |tabs| && |b0| == |idx0|
    requires forall k | 0 <= k < |idx0| :: idx0[k] < n && b0[k] == tabs[..n][idx0[k]]
    ensures var b, idx := (if hit then b0 + [tabs[n]] else b0), (if hit then idx0 + [n] else idx0);
            |b| == |idx| && forall k | 0 <= k < |b| :: b[k] == tabs[idx[k]]
  {
  }

  /**
   Keys are created in first-seen order: when key i comes before key j,
   some tab with hostname keys[i] precedes every tab with hostname keys[j].
   */
  lemma KeysInFirstSeenOrder(tabs: seq<Tab>, hostname: UrlPart)
    ensures var keys := Group(tabs, hostname).keys;
            forall i, j, q | 0 <= i < j < |keys| && 0 <= q < |tabs| && hostname(tabs[q].url) == keys[j] ::
              Occurs(tabs[..q], hostname, keys[i])
  {
    var keys := FirstSeen(tabs, hostname);
    assert Group(tabs, hostname).keys == keys;
    forall i, j, q | 0 <= i < j < |keys| && 0 <= q < |tabs| && hostname(tabs[q].url) == keys[j]
      ensures Occurs(tabs[..q], hostname, keys[i])
    {
      FirstSeenOrder(tabs, hostname, i, j, q);
    }
  }

  /** The order of `FirstSeen` for one pair of keys and one tab, by induction on the input. */
  lemma {:induction false} FirstSeenOrder(tabs: seq<Tab>, hostname: UrlPart, i: nat, j: nat, q: nat)
    requires i < j < |FirstSeen(tabs, hostname)| && q < |tabs|
    requires hostname(tabs[q].url) == FirstSeen(tabs, hostname)[j]
    ensures Occurs(tabs[..q], hostname, FirstSeen(tabs, hostname)[i])
  {
    var n := |tabs| - 1;
    var init := tabs[..n];
    var keys0, keys := FirstSeen(init, hostname), FirstSeen(tabs, hostname);
    var h := hostname(tabs[n].url);
    assert keys == if h in keys0 then keys0 else keys0 + [h];
    assert i < |keys0| && keys[i] == keys0[i];
    if q == n {
      assert keys0[i] in keys0;
      assert tabs[..q] == init;
    } else {
      assert init[q] == tabs[q];
      assert keys[j] in keys0 by {
        assert hostname(init[q].url) == keys[j];
      }
      assert j < |keys0| && keys[j] == keys0[j];
      FirstSeenOrder(init, hostname, i, j, q);
      assert init[..q] == tabs[..q];
    }
  }


}
