/**
 groupTabsByHostName: the decision the group button of a list makes,
 and the arguments it passes to the browser. The browser calls
 themselves are not modelled.
 */
module TabGroups {
  import opened Tabs
  import opened SiteGrouping
  import Rendering

  /** The colours a tab group can have (the browser's tab-group colour enumeration; only purple is used here). */
  datatype Color = Grey | Blue | Red | Yellow | Green | Pink | Purple | Cyan | Orange

  /**
   What groupTabsByHostName does: a hostname the object has no property
   for makes `tabs.map` throw (a TypeError on `undefined`); an empty id
   list makes no browser call; otherwise the tabs are put into a new
   group, which then gets a title, a colour and is collapsed.
   */
  datatype GroupAction =
    | NoSuchHost
    | NoCall
    | GroupAndUpdate(tabIds: seq<int>, title: string, color: Color, collapsed: bool)

  /** `tabs.map(({ id }) => id)`. */
  function TabIds(tabs: seq<Tab>): (ids: seq<int>)
    ensures |ids| == |tabs|
    ensures forall k | 0 <= k < |tabs| :: ids[k] == tabs[k].id
  {
    if tabs == [] then [] else [tabs[0].id] + TabIds(tabs[1..])
  }

  /** A relative index of String.prototype.slice: negative counts from the end, then clamp to [0, len]. */
  function ClampIndex(k: int, len: nat): (r: nat)
    ensures r <= len
    ensures 0 <= k ==> r == if k < len then k else len
  {
    if k < 0 then (if len + k < 0 then 0 else len + k)
    else if k > len then len
    else k
  }

  /** `s.slice(start, end)`. */
  function Slice(s: string, start: int, end: int): (r: string)
    ensures |r| <= |s|
    ensures 0 <= start <= end ==>
              var from := if start < |s| then start else |s|;
              var to := if end < |s| then end else |s|;
              r == s[from..to]
  {
    var from, to := ClampIndex(start, |s|), ClampIndex(end, |s|);
    if from < to then s[from..to] else []
  }

  /** The group title, `hostname.slice(0, 5)`: the first five characters, or all of a shorter hostname. */
  function GroupTitle(hostname: string): (r: string)
    ensures |r| == if |hostname| < 5 then |hostname| else 5
    ensures r == hostname[..|r|]
  {
    Slice(hostname, 0, 5)
  }

  /** groupTabsByHostName(freqSiteTabs, hostname). */
  function GroupTabsByHostName(g: SiteTabs, hostname: string): (a: GroupAction)
    ensures a.NoSuchHost? <==> hostname !in g.buckets
    ensures a.NoCall? <==> hostname in g.buckets && g.buckets[hostname] == []
    ensures a.GroupAndUpdate? ==>
              && hostname in g.buckets
              && |a.tabIds| == |g.buckets[hostname]| > 0
              && (forall k | 0 <= k < |a.tabIds| :: a.tabIds[k] == g.buckets[hostname][k].id)
              && |a.title| == (if |hostname| < 5 then |hostname| else 5)
              && a.title == hostname[..|a.title|]
              && a.color == Purple && a.collapsed
  {
    if hostname !in g.buckets then NoSuchHost
    else
      var tabIds := TabIds(g.buckets[hostname]);
      if |tabIds| != 0 then GroupAndUpdate(tabIds, GroupTitle(hostname), Purple, true) else NoCall
  }

  /**
   groupTabsByHostName on the object groupTabsByFreqSite built: it throws
   exactly for a hostname no tab has; otherwise it groups exactly the
   tabs with that hostname, by id and in input order, under the
   hostname's first five characters, purple and collapsed. The
   empty-list guard never fires on such an object.
   */
  lemma {:induction false} GroupDecisionForHost(tabs: seq<Tab>, hostname: UrlPart, h: string)
    ensures var a := GroupTabsByHostName(Group(tabs, hostname), h);
            var idx := Positions(tabs, hostname, h);
            && (a.NoSuchHost? <==> !Occurs(tabs, hostname, h))
            && !a.NoCall?
            && (a.GroupAndUpdate? ==>
                  && |a.tabIds| == |idx|
                  && (forall k | 0 <= k < |idx| :: a.tabIds[k] == tabs[idx[k]].id)
                  && a.title == GroupTitle(h)
                  && a.color == Purple && a.collapsed)
  {
    var g := Group(tabs, hostname);
    assert h in g.buckets <==> h in g.keys;
    if h in g.buckets {
      var b := Bucket(tabs, hostname, h);
      assert g.buckets[h] == b;
      BucketKeepsInputOrder(tabs, hostname, h);
      assert GroupTabsByHostName(g, h) == GroupAndUpdate(TabIds(b), GroupTitle(h), Purple, true);
    }
  }

  /** There is one rendered list per distinct hostname, and clicking the group button of any of them groups that list's tabs: it never throws and never skips. */
  lemma {:induction false} GroupButtonGroupsItsHost(tabs: seq<Tab>, hostname: UrlPart, pathname: UrlPart, i: nat)
    requires i < |FirstSeen(tabs, hostname)|
    ensures var g := Group(tabs, hostname);
            var lists := Rendering.GenerateLists(g, pathname);
            i < |lists| && GroupTabsByHostName(g, lists[i].heading).GroupAndUpdate?
  {
    var g := Group(tabs, hostname);
    var h := Rendering.GenerateLists(g, pathname)[i].heading;
    assert h == g.keys[i] && h in g.buckets;
    GroupDecisionForHost(tabs, hostname, h);
  }
}
