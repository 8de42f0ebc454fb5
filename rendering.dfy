/**
 generateLists, without the DOM: one list block per property of the
 grouped object, in `Object.entries` order, headed by the hostname and
 holding one item per tab of that hostname.
 */
module Rendering {
  import opened Tabs
  import opened SiteGrouping
  import opened Titles

  /** One item of a list: the shortened title, the URL's pathname, and the tab a click activates. */
  datatype Item = Item(title: string, pathname: string, tab: Tab)

  /** One list block: the hostname heading and its items, in bucket order. */
  datatype TabList = TabList(heading: string, items: seq<Item>)

  /** The items generateLists appends to one list, one per tab of `tabList`. */
  function Items(tabList: seq<Tab>, pathname: UrlPart): (r: seq<Item>)
    ensures |r| == |tabList|
    ensures forall k | 0 <= k < |r| ::
              r[k] == Item(DisplayTitle(tabList[k].title), pathname(tabList[k].url), tabList[k])
  {
    if tabList == [] then []
    else [Item(DisplayTitle(tabList[0].title), pathname(tabList[0].url), tabList[0])]
         + Items(tabList[1..], pathname)
  }

  /** The list blocks for the properties `keys` of the object, in that order. */
  function Lists(keys: seq<string>, buckets: map<string, seq<Tab>>, pathname: UrlPart): (r: seq<TabList>)
    requires forall k | k in keys :: k in buckets
    ensures |r| == |keys|
    ensures forall i | 0 <= i < |r| :: r[i] == TabList(keys[i], Items(buckets[keys[i]], pathname))
  {
    if keys == [] then []
    else
      var rest := Lists(keys[1..], buckets, pathname);
      var r := [TabList(keys[0], Items(buckets[keys[0]], pathname))] + rest;
      assert forall i | 1 <= i < |r| :: r[i] == rest[i - 1] && keys[i] == keys[1..][i - 1];
      r
  }

  /** The list blocks generateLists renders for the grouped object `g`. */
  function GenerateLists(g: SiteTabs, pathname: UrlPart): (r: seq<TabList>)
    requires WellFormed(g)
    ensures |r| == |g.keys|
    ensures forall i | 0 <= i < |r| ::
              r[i].heading == g.keys[i] && |r[i].items| == |g.buckets[g.keys[i]]| &&
              forall k | 0 <= k < |r[i].items| ::
                var t := g.buckets[g.keys[i]][k];
                r[i].items[k] == Item(DisplayTitle(t.title), pathname(t.url), t)
  {
    Lists(g.keys, g.buckets, pathname)
  }

  /** The tabs behind the items of `items`, in order. */
  function ItemTabs(items: seq<Item>): seq<Tab> {
    if items == [] then [] else [items[0].tab] + ItemTabs(items[1..])
  }

  /** The tabs behind every item of every list, list after list. */
  function AllTabs(lists: seq<TabList>): seq<Tab> {
    if lists == [] then [] else ItemTabs(lists[0].items) + AllTabs(lists[1..])
  }

  lemma {:induction false} ItemTabsOfItems(tabList: seq<Tab>, pathname: UrlPart)
    ensures ItemTabs(Items(tabList, pathname)) == tabList
  {
    if tabList != [] {
      var items := Items(tabList, pathname);
      assert items[1..] == Items(tabList[1..], pathname);
      ItemTabsOfItems(tabList[1..], pathname);
    }
  }

  lemma {:induction false} AllTabsOfLists(keys: seq<string>, buckets: map<string, seq<Tab>>, pathname: UrlPart)
    requires forall k | k in keys :: k in buckets
    ensures AllTabs(Lists(keys, buckets, pathname)) == Concat(keys, buckets)
  {
    if keys != [] {
      var lists := Lists(keys, buckets, pathname);
      assert lists[1..] == Lists(keys[1..], buckets, pathname);
      ItemTabsOfItems(buckets[keys[0]], pathname);
      AllTabsOfLists(keys[1..], buckets, pathname);
    }
  }

  /**
   What the popup shows for the tabs `tabs`: one list per distinct
   hostname, headed by it, in the order the hostnames are first met; and
   every tab behind exactly one item, nothing lost or shown twice.
   */
  lemma ListsShowEveryTabOnce(tabs: seq<Tab>, hostname: UrlPart, pathname: UrlPart)
    ensures var g := Group(tabs, hostname);
            var lists := GenerateLists(g, pathname);
            && |lists| == |g.keys|
            && (forall i | 0 <= i < |lists| :: lists[i].heading == g.keys[i])
            && (forall i, j | 0 <= i < j < |lists| :: lists[i].heading != lists[j].heading)
            && multiset(AllTabs(lists)) == multiset(tabs)
  {
    var g := Group(tabs, hostname);
    AllTabsOfLists(g.keys, g.buckets, pathname);
    GroupIsPartition(tabs, hostname);
  }
}
