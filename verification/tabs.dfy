/**
 * The tab registry: lookups and the three whole-registry rewrites the shell
 * performs (dropping a closed tab, marking a tab as loading a new URL, and
 * marking it as loaded). Each keeps the order of the tabs it does not touch.
 */
module Tabs {
  import opened Types

  function Ids(tabs: seq<Tab>): set<Id> {
    set t | t in tabs :: t.id
  }

  /** No two tabs share an id (fresh uuids guarantee this in the shell). */
  predicate UniqueIds(tabs: seq<Tab>) {
    forall i, j :: 0 <= i < j < |tabs| ==> tabs[i].id != tabs[j].id
  }

  /** The position of the tab that `find` returns: the first one carrying `id`. */
  function Find(tabs: seq<Tab>, id: Id): (r: Option<nat>)
    ensures r.Some? ==> r.value < |tabs| && tabs[r.value].id == id
    ensures r.Some? ==> forall j :: 0 <= j < r.value ==> tabs[j].id != id
    ensures r.None? <==> id !in Ids(tabs)
  {
    if |tabs| == 0 then None
    else if tabs[0].id == id then Some(0)
    else
      match Find(tabs[1..], id)
      case None =>
        assert Ids(tabs) == {tabs[0].id} + Ids(tabs[1..]);
        None
      case Some(k) => Some(k + 1)
  }

  /** The tabs that remain after closing `id`: every tab with that id is dropped. */
  function WithoutId(tabs: seq<Tab>, id: Id): (r: seq<Tab>)
    ensures forall t :: t in r <==> t in tabs && t.id != id
    ensures id !in Ids(tabs) ==> r == tabs
  {
    if |tabs| == 0 then []
    else
      var rest := WithoutId(tabs[1..], id);
      assert forall t :: t in tabs <==> t == tabs[0] || t in tabs[1..];
      assert id !in Ids(tabs) ==> id !in Ids(tabs[1..]) && tabs[0].id != id;
      if tabs[0].id == id then rest else [tabs[0]] + rest
  }

  lemma WithoutIdIds(tabs: seq<Tab>, id: Id)
    ensures Ids(WithoutId(tabs, id)) == Ids(tabs) - {id}
  {
  }

  /** With unique ids, closing keeps ids unique and drops at most one tab. */
  lemma {:induction false} WithoutIdUnique(tabs: seq<Tab>, id: Id)
    requires UniqueIds(tabs)
    ensures UniqueIds(WithoutId(tabs, id))
    ensures |WithoutId(tabs, id)| + 1 >= |tabs|
  {
    if |tabs| > 0 {
      var rest := WithoutId(tabs[1..], id);
      assert UniqueIds(tabs[1..]);
      WithoutIdUnique(tabs[1..], id);
      IdAbsentOutside(tabs, 0);
      assert tabs[1..] == tabs[0 + 1..];
      if tabs[0].id == id {
        assert WithoutId(tabs, id) == rest == tabs[1..];
      } else {
        WithoutIdIds(tabs[1..], id);
        ConsUnique(tabs[0], rest);
        assert WithoutId(tabs, id) == [tabs[0]] + rest;
      }
    }
  }

  lemma ConsUnique(t: Tab, rest: seq<Tab>)
    requires UniqueIds(rest)
    requires t.id !in Ids(rest)
    ensures UniqueIds([t] + rest)
  {
  }

  /** Navigation: every tab with `id` shows `url` and starts loading; its title is kept. */
  function MarkLoading(tabs: seq<Tab>, id: Id, url: string): (r: seq<Tab>)
    ensures |r| == |tabs|
    ensures forall i :: 0 <= i < |tabs| && tabs[i].id == id ==>
              r[i] == Tab(id, url, tabs[i].title, true)
    ensures forall i :: 0 <= i < |tabs| && tabs[i].id != id ==> r[i] == tabs[i]
  {
    if |tabs| == 0 then []
    else
      var t := tabs[0];
      var head := if t.id == id then t.(url := url, isLoading := true) else t;
      [head] + MarkLoading(tabs[1..], id, url)
  }

  /** Load completion: every tab with `id` stops loading; nothing else changes. */
  function MarkLoaded(tabs: seq<Tab>, id: Id): (r: seq<Tab>)
    ensures |r| == |tabs|
    ensures forall i :: 0 <= i < |tabs| && tabs[i].id == id ==>
              r[i] == tabs[i].(isLoading := false)
    ensures forall i :: 0 <= i < |tabs| && tabs[i].id != id ==> r[i] == tabs[i]
  {
    if |tabs| == 0 then []
    else
      var t := tabs[0];
      var head := if t.id == id then t.(isLoading := false) else t;
      [head] + MarkLoaded(tabs[1..], id)
  }

  /** Closing distributes over concatenation: the surviving tabs keep their order. */
  lemma {:induction false} WithoutIdAppend(a: seq<Tab>, b: seq<Tab>, id: Id)
    ensures WithoutId(a + b, id) == WithoutId(a, id) + WithoutId(b, id)
  {
    if |a| == 0 {
      assert a + b == b;
    } else {
      assert (a + b)[1..] == a[1..] + b;
      WithoutIdAppend(a[1..], b, id);
    }
  }

  /** With unique ids, closing the tab at position k removes exactly that tab. */
  lemma WithoutIdRemovesOne(tabs: seq<Tab>, k: nat, id: Id)
    requires UniqueIds(tabs)
    requires k < |tabs| && tabs[k].id == id
    ensures WithoutId(tabs, id) == tabs[..k] + tabs[k+1..]
    ensures |WithoutId(tabs, id)| == |tabs| - 1
  {
    var pre, post := tabs[..k], tabs[k+1..];
    assert tabs == pre + ([tabs[k]] + post);
    IdAbsentOutside(tabs, k);
    WithoutIdAppend(pre, [tabs[k]] + post, id);
    WithoutIdAppend([tabs[k]], post, id);
    assert WithoutId(pre, id) == pre;
    assert WithoutId(post, id) == post;
    assert WithoutId([tabs[k]], id) == [];
  }

  /** With unique ids, the id at position k occurs nowhere before or after it. */
  lemma IdAbsentOutside(tabs: seq<Tab>, k: nat)
    requires UniqueIds(tabs)
    requires k < |tabs|
    ensures tabs[k].id !in Ids(tabs[..k])
    ensures tabs[k].id !in Ids(tabs[k+1..])
  {
  }

  /** Completing the same load twice is the same as completing it once. */
  lemma MarkLoadedIdempotent(tabs: seq<Tab>, id: Id)
    ensures MarkLoaded(MarkLoaded(tabs, id), id) == MarkLoaded(tabs, id)
  {
  }

  /** Two completion signals commute, whichever order they arrive in. */
  lemma MarkLoadedCommute(tabs: seq<Tab>, a: Id, b: Id)
    ensures MarkLoaded(MarkLoaded(tabs, a), b) == MarkLoaded(MarkLoaded(tabs, b), a)
  {
  }
}
