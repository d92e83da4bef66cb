/**
 * The bookmark list: insertion-ordered, keyed by exact url, toggled from the
 * active tab.
 */
module Bookmarks {
  import opened Types

  function Urls(bs: seq<Bookmark>): set<string> {
    set b | b in bs :: b.url
  }

  /** No two bookmarks share a url. */
  predicate UniqueUrls(bs: seq<Bookmark>) {
    forall i, j :: 0 <= i < j < |bs| ==> bs[i].url != bs[j].url
  }

  /** The bookmarks that remain after un-bookmarking `url`: every one with that url is dropped. */
  function WithoutUrl(bs: seq<Bookmark>, url: string): (r: seq<Bookmark>)
    ensures forall b :: b in r <==> b in bs && b.url != url
    ensures url !in Urls(bs) ==> r == bs
  {
    if |bs| == 0 then []
    else
      var rest := WithoutUrl(bs[1..], url);
      assert forall b :: b in bs <==> b == bs[0] || b in bs[1..];
      assert url !in Urls(bs) ==> url !in Urls(bs[1..]) && bs[0].url != url;
      if bs[0].url == url then rest else [bs[0]] + rest
  }

  lemma {:induction false} WithoutUrlAppend(a: seq<Bookmark>, b: seq<Bookmark>, url: string)
    ensures WithoutUrl(a + b, url) == WithoutUrl(a, url) + WithoutUrl(b, url)
  {
    if |a| == 0 {
      assert a + b == b;
    } else {
      assert (a + b)[1..] == a[1..] + b;
      WithoutUrlAppend(a[1..], b, url);
    }
  }

  /** Dropping bookmarks never creates a duplicate url. */
  lemma {:induction false} WithoutUrlUnique(bs: seq<Bookmark>, url: string)
    requires UniqueUrls(bs)
    ensures UniqueUrls(WithoutUrl(bs, url))
  {
    if |bs| > 0 {
      var rest := WithoutUrl(bs[1..], url);
      assert UniqueUrls(bs[1..]);
      WithoutUrlUnique(bs[1..], url);
      if bs[0].url != url {
        HeadUrlFresh(bs);
        assert Urls(rest) <= Urls(bs[1..]);
        ConsUnique(bs[0], rest);
        assert WithoutUrl(bs, url) == [bs[0]] + rest;
      }
    }
  }

  lemma HeadUrlFresh(bs: seq<Bookmark>)
    requires UniqueUrls(bs) && |bs| > 0
    ensures bs[0].url !in Urls(bs[1..])
  {
  }

  lemma ConsUnique(b: Bookmark, rest: seq<Bookmark>)
    requires UniqueUrls(rest)
    requires b.url !in Urls(rest)
    ensures UniqueUrls([b] + rest)
  {
  }

  /**
   * The star button: when some bookmark has `url`, all of them are removed;
   * otherwise one bookmark for `url` is appended.
   */
  function Toggle(bs: seq<Bookmark>, id: Id, title: string, url: string): (r: seq<Bookmark>)
    ensures url in Urls(r) <==> url !in Urls(bs)
    ensures Urls(r) == if url in Urls(bs) then Urls(bs) - {url} else Urls(bs) + {url}
    ensures forall b: Bookmark :: b.url != url ==> (b in r <==> b in bs)
    ensures url !in Urls(bs) ==> r == bs + [Bookmark(id, title, url)]
    ensures url in Urls(bs) ==> r == WithoutUrl(bs, url)
  {
    if url in Urls(bs) then WithoutUrl(bs, url) else bs + [Bookmark(id, title, url)]
  }

  lemma ToggleKeepsUnique(bs: seq<Bookmark>, id: Id, title: string, url: string)
    requires UniqueUrls(bs)
    ensures UniqueUrls(Toggle(bs, id, title, url))
  {
    if url in Urls(bs) {
      WithoutUrlUnique(bs, url);
    } else {
      var r := bs + [Bookmark(id, title, url)];
      forall i, j | 0 <= i < j < |r| ensures r[i].url != r[j].url {
        if j == |bs| {
          assert r[i] in bs;
        }
      }
    }
  }

  /** Toggling twice from "not bookmarked" gives back exactly the list it started from. */
  lemma ToggleTwiceFromAbsent(bs: seq<Bookmark>, id1: Id, id2: Id, title1: string, title2: string, url: string)
    requires url !in Urls(bs)
    ensures Toggle(Toggle(bs, id1, title1, url), id2, title2, url) == bs
  {
    var b := Bookmark(id1, title1, url);
    WithoutUrlAppend(bs, [b], url);
    assert WithoutUrl([b], url) == [];
  }

  /** Toggling twice from "bookmarked" gives back the same set of urls. */
  lemma ToggleTwiceFromPresent(bs: seq<Bookmark>, id1: Id, id2: Id, title1: string, title2: string, url: string)
    requires url in Urls(bs)
    ensures url in Urls(Toggle(Toggle(bs, id1, title1, url), id2, title2, url))
    ensures Urls(Toggle(Toggle(bs, id1, title1, url), id2, title2, url)) == Urls(bs)
  {
  }
}
