/** The deduplication loop of `run`: an insertion-ordered dictionary keyed
    on the URL, where the first record seen for a URL wins. */
module Dedup {
  import opened Channels

  /** Index of the first record of `cs` whose URL is `url`. */
  function FirstIndex(cs: seq<Channel>, url: string): (i: nat)
    requires url in Urls(cs)
    ensures i < |cs| && cs[i].url == url
    ensures forall j | 0 <= j < i :: cs[j].url != url
    decreases |cs|
  {
    if cs[0].url == url then 0
    else
      assert Urls(cs[1..]) == Urls(cs)[1..];
      1 + FirstIndex(cs[1..], url)
  }

  /** The first record of each URL, in the order the URLs first appear. */
  function Dedup(cs: seq<Channel>): seq<Channel>
    decreases |cs|
  {
    if cs == [] then []
    else
      var prefix, last := cs[..|cs| - 1], cs[|cs| - 1];
      if last.url in Urls(prefix) then Dedup(prefix) else Dedup(prefix) + [last]
  }

  /** `seen` maps the keys of `order`, in order, to the records of `d`. */
  ghost predicate Mirrors(seen: map<string, Channel>, order: seq<string>, d: seq<Channel>) {
    |order| == |d| && forall k | 0 <= k < |order| :: order[k] in seen && seen[order[k]] == d[k]
  }

  /** Inserting a new key at the end of the dictionary. */
  lemma MirrorsInsert(seen: map<string, Channel>, order: seq<string>, d: seq<Channel>, url: string, c: Channel)
    requires Mirrors(seen, order, d) && url !in seen
    ensures Mirrors(seen[url := c], order + [url], d + [c])
  {
    var seen', order', d' := seen[url := c], order + [url], d + [c];
    forall k | 0 <= k < |order'|
      ensures order'[k] in seen' && seen'[order'[k]] == d'[k]
    {
      if k < |order| {
        assert order'[k] == order[k] && d'[k] == d[k];
        assert order[k] != url;
      }
    }
  }

  /** The dictionary `unique_channels` and its `list(values())`. The
      dictionary's insertion order is kept as the sequence `order` of its
      keys. */
  method DeduplicateChannels(allChannels: seq<Channel>) returns (unique: seq<Channel>)
    ensures unique == Dedup(allChannels)
  {
    var seen: map<string, Channel> := map[];
    var order: seq<string> := [];
    for i := 0 to |allChannels|
      invariant Mirrors(seen, order, Dedup(allChannels[..i]))
      invariant forall u :: u in seen <==> u in Urls(allChannels[..i])
    {
      var channel := allChannels[i];
      var url := channel.url;
      assert allChannels[..i + 1][..i] == allChannels[..i];
      assert Urls(allChannels[..i + 1]) == Urls(allChannels[..i]) + [url];
      ghost var d0 := Dedup(allChannels[..i]);
      if url !in seen {
        assert Dedup(allChannels[..i + 1]) == d0 + [channel];
        MirrorsInsert(seen, order, d0, url, channel);
        seen := seen[url := channel];
        order := order + [url];
      } else {
        assert Dedup(allChannels[..i + 1]) == d0;
      }
    }
    assert allChannels[..|allChannels|] == allChannels;
    unique := seq(|order|, k requires 0 <= k < |order| => seen[order[k]]);
    ghost var d := Dedup(allChannels);
    assert forall k | 0 <= k < |d| :: unique[k] == seen[order[k]] == d[k];
  }

  // ------------------------------------------------------------ properties

  lemma UrlsSnoc(p: seq<Channel>, c: Channel)
    ensures Urls(p + [c]) == Urls(p) + [c.url]
  {
    assert (p + [c])[..|p|] == p;
  }

  /** No two survivors share a URL, and the survivors have exactly the URLs
      of the input. */
  lemma {:induction false} DedupUrls(cs: seq<Channel>)
    ensures forall i, j | 0 <= i < j < |Dedup(cs)| :: Dedup(cs)[i].url != Dedup(cs)[j].url
    ensures forall u :: u in Urls(Dedup(cs)) <==> u in Urls(cs)
    decreases |cs|
  {
    if cs != [] {
      var prefix, last := cs[..|cs| - 1], cs[|cs| - 1];
      DedupUrls(prefix);
      assert cs == prefix + [last];
      UrlsSnoc(prefix, last);
      if last.url !in Urls(prefix) {
        UrlsSnoc(Dedup(prefix), last);
      }
    }
  }

  /** The survivors keep the input order: they form a subsequence of it. */
  lemma {:induction false} DedupSubseq(cs: seq<Channel>)
    ensures IsSubseq(Dedup(cs), cs)
    decreases |cs|
  {
    if cs != [] {
      var prefix := cs[..|cs| - 1];
      DedupSubseq(prefix);
    }
  }

  /** Each survivor is the first occurrence of its URL. */
  lemma {:induction false} DedupFirstWins(cs: seq<Channel>)
    ensures forall k | 0 <= k < |Dedup(cs)| ::
              Dedup(cs)[k].url in Urls(cs) && Dedup(cs)[k] == cs[FirstIndex(cs, Dedup(cs)[k].url)]
    decreases |cs|
  {
    if cs != [] {
      var prefix, last := cs[..|cs| - 1], cs[|cs| - 1];
      DedupFirstWins(prefix);
      assert cs == prefix + [last];
      UrlsSnoc(prefix, last);
      var r := Dedup(cs);
      forall k | 0 <= k < |r| ensures r[k].url in Urls(cs) && r[k] == cs[FirstIndex(cs, r[k].url)] {
        if k < |Dedup(prefix)| {
          var u := r[k].url;
          assert r[k] == Dedup(prefix)[k];
          var i := FirstIndex(prefix, u);
          var i' := FirstIndex(cs, u);
          assert forall j | 0 <= j < |prefix| :: cs[j] == prefix[j];
          assert i' == i;
        } else {
          assert r[k] == last && last.url !in Urls(prefix);
          assert forall j | 0 <= j < |prefix| :: cs[j].url == Urls(prefix)[j];
        }
      }
    }
  }

  /** `i` is the first index of `cs` holding `url`. */
  lemma FirstIndexIs(cs: seq<Channel>, url: string, i: nat)
    requires i < |cs| && cs[i].url == url
    requires forall j | 0 <= j < i :: cs[j].url != url
    ensures url in Urls(cs) && FirstIndex(cs, url) == i
  {
    assert Urls(cs)[i] == url;
  }

  /** Appending a record does not move the first index of a URL already
      present. */
  lemma FirstIndexSnoc(prefix: seq<Channel>, last: Channel, url: string)
    requires url in Urls(prefix)
    ensures url in Urls(prefix + [last])
    ensures FirstIndex(prefix + [last], url) == FirstIndex(prefix, url)
  {
    var cs, i := prefix + [last], FirstIndex(prefix, url);
    assert forall j | 0 <= j < |prefix| :: cs[j] == prefix[j];
    FirstIndexIs(cs, url, i);
  }

  /** Every record of `d` has a URL that occurs in `cs`. */
  predicate AllSeen(cs: seq<Channel>, d: seq<Channel>) {
    forall k | 0 <= k < |d| :: d[k].url in Urls(cs)
  }

  /** The position in `cs` at which the URL of each record of `d` first
      appears. */
  ghost function FirstIndices(cs: seq<Channel>, d: seq<Channel>): (f: seq<nat>)
    requires AllSeen(cs, d)
    ensures |f| == |d|
    ensures forall k | 0 <= k < |d| :: f[k] == FirstIndex(cs, d[k].url) && f[k] < |cs|
    decreases |d|
  {
    if d == [] then []
    else FirstIndices(cs, d[..|d| - 1]) + [FirstIndex(cs, d[|d| - 1].url)]
  }

  predicate Increasing(f: seq<nat>) {
    forall i, j | 0 <= i < j < |f| :: f[i] < f[j]
  }

  lemma IncreasingSnoc(f: seq<nat>, n: nat)
    requires Increasing(f) && forall k | 0 <= k < |f| :: f[k] < n
    ensures Increasing(f + [n])
  {
  }

  /** The records of `d` have URLs of `cs`, in the order in which these
      first appear in `cs`. */
  ghost predicate InFirstSeenOrder(cs: seq<Channel>, d: seq<Channel>) {
    AllSeen(cs, d) && Increasing(FirstIndices(cs, d))
  }

  /** Appending a record to the input moves no first index of `d`. */
  lemma FirstIndicesSnoc(prefix: seq<Channel>, last: Channel, d: seq<Channel>)
    requires AllSeen(prefix, d)
    ensures AllSeen(prefix + [last], d)
    ensures FirstIndices(prefix + [last], d) == FirstIndices(prefix, d)
  {
    forall k | 0 <= k < |d|
      ensures d[k].url in Urls(prefix + [last])
      ensures FirstIndex(prefix + [last], d[k].url) == FirstIndex(prefix, d[k].url)
    {
      FirstIndexSnoc(prefix, last, d[k].url);
    }
  }

  /** A record with a URL new to the input has the input's last position as
      its first index. */
  lemma FirstIndexNew(prefix: seq<Channel>, last: Channel)
    requires last.url !in Urls(prefix)
    ensures last.url in Urls(prefix + [last])
    ensures FirstIndex(prefix + [last], last.url) == |prefix|
  {
    var cs := prefix + [last];
    assert forall j | 0 <= j < |prefix| :: cs[j].url == Urls(prefix)[j];
    FirstIndexIs(cs, last.url, |prefix|);
  }

  /** A record appended to the input keeps the order of earlier URLs. */
  lemma FirstSeenSkip(prefix: seq<Channel>, last: Channel, d: seq<Channel>)
    requires InFirstSeenOrder(prefix, d)
    ensures InFirstSeenOrder(prefix + [last], d)
  {
    FirstIndicesSnoc(prefix, last, d);
  }

  /** A record with a URL new to the input adds that input position to the
      first indices. */
  lemma FirstIndicesAppend(prefix: seq<Channel>, last: Channel, d: seq<Channel>)
    requires AllSeen(prefix, d) && last.url !in Urls(prefix)
    ensures AllSeen(prefix + [last], d + [last])
    ensures FirstIndices(prefix + [last], d + [last]) == FirstIndices(prefix, d) + [|prefix|]
  {
    var cs, d' := prefix + [last], d + [last];
    FirstIndicesSnoc(prefix, last, d);
    FirstIndexNew(prefix, last);
    assert AllSeen(cs, d') by {
      forall k | 0 <= k < |d'| ensures d'[k].url in Urls(cs) {
        if k < |d| {
          assert d'[k] == d[k];
        }
      }
    }
    assert d'[..|d'| - 1] == d;
  }

  /** A record with a new URL comes after all earlier ones. */
  lemma FirstSeenAppend(prefix: seq<Channel>, last: Channel, d: seq<Channel>)
    requires InFirstSeenOrder(prefix, d) && last.url !in Urls(prefix)
    ensures InFirstSeenOrder(prefix + [last], d + [last])
  {
    FirstIndicesAppend(prefix, last, d);
    IncreasingSnoc(FirstIndices(prefix, d), |prefix|);
  }

  lemma {:induction false} DedupInFirstSeenOrder(cs: seq<Channel>)
    ensures InFirstSeenOrder(cs, Dedup(cs))
    decreases |cs|
  {
    if cs != [] {
      var prefix, last := cs[..|cs| - 1], cs[|cs| - 1];
      DedupInFirstSeenOrder(prefix);
      assert cs == prefix + [last];
      if last.url !in Urls(prefix) {
        FirstSeenAppend(prefix, last, Dedup(prefix));
      } else {
        FirstSeenSkip(prefix, last, Dedup(prefix));
      }
    }
  }

  /** First-seen order: the survivors come in the order in which their URLs
      first appear in the input, compared by position, so this holds even
      when the input repeats a record. */
  lemma DedupFirstSeenOrder(cs: seq<Channel>)
    ensures forall k | 0 <= k < |Dedup(cs)| :: Dedup(cs)[k].url in Urls(cs)
    ensures forall i, j | 0 <= i < j < |Dedup(cs)| ::
              FirstIndex(cs, Dedup(cs)[i].url) < FirstIndex(cs, Dedup(cs)[j].url)
  {
    DedupInFirstSeenOrder(cs);
    var f := FirstIndices(cs, Dedup(cs));
    assert forall i, j | 0 <= i < j < |f| :: f[i] < f[j];
  }

  /** A list whose URLs are pairwise distinct passes through unchanged. */
  lemma {:induction false} DedupNoDuplicates(cs: seq<Channel>)
    requires DistinctUrls(cs)
    ensures Dedup(cs) == cs
    decreases |cs|
  {
    if cs != [] {
      var prefix, last := cs[..|cs| - 1], cs[|cs| - 1];
      DistinctUrlsSnoc(cs);
      DedupNoDuplicates(prefix);
      assert cs == prefix + [last];
    }
  }

  /** No two records of `cs` share a URL. */
  predicate DistinctUrls(cs: seq<Channel>) {
    forall i, j | 0 <= i < j < |cs| :: cs[i].url != cs[j].url
  }

  lemma DistinctUrlsSnoc(cs: seq<Channel>)
    requires cs != [] && DistinctUrls(cs)
    ensures DistinctUrls(cs[..|cs| - 1]) && cs[|cs| - 1].url !in Urls(cs[..|cs| - 1])
  {
    var prefix := cs[..|cs| - 1];
    assert forall i | 0 <= i < |prefix| :: prefix[i] == cs[i];
    assert forall i | 0 <= i < |prefix| :: Urls(prefix)[i] != cs[|cs| - 1].url;
  }

  lemma DedupIdempotent(cs: seq<Channel>)
    ensures Dedup(Dedup(cs)) == Dedup(cs)
  {
    DedupUrls(cs);
    DedupNoDuplicates(Dedup(cs));
  }
}
