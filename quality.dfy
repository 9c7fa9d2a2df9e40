/** `filter_quality_channels`: drops records whose lower-cased name holds
    a marker of a test or placeholder entry. */
module QualityFilter {
  import opened Text
  import opened Channels

  /** Markers of entries not worth keeping. */
  const BadNames: seq<string> := ["test", "example", "demo", "无效", "测试"]

  /** Names of well-known channels. Matching one of them keeps a record, as
      not matching does: the list has no effect on the outcome. */
  const GoodKeywords: seq<string> := [
    "cctv", "央视", "卫视", "湖南", "浙江", "江苏", "北京", "上海", "广东",
    "viutv", "无线新闻", "HOY", "NOW", "香港", "凤凰", "翡翠", "明珠", "tvb", "RTHK"
  ]

  predicate IsExcluded(c: Channel) {
    ContainsAny(ToLower(c.name), BadNames)
  }

  /** The records that are not excluded, in order. */
  function FilterQuality(cs: seq<Channel>): seq<Channel>
    decreases |cs|
  {
    if cs == [] then []
    else
      var prefix, last := cs[..|cs| - 1], cs[|cs| - 1];
      if IsExcluded(last) then FilterQuality(prefix) else FilterQuality(prefix) + [last]
  }

  /** `filter_quality_channels(channels)`, with the good-keyword branch kept
      as the no-op it is. */
  method FilterQualityChannels(channels: seq<Channel>) returns (quality: seq<Channel>)
    ensures quality == FilterQuality(channels)
  {
    quality := [];
    for i := 0 to |channels|
      invariant quality == FilterQuality(channels[..i])
    {
      var channel := channels[i];
      assert channels[..i + 1][..i] == channels[..i];
      var name := ToLower(channel.name);
      if ContainsAny(name, BadNames) {
        continue;
      }
      if ContainsAny(name, GoodKeywords) {
        quality := quality + [channel];
        continue;
      }
      quality := quality + [channel];
    }
    assert channels[..|channels|] == channels;
  }

  // ------------------------------------------------------------ properties

  /** The output keeps the input order, leaving records out. */
  lemma {:induction false} FilterSubseq(cs: seq<Channel>)
    ensures IsSubseq(FilterQuality(cs), cs)
    decreases |cs|
  {
    if cs != [] {
      FilterSubseq(cs[..|cs| - 1]);
    }
  }

  /** A record is kept, unchanged, exactly when its name holds none of the
      exclusion markers. */
  lemma {:induction false} FilterMembers(cs: seq<Channel>)
    ensures forall c :: c in FilterQuality(cs) <==> c in cs && !IsExcluded(c)
    decreases |cs|
  {
    if cs != [] {
      var prefix, last := cs[..|cs| - 1], cs[|cs| - 1];
      FilterMembers(prefix);
      assert cs == prefix + [last];
    }
  }

  /** Counted with repetitions: the output holds each kept record exactly
      as often as the input does, and no excluded one. */
  lemma {:induction false} FilterCounts(cs: seq<Channel>)
    ensures forall c :: multiset(FilterQuality(cs))[c] == if IsExcluded(c) then 0 else multiset(cs)[c]
    decreases |cs|
  {
    if cs != [] {
      var prefix, last := cs[..|cs| - 1], cs[|cs| - 1];
      FilterCounts(prefix);
      assert cs == prefix + [last];
      assert multiset(cs) == multiset(prefix) + multiset{last};
    }
  }

  /** A list none of whose records is excluded passes through whole. */
  lemma {:induction false} FilterKeepsClean(cs: seq<Channel>)
    requires forall k | 0 <= k < |cs| :: !IsExcluded(cs[k])
    ensures FilterQuality(cs) == cs
    decreases |cs|
  {
    if cs != [] {
      FilterKeepsClean(cs[..|cs| - 1]);
    }
  }

  /** Filtering a second time removes nothing more. */
  lemma FilterIdempotent(cs: seq<Channel>)
    ensures FilterQuality(FilterQuality(cs)) == FilterQuality(cs)
  {
    var r := FilterQuality(cs);
    FilterMembers(cs);
    assert forall k | 0 <= k < |r| :: r[k] in r;
    FilterKeepsClean(r);
  }

  /** The filter never grows the list. */
  lemma {:induction false} FilterShrinks(cs: seq<Channel>)
    ensures |FilterQuality(cs)| <= |cs|
    decreases |cs|
  {
    if cs != [] {
      FilterShrinks(cs[..|cs| - 1]);
    }
  }

  /** "Demo Channel" is dropped, whatever else the record holds. */
  lemma DemoIsExcluded(raw: string, url: string, source: string)
    ensures IsExcluded(Channel(raw, "Demo Channel", url, source))
  {
    var name := ToLower("Demo Channel");
    assert name[..4] == "demo";
    assert Contains(name, BadNames[2]);
  }
}
