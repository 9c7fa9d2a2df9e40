/** `categorize_channel` and the loop of `run` that sorts the valid records
    into the five category lists. */
module Categorizer {
  import opened Text
  import opened Channels

  datatype Category = Cctv | Satellite | Local | Hongkong | Other

  const CctvKeywords: seq<string> := ["cctv", "央视", "中央"]
  const SatelliteKeywords: seq<string> := ["卫视", "凤凰", "湖南", "浙江", "江苏", "北京"]
  const LocalKeywords: seq<string> := ["都市", "新闻", "民生", "公共", "教育", "少儿", "体育"]
  const HongkongKeywords: seq<string> := ["tvb", "viutv", "无线新闻", "HOY", "NOW", "凤凰", "翡翠", "明珠", "RTHK"]

  /** The rule lists in the order they are tried. */
  const Rules: seq<(Category, seq<string>)> := [
    (Cctv, CctvKeywords), (Satellite, SatelliteKeywords),
    (Local, LocalKeywords), (Hongkong, HongkongKeywords)
  ]

  /** `categorize_channel(channel_name)` */
  function Categorize(name: string): Category {
    var lower := ToLower(name);
    if ContainsAny(lower, CctvKeywords) then Cctv
    else if ContainsAny(lower, SatelliteKeywords) then Satellite
    else if ContainsAny(lower, LocalKeywords) then Local
    else if ContainsAny(lower, HongkongKeywords) then Hongkong
    else Other
  }

  /** The label of the first rule list, in priority order, that has a
      keyword in `lower`; `Other` when none has. */
  function FirstMatch(rules: seq<(Category, seq<string>)>, lower: string): Category
    decreases |rules|
  {
    if rules == [] then Other
    else if ContainsAny(lower, rules[0].1) then rules[0].0
    else FirstMatch(rules[1..], lower)
  }

  /** What `FirstMatch` means: the chosen list matches and none before it
      does; `Other` only when no list matches. */
  lemma {:induction false} FirstMatchSpec(rules: seq<(Category, seq<string>)>, lower: string)
    requires forall i | 0 <= i < |rules| :: rules[i].0 != Other
    requires forall i, j | 0 <= i < j < |rules| :: rules[i].0 != rules[j].0
    ensures FirstMatch(rules, lower) == Other <==>
              forall i | 0 <= i < |rules| :: !ContainsAny(lower, rules[i].1)
    ensures forall i | 0 <= i < |rules| ::
              FirstMatch(rules, lower) == rules[i].0 <==>
                ContainsAny(lower, rules[i].1) && forall j | 0 <= j < i :: !ContainsAny(lower, rules[j].1)
    decreases |rules|
  {
    if rules != [] {
      var rest := rules[1..];
      FirstMatchSpec(rest, lower);
      assert forall i | 1 <= i < |rules| :: rules[i] == rest[i - 1];
    }
  }

  /** First match wins: `categorize_channel` picks the first rule list, in
      the order cctv, satellite, local, hongkong, that has a keyword in the
      lower-cased name, and `Other` when none has. */
  lemma CategorizeIsFirstMatch(name: string)
    ensures Categorize(name) == FirstMatch(Rules, ToLower(name))
    ensures Categorize(name) == Other <==>
              forall i | 0 <= i < |Rules| :: !ContainsAny(ToLower(name), Rules[i].1)
    ensures forall i | 0 <= i < |Rules| ::
              Categorize(name) == Rules[i].0 <==>
                ContainsAny(ToLower(name), Rules[i].1) &&
                forall j | 0 <= j < i :: !ContainsAny(ToLower(name), Rules[j].1)
  {
    var lower := ToLower(name);
    var r1, r2, r3 := Rules[1..], Rules[2..], Rules[3..];
    assert r1[1..] == r2 && r2[1..] == r3 && r3[1..] == [];
    assert FirstMatch(r3, lower) == if ContainsAny(lower, HongkongKeywords) then Hongkong else Other;
    assert FirstMatch(r2, lower) == if ContainsAny(lower, LocalKeywords) then Local else FirstMatch(r3, lower);
    assert FirstMatch(r1, lower) == if ContainsAny(lower, SatelliteKeywords) then Satellite else FirstMatch(r2, lower);
    FirstMatchSpec(Rules, lower);
  }

  /** Five of the nine hongkong keywords are dead: `HOY`, `NOW` and `RTHK`
      are upper case and are tested against a lower-cased name, "凤凰" is a
      satellite keyword and "无线新闻" holds the local keyword "新闻". A name
      lands in `Hongkong` only through "tvb", "viutv", "翡翠" or "明珠". */
  lemma HongkongReach(name: string)
    ensures Categorize(name) == Hongkong ==>
              ContainsAny(ToLower(name), ["tvb", "viutv", "翡翠", "明珠"])
  {
    var lower := ToLower(name);
    LowerMissesUpper(name, "HOY", 0);
    LowerMissesUpper(name, "NOW", 0);
    LowerMissesUpper(name, "RTHK", 0);
    if Contains(lower, "无线新闻") {
      ContainsSlice(lower, "无线新闻", 2, 4);
      assert "无线新闻"[2..4] == LocalKeywords[1];
    }
    if Categorize(name) == Hongkong {
      var k :| 0 <= k < |HongkongKeywords| && Contains(lower, HongkongKeywords[k]);
      assert !Contains(lower, SatelliteKeywords[1]);
      var effective := ["tvb", "viutv", "翡翠", "明珠"];
      if k == 0 { assert Contains(lower, effective[0]); }
      else if k == 1 { assert Contains(lower, effective[1]); }
      else if k == 6 { assert Contains(lower, effective[2]); }
      else if k == 7 { assert Contains(lower, effective[3]); }
    }
  }

  /** A name with "凤凰" and no cctv keyword is a satellite channel. */
  lemma PhoenixIsSatellite(name: string)
    requires Contains(ToLower(name), "凤凰")
    requires !ContainsAny(ToLower(name), CctvKeywords)
    ensures Categorize(name) == Satellite
  {
    assert Contains(ToLower(name), SatelliteKeywords[1]);
  }

  /** A cctv keyword wins over a satellite one. */
  lemma CctvExamples()
    ensures Categorize("CCTV-1 综合") == Cctv
    ensures Categorize("CCTV卫视") == Cctv
  {
    var a := ToLower("CCTV-1 综合");
    assert a[..4] == "cctv";
    assert Contains(a, CctvKeywords[0]);
    var c := ToLower("CCTV卫视");
    assert c[..4] == "cctv";
    assert Contains(c, CctvKeywords[0]);
  }

  lemma SatelliteExample()
    ensures Categorize("湖南卫视") == Satellite
  {
    var b := ToLower("湖南卫视");
    assert b == "湖南卫视";
    MissingHeadsNotContained(b, CctvKeywords);
    assert b[..2] == "湖南";
    assert Contains(b, SatelliteKeywords[2]);
  }

  /** A name matching none of the first three lists falls through to the
      hongkong list. */
  lemma TvbIsHongkong()
    ensures Categorize("TVB翡翠台") == Hongkong
  {
    var d := ToLower("TVB翡翠台");
    assert d == "tvb翡翠台";
    MissingHeadsNotContained(d, CctvKeywords);
    MissingHeadsNotContained(d, SatelliteKeywords);
    MissingHeadsNotContained(d, LocalKeywords);
    assert d[..3] == "tvb";
    assert Contains(d, HongkongKeywords[0]);
  }

  // ------------------------------------------------------------ buckets

  /** The records of `cs` in category `cat`, in order. */
  function InCategory(cs: seq<Channel>, cat: Category): seq<Channel>
    decreases |cs|
  {
    if cs == [] then []
    else
      var prefix, last := cs[..|cs| - 1], cs[|cs| - 1];
      if Categorize(last.name) == cat then InCategory(prefix, cat) + [last] else InCategory(prefix, cat)
  }

  const AllCategories: set<Category> := {Cctv, Satellite, Local, Hongkong, Other}

  /** The `categorized_channels` dictionary filled by the loop of `run`. */
  method BucketChannels(validChannels: seq<Channel>) returns (buckets: map<Category, seq<Channel>>)
    ensures buckets.Keys == AllCategories
    ensures forall cat | cat in buckets :: buckets[cat] == InCategory(validChannels, cat)
  {
    buckets := map[Cctv := [], Satellite := [], Local := [], Hongkong := [], Other := []];
    for i := 0 to |validChannels|
      invariant buckets.Keys == AllCategories
      invariant forall cat | cat in buckets :: buckets[cat] == InCategory(validChannels[..i], cat)
    {
      var channel := validChannels[i];
      assert validChannels[..i + 1][..i] == validChannels[..i];
      var category := Categorize(channel.name);
      buckets := buckets[category := buckets[category] + [channel]];
    }
    assert validChannels[..|validChannels|] == validChannels;
  }

  /** Every record lands in exactly one bucket: the one its name maps to. */
  lemma {:induction false} BucketMembers(cs: seq<Channel>, cat: Category)
    ensures forall c :: c in InCategory(cs, cat) <==> c in cs && Categorize(c.name) == cat
    decreases |cs|
  {
    if cs != [] {
      var prefix, last := cs[..|cs| - 1], cs[|cs| - 1];
      BucketMembers(prefix, cat);
      assert cs == prefix + [last];
    }
  }

  /** Within a bucket the records keep the order of the valid list. */
  lemma {:induction false} BucketSubseq(cs: seq<Channel>, cat: Category)
    ensures IsSubseq(InCategory(cs, cat), cs)
    decreases |cs|
  {
    if cs != [] {
      BucketSubseq(cs[..|cs| - 1], cat);
    }
  }

  /** The buckets split the valid list: together they hold each record as
      often as the list does, so the bucket counts add up to its length. */
  lemma {:induction false} BucketsPartition(cs: seq<Channel>)
    ensures multiset(InCategory(cs, Cctv)) + multiset(InCategory(cs, Satellite)) +
            multiset(InCategory(cs, Local)) + multiset(InCategory(cs, Hongkong)) +
            multiset(InCategory(cs, Other)) == multiset(cs)
    ensures |InCategory(cs, Cctv)| + |InCategory(cs, Satellite)| + |InCategory(cs, Local)| +
            |InCategory(cs, Hongkong)| + |InCategory(cs, Other)| == |cs|
    decreases |cs|
  {
    if cs != [] {
      var prefix, last := cs[..|cs| - 1], cs[|cs| - 1];
      BucketsPartition(prefix);
      assert cs == prefix + [last];
    }
  }
}
