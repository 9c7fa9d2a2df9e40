/** `generate_m3u_content`: a fixed header followed by each record's
    `#EXTINF` line and URL line, and the round trip back through
    `parse_m3u`. The two clock readings are parameters. */
module Emitter {
  import opened Text
  import opened Channels
  import opened M3uParser

  /** The header lines, the last one empty: the text ends the header with a
      blank line. */
  function HeaderLines(generated: string, updated: string, title: string, count: nat): (h: seq<string>)
    ensures |h| == 8
    ensures h[0] == "#EXTM3U" && h[7] == ""
    ensures forall p | 0 <= p < 7 :: |h[p]| > 0 && h[p][0] == '#'
  {
    [ "#EXTM3U",
      "#EXTENC: UTF-8",
      "# Generated: " + generated,
      "# Updated: " + updated,
      "# Title: " + title,
      "# Total Channels: " + NatToString(count),
      "# For personal testing only.",
      "" ]
  }

  /** Each record's `raw_extinf` line followed by its `url` line. */
  function RecordLines(cs: seq<Channel>): (ls: seq<string>)
    ensures |ls| == 2 * |cs|
    ensures forall k | 0 <= k < |cs| :: ls[2 * k] == cs[k].rawExtinf && ls[2 * k + 1] == cs[k].url
    decreases |cs|
  {
    if cs == [] then []
    else RecordLines(cs[..|cs| - 1]) + [cs[|cs| - 1].rawExtinf, cs[|cs| - 1].url]
  }

  /** The playlist text for `cs`. */
  function M3uText(generated: string, updated: string, title: string, cs: seq<Channel>): string {
    JoinLines(HeaderLines(generated, updated, title, |cs|) + RecordLines(cs))
  }

  lemma RecordLinesStep(h: seq<string>, cs: seq<Channel>, i: nat)
    requires i < |cs|
    ensures JoinLines(h + RecordLines(cs[..i + 1])) ==
            JoinLines(h + RecordLines(cs[..i])) + cs[i].rawExtinf + "\n" + cs[i].url + "\n"
  {
    assert cs[..i + 1][..i] == cs[..i];
    var pre := h + RecordLines(cs[..i]);
    assert h + RecordLines(cs[..i + 1]) == pre + [cs[i].rawExtinf] + [cs[i].url];
    JoinLinesAppend(pre + [cs[i].rawExtinf], [cs[i].url]);
    JoinLinesAppend(pre, [cs[i].rawExtinf]);
    assert [cs[i].url][..0] == [] && [cs[i].rawExtinf][..0] == [];
  }

  /** `generate_m3u_content(channels, title)` at the given clock readings. */
  method GenerateM3uContent(channels: seq<Channel>, title: string, generated: string, updated: string)
    returns (content: string)
    ensures content == M3uText(generated, updated, title, channels)
  {
    var h := HeaderLines(generated, updated, title, |channels|);
    content := JoinLines(h);
    assert h + RecordLines(channels[..0]) == h;
    for i := 0 to |channels|
      invariant content == JoinLines(h + RecordLines(channels[..i]))
    {
      RecordLinesStep(h, channels, i);
      content := content + channels[i].rawExtinf + "\n" + channels[i].url + "\n";
    }
    assert channels[..|channels|] == channels;
  }

  // ------------------------------------------------------------ properties

  /** A record the emitter writes back readably: its `#EXTINF` and URL lines
      hold no line boundary and no white space at their ends, as records
      from `parse_m3u` have. */
  predicate Emittable(c: Channel) {
    && IsExtinf(c.rawExtinf) && Stripped(c.rawExtinf) && NoLineBreak(c.rawExtinf)
    && IsLocator(c.url) && Stripped(c.url) && NoLineBreak(c.url)
  }

  predicate HeaderFieldsOk(generated: string, updated: string, title: string) {
    NoLineBreak(generated) && NoLineBreak(updated) && NoLineBreak(title)
  }

  lemma NoLineBreakConcat(a: string, b: string)
    requires NoLineBreak(a) && NoLineBreak(b)
    ensures NoLineBreak(a + b)
  {
    forall k | 0 <= k < |a + b| ensures !IsLineBreak((a + b)[k]) {
      if k >= |a| {
        assert (a + b)[k] == b[k - |a|];
      }
    }
  }

  /** The fixed parts of the header hold no line boundary. */
  lemma HeaderLiteralsNoLineBreak()
    ensures NoLineBreak("#EXTM3U") && NoLineBreak("#EXTENC: UTF-8")
    ensures NoLineBreak("# Generated: ") && NoLineBreak("# Updated: ")
    ensures NoLineBreak("# Title: ") && NoLineBreak("# Total Channels: ")
    ensures NoLineBreak("# For personal testing only.") && NoLineBreak("")
  {
  }

  lemma HeaderNoLineBreak(generated: string, updated: string, title: string, count: nat)
    requires HeaderFieldsOk(generated, updated, title)
    ensures forall k | 0 <= k < 8 :: NoLineBreak(HeaderLines(generated, updated, title, count)[k])
  {
    HeaderLiteralsNoLineBreak();
    NatToStringRoundTrip(count);
    var h := HeaderLines(generated, updated, title, count);
    NoLineBreakConcat("# Generated: ", generated);
    NoLineBreakConcat("# Updated: ", updated);
    NoLineBreakConcat("# Title: ", title);
    NoLineBreakConcat("# Total Channels: ", NatToString(count));
    assert h[2] == "# Generated: " + generated && h[3] == "# Updated: " + updated;
    assert h[4] == "# Title: " + title && h[5] == "# Total Channels: " + NatToString(count);
  }

  lemma {:induction false} RecordLinesNoLineBreak(cs: seq<Channel>)
    requires forall c | c in cs :: NoLineBreak(c.rawExtinf) && NoLineBreak(c.url)
    ensures forall k | 0 <= k < |RecordLines(cs)| :: NoLineBreak(RecordLines(cs)[k])
    decreases |cs|
  {
    if cs != [] {
      var cs' := cs[..|cs| - 1];
      assert forall x | x in cs' :: x in cs;
      RecordLinesNoLineBreak(cs');
      assert cs[|cs| - 1] in cs;
    }
  }

  /** The text splits back into the header lines followed by the record
      lines. */
  lemma TextLines(generated: string, updated: string, title: string, cs: seq<Channel>)
    requires HeaderFieldsOk(generated, updated, title)
    requires forall c | c in cs :: NoLineBreak(c.rawExtinf) && NoLineBreak(c.url)
    ensures SplitLines(M3uText(generated, updated, title, cs)) ==
            HeaderLines(generated, updated, title, |cs|) + RecordLines(cs)
  {
    var h := HeaderLines(generated, updated, title, |cs|);
    var rl := RecordLines(cs);
    HeaderNoLineBreak(generated, updated, title, |cs|);
    RecordLinesNoLineBreak(cs);
    AllNoLineBreak(h, rl);
    SplitJoinLines(h + rl);
  }

  lemma AllNoLineBreak(a: seq<string>, b: seq<string>)
    requires forall k | 0 <= k < |a| :: NoLineBreak(a[k])
    requires forall k | 0 <= k < |b| :: NoLineBreak(b[k])
    ensures forall k | 0 <= k < |a + b| :: NoLineBreak((a + b)[k])
  {
  }

  /** The header reports the number of records: its sixth line reads
      `# Total Channels: ` and then a decimal that reads back as `|cs|`, and
      the text holds exactly two lines per record after the header. */
  lemma TotalChannelsReported(generated: string, updated: string, title: string, cs: seq<Channel>)
    requires HeaderFieldsOk(generated, updated, title)
    requires forall c | c in cs :: NoLineBreak(c.rawExtinf) && NoLineBreak(c.url)
    ensures var ls := SplitLines(M3uText(generated, updated, title, cs));
      && |ls| == 8 + 2 * |cs|
      && StartsWith(ls[5], "# Total Channels: ")
      && ParseNat(ls[5][|"# Total Channels: "|..]) == |cs|
  {
    TextLines(generated, updated, title, cs);
    NatToStringRoundTrip(|cs|);
    var line := "# Total Channels: " + NatToString(|cs|);
    assert line[|"# Total Channels: "|..] == NatToString(|cs|);
  }

  /** A line starting with `#` is not a URL line. */
  lemma HashLineNotLoc(lines: seq<string>, p: nat)
    requires p < |lines| && |lines[p]| > 0 && lines[p][0] == '#'
    ensures !IsLocLine(lines, p)
  {
    PrintableNotSpace('#');
    StripKeepsHead(lines[p]);
    var t := Strip(lines[p]);
    NotLocatorHead(t);
  }

  /** The header has no URL line, so it contributes no record. */
  lemma HeaderHasNoUrl(generated: string, updated: string, title: string, count: nat)
    ensures var h := HeaderLines(generated, updated, title, count);
      forall p | 0 <= p < |h| :: !IsLocLine(h, p)
  {
    var h := HeaderLines(generated, updated, title, count);
    forall p | 0 <= p < 7 ensures !IsLocLine(h, p) {
      assert h[p][0] == '#';
      HashLineNotLoc(h, p);
    }
    assert Strip(h[7]) == "";
  }

  lemma {:induction false} NoUrlNoRecords(lines: seq<string>, n: nat, source: string)
    requires n <= |lines|
    requires forall p | 0 <= p < |lines| :: !IsLocLine(lines, p)
    ensures ParseUpTo(lines, n, source) == []
    decreases n
  {
    if n > 0 {
      NoUrlNoRecords(lines, n - 1, source);
    }
  }

  /** Two records' worth of lines, appended after `m` lines, add exactly the
      record they describe. */
  lemma ParsePairAppended(pre: seq<string>, c: Channel, source: string)
    requires Emittable(c)
    ensures Parse(pre + [c.rawExtinf, c.url], source) ==
            Parse(pre, source) + [Reread(c, |pre|, source)]
  {
    var ls := pre + [c.rawExtinf, c.url];
    var m := |pre|;
    ParseUpToPrefix(pre, [c.rawExtinf, c.url], m, source);
    StrippedIsFixed(c.rawExtinf);
    StrippedIsFixed(c.url);
    LocatorNotExtinf(c.url);
    assert Strip(ls[m]) == c.rawExtinf;
    assert Strip(ls[m + 1]) == c.url;
    assert IsExtLine(ls, m) && !IsLocLine(ls, m);
    assert Emitted(ls, m, source) == [];
    assert IsLocLine(ls, m + 1);
    assert Opener(ls, m + 1) == Some(m);
    assert PendingAt(ls, m) == Pending(c.rawExtinf, ExtractName(c.rawExtinf, m));
    assert Emitted(ls, m + 1, source) == [Channel(c.rawExtinf, ExtractName(c.rawExtinf, m), c.url, source)];
    assert ParseUpTo(ls, m + 2, source) == ParseUpTo(ls, m, source) + Emitted(ls, m, source) + Emitted(ls, m + 1, source);
  }

  /** Record `c` as read back from an `#EXTINF` line at line `at`. */
  function Reread(c: Channel, at: nat, source: string): Channel {
    Channel(c.rawExtinf, ExtractName(c.rawExtinf, at), c.url, source)
  }

  /** `Reread` for the `k`-th record after `offset` header lines. */
  function RereadAt(offset: nat, source: string): (Channel, nat) -> Channel {
    (c: Channel, k: nat) => Reread(c, offset + 2 * k, source)
  }

  /** One application of `RereadAt`. Stated apart so that proofs about
      `ReadBack` need not unfold the lambda themselves, which is costly for
      the verifier. */
  lemma RereadAtApply(offset: nat, source: string, c: Channel, k: nat)
    ensures RereadAt(offset, source)(c, k) == Reread(c, offset + 2 * k, source)
  {
  }

  /** `[f(cs[0], 0), f(cs[1], 1), ...]`. */
  function MapIndexed(cs: seq<Channel>, f: (Channel, nat) -> Channel): (r: seq<Channel>)
    ensures |r| == |cs|
    decreases |cs|
  {
    if cs == [] then [] else MapIndexed(cs[..|cs| - 1], f) + [f(cs[|cs| - 1], |cs| - 1)]
  }

  lemma {:induction false} MapIndexedAt(cs: seq<Channel>, f: (Channel, nat) -> Channel, k: nat)
    requires k < |cs|
    ensures MapIndexed(cs, f)[k] == f(cs[k], k)
    decreases |cs|
  {
    var n := |cs| - 1;
    if k < n {
      MapIndexedAt(cs[..n], f, k);
      assert cs[..n][k] == cs[k];
    }
  }

  /** The records read back from the lines of `cs` placed after `offset`
      header lines: record `k` keeps its `#EXTINF` line and URL, takes the
      new origin and derives its name at line `offset + 2 * k`. */
  function ReadBack(cs: seq<Channel>, offset: nat, source: string): (r: seq<Channel>)
    ensures |r| == |cs|
    decreases |cs|
  {
    if cs == [] then []
    else
      var n := |cs| - 1;
      ReadBack(cs[..n], offset, source) + [Reread(cs[n], offset + 2 * n, source)]
  }

  /** One unfolding of `ReadBack`, stated apart to keep the callers' proofs
      small for the verifier. */
  lemma ReadBackSnoc(cs: seq<Channel>, offset: nat, source: string)
    requires cs != []
    ensures var n := |cs| - 1;
      ReadBack(cs, offset, source) == ReadBack(cs[..n], offset, source) + [Reread(cs[n], offset + 2 * n, source)]
  {
  }

  lemma {:induction false} ReadBackIsMap(cs: seq<Channel>, offset: nat, source: string)
    ensures ReadBack(cs, offset, source) == MapIndexed(cs, RereadAt(offset, source))
    decreases |cs|
  {
    if cs != [] {
      ReadBackIsMap(cs[..|cs| - 1], offset, source);
    }
  }

  lemma ReadBackAt(cs: seq<Channel>, offset: nat, source: string, k: nat)
    requires k < |cs|
    ensures ReadBack(cs, offset, source)[k] == Reread(cs[k], offset + 2 * k, source)
  {
    var f := RereadAt(offset, source);
    ReadBackIsMap(cs, offset, source);
    MapIndexedAt(cs, f, k);
    RereadAtApply(offset, source, cs[k], k);
  }

  lemma RecordLinesSnoc(h: seq<string>, cs: seq<Channel>)
    requires cs != []
    ensures h + RecordLines(cs) ==
            h + RecordLines(cs[..|cs| - 1]) + [cs[|cs| - 1].rawExtinf, cs[|cs| - 1].url]
  {
    var a, tail := RecordLines(cs[..|cs| - 1]), [cs[|cs| - 1].rawExtinf, cs[|cs| - 1].url];
    assert RecordLines(cs) == a + tail;
    assert h + (a + tail) == h + a + tail;
  }

  /** One more record's lines read back as one more record. */
  lemma ParseRecordLinesStep(h: seq<string>, cs: seq<Channel>, source: string)
    requires cs != [] && Emittable(cs[|cs| - 1])
    requires Parse(h + RecordLines(cs[..|cs| - 1]), source) == ReadBack(cs[..|cs| - 1], |h|, source)
    ensures Parse(h + RecordLines(cs), source) == ReadBack(cs, |h|, source)
  {
    var cs', c := cs[..|cs| - 1], cs[|cs| - 1];
    RecordLinesSnoc(h, cs);
    var pre, at := h + RecordLines(cs'), |h| + 2 * (|cs| - 1);
    assert |pre| == at;
    ParsePairAppended(pre, c, source);
    ReadBackSnoc(cs, |h|, source);
    var x := Reread(c, at, source);
    assert h + RecordLines(cs) == pre + [c.rawExtinf, c.url];
    SameStep(Parse(h + RecordLines(cs), source), ReadBack(cs, |h|, source),
             Parse(pre, source), ReadBack(cs', |h|, source), x);
  }

  /** Two sequences that extend equal sequences by the same element are
      equal. A proof step on plain sequences, kept apart from the parser
      terms so that the verifier does not unfold them for it. */
  lemma SameStep(a: seq<Channel>, b: seq<Channel>, a': seq<Channel>, b': seq<Channel>, x: Channel)
    requires a == a' + [x] && b == b' + [x] && a' == b'
    ensures a == b
  {
  }

  /** Re-reading the record lines after a header that has no URL line
      yields `ReadBack`. */
  lemma {:induction false} ParseRecordLines(h: seq<string>, cs: seq<Channel>, source: string)
    requires forall p | 0 <= p < |h| :: !IsLocLine(h, p)
    requires forall c | c in cs :: Emittable(c)
    ensures Parse(h + RecordLines(cs), source) == ReadBack(cs, |h|, source)
    decreases |cs|
  {
    if cs == [] {
      assert h + RecordLines(cs) == h;
      NoUrlNoRecords(h, |h|, source);
    } else {
      var cs' := cs[..|cs| - 1];
      assert cs[|cs| - 1] in cs;
      assert forall x | x in cs' :: x in cs;
      ParseRecordLines(h, cs', source);
      ParseRecordLinesStep(h, cs, source);
    }
  }

  /** Round trip: re-parsing emitted text gives back the records' `#EXTINF`
      lines and URLs in order, each stamped with the new origin; the name is
      re-derived from the `#EXTINF` line at its new line position. */
  lemma EmitParseRoundTrip(generated: string, updated: string, title: string, cs: seq<Channel>, source: string)
    requires HeaderFieldsOk(generated, updated, title)
    requires forall c | c in cs :: Emittable(c)
    ensures Parse(SplitLines(M3uText(generated, updated, title, cs)), source) == ReadBack(cs, 8, source)
    ensures var r := Parse(SplitLines(M3uText(generated, updated, title, cs)), source);
      && |r| == |cs|
      && forall k | 0 <= k < |cs| ::
           && r[k].rawExtinf == cs[k].rawExtinf
           && r[k].url == cs[k].url
           && r[k].source == source
           && r[k].name == ExtractName(cs[k].rawExtinf, 8 + 2 * k)
  {
    TextLines(generated, updated, title, cs);
    HeaderHasNoUrl(generated, updated, title, |cs|);
    ParseRecordLines(HeaderLines(generated, updated, title, |cs|), cs, source);
    assert M3uText(generated, updated, title, cs) == JoinLines(HeaderLines(generated, updated, title, |cs|) + RecordLines(cs));
    forall k | 0 <= k < |cs| ensures ReadBack(cs, 8, source)[k] == Reread(cs[k], 8 + 2 * k, source) {
      ReadBackAt(cs, 8, source, k);
    }
  }

  /** Parse, emit and parse again: the records keep their `#EXTINF` lines,
      URLs and order, and their names wherever the `#EXTINF` line has a comma
      (a placeholder name depends on the line position and can change). */
  lemma ParseEmitParse(text: string, source: string, generated: string, updated: string, title: string, source': string)
    requires HeaderFieldsOk(generated, updated, title)
    ensures var cs := Parse(SplitLines(text), source);
      var r := Parse(SplitLines(M3uText(generated, updated, title, cs)), source');
      && |r| == |cs|
      && forall k | 0 <= k < |cs| ::
           && r[k].rawExtinf == cs[k].rawExtinf
           && r[k].url == cs[k].url
           && (CommaName(cs[k].rawExtinf).Some? ==> r[k].name == cs[k].name)
  {
    var lines := SplitLines(text);
    var cs := Parse(lines, source);
    SplitLinesNoLineBreak(text);
    ParseRecordShape(lines, |lines|, source);
    ParseNoLineBreak(lines, |lines|, source);
    EmitParseRoundTrip(generated, updated, title, cs, source');
  }
}
