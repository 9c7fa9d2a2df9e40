/** `parse_m3u`: the line-driven reader that pairs each `#EXTINF` line with
    the stream URL line that follows it. The lines are those `splitlines()`
    gives for the playlist text. */
module M3uParser {
  import opened Text
  import opened Channels

  predicate IsExtinf(line: string) {
    StartsWith(line, "#EXTINF")
  }

  predicate IsLocator(line: string) {
    StartsWith(line, "http://") || StartsWith(line, "https://") ||
    StartsWith(line, "rtsp://") || StartsWith(line, "rtmp://")
  }

  /** The text after the last newline of `s`: for a line that does not end
      in a newline, where a `$`-anchored regular expression without the
      MULTILINE flag can still match `.*`. (Python's `$` also matches just
      before a final newline; the parser only passes stripped lines, which
      never end in one.) */
  function LastLine(s: string): string
    decreases |s|
  {
    if s == [] then []
    else if s[|s| - 1] == '\n' then []
    else LastLine(s[..|s| - 1]) + [s[|s| - 1]]
  }

  /** The last line holds no newline, and is the whole text when the text
      has none. */
  lemma {:induction false} LastLineSpec(s: string)
    ensures '\n' !in LastLine(s)
    ensures '\n' !in s ==> LastLine(s) == s
    decreases |s|
  {
    if s != [] && s[|s| - 1] != '\n' {
      var p := s[..|s| - 1];
      LastLineSpec(p);
      assert s == p + [s[|s| - 1]];
      assert '\n' !in s ==> '\n' !in p;
    }
  }

  /** A URL line starts with `h` or `r`. */
  lemma NotLocatorHead(line: string)
    requires |line| > 0 && line[0] != 'h' && line[0] != 'r'
    ensures !IsLocator(line)
  {
    assert "http://"[0] == 'h' && "https://"[0] == 'h';
    assert "rtsp://"[0] == 'r' && "rtmp://"[0] == 'r';
    assert forall p: string | |p| > 0 && |p| <= |line| && line[..|p|] == p :: line[0] == p[0];
  }

  /** The two tests are exclusive: a URL line never starts with `#`. */
  lemma LocatorNotExtinf(line: string)
    requires IsLocator(line)
    ensures !IsExtinf(line)
  {
    assert line[0] == 'h' || line[0] == 'r';
    assert "#EXTINF"[0] == '#';
  }

  /** What `re.search(r',(?P<name>.*)$', line)` yields, stripped, for a
      line not ending in a newline: the text after the first comma of the
      last line of `line`, if there is one. */
  function CommaName(line: string): Option<string> {
    var t := LastLine(line);
    match IndexOf(t, ',')
    case Some(c) => Some(Strip(t[c + 1..]))
    case None => None
  }

  /** The display name of the `#EXTINF` line at 0-based index `i`. */
  function ExtractName(line: string, i: nat): string {
    match CommaName(line)
    case Some(name) => name
    case None => "Unknown_" + NatToString(i)
  }

  /** The name is the stripped text after the first comma; with no comma it
      is the placeholder `Unknown_<i>`, and only then does it depend on `i`. */
  lemma NameSpec(line: string, i: nat, j: nat)
    requires '\n' !in line
    ensures forall c | 0 <= c < |line| && line[c] == ',' && ',' !in line[..c] ::
              ExtractName(line, i) == Strip(line[c + 1..])
    ensures ',' !in line ==> ExtractName(line, i) == "Unknown_" + NatToString(i)
    ensures ',' in line ==> ExtractName(line, i) == ExtractName(line, j)
  {
    LastLineSpec(line);
    IndexOfSpec(line, ',');
    forall c | 0 <= c < |line| && line[c] == ',' && ',' !in line[..c]
      ensures ExtractName(line, i) == Strip(line[c + 1..])
    {
      IndexOfAt(line, ',', c);
    }
  }

  /** The pending-record slot. */
  datatype Pending = Pending(rawExtinf: string, name: string)

  /** Line `p`, once stripped, opens a record. */
  predicate IsExtLine(lines: seq<string>, p: nat)
    requires p < |lines|
  {
    IsExtinf(Strip(lines[p]))
  }

  /** Line `j`, once stripped, is a stream URL (the `elif` after the
      `#EXTINF` test). Blank lines are neither kind. */
  predicate IsLocLine(lines: seq<string>, j: nat)
    requires j < |lines|
  {
    !IsExtinf(Strip(lines[j])) && IsLocator(Strip(lines[j]))
  }

  /** The `#EXTINF` line pending when line `j` is reached, looking back: the
      latest `#EXTINF` line after the latest URL line before `j`. */
  function Opener(lines: seq<string>, j: nat): (r: Option<nat>)
    requires j <= |lines|
    ensures r.Some? ==> r.value < j
    decreases j
  {
    if j == 0 then None
    else if IsExtLine(lines, j - 1) then Some(j - 1)
    else if IsLocLine(lines, j - 1) then None
    else Opener(lines, j - 1)
  }

  function PendingAt(lines: seq<string>, p: nat): Pending
    requires p < |lines|
  {
    var line := Strip(lines[p]);
    Pending(line, ExtractName(line, p))
  }

  /** The slot's content when line `j` is reached. */
  function SlotAt(lines: seq<string>, j: nat): Option<Pending>
    requires j <= |lines|
  {
    match Opener(lines, j)
    case None => None
    case Some(p) => Some(PendingAt(lines, p))
  }

  /** The record URL line `j` closes. */
  function RecordAt(lines: seq<string>, j: nat, source: string): Channel
    requires j < |lines| && Opener(lines, j).Some?
  {
    var pending := PendingAt(lines, Opener(lines, j).value);
    Channel(pending.rawExtinf, pending.name, Strip(lines[j]), source)
  }

  /** What line `j` contributes: one record when it is a URL line with an
      `#EXTINF` line pending, nothing otherwise. */
  function Emitted(lines: seq<string>, j: nat, source: string): seq<Channel>
    requires j < |lines|
  {
    if IsLocLine(lines, j) && Opener(lines, j).Some? then [RecordAt(lines, j, source)] else []
  }

  /** The records of the first `n` lines. */
  function ParseUpTo(lines: seq<string>, n: nat, source: string): seq<Channel>
    requires n <= |lines|
    decreases n
  {
    if n == 0 then [] else ParseUpTo(lines, n - 1, source) + Emitted(lines, n - 1, source)
  }

  /** The records of a playlist, in the order of their URL lines. */
  function Parse(lines: seq<string>, source: string): seq<Channel> {
    ParseUpTo(lines, |lines|, source)
  }

  /** `parse_m3u(content, source_url)` over `content.splitlines()`. */
  method ParseM3u(lines: seq<string>, sourceUrl: string) returns (channels: seq<Channel>)
    ensures channels == Parse(lines, sourceUrl)
  {
    channels := [];
    var current: Option<Pending> := None;
    for i := 0 to |lines|
      invariant channels == ParseUpTo(lines, i, sourceUrl)
      invariant current == SlotAt(lines, i)
    {
      var line := Strip(lines[i]);
      assert ParseUpTo(lines, i + 1, sourceUrl) == channels + Emitted(lines, i, sourceUrl);
      if line == [] {
        assert !IsExtLine(lines, i) && !IsLocLine(lines, i);
        continue;
      }
      if StartsWith(line, "#EXTINF") {
        assert Opener(lines, i + 1) == Some(i);
        current := Some(Pending(line, ExtractName(line, i)));
      } else if IsLocator(line) {
        assert Opener(lines, i + 1).None?;
        if current.Some? {
          channels := channels + [Channel(current.value.rawExtinf, current.value.name, line, sourceUrl)];
          current := None;
        }
      } else {
        assert Opener(lines, i + 1) == Opener(lines, i);
      }
    }
  }

  // ------------------------------------------------------------ properties

  /** The pending `#EXTINF` line is the most recent one, and no URL line
      has come since. */
  lemma {:induction false} OpenerPending(lines: seq<string>, j: nat)
    requires j <= |lines|
    ensures Opener(lines, j).Some? ==>
              var p := Opener(lines, j).value;
              && IsExtLine(lines, p)
              && forall q | p < q < j :: !IsExtLine(lines, q) && !IsLocLine(lines, q)
    decreases j
  {
    if j > 0 && !IsExtLine(lines, j - 1) && !IsLocLine(lines, j - 1) {
      OpenerPending(lines, j - 1);
      assert Opener(lines, j) == Opener(lines, j - 1);
    }
  }

  /** With nothing pending, every earlier `#EXTINF` line has been closed by
      a later URL line. */
  lemma {:induction false} OpenerClosed(lines: seq<string>, j: nat)
    requires j <= |lines|
    ensures Opener(lines, j).None? ==>
              forall p | 0 <= p < j && IsExtLine(lines, p) ::
                exists q :: p < q < j && IsLocLine(lines, q)
    decreases j
  {
    if j > 0 && !IsExtLine(lines, j - 1) {
      if IsLocLine(lines, j - 1) {
        forall p | 0 <= p < j && IsExtLine(lines, p)
          ensures exists q :: p < q < j && IsLocLine(lines, q)
        {
          assert p < j - 1 && IsLocLine(lines, j - 1);
        }
      } else {
        OpenerClosed(lines, j - 1);
        assert Opener(lines, j) == Opener(lines, j - 1);
        if Opener(lines, j).None? {
          forall p | 0 <= p < j && IsExtLine(lines, p)
            ensures exists q :: p < q < j && IsLocLine(lines, q)
          {
            assert p < j - 1;
            var q :| p < q < j - 1 && IsLocLine(lines, q);
          }
        }
      }
    }
  }

  /** The indices of the URL lines that close a record. */
  ghost function Closings(lines: seq<string>, n: nat): seq<nat>
    requires n <= |lines|
    decreases n
  {
    if n == 0 then []
    else Closings(lines, n - 1) + (if IsLocLine(lines, n - 1) && Opener(lines, n - 1).Some? then [n - 1] else [])
  }

  /** `cl` lists, in input order, exactly the lines before `n` that are URL
      lines reached with an `#EXTINF` line pending. */
  predicate ClosingsOf(lines: seq<string>, n: nat, cl: seq<nat>)
    requires n <= |lines|
  {
    && (forall k | 0 <= k < |cl| :: cl[k] < n && IsLocLine(lines, cl[k]) && Opener(lines, cl[k]).Some?)
    && (forall k, k' | 0 <= k < k' < |cl| :: cl[k] < cl[k'])
    && (forall j | 0 <= j < n && IsLocLine(lines, j) && Opener(lines, j).Some? :: j in cl)
  }

  /** A URL line reached with an `#EXTINF` line pending joins the list. */
  lemma ClosingsOfClose(lines: seq<string>, n: nat, cl0: seq<nat>)
    requires 0 < n <= |lines|
    requires ClosingsOf(lines, n - 1, cl0)
    requires IsLocLine(lines, n - 1) && Opener(lines, n - 1).Some?
    ensures ClosingsOf(lines, n, cl0 + [n - 1])
  {
    var cl := cl0 + [n - 1];
    forall j | 0 <= j < n && IsLocLine(lines, j) && Opener(lines, j).Some? ensures j in cl {
      if j < n - 1 {
        assert j in cl0;
      }
    }
  }

  /** Any other line leaves the list as it is. */
  lemma ClosingsOfSkip(lines: seq<string>, n: nat, cl0: seq<nat>)
    requires 0 < n <= |lines|
    requires ClosingsOf(lines, n - 1, cl0)
    requires !(IsLocLine(lines, n - 1) && Opener(lines, n - 1).Some?)
    ensures ClosingsOf(lines, n, cl0)
  {
    forall j | 0 <= j < n && IsLocLine(lines, j) && Opener(lines, j).Some? ensures j in cl0 {
      assert j < n - 1;
    }
  }

  /** The closing lines come in input order, each is a URL line reached
      with an `#EXTINF` line pending, and every such line is one of them (a
      URL line with nothing pending closes nothing). */
  lemma {:induction false} ClosingsSpec(lines: seq<string>, n: nat)
    requires n <= |lines|
    ensures ClosingsOf(lines, n, Closings(lines, n))
    decreases n
  {
    if n > 0 {
      ClosingsSpec(lines, n - 1);
      var cl0 := Closings(lines, n - 1);
      if IsLocLine(lines, n - 1) && Opener(lines, n - 1).Some? {
        assert Closings(lines, n) == cl0 + [n - 1];
        ClosingsOfClose(lines, n, cl0);
      } else {
        assert Closings(lines, n) == cl0;
        ClosingsOfSkip(lines, n, cl0);
      }
    }
  }

  /** Record `k` of `r` is the one closed by line `cl[k]`: that line's URL
      with the `#EXTINF` line pending there. */
  predicate PairedWith(lines: seq<string>, r: seq<Channel>, cl: seq<nat>, source: string) {
    && |r| == |cl|
    && forall k | 0 <= k < |cl| ::
         && cl[k] < |lines|
         && Opener(lines, cl[k]).Some?
         && r[k] == RecordAt(lines, cl[k], source)
  }

  lemma PairedSnoc(lines: seq<string>, r: seq<Channel>, cl: seq<nat>, j: nat, source: string)
    requires PairedWith(lines, r, cl, source)
    requires j < |lines| && Opener(lines, j).Some?
    ensures PairedWith(lines, r + [RecordAt(lines, j, source)], cl + [j], source)
  {
    var r', cl' := r + [RecordAt(lines, j, source)], cl + [j];
    forall k | 0 <= k < |cl'|
      ensures cl'[k] < |lines| && Opener(lines, cl'[k]).Some? && r'[k] == RecordAt(lines, cl'[k], source)
    {
      if k < |cl| {
        assert r'[k] == r[k] && cl'[k] == cl[k];
      }
    }
  }

  /** Pairing: the k-th record is built from the k-th closing URL line and
      the `#EXTINF` line pending there (see `OpenerPending` for which one
      that is). */
  lemma {:induction false} ParsePairing(lines: seq<string>, n: nat, source: string)
    requires n <= |lines|
    ensures PairedWith(lines, ParseUpTo(lines, n, source), Closings(lines, n), source)
    decreases n
  {
    if n > 0 {
      ParsePairing(lines, n - 1, source);
      var r0, cl0 := ParseUpTo(lines, n - 1, source), Closings(lines, n - 1);
      var r, cl := ParseUpTo(lines, n, source), Closings(lines, n);
      if IsLocLine(lines, n - 1) && Opener(lines, n - 1).Some? {
        assert r == r0 + [RecordAt(lines, n - 1, source)];
        assert cl == cl0 + [n - 1];
        PairedSnoc(lines, r0, cl0, n - 1, source);
      } else {
        assert r == r0;
        assert cl == cl0;
      }
    }
  }

  /** Every record carries the playlist's origin, a stripped `#EXTINF`
      line, a name taken from that line and a stripped stream URL. */
  lemma {:induction false} ParseRecordShape(lines: seq<string>, n: nat, source: string)
    requires n <= |lines|
    ensures forall c | c in ParseUpTo(lines, n, source) ::
              && c.source == source
              && IsExtinf(c.rawExtinf) && Stripped(c.rawExtinf)
              && IsLocator(c.url) && !IsExtinf(c.url) && Stripped(c.url)
              && (CommaName(c.rawExtinf).Some? ==> c.name == CommaName(c.rawExtinf).value)
    decreases n
  {
    if n > 0 {
      ParseRecordShape(lines, n - 1, source);
      if IsLocLine(lines, n - 1) && Opener(lines, n - 1).Some? {
        var p := Opener(lines, n - 1).value;
        OpenerPending(lines, n - 1);
        StripIdempotent(lines[p]);
        StripIdempotent(lines[n - 1]);
        StripShape(lines[p]);
        StripShape(lines[n - 1]);
      }
    }
  }

  /** Lines free of line boundaries give records free of them. */
  lemma {:induction false} ParseNoLineBreak(lines: seq<string>, n: nat, source: string)
    requires n <= |lines|
    requires forall k | 0 <= k < |lines| :: NoLineBreak(lines[k])
    ensures forall c | c in ParseUpTo(lines, n, source) :: NoLineBreak(c.rawExtinf) && NoLineBreak(c.url)
    decreases n
  {
    if n > 0 {
      ParseNoLineBreak(lines, n - 1, source);
      var r0 := ParseUpTo(lines, n - 1, source);
      if IsLocLine(lines, n - 1) && Opener(lines, n - 1).Some? {
        var p := Opener(lines, n - 1).value;
        var c := RecordAt(lines, n - 1, source);
        assert ParseUpTo(lines, n, source) == r0 + [c];
        assert c.rawExtinf == Strip(lines[p]) && c.url == Strip(lines[n - 1]);
        StripNoLineBreak(lines[p]);
        StripNoLineBreak(lines[n - 1]);
      } else {
        assert ParseUpTo(lines, n, source) == r0;
      }
    }
  }

  /** A playlist without `#EXTINF` lines yields no record at all. */
  lemma {:induction false} NoExtinfNoRecords(lines: seq<string>, n: nat, source: string)
    requires n <= |lines|
    requires forall p | 0 <= p < |lines| :: !IsExtLine(lines, p)
    ensures ParseUpTo(lines, n, source) == []
    decreases n
  {
    if n > 0 {
      NoExtinfNoRecords(lines, n - 1, source);
      NoExtinfNoOpener(lines, n - 1);
      NoOpenerNoRecord(lines, n - 1, source);
    }
  }

  /** A line with no `#EXTINF` line pending contributes nothing. */
  lemma NoOpenerNoRecord(lines: seq<string>, j: nat, source: string)
    requires j < |lines| && Opener(lines, j).None?
    ensures Emitted(lines, j, source) == []
  {
  }

  lemma {:induction false} NoExtinfNoOpener(lines: seq<string>, j: nat)
    requires j <= |lines|
    requires forall p | 0 <= p < |lines| :: !IsExtLine(lines, p)
    ensures Opener(lines, j).None?
    decreases j
  {
    if j > 0 && !IsLocLine(lines, j - 1) {
      assert !IsExtLine(lines, j - 1);
      NoExtinfNoOpener(lines, j - 1);
    }
  }

  /** Lines appended after the first `n` do not change what those lines
      yield. */
  lemma {:induction false} ParseUpToPrefix(a: seq<string>, b: seq<string>, n: nat, source: string)
    requires n <= |a|
    ensures ParseUpTo(a + b, n, source) == ParseUpTo(a, n, source)
    ensures Opener(a + b, n) == Opener(a, n)
    decreases n
  {
    if n > 0 {
      assert (a + b)[n - 1] == a[n - 1];
      ParseUpToPrefix(a, b, n - 1, source);
    }
  }

  /** A comma makes an empty display name possible, which the placeholder
      rule does not cover: a line whose only comma ends it, such as
      `#EXTINF:-1,`, names its channel "". */
  lemma EmptyNameAfterTrailingComma(line: string, i: nat)
    requires '\n' !in line
    requires |line| > 0 && line[|line| - 1] == ',' && ',' !in line[..|line| - 1]
    ensures ExtractName(line, i) == ""
  {
    LastLineSpec(line);
    IndexOfAt(line, ',', |line| - 1);
    assert line[|line|..] == "";
    assert Strip("") == "";
  }

  lemma TrailingCommaExample()
    ensures ExtractName("#EXTINF:-1,", 0) == ""
  {
    var line := "#EXTINF:-1,";
    assert '\n' !in line;
    assert line[..10] == "#EXTINF:-1";
    assert ',' !in "#EXTINF:-1";
    EmptyNameAfterTrailingComma(line, 0);
  }
}
