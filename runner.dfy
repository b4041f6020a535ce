/**
 * The per-line loop of `process_links_from_file` (m3u8.py:106-128). Each
 * line is stripped; blank and `#` lines are skipped; the rest is split at
 * its first U+0020 space into a tracking URL and a raw name; the URL is
 * decoded; and a decodable entry is handed to the converter under the
 * name `sanitize(name) + "感謝祭Voice"`. The converter itself is not
 * modelled: each hand-over is recorded as a `Dispatch`, and the list of
 * dispatches is the observable behaviour of the loop.
 */
module Runner {
  import opened Wrappers
  import opened Text
  import opened Sanitizer
  import opened Decoder

  /** The fixed token appended to every sanitized name (m3u8.py:125). */
  const OutputSuffix: string := "感謝祭Voice"

  /** Python's `s.split(" ", 1)`: the text before the first U+0020 space and
      the text after it, or `None` when there is no space (one part only). */
  function SplitAtFirstSpace(s: string): (r: Option<(string, string)>)
    ensures r.Some? <==> ' ' in s
    ensures r.Some? ==> ' ' !in r.value.0 && r.value.0 + " " + r.value.1 == s
  {
    if s == [] then None
    else if s[0] == ' ' then Some(([], s[1..]))
    else match SplitAtFirstSpace(s[1..])
      case None => None
      case Some((u, n)) => Some(([s[0]] + u, n))
  }

  /** The split is the only way to write `s` as a space-free head, a space
      and a tail. */
  lemma {:induction false} SplitAtFirstSpaceUnique(s: string, u: string, n: string)
    requires ' ' !in u && u + " " + n == s
    ensures SplitAtFirstSpace(s) == Some((u, n))
    decreases |s|
  {
    if u == [] {
      assert s[0] == ' ' && s[1..] == n;
    } else {
      assert s[0] == u[0] && s[0] != ' ';
      assert s[1..] == u[1..] + " " + n;
      SplitAtFirstSpaceUnique(s[1..], u[1..], n);
      assert [s[0]] + u[1..] == u;
    }
  }

  /** What a line of the input file is, once stripped. */
  datatype LineKind =
    | Blank                             // empty, or a `#` comment
    | Malformed(text: string)           // no space to split at
    | Entry(url: string, name: string)  // tracking URL and raw name

  /** Lines 107-117: a stripped line is blank or a comment, has no space,
      or splits at its first space into two non-empty parts. */
  function Classify(raw: string): (k: LineKind)
    ensures k.Blank? <==> Strip(raw) == [] || Strip(raw)[0] == '#'
    ensures k.Malformed? <==> !k.Blank? && ' ' !in Strip(raw)
    ensures k.Malformed? ==> k.text == Strip(raw)
    ensures k.Entry? ==> k.url + " " + k.name == Strip(raw) && ' ' !in k.url
    ensures k.Entry? ==> k.url != [] && k.name != []
  {
    var line := Strip(raw);
    if line == [] || line[0] == '#' then Blank
    else match SplitAtFirstSpace(line)
      case None => Malformed(line)
      case Some((u, n)) =>
        assert IsWs(' ') && line[|u|] == ' ' && |line| == |u| + 1 + |n|;
        Entry(u, n)
  }

  /** How the loop treats one line. */
  datatype Outcome =
    | Skipped                                         // blank or comment
    | Invalid(line: string)                           // "Skipping invalid line"
    | BadUrl(url: string)                             // "Skipping line with invalid URL"
    | Convert(manifestUrl: string, outputName: string) // handed to the converter

  /** One iteration of the loop body: the converter is reached only by a
      well-formed line whose URL decodes, and then with a non-empty manifest
      URL and an output name made of safe characters and the suffix. */
  function Handle(raw: string, parse: string -> Option<Query>): (o: Outcome)
    ensures o.Skipped? <==> Strip(raw) == [] || Strip(raw)[0] == '#'
    ensures o.Invalid? <==> !o.Skipped? && ' ' !in Strip(raw)
    ensures o.Convert? ==> o.manifestUrl != ""
    ensures o.Convert? ==> |o.outputName| >= |OutputSuffix|
    ensures o.Convert? ==> o.outputName[|o.outputName| - |OutputSuffix|..] == OutputSuffix
    ensures o.Convert? ==> forall i :: 0 <= i < |o.outputName| - |OutputSuffix| ==> !IsUnsafe(o.outputName[i])
  {
    match Classify(raw)
    case Blank => Skipped
    case Malformed(line) => Invalid(line)
    case Entry(url, name) =>
      match DecodeBrightcoveUrl(url, parse)
      case None => BadUrl(url)
      case Some(m3u8Url) =>
        var s := Sanitize(name);
        assert (s + OutputSuffix)[|s|..] == OutputSuffix;
        Convert(m3u8Url, s + OutputSuffix)
  }

  /** A line of the form `url name`, with a space-free url, is decoded with
      that url and, when it decodes, converted under the sanitized name. */
  lemma HandleEntry(raw: string, parse: string -> Option<Query>, url: string, name: string)
    requires Strip(raw) == url + " " + name && ' ' !in url
    requires Strip(raw)[0] != '#'
    ensures Handle(raw, parse) ==
      match DecodeBrightcoveUrl(url, parse)
      case None => BadUrl(url)
      case Some(m) => Convert(m, Sanitize(name) + OutputSuffix)
  {
    SplitAtFirstSpaceUnique(Strip(raw), url, name);
  }

  /** Blank, comment and malformed lines never reach the decoder: their
      outcome is the same whatever the URL parser does, and is no conversion. */
  lemma HandleBeforeDecoder(raw: string, p1: string -> Option<Query>, p2: string -> Option<Query>)
    requires Strip(raw) == [] || Strip(raw)[0] == '#' || ' ' !in Strip(raw)
    ensures Handle(raw, p1) == Handle(raw, p2)
    ensures !Handle(raw, p1).Convert? && !Handle(raw, p1).BadUrl?
  {
  }

  /** A tracking URL: visible characters only, not starting a comment. */
  predicate IsPlainUrl(url: string) {
    url != [] && url[0] != '#' && forall i :: 0 <= i < |url| ==> !IsWs(url[i])
  }

  /** Only U+0020 separates the URL from the name: a line whose separator is
      a tab is rejected as invalid and never reaches the decoder. */
  lemma TabSeparatedIsInvalid(url: string, name: string, parse: string -> Option<Query>)
    requires IsPlainUrl(url)
    requires name != [] && forall i :: 0 <= i < |name| ==> !IsWs(name[i])
    ensures Handle(url + "\t" + name, parse) == Invalid(url + "\t" + name)
  {
    var raw := url + "\t" + name;
    assert raw[0] == url[0] && raw[|raw| - 1] == name[|name| - 1];
    assert Strip(raw) == raw;
    assert IsWs(' ');
    assert forall i :: 0 <= i < |raw| ==> raw[i] != ' ' by {
      forall i | 0 <= i < |raw|
        ensures raw[i] != ' '
      {
        if i < |url| {
          assert raw[i] == url[i];
        } else if i > |url| {
          assert raw[i] == name[i - |url| - 1];
        }
      }
    }
  }

  /** A name made only of reserved characters still yields a conversion,
      under the bare suffix. */
  lemma ReservedNameGivesSuffix(url: string, name: string, parse: string -> Option<Query>, m: string)
    requires IsPlainUrl(url)
    requires name != [] && forall i :: 0 <= i < |name| ==> name[i] in Reserved
    requires DecodeBrightcoveUrl(url, parse) == Some(m)
    ensures Handle(url + " " + name, parse) == Convert(m, OutputSuffix)
  {
    var raw := url + " " + name;
    ReservedIsNotWs(name[|name| - 1]);
    assert raw[0] == url[0] && raw[|raw| - 1] == name[|name| - 1];
    assert Strip(raw) == raw;
    assert IsWs(' ');
    HandleEntry(raw, parse, url, name);
    SanitizeAllUnsafe(name);
    assert "" + OutputSuffix == OutputSuffix;
  }

  /** A well-formed entry whose name is `Episode 1` is converted under the
      name `Episode1感謝祭Voice`, with the manifest URL its tracking URL
      decodes to. */
  lemma EpisodeExample(url: string, parse: string -> Option<Query>, m: string)
    requires IsPlainUrl(url)
    requires DecodeBrightcoveUrl(url, parse) == Some(m)
    ensures Handle(url + " Episode 1", parse) == Convert(m, "Episode1" + OutputSuffix)
  {
    var raw := url + " Episode 1";
    var name := "Episode 1";
    assert raw == url + " " + name;
    assert Strip(raw) == raw by {
      assert raw[0] == url[0] && raw[|raw| - 1] == '1';
    }
    assert ' ' !in url by {
      assert IsWs(' ');
    }
    HandleEntry(raw, parse, url, name);
    SanitizeEpisodeExample();
  }

  /** A hand-over to the converter, numbered by the 1-based line number. */
  datatype Dispatch = Dispatch(lineNo: nat, manifestUrl: string, outputName: string)

  /** The dispatches made for a run of per-line outcomes: one for each
      `Convert`, numbered by its line, in file order and so at most one per
      line. */
  function Dispatches(outcomes: seq<Outcome>): (ds: seq<Dispatch>)
    ensures |ds| <= |outcomes|
    ensures forall k :: 0 <= k < |ds| ==> 1 <= ds[k].lineNo <= |outcomes|
    ensures forall j, k :: 0 <= j < k < |ds| ==> ds[j].lineNo < ds[k].lineNo
    decreases |outcomes|
  {
    if outcomes == [] then []
    else
      var n := |outcomes|;
      Dispatches(outcomes[..n - 1]) +
        match outcomes[n - 1]
        case Convert(m, o) => [Dispatch(n, m, o)]
        case _ => []
  }

  /** One more line adds its dispatch, if any, at the end. */
  lemma DispatchesAppend(outcomes: seq<Outcome>, o: Outcome)
    ensures o.Convert? ==>
      Dispatches(outcomes + [o]) == Dispatches(outcomes) + [Dispatch(|outcomes| + 1, o.manifestUrl, o.outputName)]
    ensures !o.Convert? ==> Dispatches(outcomes + [o]) == Dispatches(outcomes)
  {
    assert (outcomes + [o])[..|outcomes|] == outcomes;
    assert Dispatches(outcomes) + [] == Dispatches(outcomes);
  }

  /** Every dispatch comes from a line handed to the converter, with that
      line's manifest URL and output name. */
  lemma {:induction false} DispatchesSound(outcomes: seq<Outcome>)
    ensures forall k :: 0 <= k < |Dispatches(outcomes)| ==>
      outcomes[Dispatches(outcomes)[k].lineNo - 1] ==
        Convert(Dispatches(outcomes)[k].manifestUrl, Dispatches(outcomes)[k].outputName)
    decreases |outcomes|
  {
    if outcomes != [] {
      var n := |outcomes|;
      DispatchesSound(outcomes[..n - 1]);
      assert forall j :: 0 <= j < n - 1 ==> outcomes[..n - 1][j] == outcomes[j];
    }
  }

  /** Every line handed to the converter yields its dispatch. */
  lemma {:induction false} DispatchesComplete(outcomes: seq<Outcome>, i: nat)
    requires i < |outcomes| && outcomes[i].Convert?
    ensures Dispatch(i + 1, outcomes[i].manifestUrl, outcomes[i].outputName) in Dispatches(outcomes)
    decreases |outcomes|
  {
    var n := |outcomes|;
    if i < n - 1 {
      assert outcomes[..n - 1][i] == outcomes[i];
      DispatchesComplete(outcomes[..n - 1], i);
    }
  }

  /** The loop invariant of `ProcessLinks` survives one more line. */
  lemma OutcomesExtend(lines: seq<string>, parse: string -> Option<Query>, outcomes: seq<Outcome>, o: Outcome)
    requires |outcomes| < |lines|
    requires forall k :: 0 <= k < |outcomes| ==> outcomes[k] == Handle(lines[k], parse)
    requires o == Handle(lines[|outcomes|], parse)
    ensures forall k :: 0 <= k < |outcomes| + 1 ==> (outcomes + [o])[k] == Handle(lines[k], parse)
  {
  }

  /** The loop of m3u8.py:106-128, with the converter call replaced by
      recording a dispatch: one outcome per line, as `Handle` prescribes,
      and the dispatches those outcomes call for. */
  method ProcessLinks(lines: seq<string>, parse: string -> Option<Query>)
    returns (outcomes: seq<Outcome>, dispatches: seq<Dispatch>)
    ensures |outcomes| == |lines|
    ensures forall i :: 0 <= i < |lines| ==> outcomes[i] == Handle(lines[i], parse)
    ensures dispatches == Dispatches(outcomes)
  {
    outcomes, dispatches := [], [];
    for i := 0 to |lines|
      invariant |outcomes| == i
      invariant forall k :: 0 <= k < i ==> outcomes[k] == Handle(lines[k], parse)
      invariant dispatches == Dispatches(outcomes)
    {
      var line := Strip(lines[i]);
      if line == [] || line[0] == '#' {
        OutcomesExtend(lines, parse, outcomes, Skipped);
        DispatchesAppend(outcomes, Skipped);
        outcomes := outcomes + [Skipped];
        continue;
      }
      var parts := SplitAtFirstSpace(line);
      if parts.None? {
        assert Handle(lines[i], parse) == Invalid(line);
        OutcomesExtend(lines, parse, outcomes, Invalid(line));
        DispatchesAppend(outcomes, Invalid(line));
        outcomes := outcomes + [Invalid(line)];
        continue;
      }
      var (trackingUrl, rawName) := parts.value;
      assert Classify(lines[i]) == Entry(trackingUrl, rawName);
      var m3u8Url := DecodeBrightcoveUrl(trackingUrl, parse);
      if m3u8Url.None? {
        OutcomesExtend(lines, parse, outcomes, BadUrl(trackingUrl));
        DispatchesAppend(outcomes, BadUrl(trackingUrl));
        outcomes := outcomes + [BadUrl(trackingUrl)];
        continue;
      }
      var outputName := Sanitize(rawName) + OutputSuffix;
      assert Handle(lines[i], parse) == Convert(m3u8Url.value, outputName);
      OutcomesExtend(lines, parse, outcomes, Convert(m3u8Url.value, outputName));
      DispatchesAppend(outcomes, Convert(m3u8Url.value, outputName));
      outcomes := outcomes + [Convert(m3u8Url.value, outputName)];
      dispatches := dispatches + [Dispatch(i + 1, m3u8Url.value, outputName)];
    }
  }
}
