/**
 * The checks the page makes on what the user submits: the video ID taken from
 * a YouTube link, the thumbnail address built from it, and the media-type
 * guard on uploaded files.
 *
 * The link pattern is the regular expression
 *   (?:https?://)?(?:www\.)?(?:youtube\.com/(?:watch\?v=|embed/)|youtu\.be/)([\w-]{11})
 * without anchors or flags. `ExtractVideoId` is a hand-written matcher: the
 * first position where a marker is followed by eleven ID characters.
 * `RegexMatch` states the pattern itself, and
 * `ExtractVideoIdIsLeftmostRegexMatch` proves that the matcher returns the
 * group that the leftmost match of the pattern captures.
 */
module InputValidation {
  import opened Wrappers
  import opened Js

  const VideoIdLength: nat := 11

  const WatchMarker: string := "youtube.com/watch?v="
  const EmbedMarker: string := "youtube.com/embed/"
  const ShortMarker: string := "youtu.be/"

  /** The three alternatives of the pattern, in the order it tries them. */
  const Markers: seq<string> := [WatchMarker, EmbedMarker, ShortMarker]

  /** `[\w-]`: ASCII letters, digits, underscore and hyphen. */
  predicate IsIdChar(c: char) {
    ('A' <= c <= 'Z') || ('a' <= c <= 'z') || ('0' <= c <= '9') || c == '_' || c == '-'
  }

  predicate IsVideoId(s: string) {
    |s| == VideoIdLength && forall i :: 0 <= i < |s| ==> IsIdChar(s[i])
  }

  // ---------------------------------------------------------------------------
  // The matcher
  // ---------------------------------------------------------------------------

  /** The eleven ID characters after `marker` when `marker` occurs at index `j`. */
  function IdAfter(s: string, j: nat, marker: string): (r: Option<string>)
    ensures r.Some? ==> IsVideoId(r.value)
  {
    var k := j + |marker|;
    if OccursAt(s, marker, j) && k + VideoIdLength <= |s| && IsVideoId(s[k..k + VideoIdLength])
    then Some(s[k..k + VideoIdLength]) else None
  }

  /** The ID after whichever marker occurs at index `j`. */
  function IdAt(s: string, j: nat): (r: Option<string>)
    ensures r.Some? ==> IsVideoId(r.value)
  {
    var watch := IdAfter(s, j, WatchMarker);
    if watch.Some? then watch
    else
      var embed := IdAfter(s, j, EmbedMarker);
      if embed.Some? then embed else IdAfter(s, j, ShortMarker)
  }

  /** The ID at the first position from `from` on where there is one. */
  function FindVideoId(s: string, from: nat): (r: Option<string>)
    ensures r.Some? ==> IsVideoId(r.value)
    decreases |s| - from
  {
    if from >= |s| then None
    else if IdAt(s, from).Some? then IdAt(s, from)
    else FindVideoId(s, from + 1)
  }

  /** `FindVideoId` finds nothing only when no index from `from` on has an ID, and otherwise the first that has one. */
  lemma {:induction false} FindVideoIdFirst(s: string, from: nat)
    ensures FindVideoId(s, from).None? ==> forall j :: from <= j ==> IdAt(s, j).None?
    ensures FindVideoId(s, from).Some? ==>
      exists j :: from <= j < |s| && IdAt(s, j) == FindVideoId(s, from) && NoIdBetween(s, from, j)
    decreases |s| - from
  {
    if from >= |s| {
      forall j | from <= j
        ensures IdAt(s, j).None?
      {
        IdStartsWithY(s, j);
      }
    } else if IdAt(s, from).Some? {
      assert NoIdBetween(s, from, from);
    } else {
      FindVideoIdFirst(s, from + 1);
      if FindVideoId(s, from).Some? {
        var j :| from + 1 <= j < |s| && IdAt(s, j) == FindVideoId(s, from) && NoIdBetween(s, from + 1, j);
        assert NoIdBetween(s, from, j);
      }
    }
  }

  /** No ID starts at any index in `[from, to)`. */
  ghost predicate NoIdBetween(s: string, from: nat, to: nat) {
    forall j :: from <= j < to ==> IdAt(s, j).None?
  }

  /** The video ID of a submitted link, if the pattern matches it anywhere. */
  function ExtractVideoId(url: string): (r: Option<string>)
    ensures r.Some? ==> IsVideoId(r.value)
  {
    FindVideoId(url, 0)
  }

  /** The address of the video's largest thumbnail. */
  function ThumbnailUrl(videoId: string): string {
    "https://img.youtube.com/vi/" + videoId + "/maxresdefault.jpg"
  }

  // ---------------------------------------------------------------------------
  // The pattern, as a reference definition
  // ---------------------------------------------------------------------------

  /** `(?:https?://)?` */
  const SchemeOptions: seq<string> := ["https://", "http://", ""]

  /** `(?:www\.)?` */
  const HostOptions: seq<string> := ["www.", ""]

  /**
   * The pattern matches `s` at index `i`, taking scheme option `a`, host option
   * `b` and marker `k`, followed by eleven ID characters.
   */
  ghost predicate RegexMatch(s: string, i: nat, a: nat, b: nat, k: nat) {
    a < |SchemeOptions| && b < |HostOptions| && k < |Markers|
    && var p := SchemeOptions[a] + HostOptions[b] + Markers[k];
    i + |p| + VideoIdLength <= |s| && s[i..i + |p|] == p && IsVideoId(s[i + |p|..i + |p| + VideoIdLength])
  }

  /** The text the capturing group holds for that match. */
  ghost function RegexCapture(s: string, i: nat, a: nat, b: nat, k: nat): string
    requires RegexMatch(s, i, a, b, k)
  {
    var n := i + |SchemeOptions[a]| + |HostOptions[b]| + |Markers[k]|;
    s[n..n + VideoIdLength]
  }

  ghost predicate MatchStartsAt(s: string, i: nat) {
    exists a, b, k :: RegexMatch(s, i, a, b, k)
  }

  /** `i` is where a search that tries every start from the left first succeeds. */
  ghost predicate IsLeftmostStart(s: string, i: nat) {
    MatchStartsAt(s, i) && forall i2 :: 0 <= i2 < i ==> !MatchStartsAt(s, i2)
  }

  // ---------------------------------------------------------------------------
  // Facts about the markers
  // ---------------------------------------------------------------------------

  /** Every marker starts with `y` and has no other `y`; no optional prefix has a `y` at all. */
  lemma WhereTheYsAre()
    ensures Markers == [WatchMarker, EmbedMarker, ShortMarker]
    ensures forall k :: 0 <= k < |Markers| ==> |Markers[k]| >= 9 && Markers[k][0] == 'y'
    ensures forall k, t :: 0 <= k < |Markers| && 1 <= t < |Markers[k]| ==> Markers[k][t] != 'y'
    ensures forall a :: 0 <= a < |SchemeOptions| ==> 'y' !in SchemeOptions[a]
    ensures forall b :: 0 <= b < |HostOptions| ==> 'y' !in HostOptions[b]
  {
  }

  lemma OccursAtChars(u: string, m: string, j: nat)
    ensures OccursAt(u, m, j) ==> forall t :: 0 <= t < |m| ==> u[j + t] == m[t]
  {
    if OccursAt(u, m, j) {
      forall t | 0 <= t < |m|
        ensures u[j + t] == m[t]
      {
        assert u[j + t] == u[j..j + |m|][t];
      }
    }
  }

  /** At most one marker occurs at a given index. */
  lemma MarkersExclusive(s: string, j: nat, k1: nat, k2: nat)
    requires k1 < |Markers| && k2 < |Markers|
    requires OccursAt(s, Markers[k1], j) && OccursAt(s, Markers[k2], j)
    ensures k1 == k2
  {
    WhereTheYsAre();
    OccursAtChars(s, Markers[k1], j);
    OccursAtChars(s, Markers[k2], j);
    assert s[j + 5] == Markers[k1][5] && s[j + 5] == Markers[k2][5];
    if k1 != 2 && k2 != 2 {
      assert s[j + 12] == Markers[k1][12] && s[j + 12] == Markers[k2][12];
    }
  }

  /** Whichever marker yields an ID at `j`, that ID is what `IdAt` returns. */
  lemma IdAtIsTheMatchingMarker(s: string, j: nat, k: nat)
    requires k < |Markers| && IdAfter(s, j, Markers[k]).Some?
    ensures IdAt(s, j) == IdAfter(s, j, Markers[k])
  {
    forall k2: nat | k2 < |Markers| && IdAfter(s, j, Markers[k2]).Some?
      ensures k2 == k
    {
      MarkersExclusive(s, j, k, k2);
    }
    assert IdAfter(s, j, Markers[0]).Some? ==> k == 0;
    assert IdAfter(s, j, Markers[1]).Some? ==> k == 1;
  }

  lemma IdAtHasMarker(s: string, j: nat) returns (k: nat)
    requires IdAt(s, j).Some?
    ensures k < |Markers| && IdAfter(s, j, Markers[k]) == IdAt(s, j)
    ensures j < |s| && s[j] == 'y'
  {
    if IdAfter(s, j, WatchMarker).Some? { k := 0; }
    else if IdAfter(s, j, EmbedMarker).Some? { k := 1; }
    else { k := 2; }
    WhereTheYsAre();
    assert s[j] == s[j..j + |Markers[k]|][0];
  }

  /** An ID can only start at a lower-case `y`. */
  lemma IdStartsWithY(s: string, j: nat)
    ensures IdAt(s, j).Some? ==> j < |s| && s[j] == 'y'
  {
    if IdAt(s, j).Some? {
      var _ := IdAtHasMarker(s, j);
    }
  }

  /** A match of the pattern puts an ID, its capture, at the position of its marker. */
  lemma MatchGivesIdAt(s: string, i: nat, a: nat, b: nat, k: nat)
    requires RegexMatch(s, i, a, b, k)
    ensures IdAt(s, i + |SchemeOptions[a]| + |HostOptions[b]|) == Some(RegexCapture(s, i, a, b, k))
  {
    var sch, host, m := SchemeOptions[a], HostOptions[b], Markers[k];
    var p := sch + host + m;
    var j := i + |sch| + |host|;
    assert s[j..j + |m|] == s[i..i + |p|][|sch| + |host|..] == m;
    IdAtIsTheMatchingMarker(s, j, k);
  }

  /** An ID at `j` is the capture of a match at `j` that uses neither optional prefix. */
  lemma IdAtGivesMatch(s: string, j: nat) returns (k: nat)
    requires IdAt(s, j).Some?
    ensures RegexMatch(s, j, 2, 1, k) && IdAt(s, j) == Some(RegexCapture(s, j, 2, 1, k))
  {
    k := IdAtHasMarker(s, j);
    assert SchemeOptions[2] + HostOptions[1] + Markers[k] == Markers[k];
  }

  /**
   * Every match has its marker at or after `j0`, the first index with an ID,
   * and a match that starts at or before `j0` has its marker exactly there.
   */
  lemma MatchMarkerPosition(s: string, j0: nat, i: nat, a: nat, b: nat, k: nat)
    requires IdAt(s, j0).Some? && NoIdBetween(s, 0, j0)
    requires RegexMatch(s, i, a, b, k)
    ensures j0 <= i + |SchemeOptions[a]| + |HostOptions[b]|
    ensures i <= j0 ==> i + |SchemeOptions[a]| + |HostOptions[b]| == j0
  {
    var pre := SchemeOptions[a] + HostOptions[b];
    var p := pre + Markers[k];
    MatchGivesIdAt(s, i, a, b, k);
    IdStartsWithY(s, j0);
    WhereTheYsAre();
    assert 'y' !in pre;
    assert s[i..i + |pre|] == s[i..i + |p|][..|pre|] == pre;
    forall t | i <= t < i + |pre|
      ensures s[t] != 'y'
    {
      assert s[t] == s[i..i + |pre|][t - i];
    }
  }

  // ---------------------------------------------------------------------------
  // The matcher agrees with the pattern
  // ---------------------------------------------------------------------------

  /** The leftmost start of a match, searched for among `[lo, hi]`, knowing one starts at `hi`. */
  ghost function FirstStart(s: string, lo: nat, hi: nat): (r: nat)
    requires lo <= hi && MatchStartsAt(s, hi)
    ensures lo <= r <= hi && MatchStartsAt(s, r)
    ensures forall i :: lo <= i < r ==> !MatchStartsAt(s, i)
    decreases hi - lo
  {
    if MatchStartsAt(s, lo) then lo else FirstStart(s, lo + 1, hi)
  }

  /**
   * The matcher finds an ID exactly when the pattern matches somewhere, and
   * then returns what the leftmost match captures; its scheme and host
   * options, being free of `y`, never move the marker it uses.
   */
  lemma ExtractVideoIdIsLeftmostRegexMatch(s: string)
    ensures ExtractVideoId(s).None? <==> forall i, a, b, k :: !RegexMatch(s, i, a, b, k)
    ensures ExtractVideoId(s).Some? ==> exists i :: IsLeftmostStart(s, i)
    ensures forall i, a, b, k :: RegexMatch(s, i, a, b, k) && IsLeftmostStart(s, i) ==>
      ExtractVideoId(s) == Some(RegexCapture(s, i, a, b, k))
  {
    var r := ExtractVideoId(s);
    FindVideoIdFirst(s, 0);
    forall i: nat, a: nat, b: nat, k: nat | RegexMatch(s, i, a, b, k)
      ensures IdAt(s, i + |SchemeOptions[a]| + |HostOptions[b]|).Some?
    {
      MatchGivesIdAt(s, i, a, b, k);
    }
    if r.Some? {
      var j0 :| 0 <= j0 < |s| && IdAt(s, j0) == r && NoIdBetween(s, 0, j0);
      var k0 := IdAtGivesMatch(s, j0);
      assert MatchStartsAt(s, j0);
      var first := FirstStart(s, 0, j0);
      assert IsLeftmostStart(s, first);
      forall i: nat, a: nat, b: nat, k: nat | RegexMatch(s, i, a, b, k) && IsLeftmostStart(s, i)
        ensures r == Some(RegexCapture(s, i, a, b, k))
      {
        MatchMarkerPosition(s, j0, i, a, b, k);
        MatchGivesIdAt(s, i, a, b, k);
      }
    }
  }

  // ---------------------------------------------------------------------------
  // No anchors
  // ---------------------------------------------------------------------------

  lemma IdAfterShift(q: string, s: string, t: nat, m: string)
    ensures IdAfter(q + s, |q| + t, m) == IdAfter(s, t, m)
  {
    var u := q + s;
    var k := t + |m|;
    if t + |m| + VideoIdLength <= |s| {
      assert u[|q| + t..|q| + t + |m|] == s[t..t + |m|];
      assert u[|q| + k..|q| + k + VideoIdLength] == s[k..k + VideoIdLength];
    }
  }

  lemma IdAtShift(q: string, s: string, t: nat)
    ensures IdAt(q + s, |q| + t) == IdAt(s, t)
  {
    IdAfterShift(q, s, t, WatchMarker);
    IdAfterShift(q, s, t, EmbedMarker);
    IdAfterShift(q, s, t, ShortMarker);
  }

  lemma {:induction false} FindVideoIdShift(q: string, s: string, t: nat)
    requires t <= |s|
    ensures FindVideoId(q + s, |q| + t) == FindVideoId(s, t)
    decreases |s| - t
  {
    if t < |s| {
      IdAtShift(q, s, t);
      FindVideoIdShift(q, s, t + 1);
      assert |q| + t + 1 == |q| + (t + 1);
    }
  }

  lemma {:induction false} FindVideoIdSkipsLeadingText(q: string, s: string, from: nat)
    requires from <= |q| && NoIdBetween(q + s, from, |q|)
    ensures FindVideoId(q + s, from) == FindVideoId(q + s, |q|)
    decreases |q| - from
  {
    if from < |q| {
      FindVideoIdSkipsLeadingText(q, s, from + 1);
    }
  }

  /**
   * Text in front of the link never changes the ID unless a match starts
   * inside it: the pattern has no start anchor.
   */
  lemma LeadingTextIgnored(q: string, s: string)
    requires NoIdBetween(q + s, 0, |q|)
    ensures ExtractVideoId(q + s) == ExtractVideoId(s)
  {
    FindVideoIdSkipsLeadingText(q, s, 0);
    FindVideoIdShift(q, s, 0);
  }

  /** In particular, leading text without a lower-case `y` is ignored, since every marker starts with one. */
  lemma LeadingTextWithoutYIgnored(q: string, s: string)
    requires 'y' !in q
    ensures ExtractVideoId(q + s) == ExtractVideoId(s)
  {
    forall j | 0 <= j < |q|
      ensures IdAt(q + s, j).None?
    {
      IdStartsWithY(q + s, j);
      assert (q + s)[j] == q[j];
    }
    LeadingTextIgnored(q, s);
  }

  /** Without a lower-case `y` there is no marker, so no ID: matching is case-sensitive. */
  lemma NoIdWithoutLowerCaseY(s: string)
    requires 'y' !in s
    ensures ExtractVideoId(s) == None
  {
    LeadingTextWithoutYIgnored(s, "");
    assert s + "" == s;
  }

  /** What lies wholly inside `s` reads the same in `s + t`. */
  lemma IdAfterPrefix(s: string, t: string, j: nat, m: string)
    requires j + |m| + VideoIdLength <= |s|
    ensures IdAfter(s + t, j, m) == IdAfter(s, j, m)
  {
    var k := j + |m|;
    assert (s + t)[j..k] == s[j..k];
    assert (s + t)[k..k + VideoIdLength] == s[k..k + VideoIdLength];
  }

  /**
   * Before the first ID of `s`, appending text creates no ID after marker `k`:
   * a marker that would reach past the end of `s` would contain the `y` at
   * which the first marker starts.
   */
  lemma NoMarkerBeforeFirstAfterAppend(s: string, t: string, j0: nat, j: nat, k: nat)
    requires IdAt(s, j0).Some? && NoIdBetween(s, 0, j0) && j < j0 && k < |Markers|
    ensures IdAfter(s + t, j, Markers[k]).None?
  {
    var m := Markers[k];
    var k0 := IdAtHasMarker(s, j0);
    WhereTheYsAre();
    if j + |m| + VideoIdLength <= |s| {
      IdAfterPrefix(s, t, j, m);
      assert IdAt(s, j).None?;
    } else {
      assert j0 + |Markers[k0]| + VideoIdLength <= |s|;
      assert 1 <= j0 - j < |m|;
      assert (s + t)[j0] == 'y' && m[j0 - j] != 'y';
      OccursAtChars(s + t, m, j);
    }
  }

  lemma NoIdBeforeFirstAfterAppend(s: string, t: string, j0: nat, j: nat)
    requires IdAt(s, j0).Some? && NoIdBetween(s, 0, j0) && j < j0
    ensures IdAt(s + t, j).None?
  {
    NoMarkerBeforeFirstAfterAppend(s, t, j0, j, 0);
    NoMarkerBeforeFirstAfterAppend(s, t, j0, j, 1);
    NoMarkerBeforeFirstAfterAppend(s, t, j0, j, 2);
  }

  lemma {:induction false} FindVideoIdAppend(s: string, t: string, j0: nat, from: nat)
    requires IdAt(s, j0).Some? && NoIdBetween(s, 0, j0) && from <= j0
    ensures FindVideoId(s + t, from) == FindVideoId(s, from)
    decreases j0 - from
  {
    var k0 := IdAtHasMarker(s, j0);
    if from < j0 {
      NoIdBeforeFirstAfterAppend(s, t, j0, from);
      FindVideoIdAppend(s, t, j0, from + 1);
    } else {
      IdAfterPrefix(s, t, j0, Markers[k0]);
      IdAtIsTheMatchingMarker(s, j0, k0);
      IdAtIsTheMatchingMarker(s + t, j0, k0);
    }
  }

  /** Text after the link, such as `&t=42s`, never changes the ID once there is one. */
  lemma TrailingTextIgnored(s: string, t: string)
    requires ExtractVideoId(s).Some?
    ensures ExtractVideoId(s + t) == ExtractVideoId(s)
  {
    FindVideoIdFirst(s, 0);
    var j0 :| 0 <= j0 < |s| && IdAt(s, j0) == ExtractVideoId(s) && NoIdBetween(s, 0, j0);
    FindVideoIdAppend(s, t, j0, 0);
  }

  // ---------------------------------------------------------------------------
  // The accepted forms
  // ---------------------------------------------------------------------------

  /** The link to `id` with scheme option `a`, host option `b` and marker `k`. */
  function AcceptedLink(a: nat, b: nat, k: nat, id: string): string
    requires a < |SchemeOptions| && b < |HostOptions| && k < |Markers|
  {
    SchemeOptions[a] + HostOptions[b] + Markers[k] + id
  }

  /**
   * Watch, embed and short links, with or without scheme and `www.`, after any
   * text without a `y` and before any text at all, give the ID; in particular
   * a run of more than eleven ID characters gives its first eleven.
   */
  lemma AcceptedForm(lead: string, a: nat, b: nat, k: nat, id: string, rest: string)
    requires 'y' !in lead && a < |SchemeOptions| && b < |HostOptions| && k < |Markers|
    requires IsVideoId(id)
    ensures ExtractVideoId(lead + AcceptedLink(a, b, k, id) + rest) == Some(id)
  {
    var m := Markers[k];
    var p := SchemeOptions[a] + HostOptions[b];
    var link := m + id + rest;
    WhereTheYsAre();
    assert 'y' !in p by {
      assert forall c :: c in p ==> c in SchemeOptions[a] || c in HostOptions[b];
    }
    assert 'y' !in lead + p by {
      assert forall c :: c in lead + p ==> c in lead || c in p;
    }
    assert link[..|m|] == m && link[|m|..|m| + VideoIdLength] == id;
    IdAtIsTheMatchingMarker(link, 0, k);
    LeadingTextWithoutYIgnored(lead + p, link);
    Regroup(lead, p, m, id, rest);
  }

  /** The bracketing of a concatenation does not matter. */
  lemma Regroup(l: string, p: string, m: string, i: string, r: string)
    ensures (l + p) + ((m + i) + r) == (l + ((p + m) + i)) + r
  {
  }

  /** All eighteen accepted forms of one video give its ID, hence the same thumbnail address. */
  lemma EveryFormGivesTheId(id: string)
    requires IsVideoId(id)
    ensures forall a: nat, b: nat, k: nat :: a < |SchemeOptions| && b < |HostOptions| && k < |Markers| ==>
      ExtractVideoId(AcceptedLink(a, b, k, id)) == Some(id)
  {
    forall a: nat, b: nat, k: nat | a < |SchemeOptions| && b < |HostOptions| && k < |Markers|
      ensures ExtractVideoId(AcceptedLink(a, b, k, id)) == Some(id)
    {
      var none: string := [];
      var link := AcceptedLink(a, b, k, id);
      AcceptedForm(none, a, b, k, id, none);
      assert none + link + none == link;
    }
  }

  /** The thumbnail address determines the video. */
  lemma ThumbnailUrlInjective(id1: string, id2: string)
    requires |id1| == |id2| == VideoIdLength
    requires ThumbnailUrl(id1) == ThumbnailUrl(id2)
    ensures id1 == id2
  {
    var n := |"https://img.youtube.com/vi/"|;
    assert id1 == ThumbnailUrl(id1)[n..n + VideoIdLength];
    assert id2 == ThumbnailUrl(id2)[n..n + VideoIdLength];
  }

  /** A short link with scheme and no `www.` gives its ID. */
  lemma ShortLinkGivesId(id: string)
    requires IsVideoId(id)
    ensures ExtractVideoId("https://" + ShortMarker + id) == Some(id)
  {
    var none: string := [];
    AcceptedForm(none, 0, 1, 2, id, none);
    assert none + AcceptedLink(0, 1, 2, id) + none == "https://" + ShortMarker + id;
  }

  /** The thumbnail address of the example video `dQw4w9WgXcQ`. */
  lemma ExampleThumbnail(id: string)
    requires id == "dQw4w9WgXcQ"
    ensures ThumbnailUrl(id) == "https://img.youtube.com/vi/dQw4w9WgXcQ/maxresdefault.jpg"
  {
    var thumbnail: string := "https://img.youtube.com/vi/dQw4w9WgXcQ/maxresdefault.jpg";
    assert |ThumbnailUrl(id)| == |thumbnail|;
    forall i | 0 <= i < |thumbnail|
      ensures ThumbnailUrl(id)[i] == thumbnail[i]
    {
    }
  }

  /** The short link of the example video `dQw4w9WgXcQ` is the scheme, the short marker and the ID. */
  lemma ExampleShortLink(id: string)
    requires id == "dQw4w9WgXcQ"
    ensures "https://" + ShortMarker + id == "https://youtu.be/dQw4w9WgXcQ"
  {
    var url: string := "https://youtu.be/dQw4w9WgXcQ";
    var built := "https://" + ShortMarker + id;
    assert |built| == |url|;
    forall i | 0 <= i < |url|
      ensures built[i] == url[i]
    {
    }
  }

  /** The short link of the example video `dQw4w9WgXcQ` gives its ID and thumbnail address. */
  lemma ShortLinkExample(url: string, id: string)
    requires url == "https://youtu.be/dQw4w9WgXcQ" && id == "dQw4w9WgXcQ"
    ensures ExtractVideoId(url) == Some(id)
    ensures ThumbnailUrl(id) == "https://img.youtube.com/vi/dQw4w9WgXcQ/maxresdefault.jpg"
  {
    assert IsVideoId(id);
    ShortLinkGivesId(id);
    ExampleShortLink(id);
    ExampleThumbnail(id);
  }

  lemma UpperCaseHostRejected()
    ensures ExtractVideoId("https://YOUTU.BE/dQw4w9WgXcQ") == None
  {
    NoIdWithoutLowerCaseY("https://YOUTU.BE/dQw4w9WgXcQ");
  }

  // ---------------------------------------------------------------------------
  // Uploaded files
  // ---------------------------------------------------------------------------

  /** The upload guard: the declared media type starts with `image/`, case-sensitively. */
  predicate IsImageType(mediaType: string) {
    StartsWith(mediaType, "image/")
  }

  lemma ImageTypeExamples(subtype: string)
    ensures IsImageType("image/" + subtype)
    ensures !IsImageType("") && !IsImageType("image") && !IsImageType("IMAGE/PNG")
    ensures !IsImageType("application/pdf") && !IsImageType("text/image/png")
  {
    assert ("image/" + subtype)[..6] == "image/";
    assert "IMAGE/PNG"[..6] != "image/" by { assert "IMAGE/PNG"[0] != 'i'; }
    assert "application/pdf"[..6] != "image/" by { assert "application/pdf"[0] != 'i'; }
    assert "text/image/png"[..6] != "image/" by { assert "text/image/png"[0] != 'i'; }
  }

  const InvalidUrlMessage: string := "Invalid YouTube URL. Please provide a valid video link."
  const InvalidFileTypeMessage: string := "Invalid file type. Please upload an image."
}
