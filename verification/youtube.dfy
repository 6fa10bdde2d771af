/** The YouTube content source (server/services/youtube.ts): the URL
    checks, video-ID extraction, the validate-only short cut, and the
    placeholder transcript the server synthesises from the video ID. */
module YouTube {
  import opened Wrappers
  import opened Strings

  // ---------------------------------------------------------------------
  // URL shape: /^(https?:\/\/)?(www\.)?(youtube\.com|youtu\.be)\/.*$/
  // ---------------------------------------------------------------------

  function StripScheme(s: string): string {
    if HasPrefix(s, "https://") then s[8..]
    else if HasPrefix(s, "http://") then s[7..]
    else s
  }

  function StripWww(s: string): string {
    if HasPrefix(s, "www.") then s[4..] else s
  }

  predicate NoLineTerminator(s: string) {
    forall k :: 0 <= k < |s| ==> !IsLineTerminator(s[k])
  }

  /** The regular expression, matched greedily: the optional scheme, the
      optional `www.`, a host, a slash, then a rest free of line
      terminators (`.` does not match them and `$` is the end of input). */
  predicate MatchesShape(s: string) {
    var r := StripWww(StripScheme(s));
    (HasPrefix(r, "youtube.com/") && NoLineTerminator(r[12..]))
    || (HasPrefix(r, "youtu.be/") && NoLineTerminator(r[9..]))
  }

  function SchemeChoice(i: nat): string {
    if i == 0 then "" else if i == 1 then "http://" else "https://"
  }

  function WwwChoice(j: nat): string {
    if j == 0 then "" else "www."
  }

  function HostChoice(l: nat): string {
    if l == 0 then "youtube.com/" else "youtu.be/"
  }

  /** One way the regular expression's optional groups and alternation can
      spell the part before the free-form rest. */
  function ShapePrefix(i: nat, j: nat, l: nat): string {
    SchemeChoice(i) + (WwwChoice(j) + HostChoice(l))
  }

  /** Reference reading of the regular expression: some spelling of its
      prefix, followed by a rest free of line terminators. */
  ghost predicate ShapeSpec(s: string) {
    exists i, j, l :: i < 3 && j < 2 && l < 2 && HasPrefix(s, ShapePrefix(i, j, l))
      && NoLineTerminator(s[|ShapePrefix(i, j, l)|..])
  }

  lemma PrefixOfPrefix(s: string, p: string, q: string)
    requires HasPrefix(s, p + q)
    ensures HasPrefix(s, p) && HasPrefix(s[|p|..], q) && s[|p|..][|q|..] == s[|p + q|..]
  {
    assert s[..|p|] == (p + q)[..|p|];
    assert s[|p|..][..|q|] == s[..|p + q|][|p|..];
  }

  lemma PrefixJoin(s: string, p: string, q: string)
    requires HasPrefix(s, p) && HasPrefix(s[|p|..], q)
    ensures HasPrefix(s, p + q) && s[|p + q|..] == s[|p|..][|q|..]
  {
    assert s[..|p + q|] == s[..|p|] + s[|p|..][..|q|];
  }

  /** The scheme the greedy reading strips. */
  function SchemeOf(s: string): string {
    if HasPrefix(s, "https://") then "https://" else if HasPrefix(s, "http://") then "http://" else ""
  }

  function WwwOf(s: string): string {
    if HasPrefix(s, "www.") then "www." else ""
  }

  lemma StripsArePrefixes(s: string)
    ensures HasPrefix(s, SchemeOf(s)) && StripScheme(s) == s[|SchemeOf(s)|..]
    ensures HasPrefix(StripScheme(s), WwwOf(StripScheme(s)))
    ensures StripWww(StripScheme(s)) == StripScheme(s)[|WwwOf(StripScheme(s))|..]
  {
  }

  lemma ShapeToSpec(s: string)
    requires MatchesShape(s)
    ensures ShapeSpec(s)
  {
    var t := StripScheme(s);
    var r := StripWww(t);
    var sch := SchemeOf(s);
    var w := WwwOf(t);
    StripsArePrefixes(s);
    var l := if HasPrefix(r, "youtube.com/") && NoLineTerminator(r[12..]) then 0 else 1;
    var h := HostChoice(l);
    var i := if sch == "https://" then 2 else if sch == "http://" then 1 else 0;
    var j := if w == "www." then 1 else 0;
    assert SchemeChoice(i) == sch;
    assert WwwChoice(j) == w;
    PrefixJoin(t, w, h);
    PrefixJoin(s, sch, w + h);
    assert s[|ShapePrefix(i, j, l)|..] == r[|h|..];
  }

  /** A string starting with `www.` or a host does not start with a scheme. */
  lemma NoSchemeBeforeHost(s: string, p: string)
    requires HasPrefix(s, p) && |p| > 0 && (p[0] == 'w' || p[0] == 'y')
    ensures SchemeOf(s) == ""
  {
    assert s[0] == p[0];
  }

  lemma NoWwwBeforeHost(s: string, p: string)
    requires HasPrefix(s, p) && |p| > 0 && p[0] == 'y'
    ensures WwwOf(s) == ""
  {
    assert s[0] == p[0];
  }

  lemma SpecToShape(s: string, i: nat, j: nat, l: nat)
    requires i < 3 && j < 2 && l < 2 && HasPrefix(s, ShapePrefix(i, j, l))
    requires NoLineTerminator(s[|ShapePrefix(i, j, l)|..])
    ensures MatchesShape(s)
  {
    var sch := SchemeChoice(i);
    var w := WwwChoice(j);
    var h := HostChoice(l);
    PrefixOfPrefix(s, sch, w + h);
    var t := s[|sch|..];
    if i == 0 {
      NoSchemeBeforeHost(s, w + h);
    } else if i == 1 {
      assert s[4] == sch[4] == ':';
    }
    assert StripScheme(s) == t;
    PrefixOfPrefix(t, w, h);
    var r := t[|w|..];
    if j == 0 {
      NoWwwBeforeHost(t, h);
    }
    assert StripWww(t) == r;
    assert r[|h|..] == s[|ShapePrefix(i, j, l)|..];
  }

  /** The greedy reading agrees with the regular expression on every
      string: backtracking over the optional groups never finds a match the
      greedy one misses. */
  lemma ShapeAgreesWithRegex(s: string)
    ensures MatchesShape(s) <==> ShapeSpec(s)
  {
    if MatchesShape(s) {
      ShapeToSpec(s);
    }
    if ShapeSpec(s) {
      var i, j, l :| i < 3 && j < 2 && l < 2 && HasPrefix(s, ShapePrefix(i, j, l))
        && NoLineTerminator(s[|ShapePrefix(i, j, l)|..]);
      SpecToShape(s, i, j, l);
    }
  }

  // ---------------------------------------------------------------------
  // The zod checks and their error message
  // ---------------------------------------------------------------------

  /** The failed checks of `z.string().url().refine(shape)`: zod runs the
      refinement even after `.url()` fails, so both can be reported. */
  function UrlIssues(url: string, isUrl: string -> bool): (issues: seq<string>)
    ensures |issues| == 0 <==> isUrl(url) && MatchesShape(url)
  {
    (if isUrl(url) then [] else ["Invalid url"])
    + (if MatchesShape(url) then [] else ["Invalid YouTube URL format"])
  }

  /** `fromZodError(...).message` for issues without a path. */
  function ValidationMessage(issues: seq<string>): string {
    "Validation error: " + Join(issues, "; ")
  }

  const NoVideoId := "Could not extract video ID from URL"
  const ValidMarker := "VALID"

  // ---------------------------------------------------------------------
  // Video ID
  // ---------------------------------------------------------------------

  /** Characters the WHATWG URL parser removes: ASCII tab and newline
      anywhere; C0 controls and spaces at either end. */
  predicate IsTabOrNewline(c: char) {
    c == '\t' || c == '\n' || c == '\r'
  }

  predicate IsC0OrSpace(c: char) {
    c <= ' '
  }

  function RemoveTabsAndNewlines(s: string): (r: string)
    ensures forall k :: 0 <= k < |r| ==> !IsTabOrNewline(r[k])
    ensures |r| <= |s|
  {
    if |s| == 0 then []
    else (if IsTabOrNewline(s[0]) then [] else [s[0]]) + RemoveTabsAndNewlines(s[1..])
  }

  function StripC0Start(s: string): string {
    if |s| > 0 && IsC0OrSpace(s[0]) then StripC0Start(s[1..]) else s
  }

  function StripC0End(s: string): string {
    if |s| > 0 && IsC0OrSpace(s[|s| - 1]) then StripC0End(s[..|s| - 1]) else s
  }

  /** The input as the URL parser reads it: C0 controls and spaces gone
      from both ends, tabs and newlines gone from everywhere. */
  function CleanUrl(url: string): (c: string)
    ensures forall k :: 0 <= k < |c| ==> !IsTabOrNewline(c[k])
  {
    RemoveTabsAndNewlines(StripC0End(StripC0Start(url)))
  }

  /** Where the fragment begins: at the first `#`, or at the end. */
  function FragmentStart(c: string): (h: nat)
    ensures h <= |c|
    ensures h < |c| ==> c[h] == '#'
  {
    match IndexOf(c, "#")
    case None => |c|
    case Some(i) => i
  }

  /** `new URL(url).search` without its `?`, read from the cleaned input:
      the text strictly between the first `?` and the fragment, when that
      `?` comes before the fragment; empty otherwise. */
  function SearchOf(c: string): (q: string)
    ensures match IndexOf(c, "?")
      case None => q == []
      case Some(i) => (i < FragmentStart(c) ==> q == c[i + 1..FragmentStart(c)]) && (i >= FragmentStart(c) ==> q == [])
    ensures !Contains(q, "#")
  {
    var beforeHash := Split(c, "#")[0];
    var h := FragmentStart(c);
    assert beforeHash == c[..h] by {
      FirstPiece(c, "#");
    }
    IndexOfPrefix(c, "?", h);
    assert !Contains(beforeHash, "#") by {
      SplitPiecesFree(c, "#", 0);
    }
    match IndexOf(beforeHash, "?")
    case None => []
    case Some(i) =>
      SuffixFree(beforeHash, i + 1, "#");
      beforeHash[i + 1..]
  }

  /** `new URL(url).search` without its `?`. */
  function QueryOf(url: string): string {
    SearchOf(CleanUrl(url))
  }

  /** Name and value of one `name=value` pair: split at the first `=`;
      without one the whole pair is the name and the value is empty. */
  function PairName(pair: string): string {
    match IndexOf(pair, "=")
    case None => pair
    case Some(i) => pair[..i]
  }

  function PairValue(pair: string): string {
    match IndexOf(pair, "=")
    case None => []
    case Some(i) => pair[i + 1..]
  }

  /** Index of the first non-empty pair named `name`. */
  function FindPair(pairs: seq<string>, name: string, from: nat): (r: Option<nat>)
    requires from <= |pairs|
    ensures r.Some? ==> from <= r.value < |pairs| && pairs[r.value] != [] && PairName(pairs[r.value]) == name
    ensures r.Some? ==> forall j :: from <= j < r.value ==> pairs[j] == [] || PairName(pairs[j]) != name
    ensures r.None? ==> forall j :: from <= j < |pairs| ==> pairs[j] == [] || PairName(pairs[j]) != name
    decreases |pairs| - from
  {
    if from == |pairs| then None
    else if pairs[from] != [] && PairName(pairs[from]) == name then Some(from)
    else FindPair(pairs, name, from + 1)
  }

  /** `URLSearchParams.get(name)` over the `&`-separated pairs: the value of
      the first non-empty pair with that name, or `null`. */
  function Lookup(pairs: seq<string>, name: string): Option<string> {
    match FindPair(pairs, name, 0)
    case None => None
    case Some(k) => Some(PairValue(pairs[k]))
  }

  function QueryParam(url: string, name: string): Option<string> {
    Lookup(Split(QueryOf(url), "&"), name)
  }

  /** The `youtu.be/` branch: `url.split('youtu.be/')[1]?.split('?')[0]`. */
  function ShortLinkId(url: string): (r: Option<string>)
    ensures r.Some? <==> Contains(url, "youtu.be/")
    ensures r.Some? ==>
      var start := IndexOf(url, "youtu.be/").value + 9;
      && start <= |url|
      && HasPrefix(url[start..], r.value)
      && '?' !in r.value
      && !Contains(r.value, "youtu.be/")
      && StopsAt(url[start..], '?', "youtu.be/", |r.value|)
  {
    var parts := Split(url, "youtu.be/");
    SplitCount(url, "youtu.be/");
    if |parts| < 2 then None
    else
      SecondPiece(url, "youtu.be/", '?');
      SecondPieceStops(url, "youtu.be/", '?');
      Some(Split(parts[1], "?")[0])
  }

  /** The server's video-ID extraction: the `v` query parameter of a
      `youtube.com/watch` URL, the path piece of a `youtu.be/` URL, and
      nothing for any other URL. */
  function VideoId(url: string): (r: Option<string>)
    ensures Contains(url, "youtube.com/watch") ==> r == QueryParam(url, "v")
    ensures !Contains(url, "youtube.com/watch") && Contains(url, "youtu.be/") ==> r == ShortLinkId(url) && r.Some?
    ensures !Contains(url, "youtube.com/watch") && !Contains(url, "youtu.be/") ==> r.None?
  {
    if Contains(url, "youtube.com/watch") then QueryParam(url, "v")
    else if Contains(url, "youtu.be/") then ShortLinkId(url)
    else None
  }

  // ---------------------------------------------------------------------
  // The synthesised transcript
  //
  // Literals longer than 40 characters are written as concatenations of
  // shorter pieces: the verifier inspects a literal character by character
  // only up to about that length.
  // ---------------------------------------------------------------------

  const Topics: seq<string> := [
    "Artificial Intelligence and its " + "applications in everyday life",
    "Machine Learning techniques for data " + "analysis",
    "Web development frameworks and modern " + "practices",
    "Cloud computing services and " + "infrastructure",
    "Digital marketing strategies for " + "businesses",
    "Mobile app development technologies",
    "Cybersecurity best practices and threat " + "prevention",
    "Data science and visualization " + "techniques",
    "Blockchain technology and cryptocurrency"
  ]

  const Lead := "This video is about "
  const Considerations := "The content covers various aspects and " + "important considerations. "
  const MentionLead := "The video also mentions "
  const Related := "This is an important area related to " + "the main topic. "
  const Examples := "Several examples are provided to " + "illustrate key concepts. "
  const Practical := "Practical applications are discussed in " + "detail. "
  const Techniques := "Various techniques and methodologies " + "are examined. "
  const ConclusionLead := "In conclusion, this video provides a " + "comprehensive overview of "
  const Insights := "Viewers can learn practical skills and " + "gain valuable insights. "
  const FarewellStart := "Thank you for watching, and don't " + "forget to like and subscribe "
  const SignOff := "for more content."
  const FullStop := ". "
  const Farewell := FarewellStart + SignOff

  predicate NoNewline(s: string) {
    forall k :: 0 <= k < |s| ==> s[k] != '\n'
  }

  lemma NoNewlineCat(a: string, b: string)
    requires NoNewline(a) && NoNewline(b)
    ensures NoNewline(a + b)
  {
  }

  lemma TopicsHaveNoNewline()
    ensures forall k :: 0 <= k < |Topics| ==> NoNewline(Topics[k])
  {
    FirstTopicsHaveNoNewline();
    MiddleTopicsHaveNoNewline();
    LastTopicsHaveNoNewline();
  }

  lemma FirstTopicsHaveNoNewline()
    ensures NoNewline(Topics[0]) && NoNewline(Topics[1]) && NoNewline(Topics[2])
  {
    NoNewlineCat("Artificial Intelligence and its ", "applications in everyday life");
    NoNewlineCat("Machine Learning techniques for data ", "analysis");
    NoNewlineCat("Web development frameworks and modern ", "practices");
  }

  lemma MiddleTopicsHaveNoNewline()
    ensures NoNewline(Topics[3]) && NoNewline(Topics[4]) && NoNewline(Topics[5])
  {
    NoNewlineCat("Cloud computing services and ", "infrastructure");
    NoNewlineCat("Digital marketing strategies for ", "businesses");
    assert NoNewline("Mobile app development technologies");
  }

  lemma LastTopicsHaveNoNewline()
    ensures NoNewline(Topics[6]) && NoNewline(Topics[7]) && NoNewline(Topics[8])
  {
    NoNewlineCat("Cybersecurity best practices and threat ", "prevention");
    NoNewlineCat("Data science and visualization ", "techniques");
    assert NoNewline("Blockchain technology and cryptocurrency");
  }

  /** None of the fixed sentences contains a line break. */
  lemma OpeningSentencesHaveNoNewline()
    ensures NoNewline(Lead) && NoNewline(Considerations) && NoNewline(FullStop)
  {
    assert NoNewline("This video is about ");
    NoNewlineCat("The content covers various aspects and ", "important considerations. ");
    assert NoNewline(". ");
  }

  lemma MentionSentencesHaveNoNewline()
    ensures NoNewline(MentionLead) && NoNewline(Related) && NoNewline(Examples)
    ensures NoNewline(Practical) && NoNewline(Techniques)
  {
    assert NoNewline("The video also mentions ");
    NoNewlineCat("This is an important area related to ", "the main topic. ");
    NoNewlineCat("Several examples are provided to ", "illustrate key concepts. ");
    DetailSentencesHaveNoNewline();
  }

  lemma DetailSentencesHaveNoNewline()
    ensures NoNewline(Practical) && NoNewline(Techniques)
  {
    NoNewlineCat("Practical applications are discussed in ", "detail. ");
    NoNewlineCat("Various techniques and methodologies ", "are examined. ");
  }

  lemma ClosingSentencesHaveNoNewline()
    ensures NoNewline(ConclusionLead) && NoNewline(Insights) && NoNewline(Farewell)
  {
    NoNewlineCat("In conclusion, this video provides a ", "comprehensive overview of ");
    NoNewlineCat("Viewers can learn practical skills and ", "gain valuable insights. ");
    NoNewlineCat("Thank you for watching, and don't ", "forget to like and subscribe ");
    assert NoNewline("for more content.");
    NoNewlineCat(FarewellStart, SignOff);
  }

  /** The sum of the ID's `charCodeAt` values over `split('')`: both work
      on UTF-16 code units, so a character beyond the Basic Multilingual
      Plane adds its two surrogates. */
  function CodeSum(id: string): nat {
    if |id| == 0 then 0 else UnitSum(CodeUnits(id[0])) + CodeSum(id[1..])
  }

  function UnitSum(us: seq<nat>): (n: nat)
    ensures |us| == 1 ==> n == us[0]
    ensures |us| == 2 ==> n == us[0] + us[1]
    decreases |us|
  {
    if |us| == 0 then 0 else us[0] + UnitSum(us[1..])
  }

  /** A character inside the Basic Multilingual Plane adds its own code,
      one beyond it the codes of its two surrogates. */
  lemma CodeSumOfChar(c: char)
    ensures (c as int) < 0x1_0000 ==> CodeSum([c]) == c as int
    ensures (c as int) >= 0x1_0000 ==> 0xD800 + 0xDC00 <= CodeSum([c]) < 0xDC00 + 0xE000
  {
    assert [c][1..] == [];
  }

  /** No code unit exceeds 0xFFFF. */
  lemma {:induction false} CodeSumBound(id: string)
    ensures CodeSum(id) <= 0xFFFF * Utf16Length(id)
  {
    if |id| > 0 {
      CodeSumBound(id[1..]);
    }
  }

  /** The sum is taken unit by unit, so it adds up over a concatenation. */
  lemma {:induction false} CodeSumAppend(a: string, b: string)
    ensures CodeSum(a + b) == CodeSum(a) + CodeSum(b)
  {
    if |a| > 0 {
      assert (a + b)[1..] == a[1..] + b;
      CodeSumAppend(a[1..], b);
    } else {
      assert a + b == b;
    }
  }

  function ParagraphCount(id: string): (n: nat)
    ensures 3 <= n <= 6
  {
    CodeSum(id) % 4 + 3
  }

  /** The topic the code sum selects. */
  function MainTopic(id: string): (t: string)
    ensures t in Topics
  {
    Topics[CodeSum(id) % |Topics|]
  }

  /** The `n` entries after position `x` of a cyclic list. */
  function Successors<T>(xs: seq<T>, x: nat, n: nat): (ys: seq<T>)
    requires |xs| > 0
    ensures |ys| == n
  {
    seq(n, i requires 0 <= i => xs[(x + i + 1) % |xs|])
  }

  /** The `ParagraphCount - 1` topics following the main one, cyclically. */
  function SecondaryTopics(id: string): (ts: seq<string>)
    ensures 2 <= |ts| <= 5 && |ts| == ParagraphCount(id) - 1
  {
    Successors(Topics, CodeSum(id), ParagraphCount(id) - 1)
  }

  /** Every chosen topic is an entry of the topic list. */
  lemma TopicsAreListed(id: string)
    ensures MainTopic(id) in Topics
    ensures forall i :: 0 <= i < |SecondaryTopics(id)| ==> SecondaryTopics(id)[i] in Topics
  {
    SuccessorsListed(Topics, CodeSum(id), ParagraphCount(id) - 1);
  }

  lemma SuccessorsListed<T>(xs: seq<T>, x: nat, n: nat)
    requires |xs| > 0
    ensures forall i :: 0 <= i < n ==> Successors(xs, x, n)[i] in xs
  {
    var ys := Successors(xs, x, n);
    forall i | 0 <= i < n
      ensures ys[i] in xs
    {
      assert ys[i] == xs[(x + i + 1) % |xs|];
    }
  }

  /** The secondary topics are the entries that follow the main topic in
      the topic list, wrapping around at the end. */
  lemma SecondaryTopicsFollowMain(id: string, k: nat)
    requires k < |Topics| && MainTopic(id) == Topics[k]
    ensures forall i :: 0 <= i < |SecondaryTopics(id)| ==> SecondaryTopics(id)[i] == Topics[(k + i + 1) % |Topics|]
  {
    MainTopicIndex(id, k);
    SuccessorsFollow(Topics, CodeSum(id), ParagraphCount(id) - 1, k);
  }

  lemma SuccessorsFollow<T>(xs: seq<T>, x: nat, n: nat, k: nat)
    requires |xs| == 9 && k == x % |xs|
    ensures forall i :: 0 <= i < n ==> Successors(xs, x, n)[i] == xs[(k + i + 1) % |xs|]
  {
    var ys := Successors(xs, x, n);
    forall i | 0 <= i < n
      ensures ys[i] == xs[(k + i + 1) % 9]
    {
      assert ys[i] == xs[(x + (i + 1)) % 9];
      ShiftMod(x, i + 1);
    }
  }

  /** A property every entry of the list has, every successor has. */
  lemma SuccessorsKeep<T>(xs: seq<T>, x: nat, n: nat, p: T -> bool)
    requires |xs| > 0
    requires forall k :: 0 <= k < |xs| ==> p(xs[k])
    ensures forall i :: 0 <= i < n ==> p(Successors(xs, x, n)[i])
  {
    var ys := Successors(xs, x, n);
    forall i | 0 <= i < n
      ensures p(ys[i])
    {
      assert ys[i] == xs[(x + i + 1) % |xs|];
    }
  }

  /** Adding to a number and to its remainder modulo the topic count
      leaves the same remainder. */
  lemma ShiftMod(a: nat, d: nat)
    ensures (a + d) % 9 == (a % 9 + d) % 9
  {
    assert a == a / 9 * 9 + a % 9;
  }

  /** Topics are distinct, so the main topic's position is the one the
      code sum selects. */
  lemma MainTopicIndex(id: string, k: nat)
    requires k < |Topics| && MainTopic(id) == Topics[k]
    ensures k == CodeSum(id) % |Topics|
  {
    TopicsDistinct();
  }

  function Heading(main: string): string {
    Lead + main + FullStop
  }

  function Opening(main: string): string {
    Heading(main) + Considerations
  }

  /** The paragraph for the secondary topic at `index`: an even index adds
      one sentence, an odd index two. */
  function Mention(topic: string, index: nat): string {
    MentionLead + topic + FullStop + Related
    + (if index % 2 == 0 then Examples else Practical + Techniques)
  }

  function Closing(main: string): string {
    ConclusionLead + main + FullStop + Insights + Farewell
  }

  /** The secondary-topic paragraphs, each preceded by a blank line. */
  function Body(topics: seq<string>, start: nat): string
    decreases |topics|
  {
    if |topics| == 0 then []
    else "\n\n" + (Mention(topics[0], start) + Body(topics[1..], start + 1))
  }

  /** The opening, the secondary-topic paragraphs and the closing. */
  function Framed(main: string, body: string): string {
    Opening(main) + (body + ("\n\n" + Closing(main)))
  }

  function Untrimmed(id: string): string {
    Framed(MainTopic(id), Body(SecondaryTopics(id), 0))
  }

  /** The transcript for a video ID: a pure function of the ID. */
  function Transcript(id: string): string {
    Trim(Untrimmed(id))
  }

  /** `trim` leaves the built text alone: it opens with a letter and closes
      with a full stop. */
  lemma TranscriptIsUntrimmed(id: string)
    ensures Transcript(id) == Untrimmed(id)
  {
    FrameIsTrimmed(MainTopic(id), Body(SecondaryTopics(id), 0));
  }

  /** No entry of `xs` occurs twice. */
  predicate Distinct<T(==)>(xs: seq<T>) {
    forall a, b :: 0 <= a < b < |xs| ==> xs[a] != xs[b]
  }

  /** The topics already differ in their first two characters. */
  lemma TopicsDistinct()
    ensures |Topics| == 9 && Distinct(Topics)
  {
    FirstTopicHeads();
    MiddleTopicHeads();
    LastTopicHeads();
    forall a, b | 0 <= a < b < 9
      ensures Topics[a] != Topics[b]
    {
      assert Head(Topics[a]) != Head(Topics[b]);
    }
  }

  function Head(s: string): (h: (char, char))
    requires |s| >= 2
  {
    (s[0], s[1])
  }

  lemma FirstTopicHeads()
    ensures |Topics[0]| >= 2 && Head(Topics[0]) == ('A', 'r')
    ensures |Topics[1]| >= 2 && Head(Topics[1]) == ('M', 'a')
    ensures |Topics[2]| >= 2 && Head(Topics[2]) == ('W', 'e')
  {
  }

  lemma MiddleTopicHeads()
    ensures |Topics[3]| >= 2 && Head(Topics[3]) == ('C', 'l')
    ensures |Topics[4]| >= 2 && Head(Topics[4]) == ('D', 'i')
    ensures |Topics[5]| >= 2 && Head(Topics[5]) == ('M', 'o')
  {
  }

  lemma LastTopicHeads()
    ensures |Topics[6]| >= 2 && Head(Topics[6]) == ('C', 'y')
    ensures |Topics[7]| >= 2 && Head(Topics[7]) == ('D', 'a')
    ensures |Topics[8]| >= 2 && Head(Topics[8]) == ('B', 'l')
  {
  }

  /** Two offsets from 1 to 8 apart land on different residues mod 9. */
  lemma ModNine(x: nat, d: nat)
    requires 0 < d < 9
    ensures (x + d) % 9 != x % 9
  {
    var q := x / 9;
    assert x == 9 * q + x % 9;
    if x % 9 + d < 9 {
      assert x + d == 9 * q + (x % 9 + d);
    } else {
      assert x + d == 9 * (q + 1) + (x % 9 + d - 9);
    }
  }

  /** The secondary topics are the main topic's successors in the topic
      list: none repeats the main topic and none repeats another. */
  lemma SecondaryTopicsDistinct(id: string)
    ensures MainTopic(id) !in SecondaryTopics(id)
    ensures Distinct(SecondaryTopics(id))
  {
    TopicsDistinct();
    SuccessorsDistinct(Topics, CodeSum(id), ParagraphCount(id) - 1);
  }

  /** In a cyclic list of nine distinct entries, fewer than nine successors
      of a position neither repeat its entry nor each other. */
  lemma SuccessorsDistinct<T>(xs: seq<T>, x: nat, n: nat)
    requires |xs| == 9 && Distinct(xs) && n < 9
    ensures xs[x % 9] !in Successors(xs, x, n)
    ensures Distinct(Successors(xs, x, n))
  {
    var ys := Successors(xs, x, n);
    forall a | 0 <= a < n
      ensures ys[a] != xs[x % 9]
    {
      assert ys[a] == xs[(x + (a + 1)) % 9];
      ModNine(x, a + 1);
    }
    forall a, b | 0 <= a < b < n
      ensures ys[a] != ys[b]
    {
      assert ys[a] == xs[(x + a + 1) % 9];
      assert ys[b] == xs[(x + a + 1 + (b - a)) % 9];
      ModNine(x + a + 1, b - a);
    }
  }

  /** The secondary-topic paragraphs, numbered from `start`. */
  function Mentions(topics: seq<string>, start: nat): (ps: seq<string>)
    ensures |ps| == |topics|
  {
    seq(|topics|, i requires 0 <= i < |topics| => Mention(topics[i], start + i))
  }

  lemma MentionsCons(topics: seq<string>, start: nat)
    requires |topics| > 0
    ensures Mentions(topics, start) == [Mention(topics[0], start)] + Mentions(topics[1..], start + 1)
  {
    var l := Mentions(topics, start);
    var r := [Mention(topics[0], start)] + Mentions(topics[1..], start + 1);
    assert |l| == |r|;
    forall i | 0 <= i < |l|
      ensures l[i] == r[i]
    {
      if i > 0 {
        assert r[i] == Mentions(topics[1..], start + 1)[i - 1];
      }
    }
  }

  lemma MentionHasNoNewline(topic: string, index: nat)
    requires NoNewline(topic)
    ensures NoNewline(Mention(topic, index))
  {
    OpeningSentencesHaveNoNewline();
    MentionSentencesHaveNoNewline();
    NoNewlineCat(MentionLead, topic);
    NoNewlineCat(MentionLead + topic, FullStop);
    NoNewlineCat(MentionLead + topic + FullStop, Related);
    NoNewlineCat(Practical, Techniques);
    NoNewlineCat(MentionLead + topic + FullStop + Related, if index % 2 == 0 then Examples else Practical + Techniques);
  }

  /** The body is the mention paragraphs, each after a blank line. */
  lemma {:induction false} BodyIsPrefixed(topics: seq<string>, start: nat)
    ensures Body(topics, start) == Prefixed(Mentions(topics, start), "\n\n")
    decreases |topics|
  {
    if |topics| > 0 {
      var ms := Mentions(topics, start);
      MentionsCons(topics, start);
      BodyIsPrefixed(topics[1..], start + 1);
      assert ms[1..] == Mentions(topics[1..], start + 1);
    }
  }

  /** Splitting the opening, the mention paragraphs and what follows on
      blank lines yields the opening, then each mention paragraph in turn. */
  lemma SplitBody(head: string, topics: seq<string>, start: nat, tail: string)
    requires NoNewline(head)
    requires forall k :: 0 <= k < |topics| ==> NoNewline(topics[k])
    ensures Split(head + (Body(topics, start) + ("\n\n" + tail)), "\n\n")
         == [head] + Mentions(topics, start) + Split(tail, "\n\n")
  {
    BodyIsPrefixed(topics, start);
    MentionsAreLines(topics, start);
    BlankLineFree(head);
    SplitPrefixed(head, Mentions(topics, start), "\n\n", tail);
  }

  lemma {:induction false} MentionsAreLines(topics: seq<string>, start: nat)
    requires forall k :: 0 <= k < |topics| ==> NoNewline(topics[k])
    ensures forall k :: 0 <= k < |topics| ==> "\n\n"[0] !in Mentions(topics, start)[k]
    decreases |topics|
  {
    if |topics| > 0 {
      MentionsCons(topics, start);
      MentionIsLine(topics[0], start);
      MentionsAreLines(topics[1..], start + 1);
      ConsFree("\n\n"[0], Mention(topics[0], start), Mentions(topics[1..], start + 1));
    }
  }

  lemma MentionIsLine(topic: string, index: nat)
    requires NoNewline(topic)
    ensures "\n\n"[0] !in Mention(topic, index)
  {
    MentionHasNoNewline(topic, index);
    BlankLineFree(Mention(topic, index));
  }

  lemma ConsFree<T>(c: T, x: seq<T>, xs: seq<seq<T>>)
    requires c !in x
    requires forall k :: 0 <= k < |xs| ==> c !in xs[k]
    ensures forall k :: 0 <= k < |[x] + xs| ==> c !in ([x] + xs)[k]
  {
    forall k | 0 <= k < |[x] + xs|
      ensures c !in ([x] + xs)[k]
    {
      if k > 0 {
        assert ([x] + xs)[k] == xs[k - 1];
      }
    }
  }

  lemma BlankLineFree(s: string)
    requires NoNewline(s)
    ensures "\n\n"[0] !in s
  {
  }

  lemma LastOf(x: string, y: string)
    requires |y| > 0
    ensures |x + y| > 0 && (x + y)[|x + y| - 1] == y[|y| - 1]
  {
  }

  /** `trim` leaves the framed text alone: it opens with a letter and
      closes with a full stop. */
  lemma FrameIsTrimmed(main: string, body: string)
    ensures Trim(Framed(main, body)) == Framed(main, body)
  {
    var u := Framed(main, body);
    var closing := Closing(main);
    LastOf(FarewellStart, SignOff);
    LastOf(ConclusionLead + main + FullStop + Insights, Farewell);
    LastOf("\n\n", closing);
    LastOf(body, "\n\n" + closing);
    LastOf(Opening(main), body + ("\n\n" + closing));
    assert u[|u| - 1] == '.';
    assert u[0] == Lead[0] == 'T';
    TrimIdentity(u);
  }

  lemma PrefixOfCat(x: string, y: string)
    ensures HasPrefix(x + y, x)
  {
    assert (x + y)[..|x|] == x;
  }

  lemma PrefixExtend(x: string, y: string, p: string)
    requires HasPrefix(x, p)
    ensures HasPrefix(x + y, p)
  {
    assert (x + y)[..|p|] == x[..|p|];
  }

  lemma SuffixOfCat(x: string, y: string)
    ensures HasSuffix(x + y, y)
  {
    assert (x + y)[|x + y| - |y|..] == y;
  }

  lemma SuffixExtend(x: string, y: string, p: string)
    requires HasSuffix(y, p)
    ensures HasSuffix(x + y, p)
  {
    assert (x + y)[|x + y| - |p|..] == y[|y| - |p|..];
  }

  /** The transcript opens by naming the main topic and closes with the
      sign-off. */
  lemma TranscriptFrame(id: string)
    ensures HasPrefix(Transcript(id), "This video is about " + MainTopic(id) + ". ")
    ensures HasSuffix(Transcript(id), "for more content.")
  {
    TranscriptIsUntrimmed(id);
    FramedText(Transcript(id), MainTopic(id), Body(SecondaryTopics(id), 0));
  }

  /** Any framed text opens with the heading and closes with the sign-off. */
  lemma FramedText(t: string, main: string, body: string)
    requires t == Framed(main, body)
    ensures HasPrefix(t, "This video is about " + main + ". ")
    ensures HasSuffix(t, "for more content.")
  {
    FrameOpens(main, body);
    FrameCloses(main, body);
  }

  lemma FrameOpens(main: string, body: string)
    ensures HasPrefix(Framed(main, body), Heading(main))
  {
    PrefixOfCat(Heading(main), Considerations);
    PrefixExtend(Opening(main), body + ("\n\n" + Closing(main)), Heading(main));
  }

  lemma FrameCloses(main: string, body: string)
    ensures HasSuffix(Framed(main, body), SignOff)
  {
    var closing := Closing(main);
    SuffixOfCat(FarewellStart, SignOff);
    SuffixExtend(ConclusionLead + main + FullStop + Insights, Farewell, SignOff);
    SuffixExtend("\n\n", closing, SignOff);
    SuffixExtend(body, "\n\n" + closing, SignOff);
    SuffixExtend(Opening(main), body + ("\n\n" + closing), SignOff);
  }

  lemma FramesHaveNoNewline(main: string)
    requires NoNewline(main)
    ensures NoNewline(Opening(main)) && NoNewline(Closing(main))
  {
    OpeningSentencesHaveNoNewline();
    ClosingSentencesHaveNoNewline();
    NoNewlineCat(Lead, main);
    NoNewlineCat(Lead + main, FullStop);
    NoNewlineCat(Heading(main), Considerations);
    NoNewlineCat(ConclusionLead, main);
    NoNewlineCat(ConclusionLead + main, FullStop);
    NoNewlineCat(ConclusionLead + main + FullStop, Insights);
    NoNewlineCat(ConclusionLead + main + FullStop + Insights, Farewell);
  }

  lemma ChosenTopicsHaveNoNewline(id: string)
    ensures NoNewline(MainTopic(id))
    ensures forall k :: 0 <= k < |SecondaryTopics(id)| ==> NoNewline(SecondaryTopics(id)[k])
  {
    TopicsHaveNoNewline();
    SuccessorsKeep(Topics, CodeSum(id), ParagraphCount(id) - 1, NoNewline);
  }

  /** Split on blank lines, the transcript is the opening paragraph, one
      paragraph per secondary topic in order, and the closing paragraph:
      `ParagraphCount(id) + 1` paragraphs in all. */
  lemma TranscriptParagraphs(id: string)
    ensures Split(Transcript(id), "\n\n")
         == [Opening(MainTopic(id))] + Mentions(SecondaryTopics(id), 0) + [Closing(MainTopic(id))]
    ensures |Split(Transcript(id), "\n\n")| == ParagraphCount(id) + 1
  {
    TranscriptIsUntrimmed(id);
    UntrimmedParagraphs(id);
  }

  lemma UntrimmedParagraphs(id: string)
    ensures Split(Untrimmed(id), "\n\n")
         == [Opening(MainTopic(id))] + Mentions(SecondaryTopics(id), 0) + [Closing(MainTopic(id))]
  {
    ChosenTopicsHaveNoNewline(id);
    var main := MainTopic(id);
    FramesHaveNoNewline(main);
    SplitBody(Opening(main), SecondaryTopics(id), 0, Closing(main));
    ClosingIsOneParagraph(main);
  }

  lemma ClosingIsOneParagraph(main: string)
    requires NoNewline(main)
    ensures Split(Closing(main), "\n\n") == [Closing(main)]
  {
    FramesHaveNoNewline(main);
    BlankLineFree(Closing(main));
    SplitFree(Closing(main), "\n\n");
  }

  // ---------------------------------------------------------------------
  // extractYoutubeTranscript
  // ---------------------------------------------------------------------

  /** For a URL that passed the URL check, the extractor fails either on
      the YouTube shape or on the missing video id. */
  lemma ExtractErrorsAfterUrlCheck(url: string, isUrl: string -> bool)
    requires isUrl(url)
    ensures ExtractTranscript(url, isUrl, false).Err? ==>
      ExtractTranscript(url, isUrl, false).error in {ValidationMessage(["Invalid YouTube URL format"]), NoVideoId}
  {
    assert UrlIssues(url, isUrl) == [] + (if MatchesShape(url) then [] else ["Invalid YouTube URL format"]);
  }

  /** `extractYoutubeTranscript(url, validateOnly)`. The URL checks come
      first, then the ID, then the validate-only short cut. */
  function ExtractTranscript(url: string, isUrl: string -> bool, validateOnly: bool): (r: Result<string, string>)
    ensures !(isUrl(url) && MatchesShape(url)) ==> r == Err(ValidationMessage(UrlIssues(url, isUrl)))
    ensures isUrl(url) && MatchesShape(url) && (VideoId(url).None? || VideoId(url).value == [])
      ==> r == Err(NoVideoId)
    ensures r.Ok? <==> isUrl(url) && MatchesShape(url) && VideoId(url).Some? && VideoId(url).value != []
    ensures r.Ok? && validateOnly ==> r.value == ValidMarker
    ensures r.Ok? && !validateOnly ==> r.value == Transcript(VideoId(url).value)
  {
    var issues := UrlIssues(url, isUrl);
    if |issues| > 0 then Err(ValidationMessage(issues))
    else match VideoId(url)
      case None => Err(NoVideoId)
      case Some(id) =>
        if id == [] then Err(NoVideoId)
        else if validateOnly then Ok(ValidMarker)
        else Ok(Transcript(id))
  }
}
