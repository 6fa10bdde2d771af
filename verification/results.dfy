/** The results panel: which of spinner, error alert and result card it
    shows, how the card lays out a summary, and the text the copy button
    puts on the clipboard. */
module Results {
  import opened Wrappers
  import opened Strings
  import opened Schema

  /** The result card: the source as a link or as plain text, the summary
      as paragraphs, and the key points as list items. */
  datatype Card = Card(source: string, sourceIsLink: bool, paragraphs: seq<string>, keyPoints: seq<string>)

  datatype View = View(spinner: bool, errorAlert: Option<string>, card: Option<Card>)

  /** The card for a result: a source starting with `http` becomes a link,
      and the summary is split at every newline. */
  function CardOf(r: SummaryResponse): (c: Card)
    ensures c.source == r.source
    ensures c.sourceIsLink <==> |r.source| >= 4 && r.source[..4] == "http"
    ensures |c.paragraphs| >= 1 && |c.paragraphs| == |Split(r.summary, "\n")|
    ensures Join(c.paragraphs, "\n") == r.summary
    ensures forall k :: 0 <= k < |c.paragraphs| ==> '\n' !in c.paragraphs[k]
    ensures c.keyPoints == r.keyPoints
  {
    var ps := Split(r.summary, "\n");
    JoinSplit(r.summary, "\n");
    ParagraphsHaveNoNewline(r.summary);
    Card(r.source, HasPrefix(r.source, "http"), ps, r.keyPoints)
  }

  /** No piece of a split at newlines holds a newline. */
  lemma ParagraphsHaveNoNewline(s: string)
    ensures forall k :: 0 <= k < |Split(s, "\n")| ==> '\n' !in Split(s, "\n")[k]
  {
    var ps := Split(s, "\n");
    forall k | 0 <= k < |ps|
      ensures '\n' !in ps[k]
    {
      SplitPiecesFree(s, "\n", k);
      ContainsSingle(ps[k], '\n');
    }
  }

  /** The panel for the loading flag, the result and the error. */
  function Render(loading: bool, result: Option<SummaryResponse>, error: Option<string>): (v: View)
    ensures v.spinner <==> loading
    ensures v.errorAlert.Some? <==> !loading && Truthy(error)
    ensures v.errorAlert.Some? ==> v.errorAlert == error
    ensures v.card.Some? <==> !loading && !Truthy(error) && result.Some?
    ensures v.card.Some? ==> v.card.value == CardOf(result.value)
    ensures !(v.errorAlert.Some? && v.card.Some?)
    ensures v.spinner ==> v.errorAlert.None? && v.card.None?
  {
    View(
      loading,
      if !loading && Truthy(error) then error else None,
      if !loading && !Truthy(error) && result.Some? then Some(CardOf(result.value)) else None)
  }

  /** `"- " + point` for every key point. */
  function Bullets(kp: seq<string>): (bs: seq<string>)
    ensures |bs| == |kp|
    ensures forall i :: 0 <= i < |kp| ==> bs[i] == "- " + kp[i]
  {
    seq(|kp|, i requires 0 <= i < |kp| => "- " + kp[i])
  }

  const SummaryHeading := "Summary:"
  const KeyPointsHeading := "Key Points:"

  /** The clipboard text of a result. */
  function CopyTextOf(r: SummaryResponse): string {
    SummaryHeading + ("\n" + (r.summary + ("\n" + ("" + ("\n" + (KeyPointsHeading + ("\n" + Join(Bullets(r.keyPoints), "\n"))))))))
  }

  /** `handleCopy`: nothing to copy without a result. */
  function CopyText(result: Option<SummaryResponse>): (t: Option<string>)
    ensures t.Some? <==> result.Some?
    ensures t.Some? ==> t.value == "Summary:\n" + result.value.summary + "\n\nKey Points:\n" + Join(Bullets(result.value.keyPoints), "\n")
    ensures t.Some? ==> HasPrefix(t.value, "Summary:\n" + result.value.summary + "\n\nKey Points:\n")
  {
    match result
    case None => None
    case Some(r) =>
      assert CopyTextOf(r) == ("Summary:\n" + r.summary + "\n\nKey Points:\n") + Join(Bullets(r.keyPoints), "\n");
      Some(CopyTextOf(r))
  }

  /** Splitting at a newline between two texts splits each side. */
  lemma SplitAtNewline(a: string, b: string)
    ensures Split(a + ("\n" + b), "\n") == Split(a, "\n") + Split(b, "\n")
  {
    assert a + ("\n" + b) == a + ['\n'] + b;
    SplitAppend(a, '\n', b);
  }

  /** A text without newlines is a single line. */
  lemma OneLine(a: string)
    requires '\n' !in a
    ensures Split(a, "\n") == [a]
  {
    SplitFree(a, "\n");
  }

  /** The bullet list reads back as one line per key point. */
  lemma BulletLines(kp: seq<string>)
    requires forall i :: 0 <= i < |kp| ==> '\n' !in kp[i]
    ensures Split(Join(Bullets(kp), "\n"), "\n") == if kp == [] then [""] else Bullets(kp)
  {
    var bs := Bullets(kp);
    if kp == [] {
      assert Join(bs, "\n") == [];
      OneLine([]);
    } else {
      forall i | 0 <= i < |bs|
        ensures "\n"[0] !in bs[i]
      {
        assert bs[i] == "- " + kp[i];
      }
      SplitJoin(bs, "\n");
    }
  }

  /** Read line by line, the clipboard text is the heading, the summary's
      own lines, a blank line, the second heading and one line per key
      point, in order (an empty list leaves one empty last line). Key
      points with a newline of their own would add lines. */
  lemma CopyTextLines(r: SummaryResponse)
    requires forall i :: 0 <= i < |r.keyPoints| ==> '\n' !in r.keyPoints[i]
    ensures Split(CopyTextOf(r), "\n") ==
      [SummaryHeading] + Split(r.summary, "\n") + ["", KeyPointsHeading]
      + (if r.keyPoints == [] then [""] else Bullets(r.keyPoints))
  {
    var tail := Join(Bullets(r.keyPoints), "\n");
    var t4 := KeyPointsHeading + ("\n" + tail);
    var t3 := "" + ("\n" + t4);
    var t2 := r.summary + ("\n" + t3);
    var bl := if r.keyPoints == [] then [""] else Bullets(r.keyPoints);
    var ls := Split(r.summary, "\n");
    BulletLines(r.keyPoints);
    HeadingsAreLines();
    SplitAtNewline(KeyPointsHeading, tail);
    assert Split(t4, "\n") == [KeyPointsHeading] + bl;
    SplitAtNewline("", t4);
    OneLine("");
    assert Split(t3, "\n") == [""] + ([KeyPointsHeading] + bl);
    SplitAtNewline(r.summary, t3);
    assert Split(t2, "\n") == ls + ([""] + ([KeyPointsHeading] + bl));
    SplitAtNewline(SummaryHeading, t2);
    assert CopyTextOf(r) == SummaryHeading + ("\n" + t2);
    assert Split(CopyTextOf(r), "\n") == [SummaryHeading] + (ls + ([""] + ([KeyPointsHeading] + bl)));
    Regroup(SummaryHeading, ls, "", KeyPointsHeading, bl);
  }

  lemma HeadingsAreLines()
    ensures Split(SummaryHeading, "\n") == [SummaryHeading]
    ensures Split(KeyPointsHeading, "\n") == [KeyPointsHeading]
  {
    OneLine(SummaryHeading);
    OneLine(KeyPointsHeading);
  }

  lemma Regroup<T>(a: T, b: seq<T>, c: T, d: T, e: seq<T>)
    ensures [a] + (b + ([c] + ([d] + e))) == [a] + b + [c, d] + e
  {
    assert [c] + ([d] + e) == [c, d] + e;
  }
}
