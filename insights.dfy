/** The text of one simulated reply: how the view lays out a reply that
    carries no scores as a "Wave Insights" section followed by a "Wave
    Actions" section, and how the result card takes the two sections back
    out of the text. */
module WaveInsights {
  import opened Text

  const SentimentPhrase: string := "sentiment score"
  const AttentionPhrase: string := "attention score"
  const InsightsHeading: string := "Wave Insights"
  const ActionsHeading: string := "Wave Actions"

  /** What the actions panel shows when the text has no actions section. */
  const DefaultActions: string :=
    "Keep your message clear and concise. Focus on the specific problem your solution addresses."

  /** lines.filter(line => line.trim()): the lines that are not blank. */
  function NonBlank(lines: seq<string>): (r: seq<string>)
    ensures |r| <= |lines|
    ensures forall l :: l in r <==> l in lines && Trim(l) != ""
  {
    if lines == [] then []
    else (if Trim(lines[0]) != "" then [lines[0]] else []) + NonBlank(lines[1..])
  }

  /** The non-blank lines of a text, in order. */
  function Lines(text: string): seq<string> {
    NonBlank(Split(text, "\n"))
  }

  /** Where slice(0, -2) ends and slice(-2) starts: two before the end, or
      the start when there are fewer than two. */
  function Cut(n: nat): (c: nat)
    ensures c <= n
    ensures n - c == if n < 2 then n else 2
  {
    if n < 2 then 0 else n - 2
  }

  /** insightsPart: all but the last two non-blank lines, joined by newlines. */
  function InsightsPart(text: string): string {
    var lines := Lines(text);
    Join(lines[..Cut(|lines|)], "\n")
  }

  /** actionsPart: the last two non-blank lines (fewer if there are fewer),
      joined by newlines. */
  function ActionsPart(text: string): string {
    var lines := Lines(text);
    Join(lines[Cut(|lines|)..], "\n")
  }

  /** The template of line 279: the insights heading and part, then the
      actions heading and part, each heading followed by a blank line. */
  function Sections(insightsPart: string, actionsPart: string): string {
    InsightsHeading + "\n\n" + insightsPart + "\n\n" + ActionsHeading + "\n\n" + actionsPart
  }

  /** The reformatting of lines 274-280: a reply that mentions neither score
      becomes an insights section of all but its last two non-blank lines and
      an actions section of those last two; any other reply stays as it is. */
  function FormatInsights(text: string): (insights: string)
    ensures Contains(text, SentimentPhrase) || Contains(text, AttentionPhrase) ==> insights == text
  {
    if !Contains(text, SentimentPhrase) && !Contains(text, AttentionPhrase) then
      Sections(InsightsPart(text), ActionsPart(text))
    else text
  }

  /** The insights panel (line 378): the text before the first "Wave
      Actions", after its last "Wave Insights", trimmed. */
  function RenderedInsights(insights: string): (r: string)
    ensures Trimmed(r)
    ensures !Contains(insights, ActionsHeading) && !Contains(insights, InsightsHeading) ==> r == Trim(insights)
  {
    var before := Split(insights, ActionsHeading)[0];
    var pieces := Split(before, InsightsHeading);
    Trim(pieces[|pieces| - 1])
  }

  /** The actions panel (lines 385-387): the text between the first and the
      second "Wave Actions", trimmed, or the default advice when there is no
      "Wave Actions". */
  function RenderedActions(insights: string): (r: string)
    ensures Contains(insights, ActionsHeading) ==> Trimmed(r)
    ensures !Contains(insights, ActionsHeading) ==> r == DefaultActions
  {
    if Contains(insights, ActionsHeading) then Trim(Split(insights, ActionsHeading)[1])
    else DefaultActions
  }

  // ------------------------------------------------------------ properties

  /** Cutting a list of more than two lines two before the end and joining
      the halves with a newline between gives the whole list joined. */
  lemma CutJoin(lines: seq<string>)
    requires |lines| > 2
    ensures Join(lines[..Cut(|lines|)], "\n") + "\n" + Join(lines[Cut(|lines|)..], "\n") == Join(lines, "\n")
  {
    var cut := Cut(|lines|);
    assert lines == lines[..cut] + lines[cut..];
    JoinAppend(lines[..cut], lines[cut..], "\n");
  }

  /** With more than two non-blank lines, the two parts are all of them:
      the insights part, a newline, then the actions part (exactly the last
      two lines) give back every non-blank line in order. */
  lemma PartsCoverLines(text: string)
    requires |Lines(text)| > 2
    ensures InsightsPart(text) + "\n" + ActionsPart(text) == Join(Lines(text), "\n")
    ensures |Lines(text)[Cut(|Lines(text)|)..]| == 2
  {
    CutJoin(Lines(text));
  }

  /** Every non-blank line of a text that avoids p avoids p. */
  lemma LinesAvoid(text: string, p: string)
    requires !Contains(text, p)
    ensures forall l :: l in Lines(text) ==> !Contains(l, p)
  {
    SplitPiecesAvoid(text, "\n", p);
    forall l | l in Lines(text)
      ensures !Contains(l, p)
    {
      var k :| 0 <= k < |Split(text, "\n")| && Split(text, "\n")[k] == l;
    }
  }

  /** Joining a run of those lines with newlines still avoids p. */
  lemma JoinedAvoids(text: string, lo: nat, hi: nat, p: string)
    requires lo <= hi <= |Lines(text)|
    requires |p| > 0 && '\n' !in p && !Contains(text, p)
    ensures !Contains(Join(Lines(text)[lo..hi], "\n"), p)
  {
    var run := Lines(text)[lo..hi];
    LinesAvoid(text, p);
    forall k | 0 <= k < |run|
      ensures !Contains(run[k], p)
    {
      assert run[k] in Lines(text);
    }
    JoinAvoids(run, '\n', p);
  }

  /** The two parts of a text that avoids p avoid p. */
  lemma PartsAvoid(text: string, p: string)
    requires |p| > 0 && '\n' !in p && !Contains(text, p)
    ensures !Contains(InsightsPart(text), p) && !Contains(ActionsPart(text), p)
  {
    var lines := Lines(text);
    var cut := Cut(|lines|);
    JoinedAvoids(text, 0, cut, p);
    JoinedAvoids(text, cut, |lines|, p);
    assert lines[cut..|lines|] == lines[cut..];
  }

  /** Newlines around a text that avoids p (p longer than one character,
      without newlines) do not create an occurrence of p. */
  lemma PaddedAvoids(x: string, p: string)
    requires |p| > 1 && '\n' !in p && !Contains(x, p)
    ensures !Contains("\n" + x, p) && !Contains("\n\n" + x, p)
    ensures !Contains(x + "\n\n", p) && !Contains("\n" + x + "\n\n", p)
    ensures !Contains("\n\n" + x + "\n\n", p)
  {
    var nl: string := "\n";
    assert !Contains(nl, p) && !Contains([], p);
    assert "\n" + x == [] + ['\n'] + x;
    if Contains("\n" + x, p) { ContainsAcross([], '\n', x, p); }
    assert "\n\n" + x == [] + ['\n'] + ("\n" + x);
    if Contains("\n\n" + x, p) { ContainsAcross([], '\n', "\n" + x, p); }
    assert x + "\n\n" == x + ['\n'] + nl;
    if Contains(x + "\n\n", p) { ContainsAcross(x, '\n', nl, p); }
    assert "\n" + x + "\n\n" == [] + ['\n'] + (x + "\n\n");
    if Contains("\n" + x + "\n\n", p) { ContainsAcross([], '\n', x + "\n\n", p); }
    assert "\n\n" + x + "\n\n" == [] + ['\n'] + ("\n" + x + "\n\n");
    if Contains("\n\n" + x + "\n\n", p) { ContainsAcross([], '\n', "\n" + x + "\n\n", p); }
  }

  /** The headings are single lines of more than one character. */
  lemma HeadingsSingleLine()
    ensures |InsightsHeading| > 1 && '\n' !in InsightsHeading
    ensures |ActionsHeading| > 1 && '\n' !in ActionsHeading
  {
  }

  /** The insights heading does not contain the actions heading. */
  lemma HeadingsDiffer()
    ensures !Contains(InsightsHeading, ActionsHeading)
  {
    assert InsightsHeading[5] != ActionsHeading[5];
    assert InsightsHeading[1..13][0] != ActionsHeading[0];
  }

  /** A reply with a score phrase is kept as it is; when it has no section
      headings, the insights panel shows the whole reply trimmed and the
      actions panel the default advice. */
  lemma RawReply(text: string)
    requires Contains(text, SentimentPhrase) || Contains(text, AttentionPhrase)
    requires !Contains(text, InsightsHeading) && !Contains(text, ActionsHeading)
    ensures FormatInsights(text) == text
    ensures RenderedInsights(text) == Trim(text)
    ensures RenderedActions(text) == DefaultActions
  {
  }

  /** Two parts that avoid "Wave Actions" put into the template give a text
      with exactly one "Wave Actions": splitting there gives the heading and
      insights part before it and the actions part after it. */
  lemma SplitSections(ins: string, act: string)
    requires !Contains(ins, ActionsHeading) && !Contains(act, ActionsHeading)
    ensures Contains(Sections(ins, act), ActionsHeading)
    ensures Split(Sections(ins, act), ActionsHeading) == [InsightsHeading + "\n\n" + ins + "\n\n", "\n\n" + act]
  {
    PaddedAvoids(ins, ActionsHeading);
    PaddedAvoids(act, ActionsHeading);
    var before := InsightsHeading + "\n\n" + ins + "\n\n";
    var after := "\n\n" + act;
    var out := Sections(ins, act);
    assert out == before + ActionsHeading + after;
    assert !Contains(before, ActionsHeading) by {
      HeadingsDiffer();
      assert before == InsightsHeading + ['\n'] + ("\n" + ins + "\n\n");
      if Contains(before, ActionsHeading) {
        ContainsAcross(InsightsHeading, '\n', "\n" + ins + "\n\n", ActionsHeading);
      }
    }
    NoMatchBeforeEnd(before, ActionsHeading + after, ActionsHeading);
    assert before + ActionsHeading + after == before + (ActionsHeading + after);
    SplitAtFirst(before, ActionsHeading, after);
    ContainsAt(out, ActionsHeading, |before|);
  }

  /** The actions panel shows the actions part of the template, trimmed. */
  lemma RenderActionsSection(ins: string, act: string)
    requires !Contains(ins, ActionsHeading) && !Contains(act, ActionsHeading)
    ensures RenderedActions(Sections(ins, act)) == Trim(act)
  {
    SplitSections(ins, act);
    TrimIgnoresSpace("\n\n", act, []);
    assert "\n\n" + act + [] == "\n\n" + act;
  }

  /** The text before "Wave Actions" in the template holds one "Wave
      Insights", at its start, when the insights part holds none. */
  lemma SplitInsightsSection(ins: string)
    requires !Contains(ins, InsightsHeading)
    ensures Split(InsightsHeading + "\n\n" + ins + "\n\n", InsightsHeading) == [[], "\n\n" + ins + "\n\n"]
  {
    PaddedAvoids(ins, InsightsHeading);
    var padded := "\n\n" + ins + "\n\n";
    var none: string := [];
    assert InsightsHeading + "\n\n" + ins + "\n\n" == none + InsightsHeading + padded;
    SplitAtFirst(none, InsightsHeading, padded);
    assert IndexOf(padded, InsightsHeading) == -1;
    assert Split(padded, InsightsHeading) == [padded];
  }

  /** The insights panel shows the insights part of the template, trimmed. */
  lemma RenderInsightsSection(ins: string, act: string)
    requires !Contains(ins, ActionsHeading) && !Contains(act, ActionsHeading)
    requires !Contains(ins, InsightsHeading)
    ensures RenderedInsights(Sections(ins, act)) == Trim(ins)
  {
    SplitSections(ins, act);
    SplitInsightsSection(ins);
    TrimIgnoresSpace("\n\n", ins, "\n\n");
  }

  /** The round trip of a reply with no scores and no section headings of
      its own: the panels show exactly the two parts the reformatting wrote,
      trimmed: all but the last two non-blank lines as insights, the last
      two as actions. */
  lemma FormatRenderRoundTrip(text: string)
    requires !Contains(text, SentimentPhrase) && !Contains(text, AttentionPhrase)
    requires !Contains(text, InsightsHeading) && !Contains(text, ActionsHeading)
    ensures RenderedInsights(FormatInsights(text)) == Trim(InsightsPart(text))
    ensures RenderedActions(FormatInsights(text)) == Trim(ActionsPart(text))
  {
    var ins := InsightsPart(text);
    var act := ActionsPart(text);
    assert FormatInsights(text) == Sections(ins, act);
    HeadingsSingleLine();
    PartsAvoid(text, ActionsHeading);
    PartsAvoid(text, InsightsHeading);
    assert RenderedActions(Sections(ins, act)) == Trim(act) by {
      RenderActionsSection(ins, act);
    }
    assert RenderedInsights(Sections(ins, act)) == Trim(ins) by {
      RenderInsightsSection(ins, act);
    }
  }
}
