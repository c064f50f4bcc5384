/**
 * How the dashboard composes the stages: the signals feed the urgency score,
 * and the score feeds the campaign copy.
 */
module Pipeline {
  import opened Wrappers
  import Sentiment
  import Content

  /**
   * With both collaborators failing, the signals are no snippets and a zero
   * trend, the urgency is the neutral 0.5, and the copy is the update tier.
   */
  lemma BothCallsFailed(analyzer: string -> Sentiment.Label, newsError: Sentiment.CallError,
                        trendError: Sentiment.CallError, crisisName: string)
    ensures var signals := Sentiment.FetchSignals(Failure(newsError), Failure(trendError));
      var urgency := Sentiment.CalculateUrgency(analyzer, signals.0);
      signals == ([], 0) && urgency == 0.5 &&
      Content.GenerateCopy(0, urgency, crisisName, 50).headline == "Update on Crisis: Help " + crisisName + " Victims" &&
      Content.GenerateCopy(0, urgency, crisisName, 50).ask == "Please donate $50."
  {
    var urgency := Sentiment.CalculateUrgency(analyzer, []);
    assert Content.SelectTier(urgency) == Content.Update;
    assert Content.IntToString(50) == "50";
  }
}
