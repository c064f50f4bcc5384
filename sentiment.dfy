/**
 * The signal aggregator of the sentiment engine: the urgency score computed
 * from classified news snippets, and the two pure reductions that turn the
 * news and search-trend responses into a snippet list and a trend score.
 * The sentiment classifier is an oracle that labels one text at a time; the
 * two network calls are abstract inputs that either succeed with a payload
 * or fail.
 */
module Sentiment {
  import opened Wrappers

  /** A label as the classifier reports it, e.g. "POSITIVE" or "NEGATIVE". */
  type Label = string

  const NegativeLabel: Label := "NEGATIVE"

  /** At most this many snippets are sent to the classifier. */
  const MaxScored: nat := 10

  /** The score of an empty batch. */
  const NeutralUrgency: real := 0.5

  function Min(a: nat, b: nat): nat { if a <= b then a else b }

  /** The snippets that are actually scored: the first ten. */
  function Scored(texts: seq<string>): (s: seq<string>)
    ensures |s| <= MaxScored && |s| <= |texts|
    ensures |texts| <= MaxScored ==> s == texts
    ensures |texts| > MaxScored ==> |s| == MaxScored
    ensures forall i :: 0 <= i < |s| ==> s[i] == texts[i]
  {
    texts[..Min(|texts|, MaxScored)]
  }

  /** One label per input text, in input order. */
  function Classify(analyzer: string -> Label, texts: seq<string>): (labels: seq<Label>)
    ensures |labels| == |texts|
    ensures forall i :: 0 <= i < |texts| ==> labels[i] == analyzer(texts[i])
  {
    seq(|texts|, i requires 0 <= i < |texts| => analyzer(texts[i]))
  }

  /** The number of NEGATIVE labels, summed over the results in order. */
  function NegCount(labels: seq<Label>): (n: nat)
    ensures n <= |labels|
  {
    if labels == [] then 0
    else NegCount(labels[..|labels| - 1]) + (if labels[|labels| - 1] == NegativeLabel then 1 else 0)
  }

  /** The indices of the NEGATIVE labels: an independent account of the count. */
  function NegativeIndices(labels: seq<Label>): set<nat> {
    set i: nat | i < |labels| && labels[i] == NegativeLabel
  }

  /** The fraction of NEGATIVE labels among a non-empty list of results. */
  function ScoreLabels(results: seq<Label>): (score: real)
    requires |results| > 0
    ensures 0.0 <= score <= 1.0
    ensures score == 0.0 <==> forall i :: 0 <= i < |results| ==> results[i] != NegativeLabel
  {
    NegCountZero(results);
    FractionBounds(NegCount(results), |results|);
    NegCount(results) as real / |results| as real
  }

  /**
   * The urgency score of a batch of snippets: 0.5 for an empty batch,
   * otherwise the fraction of the first ten snippets labelled NEGATIVE.
   */
  function CalculateUrgency(analyzer: string -> Label, texts: seq<string>): (urgency: real)
    ensures texts == [] ==> urgency == NeutralUrgency
    ensures 0.0 <= urgency <= 1.0
  {
    if texts == [] then NeutralUrgency
    else ScoreLabels(Classify(analyzer, Scored(texts)))
  }

  lemma {:induction false} NegCountZero(labels: seq<Label>)
    ensures NegCount(labels) == 0 <==> forall i :: 0 <= i < |labels| ==> labels[i] != NegativeLabel
  {
    if labels != [] {
      var init := labels[..|labels| - 1];
      NegCountZero(init);
      assert forall i :: 0 <= i < |init| ==> init[i] == labels[i];
    }
  }

  /** The recursive count is the number of indices holding a NEGATIVE label. */
  lemma {:induction false} NegCountIsCardinality(labels: seq<Label>)
    ensures NegCount(labels) == |NegativeIndices(labels)|
  {
    if labels != [] {
      var n := |labels| - 1;
      var init := labels[..n];
      NegCountIsCardinality(init);
      if labels[n] == NegativeLabel {
        assert NegativeIndices(labels) == NegativeIndices(init) + {n};
      } else {
        assert NegativeIndices(labels) == NegativeIndices(init);
      }
    }
  }

  /**
   * A non-empty batch scores (number of NEGATIVE labels among the first
   * min(len, 10) texts) / min(len, 10).
   */
  lemma UrgencyIsNegativeFraction(analyzer: string -> Label, texts: seq<string>)
    requires texts != []
    ensures var n := Min(|texts|, MaxScored);
      CalculateUrgency(analyzer, texts)
        == |set i: nat | i < n && analyzer(texts[i]) == NegativeLabel| as real / n as real
  {
    var n := Min(|texts|, MaxScored);
    var labels := Classify(analyzer, Scored(texts));
    NegCountIsCardinality(labels);
    assert NegativeIndices(labels) == set i: nat | i < n && analyzer(texts[i]) == NegativeLabel;
  }

  /** Texts at index 10 or later never affect the score. */
  lemma UrgencyIgnoresTail(analyzer: string -> Label, texts: seq<string>, rest: seq<string>)
    requires |texts| >= MaxScored
    ensures CalculateUrgency(analyzer, texts + rest) == CalculateUrgency(analyzer, texts)
  {
    assert Scored(texts + rest) == Scored(texts);
  }

  /** Turning one NEGATIVE result into another label lowers the count by exactly one. */
  lemma {:induction false} NegCountRelabel(labels: seq<Label>, i: nat, l: Label)
    requires i < |labels| && labels[i] == NegativeLabel && l != NegativeLabel
    ensures NegCount(labels[i := l]) == NegCount(labels) - 1
  {
    var n := |labels| - 1;
    var relabelled := labels[i := l];
    assert relabelled[..n] == if i == n then labels[..n] else labels[..n][i := l];
    if i < n {
      NegCountRelabel(labels[..n], i, l);
    }
  }

  /**
   * Relabelling one scored NEGATIVE result as non-NEGATIVE, with the number of
   * results unchanged, lowers the score by one result's share, so it never rises.
   */
  lemma RelabelLowersScore(results: seq<Label>, i: nat, l: Label)
    requires i < |results| && results[i] == NegativeLabel && l != NegativeLabel
    ensures ScoreLabels(results[i := l]) == ScoreLabels(results) - 1.0 / |results| as real
    ensures ScoreLabels(results[i := l]) < ScoreLabels(results)
  {
    NegCountRelabel(results, i, l);
    var c, d := NegCount(results), |results|;
    assert ScoreLabels(results[i := l]) == (c - 1) as real / d as real;
    ShareOfOneLess(c, d);
  }

  lemma ShareOfOneLess(c: nat, d: nat)
    requires 1 <= c && 0 < d
    ensures (c - 1) as real / d as real == c as real / d as real - 1.0 / d as real
    ensures 1.0 / d as real > 0.0
  {
  }

  /** A pointwise smaller set of NEGATIVE labels gives a count no larger. */
  lemma {:induction false} NegCountMonotone(fewer: seq<Label>, more: seq<Label>)
    requires |fewer| == |more|
    requires forall i :: 0 <= i < |fewer| && fewer[i] == NegativeLabel ==> more[i] == NegativeLabel
    ensures NegCount(fewer) <= NegCount(more)
  {
    if fewer != [] {
      var n := |fewer| - 1;
      NegCountMonotone(fewer[..n], more[..n]);
    }
  }

  /**
   * If every scored text the first classifier calls NEGATIVE is also NEGATIVE
   * for the second, the first never gives the higher score.
   */
  lemma UrgencyMonotone(calmer: string -> Label, harsher: string -> Label, texts: seq<string>)
    requires forall i :: 0 <= i < |texts| && calmer(texts[i]) == NegativeLabel ==> harsher(texts[i]) == NegativeLabel
    ensures CalculateUrgency(calmer, texts) <= CalculateUrgency(harsher, texts)
  {
    if texts != [] {
      var s := Scored(texts);
      var fewer, more := Classify(calmer, s), Classify(harsher, s);
      assert forall i :: 0 <= i < |s| ==> fewer[i] == calmer(texts[i]) && more[i] == harsher(texts[i]);
      NegCountMonotone(fewer, more);
      DivideMonotone(NegCount(fewer) as real, NegCount(more) as real, |s| as real);
    }
  }

  lemma FractionBounds(n: nat, d: nat)
    requires 0 < d && n <= d
    ensures 0.0 <= n as real / d as real <= 1.0
    ensures n as real / d as real == 0.0 <==> n == 0
  {
    DivideMonotone(n as real, d as real, d as real);
  }

  lemma DivideMonotone(x: real, y: real, d: real)
    requires x <= y && d > 0.0
    ensures x / d <= y / d
  {
  }

  // ---------------------------------------------------------------------
  // News articles
  // ---------------------------------------------------------------------

  /** A key of a decoded JSON article: absent, null, or a string. */
  datatype JsonField = Absent | Null | Text(s: string)

  datatype Article = Article(title: JsonField, description: JsonField)

  /** The decoded news response; `articles` is None when the key is absent. */
  datatype NewsPayload = NewsPayload(articles: Option<seq<Article>>)

  /** Any exception raised by a network call (timeout, bad JSON, auth failure). */
  datatype CallError = CallError(message: string)

  /** Python truthiness of the title: a non-empty string. */
  predicate Kept(a: Article) {
    a.title.Text? && a.title.s != ""
  }

  /** Evaluating the comprehension on this article raises KeyError. */
  predicate Raises(a: Article) {
    a.title.Absent? || (Kept(a) && a.description.Absent?)
  }

  /** How an f-string renders a present field: None prints as "None". */
  function Render(f: JsonField): (r: string)
    requires !f.Absent?
    ensures f.Null? ==> r == "None"
    ensures f.Text? ==> r == f.s
  {
    match f
    case Null => "None"
    case Text(s) => s
  }

  /** The snippet for a kept article: title, one space, description. */
  function Format(a: Article): string
    requires Kept(a) && !a.description.Absent?
  {
    a.title.s + " " + Render(a.description)
  }

  /**
   * A snippet splits back into its parts: the title, one space, then the
   * description as rendered.
   */
  lemma FormatParts(a: Article)
    requires Kept(a) && !a.description.Absent?
    ensures var r := Format(a); var t := a.title.s;
      |r| > |t| && r[..|t|] == t && r[|t|] == ' ' && r[|t| + 1..] == Render(a.description)
  {
    var r := Format(a);
    var t := a.title.s;
    assert r == t + " " + Render(a.description);
    assert r[..|t|] == t;
    assert r[|t| + 1..] == Render(a.description);
  }

  /**
   * The article comprehension: the formatted kept articles, in order, or
   * None when evaluating it raises.
   */
  function ArticleTexts(arts: seq<Article>): (r: Option<seq<string>>)
    ensures r.Some? ==> |r.value| <= |arts|
  {
    if arts == [] then Some([])
    else
      var init := ArticleTexts(arts[..|arts| - 1]);
      var a := arts[|arts| - 1];
      if Raises(a) || init.None? then None
      else if Kept(a) then Some(init.value + [Format(a)])
      else init
  }

  /** The indices of the kept articles, in increasing order. */
  function KeptIndices(arts: seq<Article>): (idx: seq<nat>)
    ensures |idx| <= |arts|
    ensures forall k :: 0 <= k < |idx| ==> idx[k] < |arts| && Kept(arts[idx[k]])
    ensures forall k, m :: 0 <= k < m < |idx| ==> idx[k] < idx[m]
    ensures forall j :: 0 <= j < |arts| && Kept(arts[j]) ==> j in idx
  {
    if arts == [] then []
    else
      var n := |arts| - 1;
      var init := KeptIndices(arts[..n]);
      assert forall k :: 0 <= k < |init| ==> arts[..n][init[k]] == arts[init[k]];
      if Kept(arts[n]) then init + [n] else init
  }

  /** The comprehension raises exactly when some article raises. */
  lemma {:induction false} ArticleTextsFails(arts: seq<Article>)
    ensures ArticleTexts(arts).None? <==> exists i :: 0 <= i < |arts| && Raises(arts[i])
  {
    if arts != [] {
      var n := |arts| - 1;
      ArticleTextsFails(arts[..n]);
      assert forall i :: 0 <= i < n ==> arts[..n][i] == arts[i];
    }
  }

  /**
   * When the comprehension succeeds, its k-th snippet is the formatted k-th
   * kept article: every kept article appears once, in input order.
   */
  lemma {:induction false} ArticleTextsInOrder(arts: seq<Article>)
    requires ArticleTexts(arts).Some?
    ensures var xs := ArticleTexts(arts).value; var idx := KeptIndices(arts);
      |xs| == |idx| &&
      forall k :: 0 <= k < |xs| ==>
        !arts[idx[k]].description.Absent? && xs[k] == Format(arts[idx[k]])
  {
    if arts != [] {
      var n := |arts| - 1;
      var init := arts[..n];
      ArticleTextsInOrder(init);
      var idx0 := KeptIndices(init);
      assert forall k :: 0 <= k < |idx0| ==> init[idx0[k]] == arts[idx0[k]];
    }
  }

  /**
   * The news half of fetch_signals: a failed call or a comprehension that
   * raises gives no snippets; otherwise one snippet per kept article, in order.
   */
  function FetchNews(call: Result<NewsPayload, CallError>): (texts: seq<string>)
    ensures call.Failure? ==> texts == []
    ensures call.Success? ==> |texts| <= |call.value.articles.GetOr([])|
    ensures call.Success? ==> var arts := call.value.articles.GetOr([]);
      (exists i :: 0 <= i < |arts| && Raises(arts[i])) ==> texts == []
    ensures call.Success? ==> var arts := call.value.articles.GetOr([]); var idx := KeptIndices(arts);
      (forall i :: 0 <= i < |arts| ==> !Raises(arts[i])) ==>
        |texts| == |idx| &&
        forall k :: 0 <= k < |idx| ==> !arts[idx[k]].description.Absent? && texts[k] == Format(arts[idx[k]])
  {
    match call
    case Failure(_) => []
    case Success(payload) =>
      var arts := payload.articles.GetOr([]);
      ArticleTextsFails(arts);
      match ArticleTexts(arts)
      case None => []
      case Some(xs) => ArticleTextsInOrder(arts); xs
  }

  /** Every fetched snippet is a kept article formatted as title + " " + description. */
  lemma FetchNewsSnippets(call: Result<NewsPayload, CallError>, k: nat)
    requires k < |FetchNews(call)|
    ensures call.Success?
    ensures var arts := call.value.articles.GetOr([]);
      exists i :: 0 <= i < |arts| && Kept(arts[i]) && !arts[i].description.Absent? && FetchNews(call)[k] == Format(arts[i])
  {
    var arts := call.value.articles.GetOr([]);
    ArticleTextsInOrder(arts);
    var i := KeptIndices(arts)[k];
    assert 0 <= i < |arts| && Kept(arts[i]) && !arts[i].description.Absent? && FetchNews(call)[k] == Format(arts[i]);
  }

  // ---------------------------------------------------------------------
  // Search trend
  // ---------------------------------------------------------------------

  /**
   * The trend half of fetch_signals: the last value of the interest series,
   * 0 for an empty series or a failed call.
   */
  function TrendScore(call: Result<seq<int>, CallError>): (score: int)
    ensures call.Failure? ==> score == 0
  {
    match call
    case Failure(_) => 0
    case Success(series) => if series == [] then 0 else series[|series| - 1]
  }

  /** Appending a reading makes it the trend score. */
  lemma TrendScoreIsLatest(series: seq<int>, latest: int)
    ensures TrendScore(Success(series + [latest])) == latest
  {
  }

  /** The score of an empty series is 0; otherwise it is one of the readings. */
  lemma TrendScoreIsReading(series: seq<int>)
    ensures series == [] ==> TrendScore(Success(series)) == 0
    ensures series != [] ==> TrendScore(Success(series)) in series
  {
  }

  /** fetch_signals: the snippet list and the trend score, each fault-isolated. */
  function FetchSignals(news: Result<NewsPayload, CallError>, trend: Result<seq<int>, CallError>): (signals: (seq<string>, int))
    ensures news.Failure? ==> signals.0 == []
    ensures trend.Failure? ==> signals.1 == 0
    ensures news.Success? ==> |signals.0| <= |news.value.articles.GetOr([])|
  {
    (FetchNews(news), TrendScore(trend))
  }

  /** A failed news call yields [] and a failed trend call 0, whatever the other call did. */
  lemma FailuresIsolated(news: Result<NewsPayload, CallError>, trend: Result<seq<int>, CallError>)
    ensures news.Failure? ==> FetchSignals(news, trend).0 == []
    ensures trend.Failure? ==> FetchSignals(news, trend).1 == 0
    ensures forall other :: FetchSignals(news, trend).0 == FetchSignals(news, other).0
    ensures forall other :: FetchSignals(news, trend).1 == FetchSignals(other, trend).1
  {
  }
}
