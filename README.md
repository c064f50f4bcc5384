# DonorSync core, modelled in Dafny

DonorSync is a crisis-fundraising dashboard. Its core is the data handling
around three library calls:

- The **sentiment engine** (`src/sentiment_engine.py`). It turns a news response into
  text snippets and a search-trend response into a trend score. Then it scores
  urgency as the fraction of the first ten snippets that the classifier labels
  `NEGATIVE`. An empty batch scores 0.5.
- The **donor model** (`src/donor_model.py`). It loads a donor table, fills missing
  ages with the median of the present ages, and derives `likely_donor`. That label is
  1 iff the recent average gift is above 10 and the last gift was under 18 months
  ago. The classifier and the clustering each get the feature columns, with
  missing values filled with 0.
- The **content generator** (`src/content_generator.py`). It picks one of three
  tones from the urgency score (strictly above 0.7, strictly above 0.4, otherwise)
  and fills in a headline, a body and an ask.

Modules: `Wrappers` (Option, Result), `Sentiment`, `Donor`, `Content`, and
`Pipeline` (one end-to-end scenario).

Modelling choices:

- The sentiment classifier is a parameter `analyzer: string -> Label` that labels
  one text at a time.
- The news and trend calls are abstract inputs of type `Result<_, CallError>`. A
  failed call is a `Failure`.
- A decoded article has a title and a description. Each is `Absent` (missing key),
  `Null` or `Text(s)`. A missing `title` key raises `KeyError`, which the source
  catches, so the whole snippet list becomes `[]`. A missing `description` raises
  only when the title is kept. A `null` description prints as `None`.
- Donor cells are `Option<real>`, with `None` standing for NaN. A comparison with
  NaN is false.
- The file system is a map from paths to parsed rows. A path missing from the map
  is the missing-file error.
- `load_data` is a method. It copies the rows into a fresh array and cleans the
  array in place. It uses two `forall` statements, one for each pandas column
  assignment. `CleanRows` is the function that specifies the method.
- The ask string ends with a full stop (`"Please donate $50."`), because that is
  what the f-string on `src/content_generator.py:20` does.
- The ask amount is an `int`, printed the way Python's `str` prints an integer.
- The loader has exactly one error: a missing file, re-raised as `FileNotFoundError`
  with the message `❌ Data file not found. Check path.`. The code gives a file that
  exists but cannot be parsed no error of its own, so the model has none either.

## Model

| member | source | states |
|---|---|---|
| `Sentiment.Scored` | src/sentiment_engine.py:44 | `texts[:10]`: the first min(len, 10) texts, unchanged and in order |
| `Sentiment.Classify` | src/sentiment_engine.py:44 | the classifier returns one label per scored text, in order |
| `Sentiment.NegCount` | src/sentiment_engine.py:45 | the negative count never exceeds the number of results |
| `Sentiment.NegCountZero` | src/sentiment_engine.py:45 | the count is 0 iff no result is NEGATIVE |
| `Sentiment.NegCountIsCardinality` | src/sentiment_engine.py:45 | the running sum equals the size of the set of positions labelled NEGATIVE |
| `Sentiment.ScoreLabels` | src/sentiment_engine.py:45-46 | neg_count / len(results) is in [0, 1], and is 0 iff no result is NEGATIVE |
| `Sentiment.CalculateUrgency` | src/sentiment_engine.py:39-46 | an empty batch scores exactly 0.5; every score is in [0, 1] |
| `Sentiment.UrgencyIsNegativeFraction` | src/sentiment_engine.py:44-46 | a non-empty batch scores (#NEGATIVE among the first min(len, 10) texts) / min(len, 10) |
| `Sentiment.UrgencyIgnoresTail` | src/sentiment_engine.py:44 | texts after the tenth never change the score |
| `Sentiment.NegCountRelabel` | src/sentiment_engine.py:45 | relabelling one NEGATIVE result lowers the count by exactly one |
| `Sentiment.RelabelLowersScore` | src/sentiment_engine.py:45-46 | relabelling one scored NEGATIVE result, with the count of results unchanged, lowers the score by 1/len, so it never rises |
| `Sentiment.NegCountMonotone` | src/sentiment_engine.py:45 | a pointwise smaller set of NEGATIVE labels never gives a larger count |
| `Sentiment.UrgencyMonotone` | src/sentiment_engine.py:44-46 | a classifier that calls a subset of the texts NEGATIVE never gives a higher urgency |
| `Sentiment.Render` | src/sentiment_engine.py:22 | the f-string prints a null description as `None` and a string as itself |
| `Sentiment.FormatParts` | src/sentiment_engine.py:22 | a snippet is the title, then one space, then the rendered description |
| `Sentiment.ArticleTexts` | src/sentiment_engine.py:22 | the comprehension gives at most one snippet per article |
| `Sentiment.KeptIndices` | src/sentiment_engine.py:22 | (reference definition) the strictly increasing positions of exactly the articles with a non-empty title |
| `Sentiment.ArticleTextsFails` | src/sentiment_engine.py:22-25 | the comprehension raises iff some article lacks a title key, or has a non-empty title and no description key |
| `Sentiment.ArticleTextsInOrder` | src/sentiment_engine.py:22 | the k-th snippet is `title + " " + description` of the k-th kept article: every kept article appears once, in input order |
| `Sentiment.FetchNews` | src/sentiment_engine.py:19-25 | a failed call, or a comprehension that raises KeyError, gives `[]`; otherwise the k-th snippet is the formatted k-th kept article, and there is one snippet per kept article |
| `Sentiment.FetchNewsSnippets` | src/sentiment_engine.py:22 | every snippet comes from a successful call and is some kept article formatted as `title + " " + description` |
| `Sentiment.TrendScore` | src/sentiment_engine.py:28-35 | a failed trend call gives 0 |
| `Sentiment.TrendScoreIsLatest` | src/sentiment_engine.py:32 | the last reading of the series is the trend score |
| `Sentiment.TrendScoreIsReading` | src/sentiment_engine.py:32 | an empty series scores 0; otherwise the score is one of the readings |
| `Sentiment.FetchSignals` | src/sentiment_engine.py:13-37 | a failed news call gives no snippets and a failed trend call gives 0; a successful news call gives at most one snippet per article |
| `Sentiment.FailuresIsolated` | src/sentiment_engine.py:19-35 | a failed news call gives `[]` and a failed trend call gives 0; neither result depends on the other call |
| `Donor.Insert` | src/donor_model.py:16 | inserting into a sorted list keeps it sorted and adds exactly that value |
| `Donor.SortValues` | src/donor_model.py:16 | the result is sorted and is a permutation of the values |
| `Donor.Median` | src/donor_model.py:16 | the median is undefined exactly when no age is present |
| `Donor.SortedUnique` | src/donor_model.py:16 | two sorted permutations of the same values are equal |
| `Donor.MedianIsMiddle` | src/donor_model.py:16 | for any sorted arrangement, the median is the middle element (odd count) or the mean of the two middle elements (even count) |
| `Donor.MedianIgnoresOrder` | src/donor_model.py:16 | the median depends only on the multiset of the ages |
| `Donor.MedianBetween` | src/donor_model.py:16 | the median lies between some present age and some present age |
| `Donor.AgeIndices` | src/donor_model.py:16 | (reference definition) exactly the positions with a present age, strictly increasing |
| `Donor.PresentAges` | src/donor_model.py:16 | the k-th value is the age of the k-th row with a present age: the non-missing ages in row order, with their multiplicities |
| `Donor.PresentAgesEmpty` | src/donor_model.py:16 | no age is present iff every row's age is missing |
| `Donor.LikelyDonor` | src/donor_model.py:17-18 | the label is 0 or 1, and is 1 iff the gift amount is above 10 and the months are below 18; a missing value gives 0 |
| `Donor.CleanRows` | src/donor_model.py:16-18 | the cleaned table has as many rows as the source |
| `Donor.CleanFrame` | src/donor_model.py:16-18 | the in-place column assignments leave the array equal to `CleanRows` of its old contents |
| `Donor.LoadData` | src/donor_model.py:11-21 | a missing file gives the not-found error; otherwise a fresh table holding the cleaned rows |
| `Donor.CleanKeepsPresentAges` | src/donor_model.py:16 | every row whose age was present keeps that exact age |
| `Donor.CleanFillsMissingAges` | src/donor_model.py:16 | if any age is present, every missing age becomes the median and no age stays missing; if none is present, nothing is filled |
| `Donor.CleanChangesOnlyAgeAndLabel` | src/donor_model.py:14-19 | loading keeps the row count and order and every column except DONOR_AGE; likely_donor is the derived label |
| `Donor.OneMissingAgeGetsMedian` | src/donor_model.py:16 | a table with one missing age gives that row the median of the other ages |
| `Donor.TrainFeatures` | src/donor_model.py:25-28 | the classifier's matrix has one row of five features per donor |
| `Donor.TrainLabels` | src/donor_model.py:29 | the label vector exists iff every row has a label, and it is that column |
| `Donor.SegmentFeatures` | src/donor_model.py:41-43 | the clustering's matrix has one row of three features per donor |
| `Donor.FeatureFill` | src/donor_model.py:28-43 | every missing feature becomes 0 and every present one is kept, in the source's column order |
| `Donor.LoadedAgesNotZeroFilled` | src/donor_model.py:16-28 | after loading with any age present, the classifier sees the median, never 0, for each missing age |
| `Donor.LoadedTableLabels` | src/donor_model.py:17-29 | after loading, every row has a 0/1 label equal to the likely-donor rule |
| `Content.SelectTier` | src/content_generator.py:7-15 | above 0.7 gives urgent; (0.4, 0.7] gives update; at most 0.4 gives baseline; 0.7 and 0.4 fall in the lower tier |
| `Content.TierMonotone` | src/content_generator.py:7-15 | raising the urgency never selects a less urgent tier |
| `Content.IntToString` | src/content_generator.py:20 | `str(n)` is non-empty, starts with `-` iff n < 0, and is otherwise all digits |
| `Content.NatToString` | src/content_generator.py:20 | the amount renders as decimal digits with no leading zero |
| `Content.ParseNatToString` | src/content_generator.py:20 | reading the digits back gives the amount |
| `Content.ParseIntToString` | src/content_generator.py:20 | `str(n)` is an integer literal that reads back as n, sign included |
| `Content.IntToStringInjective` | src/content_generator.py:20 | different amounts render differently |
| `Content.GenerateCopy` | src/content_generator.py:3-21 | headline is `tone + ": Help " + crisis_name + " Victims"`; ask is `"Please donate $" + str(ask_amount) + "."`; the body contains crisis_name |
| `Content.UrgentCopy` | src/content_generator.py:7-18 | urgency above 0.7 gives the "URGENT ACTION REQUIRED" headline and the "The situation with … is critical. …" body, word for word |
| `Content.UpdateCopy` | src/content_generator.py:10-18 | urgency in (0.4, 0.7] gives the "Update on Crisis" headline and the "We are monitoring … closely. …" body, word for word |
| `Content.BaselineCopy` | src/content_generator.py:13-18 | urgency at most 0.4 gives the "Support Our Mission" headline and the "As we look at the impact of … Join us." body, word for word |
| `Content.ClusterIgnored` | src/content_generator.py:3-21 | cluster_id has no influence on the copy |
| `Content.AskDeterminesAmount` | src/content_generator.py:20 | two different amounts never give the same ask |
| `Pipeline.BothCallsFailed` | app.py:50-99 | with both calls failed (lines 50-52): signals are `([], 0)`, urgency is 0.5, and `generate_copy(0, urgency, name, 50)` (line 99) gives the update headline and "Please donate $50." |

## Left out

- Network I/O is not modelled. That covers the NewsAPI URL (query, API key, page size 15), `requests.get`, JSON decoding and the pytrends session. Only their outcomes are modelled, as `Result` inputs.
- The transformers sentiment pipeline and its input truncation are an oracle: a foreign model.
- A JSON response whose `articles` value is `null` or not a list is not modelled. Neither is a title or description that is not a string. The model treats `articles` as either absent or a list.
- A non-empty trend frame without the query column is not modelled. It would raise `KeyError` and degrade to 0.
- `SentimentEngine.__init__` and all `print` logging are left out. They only store the key, load the model and log.
- `DonorModel.__init__`, the fields `self.model` and `self.kmeans`, `RandomForestClassifier.fit`, `predict_proba`, `StandardScaler` and `KMeans` are left out. These are floating-point library numerics. So the `probability` and `cluster` columns they write are not modelled. The clustering features take the probability column as an input.
- CSV parsing by `pd.read_csv` is not modelled: a file is its parsed rows. The six named columns are assumed present. The `KeyError` for a missing column and any other read error are not modelled.
- All numbers are exact `real`s, not IEEE doubles. That covers urgency, the 0.7 and 0.4 thresholds, the ages and the median's mean of two values.
- `Content.GenerateCopy`: the ask amount is modelled as an integer only. Python would print a float amount differently (`50.0`).
- `app.py` is left out: layout, widgets, charts, the fallback values and the display filter. Only its composition of the signal calls (lines 50-52) with `generate_copy(0, urgency, crisis_input, 50)` (line 99) is modelled, in `Pipeline.BothCallsFailed`.
