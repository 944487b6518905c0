# YouTube comment analysis — a Dafny model of its deterministic core

The analysis script fetches a video's top-level comments, translates each one,
labels it with one of six categories and shows summary metrics, a label
distribution and a comments table ordered by likes. This project models the
parts of `youtube.py` that are plain logic and proves what they guarantee:

- **Video-ID extraction** (`get_video_id`), in `video_id.dfy`, on top of a model
  of the Python string operations it uses (`m in s`, `s.split(m)`, `s[:n]`,
  `s.lower()`) in `strings.dfy`.
- **The comment classifier** (`classify_sentiment`), in `classifier.dfy`. It has
  five keyword rules tried in order on the lower-cased text, where the first
  match wins, and a polarity threshold as the fallback. The if/elif chain is
  checked against a generic first-match reading of an ordered rule table.
- **Aggregation**, in `aggregation.dfy`: annotating the comments, `value_counts`
  of the labels, the three header metrics, and the table sorted by likes in
  descending order.

`wrappers.dfy` holds the `Option` type. The model is written with functions and
lemmas, because the modelled code is made of expressions only: an if/elif chain
of `split` and slices, `any(...)` generator expressions, and pandas expressions.

Modelling decisions:

- **Polarity score.** The TextBlob polarity is a parameter `polarity: real`. It
  stands for the exact value of the double the library returns. The threshold
  `0.1` is written as the exact value of the double nearest 0.1
  (`NeutralBand`). With both written exactly, `abs(sentiment) < 0.1` in the
  model means the same as the floating-point comparison in the script.
- **Lower-casing.** `str.lower()` is modelled as ASCII lower-casing.
- **Translation.** The translator's output for each comment is a parameter:
  either the translation, or the original text when the call failed.
- **Tie order in the table.** `sort_values('likes', ascending=False)` uses
  numpy's default sort, which is not stable. The model therefore specifies the
  table only up to ties: it is a permutation of the rows with likes in
  non-increasing order. `OrderedByLikesUnique` proves that every ordering
  meeting this specification has the same likes column. The model's own
  insertion sort is one admissible order.

## Model

| member | source | states |
|---|---|---|
| `Strings.Contains` | youtube.py:41 | `m in s` holds exactly when `m` occurs at some index of `s` |
| `Strings.IndexOf` | youtube.py:41-42 | the first occurrence of the pattern, and no occurrence before it; none at all when the result is empty |
| `Strings.Split` | youtube.py:42 | `s.split(m)` has at least one piece, has two or more exactly when `m` occurs in `s`, and no piece contains `m` |
| `Strings.SplitJoin` | youtube.py:42 | joining the pieces of `s.split(m)` with `m` gives `s` back |
| `Strings.SecondPiece` | youtube.py:42 | `s.split(m)[1]` exists whenever `m` occurs; it is a prefix of the text after the first `m`, no `m` starts inside it, and it ends at the end of the text or right before the next `m` |
| `Strings.Take` | youtube.py:42-45 | `s[:n]` is a prefix of `s` of length `min(n, len(s))` |
| `Strings.Lower` | youtube.py:89 | `s.lower()` has the same length as `s`, and each character is lowered independently |
| `Strings.LowerIsLower` | youtube.py:89 | no ASCII capital letter is left in `s.lower()` |
| `Strings.LowerIdempotent` | youtube.py:89 | lowering an already lowered text changes nothing |
| `Strings.OccursLower` | youtube.py:89 | an occurrence of a word in the text is still an occurrence, at the same index, after both are lowered |
| `VideoId.AfterMarker` | youtube.py:42-44 | `url.split(m)[1][:11]` is never longer than 11 characters, and the `[1]` index is in range whenever `m` occurs (`AfterMarkerSpec` states what the text is) |
| `VideoId.GetVideoId` | youtube.py:39-45 | the identifier is never longer than 11 characters; the function is total, and the `[1]` index is always in range |
| `VideoId.AfterMarkerSpec` | youtube.py:42-44 | `url.split(m)[1][:11]` is a prefix of the text after the first `m`, with no `m` starting inside it, and shorter than 11 only at the end of the URL or right before the next `m`; it occurs in the URL right after the first `m` |
| `VideoId.QueryMarkerWins` | youtube.py:41-42 | if the URL contains `v=`, the identifier is taken from after the first `v=`, even when `youtu.be/` also appears |
| `VideoId.ShortLinkId` | youtube.py:43-44 | without `v=`, a URL containing `youtu.be/` gives the text after the first `youtu.be/`, cut as above |
| `VideoId.BareId` | youtube.py:45 | with neither marker, the identifier is the first `min(11, len(url))` characters, and an input of at most 11 characters is returned unchanged |
| `VideoId.IdIsSubstring` | youtube.py:39-45 | in every branch, the identifier is a contiguous substring of the input |
| `VideoId.WatchUrlShape` | youtube.py:41-42 | for `before + "v=" + id + after`, where `id` has 11 characters and neither `before` nor `id` contains a `v`, the result is `id` |
| `VideoId.ShortLinkShape` | youtube.py:43-44 | for `before + "youtu.be/" + id + after` with no `v` anywhere, where `id` has 11 characters and neither `before` nor `id` contains a `y`, the result is `id` |
| `VideoId.MarkerThenId` | youtube.py:41-44 | when a marker first occurs right after a text without the marker's first character, and is followed by 11 characters without it, those 11 characters are what `url.split(m)[1][:11]` returns |
| `VideoId.WatchUrlExample` | youtube.py:41-42 | `https://www.youtube.com/watch?v=dQw4w9WgXcQ&t=42` gives `dQw4w9WgXcQ` |
| `VideoId.ShortLinkExample` | youtube.py:43-44 | `https://youtu.be/dQw4w9WgXcQ?si=x` gives `dQw4w9WgXcQ` |
| `VideoId.BareIdExample` | youtube.py:45 | the bare identifier `dQw4w9WgXcQ` is returned unchanged |
| `Classifier.Label` | youtube.py:186-189 | the label strings the script returns; the metrics' filters `isin(['Appreciation', 'Constructive Feedback'])` and `== 'Negative Criticism'` select exactly the Appreciation and Constructive Feedback categories, and exactly Negative Criticism |
| `Classifier.LabelListed` | youtube.py:93-110 | every category is among the six listed, and its label is one of the six label strings |
| `Classifier.LabelInjective` | youtube.py:93-110 | different categories have different labels |
| `Classifier.LabelNamesCategory` | youtube.py:93-110 | a category's label is listed and is the label of no other category |
| `Classifier.MentionsAny` | youtube.py:92 | `any(word in text for word in words)` holds exactly when some word of the list is a substring of the text |
| `Classifier.PolarityFallback` | youtube.py:104-110 | Neutral Statements exactly when the polarity lies strictly inside (-0.1, 0.1); Appreciation exactly when it is at least 0.1; Negative Criticism exactly when it is at most -0.1 |
| `Classifier.Classify` | youtube.py:87-110 | the category decision: any appreciation keyword in the lowered text gives Appreciation; Constructive Feedback, Question/Inquiry and Spam or Promotional are given only when a keyword of that rule occurs; Neutral Statements only when the polarity is strictly inside (-0.1, 0.1) |
| `Classifier.ClassifySentiment` | youtube.py:87-110 | the function is total, and every text, including the empty one, gets one of the six label strings, and that string is the label of the decided category and of no other |
| `Classifier.FirstFiringIndex` | youtube.py:92-101 | gives the index of the first rule whose keywords occur, with no earlier rule firing; gives none only when no rule fires |
| `Classifier.FirstFiringUnique` | youtube.py:92-101 | at most one rule is the first to fire |
| `Classifier.Precedence` | youtube.py:92-101 | if rule k is the first rule whose keyword occurs in the lowered text, the answer is rule k's label, whatever later rules match |
| `Classifier.FallbackWhenNoneFires` | youtube.py:102-110 | if no keyword of any rule occurs, the polarity threshold alone decides |
| `Classifier.ClassifyIsFirstMatch` | youtube.py:92-110 | the if/elif chain gives the same answer as first-match-wins over the ordered rule table, with the threshold as fallback, on every input |
| `Classifier.ClassifyCharacterisation` | youtube.py:92-110 | the answer is `c` if and only if rule k is the first to fire and carries label `c`, or no rule fires and the threshold picks `c` |
| `Classifier.AppreciationWins` | youtube.py:92-93 | a text whose lowered form contains an appreciation keyword is Appreciation, whatever other keywords it also contains |
| `Classifier.QuestionMarkWins` | youtube.py:98-99 | a text containing `?`, and no keyword of the first three rules, is Question/Inquiry |
| `Classifier.NeutralMeansNoKeyword` | youtube.py:102-106 | Neutral Statements if and only if no keyword of any rule occurs and the polarity is strictly inside (-0.1, 0.1) |
| `Classifier.CaseInsensitive` | youtube.py:89 | for the same polarity, classifying the lowered text gives the same answer as classifying the text; the keyword rules do not see case |
| `Classifier.EmptyComment` | youtube.py:87-110 | the empty comment matches no keyword, so the threshold decides, and a near-zero polarity gives Neutral Statements |
| `Classifier.PraiseBeforeComplaint` | youtube.py:92-97 | any text with "awesome" followed later by "terrible" is Appreciation |
| `Aggregation.Annotate` | youtube.py:178-179 | one row per comment, in order; each row keeps its comment and its translation, and is labelled with the classifier's answer for the translation |
| `Aggregation.AnnotateOne` | youtube.py:178-179 | a row keeps its comment and its translation, and its label is what the first-match rule table (`RuleTableClassify`) gives the translation, not the original text |
| `Aggregation.CountIn` | youtube.py:115 | the number of rows whose label is in a given set never exceeds the number of rows |
| `Aggregation.CountInUnion` | youtube.py:115 | counting two disjoint sets of labels together gives the sum of their counts |
| `Aggregation.CountInAll` | youtube.py:115 | every row carries one of the six labels |
| `Aggregation.CountPositive` | youtube.py:115 | a label's count is positive exactly when some row carries that label |
| `Aggregation.CountInPermutation` | youtube.py:115 | counts depend only on the multiset of rows, not on their order |
| `Aggregation.ValueCounts` | youtube.py:115 | `value_counts()` has an entry for exactly the labels that occur, each with its positive number of rows |
| `Aggregation.TallyValueCounts` | youtube.py:115 | summing the counts over distinct labels gives the number of rows carrying one of those labels |
| `Aggregation.CountsSumToTotal` | youtube.py:115 | the per-label counts add up to the number of comments |
| `Aggregation.HeaderMetrics` | youtube.py:184-190 | total is the number of comments; positive is the Appreciation count plus the Constructive Feedback count; negative is the Negative Criticism count; positive + negative <= total |
| `Aggregation.OrderIndependent` | youtube.py:115-190 | reordering the comments changes neither the label counts nor the metrics |
| `Aggregation.TableIgnoresTranslation` | youtube.py:208 | the table row does not change when only the translation changes, and it shows the original comment text |
| `Aggregation.Project` | youtube.py:208 | the table has one row per analysed comment, in the same order, holding that comment's author, text, label and likes |
| `Aggregation.InsertByLikes` | youtube.py:209 | inserting into a table ordered by likes adds exactly that row, and the table stays ordered |
| `Aggregation.SortByLikes` | youtube.py:209 | the result is a permutation of the input rows, with likes in non-increasing order |
| `Aggregation.TableView` | youtube.py:207-209 | the table holds each analysed comment exactly once, with likes in non-increasing order |
| `Aggregation.OrderedByLikesUnique` | youtube.py:209 | any two most-liked-first orderings of the same rows have the same likes column, so they differ only among rows with equal likes |
| `Aggregation.TableViewLikesDetermined` | youtube.py:208-209 | whatever order numpy's sort gives tied rows, the likes column equals that of `TableView` |
| `Aggregation.Analyse` | youtube.py:172-225 | no comments gives the no-data state and nothing else does; otherwise the metrics are the header metrics of the annotated comments (total = number of comments, positive + negative <= total), the counts are their `value_counts` and sum to the total, and the table is a permutation of their projected rows, most-liked first |

## Left out

- Streamlit UI (youtube.py:13-32, 149-239): page setup, styling, widgets, tabs, spinners and progress bars. It is presentation code with no logic to state.
- YouTube Data API client and pagination loop (youtube.py:35-37, 47-77): network I/O. Failures are swallowed there and produce an empty list. The model takes the fetched comments as given. The page-overflow behaviour, where more than `max_results` comments can be returned, is not modelled.
- Translation (youtube.py:79-85): a foreign network call. Its per-comment outputs are a parameter of `Annotate` and `Analyse`.
- The TextBlob polarity computation (youtube.py:104): a foreign floating-point model. Only the thresholds applied to its result are modelled.
- `Strings.Lower`: models `str.lower()` on ASCII only. Python's Unicode case mapping of other characters, including mappings that change the length, is not modelled. For the classifier this means a keyword spelt with a non-ASCII letter whose Python lower case is ASCII is missed: `"THAN\u212A YOU"` (U+212A, KELVIN SIGN) lowers to `"thank you"` in Python, so the script labels it Appreciation, while the model lets it fall through to the polarity threshold.
- Plotly charts (youtube.py:113-147): the pie chart's presentation, the likes box plot per label, and the timeline. The timeline's `pd.to_datetime` date parsing and `groupby`/`unstack` are library calls on timestamps. Only the counts behind the pie chart are modelled.
- `Aggregation.ValueCounts`: gives the counts as a map. The order of `value_counts()` entries (descending frequency), which only affects how the chart is drawn, is not modelled.
- `Aggregation.TableView`: specified up to the order of rows with equal likes, because numpy's default sort does not fix that order.
- CSV export (youtube.py:220): pandas serialisation internals, not visible here.
- The raw-data tab (youtube.py:215): it displays the fetched list unchanged.
