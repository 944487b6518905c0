/**
 * What the script derives from the classified comments: the per-label counts
 * behind the distribution chart, the three header metrics and the comments
 * table ordered by likes.
 */
module Aggregation {
  import opened Classifier

  /** A fetched comment, with the fields the script keeps from the API response. */
  datatype Comment = Comment(author: string, text: string, likes: nat, publishedAt: string)

  /** A row of the analysis frame: the comment, its translation and the label given to it. */
  datatype Row = Row(comment: Comment, translated: string, sentiment: Category)

  /**
   * Each comment is translated (outside the model: `translations` holds the
   * translator's outputs, the original text where it failed) and the
   * translation is classified with the score `polarities` gives it.
   */
  function Annotate(comments: seq<Comment>, translations: seq<string>, polarities: seq<real>): (rows: seq<Row>)
    requires |translations| == |comments| && |polarities| == |comments|
    ensures |rows| == |comments|
    ensures forall i :: 0 <= i < |rows| ==> rows[i] == AnnotateOne(comments[i], translations[i], polarities[i])
  {
    if comments == [] then []
    else
      var row := AnnotateOne(comments[0], translations[0], polarities[0]);
      [row] + Annotate(comments[1..], translations[1..], polarities[1..])
  }

  /**
   * One comment with its translation and the label the classifier gives the
   * translation: the label is the one the first-match rule table reads off
   * the translation, not the original text.
   */
  function AnnotateOne(c: Comment, translation: string, polarity: real): (r: Row)
    ensures r.comment == c && r.translated == translation
    ensures Label(r.sentiment) == ClassifySentiment(translation, polarity)
    ensures r.sentiment == RuleTableClassify(translation, polarity)
  {
    ClassifyIsFirstMatch(translation, polarity);
    Row(c, translation, Classify(translation, polarity))
  }

  // ---------------------------------------------------------------------
  // Counting rows by label.

  const AllCategories: set<Category> := set c | c in Categories

  /** Number of rows whose label is one of `cs`. */
  function CountIn(rows: seq<Row>, cs: set<Category>): (n: nat)
    ensures n <= |rows|
  {
    if rows == [] then 0
    else (if rows[0].sentiment in cs then 1 else 0) + CountIn(rows[1..], cs)
  }

  /** Number of rows labelled `c`. */
  function Count(rows: seq<Row>, c: Category): nat
  {
    CountIn(rows, {c})
  }

  lemma {:induction false} CountInAppend(a: seq<Row>, b: seq<Row>, cs: set<Category>)
    ensures CountIn(a + b, cs) == CountIn(a, cs) + CountIn(b, cs)
    decreases |a|
  {
    if a == [] {
      assert a + b == b;
    } else {
      assert (a + b)[1..] == a[1..] + b;
      CountInAppend(a[1..], b, cs);
    }
  }

  /** Counting two disjoint sets of labels together is adding their counts. */
  lemma {:induction false} CountInUnion(rows: seq<Row>, cs: set<Category>, ds: set<Category>)
    requires cs !! ds
    ensures CountIn(rows, cs + ds) == CountIn(rows, cs) + CountIn(rows, ds)
    decreases |rows|
  {
    if rows != [] {
      CountInUnion(rows[1..], cs, ds);
    }
  }

  lemma InAllCategories(c: Category)
    ensures c in AllCategories
  {
    match c
    case Appreciation =>
    case ConstructiveFeedback =>
    case NegativeCriticism =>
    case QuestionInquiry =>
    case SpamOrPromotional =>
    case NeutralStatements =>
  }

  /** Every row carries one of the six labels. */
  lemma {:induction false} CountInAll(rows: seq<Row>)
    ensures CountIn(rows, AllCategories) == |rows|
    decreases |rows|
  {
    if rows != [] {
      InAllCategories(rows[0].sentiment);
      CountInAll(rows[1..]);
    }
  }

  /** A label is counted at least once exactly when some row carries it. */
  lemma {:induction false} CountPositive(rows: seq<Row>, c: Category)
    ensures Count(rows, c) > 0 <==> exists i :: 0 <= i < |rows| && rows[i].sentiment == c
    decreases |rows|
  {
    if rows != [] {
      CountPositive(rows[1..], c);
      if rows[0].sentiment != c && Count(rows, c) == 0 {
        forall i | 0 <= i < |rows| ensures rows[i].sentiment != c {
          if i > 0 { assert rows[i] == rows[1..][i - 1]; }
        }
      }
      if Count(rows[1..], c) > 0 {
        var i :| 0 <= i < |rows[1..]| && rows[1..][i].sentiment == c;
        assert rows[i + 1].sentiment == c;
      }
    }
  }

  /** Counts depend only on which rows there are, not on their order. */
  lemma {:induction false} CountInPermutation(a: seq<Row>, b: seq<Row>, cs: set<Category>)
    requires multiset(a) == multiset(b)
    ensures CountIn(a, cs) == CountIn(b, cs)
    decreases |a|
  {
    if a == [] {
      assert |b| == |multiset(b)| == 0;
    } else {
      var x := a[0];
      assert x in multiset(b);
      var j :| 0 <= j < |b| && b[j] == x;
      var rest := b[..j] + b[j + 1..];
      assert b == b[..j] + [x] + b[j + 1..];
      assert a == [x] + a[1..];
      assert multiset(a) == multiset{x} + multiset(a[1..]);
      assert multiset(b) == multiset(b[..j]) + multiset{x} + multiset(b[j + 1..]);
      assert multiset(rest) == multiset(b[..j]) + multiset(b[j + 1..]);
      assert multiset(a[1..]) == multiset(a) - multiset{x};
      assert multiset(rest) == multiset(b) - multiset{x};
      CountInPermutation(a[1..], rest, cs);
      CountInAppend(b[..j] + [x], b[j + 1..], cs);
      CountInAppend(b[..j], [x], cs);
      CountInAppend(b[..j], b[j + 1..], cs);
    }
  }

  /**
   * `value_counts()` of the label column: each label that occurs, with the
   * number of rows carrying it.
   */
  function ValueCounts(rows: seq<Row>): (m: map<Category, nat>)
    ensures forall c :: c in m <==> exists i :: 0 <= i < |rows| && rows[i].sentiment == c
    ensures forall c :: c in m ==> m[c] == Count(rows, c) && m[c] > 0
  {
    AllCountsPositive(rows);
    AllCategoriesComplete();
    map c | c in AllCategories && Count(rows, c) > 0 :: Count(rows, c)
  }

  lemma AllCountsPositive(rows: seq<Row>)
    ensures forall c :: Count(rows, c) > 0 <==> exists i :: 0 <= i < |rows| && rows[i].sentiment == c
  {
    forall c ensures Count(rows, c) > 0 <==> exists i :: 0 <= i < |rows| && rows[i].sentiment == c {
      CountPositive(rows, c);
    }
  }

  lemma AllCategoriesComplete()
    ensures forall c :: c in AllCategories
  {
    forall c ensures c in AllCategories {
      InAllCategories(c);
    }
  }

  /** Sum of the counts a map gives the categories in `cs`, zero for a missing one. */
  function Tally(m: map<Category, nat>, cs: seq<Category>): nat
  {
    if cs == [] then 0
    else (if cs[0] in m then m[cs[0]] else 0) + Tally(m, cs[1..])
  }

  lemma {:induction false} TallyValueCounts(rows: seq<Row>, cs: seq<Category>)
    requires forall i, j :: 0 <= i < j < |cs| ==> cs[i] != cs[j]
    ensures Tally(ValueCounts(rows), cs) == CountIn(rows, set c | c in cs)
    decreases |cs|
  {
    if cs == [] {
      assert (set c | c in cs) == {};
      CountInEmpty(rows);
    } else {
      TallyValueCounts(rows, cs[1..]);
      var later := set c | c in cs[1..];
      assert (set c | c in cs) == {cs[0]} + later;
      assert cs[0] !in later;
      CountInUnion(rows, {cs[0]}, later);
    }
  }

  lemma {:induction false} CountInEmpty(rows: seq<Row>)
    ensures CountIn(rows, {}) == 0
    decreases |rows|
  {
    if rows != [] {
      CountInEmpty(rows[1..]);
    }
  }

  /** The per-label counts add up to the number of comments. */
  lemma CountsSumToTotal(rows: seq<Row>)
    ensures Tally(ValueCounts(rows), Categories) == |rows|
  {
    TallyValueCounts(rows, Categories);
    assert (set c | c in Categories) == AllCategories;
    CountInAll(rows);
  }

  // ---------------------------------------------------------------------
  // The header metrics.

  datatype Metrics = Metrics(total: nat, positive: nat, negative: nat)

  /** The labels the "Positive Sentiment" metric counts. */
  const PositiveLabels: set<Category> := {Appreciation, ConstructiveFeedback}

  /** Total comments, comments labelled Appreciation or Constructive Feedback, comments labelled Negative Criticism. */
  function HeaderMetrics(rows: seq<Row>): (m: Metrics)
    ensures m.total == |rows|
    ensures m.positive == Count(rows, Appreciation) + Count(rows, ConstructiveFeedback)
    ensures m.negative == Count(rows, NegativeCriticism)
    ensures m.positive + m.negative <= m.total
  {
    CountInUnion(rows, {Appreciation}, {ConstructiveFeedback});
    assert PositiveLabels == {Appreciation} + {ConstructiveFeedback};
    CountInUnion(rows, PositiveLabels, {NegativeCriticism});
    Metrics(|rows|, CountIn(rows, PositiveLabels), CountIn(rows, {NegativeCriticism}))
  }

  /** Counts and metrics do not depend on the order the comments arrived in. */
  lemma OrderIndependent(a: seq<Row>, b: seq<Row>)
    requires multiset(a) == multiset(b)
    ensures ValueCounts(a) == ValueCounts(b)
    ensures HeaderMetrics(a) == HeaderMetrics(b)
  {
    assert |a| == |multiset(a)| == |b|;
    forall c {
      CountInPermutation(a, b, {c});
    }
    CountInPermutation(a, b, PositiveLabels);
  }

  // ---------------------------------------------------------------------
  // The comments table, most-liked first.

  /** The columns the table shows. */
  datatype TableRow = TableRow(author: string, text: string, sentiment: Category, likes: nat)

  /** One table row: the comment's author, its original (untranslated) text, its label and its likes. */
  function Columns(r: Row): (t: TableRow)
    ensures t.author == r.comment.author && t.text == r.comment.text
    ensures t.sentiment == r.sentiment && t.likes == r.comment.likes
  {
    TableRow(r.comment.author, r.comment.text, r.sentiment, r.comment.likes)
  }

  /**
   * The table shows the original comment, so what the translator returned
   * does not reach it except through the label.
   */
  lemma TableIgnoresTranslation(r: Row, translation: string)
    ensures Columns(r.(translated := translation)) == Columns(r)
    ensures Columns(r).text == r.comment.text
  {
  }

  /** `df[['author', 'text', 'sentiment', 'likes']]`. */
  function Project(rows: seq<Row>): (t: seq<TableRow>)
    ensures |t| == |rows|
    ensures forall i :: 0 <= i < |rows| ==> t[i] == Columns(rows[i])
  {
    if rows == [] then [] else [Columns(rows[0])] + Project(rows[1..])
  }

  predicate LikesNonIncreasing(t: seq<TableRow>)
  {
    forall i, j :: 0 <= i < j < |t| ==> t[i].likes >= t[j].likes
  }

  /** A row with at least the likes of a sorted table's head can go in front of it. */
  lemma HeadAboveSorted(h: TableRow, t: seq<TableRow>)
    requires LikesNonIncreasing(t)
    requires t != [] ==> h.likes >= t[0].likes
    ensures LikesNonIncreasing([h] + t)
  {
    var r := [h] + t;
    forall i, j | 0 <= i < j < |r| ensures r[i].likes >= r[j].likes {
      if i == 0 && j > 1 {
        assert r[j] == t[j - 1];
      }
    }
  }

  /** Puts `x` into a table already ordered by likes, before the rows with as many likes. */
  function InsertByLikes(x: TableRow, t: seq<TableRow>): (r: seq<TableRow>)
    requires LikesNonIncreasing(t)
    ensures LikesNonIncreasing(r)
    ensures multiset(r) == multiset(t) + multiset{x}
    ensures r[0] == x || (t != [] && r[0] == t[0])
  {
    if t == [] || x.likes >= t[0].likes then [x] + t
    else
      var rest := InsertByLikes(x, t[1..]);
      assert t == [t[0]] + t[1..];
      assert rest[0].likes <= t[0].likes by {
        if rest[0] != x { assert rest[0] == t[1..][0]; }
      }
      HeadAboveSorted(t[0], rest);
      assert multiset([t[0]] + rest) == multiset{t[0]} + multiset(rest);
      [t[0]] + rest
  }

  /** `sort_values('likes', ascending=False)`: the same rows, most-liked first. */
  function SortByLikes(t: seq<TableRow>): (r: seq<TableRow>)
    ensures multiset(r) == multiset(t)
    ensures LikesNonIncreasing(r)
  {
    if t == [] then []
    else
      assert t == [t[0]] + t[1..];
      InsertByLikes(t[0], SortByLikes(t[1..]))
  }

  /** The table tab: every analysed comment once, in non-increasing order of likes. */
  function TableView(rows: seq<Row>): (t: seq<TableRow>)
    ensures multiset(t) == multiset(Project(rows))
    ensures |t| == |rows|
    ensures LikesNonIncreasing(t)
  {
    var r := SortByLikes(Project(rows));
    assert |r| == |multiset(r)| == |multiset(Project(rows))|;
    r
  }

  /** Removing a row from a table ordered by likes leaves it ordered. */
  lemma RemoveKeepsOrder(t: seq<TableRow>, j: nat)
    requires j < |t| && LikesNonIncreasing(t)
    ensures LikesNonIncreasing(t[..j] + t[j + 1..])
  {
    var r := t[..j] + t[j + 1..];
    forall a, b | 0 <= a < b < |r| ensures r[a].likes >= r[b].likes {
      var a' := if a < j then a else a + 1;
      var b' := if b < j then b else b + 1;
      assert r[a] == t[a'] && r[b] == t[b'];
    }
  }

  /** Removing the row at `j` shifts the later rows down by one. */
  lemma RemoveAt(t: seq<TableRow>, j: nat, k: nat)
    requires j < |t| && k < |t| - 1
    ensures (t[..j] + t[j + 1..])[k] == if k < j then t[k] else t[k + 1]
  {
  }

  /**
   * In a table ordered by likes, dropping a row with the head's likes gives,
   * shifted by one, the same likes column as dropping the head.
   */
  lemma DropTiedRow(t: seq<TableRow>, j: nat, k: nat)
    requires LikesNonIncreasing(t) && j < |t| && t[j].likes == t[0].likes
    requires 0 < k < |t|
    ensures (t[..j] + t[j + 1..])[k - 1].likes == t[k].likes
  {
    RemoveAt(t, j, k - 1);
    if k - 1 < j {
      assert t[0].likes >= t[k - 1].likes >= t[k].likes >= t[j].likes;
    }
  }

  /**
   * The head of one most-liked-first ordering sits in the other at a place
   * with the other's head likes.
   */
  lemma TiedHead(s: seq<TableRow>, t: seq<TableRow>) returns (j: nat)
    requires multiset(s) == multiset(t) && s != []
    requires LikesNonIncreasing(s) && LikesNonIncreasing(t)
    ensures j < |t| && t[j] == s[0] && t[j].likes == t[0].likes
  {
    assert s[0] in multiset(t) && t[0] in multiset(s);
    j :| 0 <= j < |t| && t[j] == s[0];
    var i :| 0 <= i < |s| && s[i] == t[0];
    assert s[0].likes >= s[i].likes;
    assert t[0].likes >= t[j].likes;
  }

  lemma RemoveTail(s: seq<TableRow>, t: seq<TableRow>, j: nat)
    requires multiset(s) == multiset(t) && s != [] && j < |t| && t[j] == s[0]
    ensures multiset(s[1..]) == multiset(t[..j] + t[j + 1..])
  {
    assert t == t[..j] + [s[0]] + t[j + 1..];
    assert s == [s[0]] + s[1..];
    assert multiset(s[1..]) == multiset(s) - multiset{s[0]};
    assert multiset(t[..j] + t[j + 1..]) == multiset(t) - multiset{s[0]};
  }

  /**
   * Ordering by likes fixes the likes column: two orderings of the same rows
   * that are both most-liked first can differ only among rows with equal likes.
   */
  lemma {:induction false} OrderedByLikesUnique(s: seq<TableRow>, t: seq<TableRow>)
    requires multiset(s) == multiset(t)
    requires LikesNonIncreasing(s) && LikesNonIncreasing(t)
    ensures |s| == |t|
    ensures forall k :: 0 <= k < |s| ==> s[k].likes == t[k].likes
    decreases |s|
  {
    assert |s| == |multiset(s)| == |multiset(t)| == |t|;
    if s != [] {
      var j := TiedHead(s, t);
      var u := t[..j] + t[j + 1..];
      RemoveTail(s, t, j);
      RemoveKeepsOrder(t, j);
      OrderedByLikesUnique(s[1..], u);
      forall k | 0 < k < |s| ensures s[k].likes == t[k].likes {
        assert s[k] == s[1..][k - 1];
        DropTiedRow(t, j, k);
      }
    }
  }

  /**
   * Whatever order the sort gives rows with equal likes, the table shows the
   * same likes column as `TableView`.
   */
  lemma TableViewLikesDetermined(rows: seq<Row>, t: seq<TableRow>)
    requires multiset(t) == multiset(Project(rows)) && LikesNonIncreasing(t)
    ensures |t| == |TableView(rows)|
    ensures forall k :: 0 <= k < |t| ==> t[k].likes == TableView(rows)[k].likes
  {
    OrderedByLikesUnique(t, TableView(rows));
  }

  // ---------------------------------------------------------------------
  // One analysis run.

  datatype Analysis =
    | NoComments
    | Summary(metrics: Metrics, counts: map<Category, nat>, table: seq<TableRow>)

  /**
   * With no comments the script only warns; otherwise it annotates them and
   * shows the metrics, the label distribution and the table.
   */
  function Analyse(comments: seq<Comment>, translations: seq<string>, polarities: seq<real>): (a: Analysis)
    requires |translations| == |comments| && |polarities| == |comments|
    ensures a.NoComments? <==> comments == []
    ensures a.Summary? ==>
      && a.metrics == HeaderMetrics(Annotate(comments, translations, polarities))
      && a.metrics.total == |comments|
      && a.metrics.positive + a.metrics.negative <= |comments|
    ensures a.Summary? ==>
      && a.counts == ValueCounts(Annotate(comments, translations, polarities))
      && Tally(a.counts, Categories) == |comments|
    ensures a.Summary? ==>
      && multiset(a.table) == multiset(Project(Annotate(comments, translations, polarities)))
      && |a.table| == |comments|
      && LikesNonIncreasing(a.table)
  {
    if comments == [] then NoComments
    else
      var rows := Annotate(comments, translations, polarities);
      CountsSumToTotal(rows);
      Summary(HeaderMetrics(rows), ValueCounts(rows), TableView(rows))
  }
}
