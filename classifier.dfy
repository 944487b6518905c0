/**
 * The rule-based comment classifier: five keyword rules tried in order on
 * the lower-cased text, first match wins, and a polarity threshold when no
 * rule fires. The polarity score comes from a statistical sentiment model
 * outside this model; it is a parameter here.
 */
module Classifier {
  import opened Wrappers
  import opened Strings

  datatype Category =
    | Appreciation
    | ConstructiveFeedback
    | NegativeCriticism
    | QuestionInquiry
    | SpamOrPromotional
    | NeutralStatements

  /** The six categories, in the order the script introduces their labels. */
  const Categories: seq<Category> := [
    Appreciation, ConstructiveFeedback, NegativeCriticism,
    QuestionInquiry, SpamOrPromotional, NeutralStatements
  ]

  /**
   * The label string the script stores in its `sentiment` column. The
   * metrics pick rows by these strings, so the two filters they use select
   * exactly the categories meant.
   */
  function Label(c: Category): (s: string)
    ensures s in ["Appreciation", "Constructive Feedback"] <==> c == Appreciation || c == ConstructiveFeedback
    ensures s == "Negative Criticism" <==> c == NegativeCriticism
  {
    match c
    case Appreciation => "Appreciation"
    case ConstructiveFeedback => "Constructive Feedback"
    case NegativeCriticism => "Negative Criticism"
    case QuestionInquiry => "Question/Inquiry"
    case SpamOrPromotional => "Spam or Promotional"
    case NeutralStatements => "Neutral Statements"
  }

  /** The six label strings, one per category. */
  const Labels: seq<string> := [
    Label(Appreciation), Label(ConstructiveFeedback), Label(NegativeCriticism),
    Label(QuestionInquiry), Label(SpamOrPromotional), Label(NeutralStatements)
  ]

  /** Every category is listed, so its label is one of the six strings. */
  lemma LabelListed(c: Category)
    ensures c in Categories
    ensures Label(c) in Labels
  {
    var i := match c
      case Appreciation => 0
      case ConstructiveFeedback => 1
      case NegativeCriticism => 2
      case QuestionInquiry => 3
      case SpamOrPromotional => 4
      case NeutralStatements => 5;
    assert Categories[i] == c;
    assert Labels[i] == Label(c);
  }

  /** Distinct categories have distinct labels. */
  lemma LabelInjective(c: Category, d: Category)
    ensures Label(c) == Label(d) ==> c == d
  {
  }

  /** A category's label is listed and names that category alone. */
  lemma LabelNamesCategory(d: Category)
    ensures Label(d) in Labels
    ensures forall c :: Label(d) == Label(c) <==> c == d
  {
    LabelListed(d);
    forall c ensures Label(d) == Label(c) ==> c == d {
      LabelInjective(c, d);
    }
  }

  const AppreciationWords: seq<string> :=
    ["amazing", "great", "awesome", "loved", "excellent", "thanks", "thank you"]
  const FeedbackWords: seq<string> :=
    ["could be", "should", "suggest", "improve", "better if"]
  const NegativeWords: seq<string> :=
    ["terrible", "waste", "worst", "horrible", "bad", "awful"]
  const QuestionWords: seq<string> :=
    ["?", "how", "what", "when", "where", "why", "can you"]
  const PromotionWords: seq<string> :=
    ["subscribe", "check out", "visit", "follow", "my channel"]

  /** `any(word in text for word in words)`. */
  function MentionsAny(text: string, words: seq<string>): (b: bool)
    ensures b <==> exists k :: 0 <= k < |words| && Contains(text, words[k])
  {
    if words == [] then false
    else Contains(text, words[0]) || MentionsAny(text, words[1..])
  }

  /**
   * The exact value of the double nearest to 0.1, the literal the script
   * compares `abs(polarity)` with; both sides of that comparison are doubles,
   * and comparing their exact values is what the comparison does.
   */
  const NeutralBand: real := 0.1000000000000000055511151231257827021181583404541015625

  function Abs(x: real): real
  {
    if x < 0.0 then -x else x
  }

  /** The label chosen from the polarity score when no keyword rule fires. */
  function PolarityFallback(polarity: real): (c: Category)
    ensures c == NeutralStatements <==> -NeutralBand < polarity < NeutralBand
    ensures c == Appreciation <==> polarity >= NeutralBand
    ensures c == NegativeCriticism <==> polarity <= -NeutralBand
  {
    if Abs(polarity) < NeutralBand then NeutralStatements
    else if polarity > 0.0 then Appreciation
    else NegativeCriticism
  }

  /**
   * `classify_sentiment`: the keyword rules on the lower-cased text, in order,
   * then the polarity threshold. `polarity` is the score the sentiment model
   * gives the same text.
   */
  function Classify(text: string, polarity: real): (c: Category)
    ensures MentionsAny(Lower(text), AppreciationWords) ==> c == Appreciation
    ensures c == ConstructiveFeedback ==> MentionsAny(Lower(text), FeedbackWords)
    ensures c == QuestionInquiry ==> MentionsAny(Lower(text), QuestionWords)
    ensures c == SpamOrPromotional ==> MentionsAny(Lower(text), PromotionWords)
    ensures c == NeutralStatements ==> -NeutralBand < polarity < NeutralBand
  {
    var lowered := Lower(text);
    if MentionsAny(lowered, AppreciationWords) then Appreciation
    else if MentionsAny(lowered, FeedbackWords) then ConstructiveFeedback
    else if MentionsAny(lowered, NegativeWords) then NegativeCriticism
    else if MentionsAny(lowered, QuestionWords) then QuestionInquiry
    else if MentionsAny(lowered, PromotionWords) then SpamOrPromotional
    else PolarityFallback(polarity)
  }

  /** The classifier as the script returns it: a label string. */
  function ClassifySentiment(text: string, polarity: real): (s: string)
    ensures s in Labels
    ensures forall c :: s == Label(c) <==> c == Classify(text, polarity)
  {
    LabelNamesCategory(Classify(text, polarity));
    Label(Classify(text, polarity))
  }

  // ---------------------------------------------------------------------
  // The same decision as a table of rules read by a generic first-match
  // procedure, the reference the if/elif chain is checked against.

  datatype Rule = Rule(words: seq<string>, category: Category)

  /** The keyword rules in the order they are tried. */
  const Rules: seq<Rule> := [
    Rule(AppreciationWords, Appreciation),
    Rule(FeedbackWords, ConstructiveFeedback),
    Rule(NegativeWords, NegativeCriticism),
    Rule(QuestionWords, QuestionInquiry),
    Rule(PromotionWords, SpamOrPromotional)
  ]

  predicate Fires(text: string, rule: Rule)
  {
    MentionsAny(text, rule.words)
  }

  /** Rule `k` fires on `text` and no rule before it does. */
  predicate FirstFiring(text: string, rules: seq<Rule>, k: int)
  {
    && 0 <= k < |rules|
    && Fires(text, rules[k])
    && forall j :: 0 <= j < k ==> !Fires(text, rules[j])
  }

  predicate NoneFires(text: string, rules: seq<Rule>)
  {
    forall k :: 0 <= k < |rules| ==> !Fires(text, rules[k])
  }

  /** Index of the first rule that fires, if any. */
  function FirstFiringIndex(text: string, rules: seq<Rule>): (r: Option<nat>)
    ensures r.Some? ==> FirstFiring(text, rules, r.value)
    ensures r.None? ==> NoneFires(text, rules)
  {
    if rules == [] then None
    else if Fires(text, rules[0]) then Some(0)
    else match FirstFiringIndex(text, rules[1..])
      case None =>
        NoneFiresCons(text, rules);
        None
      case Some(k) =>
        FirstFiringCons(text, rules, k);
        Some(k + 1)
  }

  /** Rule `k` of the tail is the first to fire when the head does not fire. */
  lemma FirstFiringCons(text: string, rules: seq<Rule>, k: nat)
    requires rules != [] && !Fires(text, rules[0]) && FirstFiring(text, rules[1..], k)
    ensures FirstFiring(text, rules, k + 1)
  {
    forall j | 0 <= j < k + 1
      ensures !Fires(text, rules[j])
    {
      if j > 0 { assert rules[j] == rules[1..][j - 1]; }
    }
  }

  lemma NoneFiresCons(text: string, rules: seq<Rule>)
    requires rules != [] && !Fires(text, rules[0]) && NoneFires(text, rules[1..])
    ensures NoneFires(text, rules)
  {
    forall j | 0 <= j < |rules|
      ensures !Fires(text, rules[j])
    {
      if j > 0 { assert rules[j] == rules[1..][j - 1]; }
    }
  }

  /** First-match-wins over `Rules`, falling back to the polarity threshold. */
  function RuleTableClassify(text: string, polarity: real): Category
  {
    match FirstFiringIndex(Lower(text), Rules)
    case Some(k) => Rules[k].category
    case None => PolarityFallback(polarity)
  }

  /** At most one rule is the first to fire. */
  lemma FirstFiringUnique(text: string, rules: seq<Rule>, k: int, m: int)
    requires FirstFiring(text, rules, k) && FirstFiring(text, rules, m)
    ensures k == m
  {
  }

  /** When rule `k` is the first to fire on the lower-cased text, its label is the answer. */
  lemma Precedence(text: string, polarity: real, k: int)
    requires FirstFiring(Lower(text), Rules, k)
    ensures Classify(text, polarity) == Rules[k].category
  {
    var lowered := Lower(text);
    assert Fires(lowered, Rules[k]);
    if k > 0 { assert !Fires(lowered, Rules[0]); }
    if k > 1 { assert !Fires(lowered, Rules[1]); }
    if k > 2 { assert !Fires(lowered, Rules[2]); }
    if k > 3 { assert !Fires(lowered, Rules[3]); }
  }

  /** When no rule fires, the polarity threshold alone decides. */
  lemma FallbackWhenNoneFires(text: string, polarity: real)
    requires NoneFires(Lower(text), Rules)
    ensures Classify(text, polarity) == PolarityFallback(polarity)
  {
    var lowered := Lower(text);
    assert !Fires(lowered, Rules[0]) && !Fires(lowered, Rules[1]) && !Fires(lowered, Rules[2]);
    assert !Fires(lowered, Rules[3]) && !Fires(lowered, Rules[4]);
  }

  /** The if/elif chain and the rule table decide alike on every input. */
  lemma ClassifyIsFirstMatch(text: string, polarity: real)
    ensures Classify(text, polarity) == RuleTableClassify(text, polarity)
  {
    match FirstFiringIndex(Lower(text), Rules)
    case Some(k) => Precedence(text, polarity, k);
    case None => FallbackWhenNoneFires(text, polarity);
  }

  /**
   * What each answer means: the label of the first rule that fires, or, when
   * none fires, the label the polarity threshold picks.
   */
  lemma ClassifyCharacterisation(text: string, polarity: real, c: Category)
    ensures Classify(text, polarity) == c <==>
      || (exists k :: FirstFiring(Lower(text), Rules, k) && Rules[k].category == c)
      || (NoneFires(Lower(text), Rules) && PolarityFallback(polarity) == c)
  {
    var lowered := Lower(text);
    match FirstFiringIndex(lowered, Rules)
    case Some(k) =>
      Precedence(text, polarity, k);
      forall m | FirstFiring(lowered, Rules, m)
        ensures m == k
      {
        FirstFiringUnique(lowered, Rules, k, m);
      }
    case None =>
      FallbackWhenNoneFires(text, polarity);
  }

  // ---------------------------------------------------------------------
  // Consequences for particular texts.

  /**
   * Praise wins: a text whose lower-cased form contains an appreciation
   * keyword is Appreciation, whatever later rules would also match.
   */
  lemma AppreciationWins(text: string, polarity: real, w: string)
    requires w in AppreciationWords && Contains(Lower(text), w)
    ensures Classify(text, polarity) == Appreciation
  {
  }

  /**
   * A question mark makes a question unless praise, a suggestion or a
   * complaint keyword comes first in the rule order.
   */
  lemma QuestionMarkWins(text: string, polarity: real)
    requires Contains(text, "?")
    requires !Fires(Lower(text), Rules[0]) && !Fires(Lower(text), Rules[1]) && !Fires(Lower(text), Rules[2])
    ensures Classify(text, polarity) == QuestionInquiry
  {
    var i := IndexOf(text, "?").value;
    OccursLower(text, "?", i);
    assert Lower("?") == "?";
    assert Contains(Lower(text), QuestionWords[0]);
  }

  /** Neutral Statements comes only from the threshold, never when a keyword matches. */
  lemma NeutralMeansNoKeyword(text: string, polarity: real)
    ensures Classify(text, polarity) == NeutralStatements <==>
      NoneFires(Lower(text), Rules) && -NeutralBand < polarity < NeutralBand
  {
    match FirstFiringIndex(Lower(text), Rules)
    case Some(k) =>
      Precedence(text, polarity, k);
      assert Rules[k].category != NeutralStatements by {
        assert k < 5;
      }
    case None =>
      FallbackWhenNoneFires(text, polarity);
  }

  /**
   * The keyword rules do not see case: lowering the text first changes
   * nothing. The polarity is held fixed; in the script the sentiment model
   * would score the lowered text anew, so this is about the keyword rules only.
   */
  lemma CaseInsensitive(text: string, polarity: real)
    ensures Classify(Lower(text), polarity) == Classify(text, polarity)
  {
    LowerIdempotent(text);
  }

  /** The empty comment matches no keyword, so the threshold decides. */
  lemma EmptyComment(polarity: real)
    ensures Classify("", polarity) == PolarityFallback(polarity)
    ensures -NeutralBand < polarity < NeutralBand ==> Classify("", polarity) == NeutralStatements
  {
    assert Lower("") == "";
    forall k | 0 <= k < |Rules|
      ensures !Fires("", Rules[k])
    {
      assert k < 5;
      NothingInEmpty(Rules[k].words);
    }
    FallbackWhenNoneFires("", polarity);
  }

  /** Every keyword is non-empty, so none occurs in the empty text. */
  lemma NothingInEmpty(words: seq<string>)
    requires forall k :: 0 <= k < |words| ==> |words[k]| > 0
    ensures !MentionsAny("", words)
  {
  }

  /** Praise and a complaint in one comment: the praise decides. */
  lemma PraiseBeforeComplaint(before: string, middle: string, after: string, polarity: real)
    ensures Classify(before + "awesome" + middle + "terrible" + after, polarity) == Appreciation
  {
    var text := before + "awesome" + middle + "terrible" + after;
    var n := |before|;
    assert text[n..n + 7] == "awesome";
    assert OccursAt(text, "awesome", n);
    OccursLower(text, "awesome", n);
    assert Lower("awesome") == "awesome";
    AppreciationWins(text, polarity, "awesome");
  }
}
