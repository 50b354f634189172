/** Post.validates_posts_fields: the validator run on every assignment to a
    Post's content, title, summary or category. Each branch returns the value
    it was given, unchanged, when it accepts it. */
module PostValidation {
  import opened Results
  import opened Text

  /** The fewest non-space characters a post's content may have. */
  const MinContentLength := 250

  /** The most non-space characters a post's summary may have. */
  const MaxSummaryLength := 250

  /** The phrases of which a title must contain at least one. */
  const ClickBait: seq<string> := ["Won't Believe", "Secret", "Top", "Guess"]

  /** The two categories a post may have, compared case-sensitively. */
  const Categories: seq<string> := ["Fiction", "Non-Fiction"]

  const ContentTooShort := "Content must be at least 250 characters long!"
  const TitleRequired := "Each post must have a title!"
  const TermsPrefix := "Title must have at least one of the following terms: "
  const TitleTerms := TermsPrefix + Join(", ", ClickBait)
  const SummaryTooLong := "Summary cannot exceed 250 characters!"
  const BadCategory := "Category can only be Fiction or Non-Fiction"

  /** The fields the validator is registered for. */
  datatype PostField = Title | Content | Category | Summary

  /** Some marker phrase occurs at some position of the title. */
  ghost predicate HasMarker(title: string) {
    exists term, i :: term in ClickBait && OccursAt(title, term, i)
  }

  /** `any(term in title for term in ClickBait)`: true exactly when some
      marker phrase occurs in the title. */
  predicate HasClickBait(title: string): (b: bool)
    ensures b <==> HasMarker(title)
  {
    ContainsAny(title, ClickBait)
  }

  /** What an accepted Post value satisfies. */
  ghost predicate ValidPostValue(key: PostField, v: string) {
    match key
    case Title => HasMarker(v)
    case Content => NonSpaceCount(v) >= MinContentLength
    case Category => v == "Fiction" || v == "Non-Fiction"
    case Summary => NonSpaceCount(v) <= MaxSummaryLength
  }

  /** The message a field's validator raises; a title has a second one. */
  function RejectionMessage(key: PostField): string {
    match key
    case Title => TitleTerms
    case Content => ContentTooShort
    case Category => BadCategory
    case Summary => SummaryTooLong
  }

  /** The content branch: the length test counts the characters other than
      ' ', but the original string, spaces included, is what is returned. */
  function ValidateContent(content: string): (r: Result)
    ensures r.Ok? ==> r.value == content
    ensures r.Err? ==> r.msg == ContentTooShort
  {
    if |RemoveSpaces(content)| < MinContentLength then Err(ContentTooShort)
    else Ok(content)
  }

  /** The title branch. Its blank guard is `not title and title.strip() == ''`,
      which holds of "" alone; any other title is judged by the markers. */
  function ValidateTitle(title: string): (r: Result)
    ensures r.Ok? ==> r.value == title
    ensures r.Err? ==> r.msg == TitleRequired || r.msg == TitleTerms
  {
    if title == "" && Strip(title) == "" then Err(TitleRequired)
    else if !HasClickBait(title) then Err(TitleTerms)
    else Ok(title)
  }

  /** The summary branch: at most 250 characters other than ' '; the
      original string is returned. */
  function ValidateSummary(summary: string): (r: Result)
    ensures r.Ok? ==> r.value == summary
    ensures r.Err? ==> r.msg == SummaryTooLong
  {
    if |RemoveSpaces(summary)| > MaxSummaryLength then Err(SummaryTooLong)
    else Ok(summary)
  }

  /** The category branch: membership in the list of two categories. */
  function ValidateCategory(category: string): (r: Result)
    ensures r.Ok? ==> r.value == category
    ensures r.Err? ==> r.msg == BadCategory
  {
    if category !in Categories then Err(BadCategory)
    else Ok(category)
  }

  /** The validator itself, dispatching on the field being assigned: an
      accepted value is returned unchanged and is valid for its field; a
      rejected one gets that field's message (or, for "", the title one). */
  function ValidatePostField(key: PostField, value: string): (r: Result)
    ensures r.Ok? ==> r.value == value && ValidPostValue(key, value)
    ensures r.Err? ==> r.msg == RejectionMessage(key) || (key == Title && r.msg == TitleRequired)
  {
    match key
    case Title => TitleAccepted(value); ValidateTitle(value)
    case Content => ContentAccepted(value); ValidateContent(value)
    case Category => CategoryAccepted(value); ValidateCategory(value)
    case Summary => SummaryAccepted(value); ValidateSummary(value)
  }

  // ---------------------------------------------------------------------
  // content and summary

  /** Content is accepted iff it has at least 250 characters other than
      ' ', so 250 is accepted and 249 is rejected. */
  lemma ContentAccepted(content: string)
    ensures ValidateContent(content).Ok? <==> NonSpaceCount(content) >= MinContentLength
  {
    RemoveSpacesLength(content);
  }

  /** A summary is accepted iff it has at most 250 characters other than
      ' ', so 250 is accepted and 251 is rejected. */
  lemma SummaryAccepted(summary: string)
    ensures ValidateSummary(summary).Ok? <==> NonSpaceCount(summary) <= MaxSummaryLength
  {
    RemoveSpacesLength(summary);
  }

  /** Inserting a space does not change whether content or a summary is
      accepted, though it is kept in the value returned. */
  lemma LengthChecksIgnoreSpace(x: string, y: string)
    ensures ValidateContent(x + " " + y).Ok? == ValidateContent(x + y).Ok?
    ensures ValidateSummary(x + " " + y).Ok? == ValidateSummary(x + y).Ok?
  {
    RemoveSpacesConcat(x + " ", y);
    RemoveSpacesConcat(x, " ");
    RemoveSpacesConcat(x, y);
  }

  // ---------------------------------------------------------------------
  // title

  /** No marker phrase is made of whitespace only. */
  lemma MarkersNotBlank(term: string)
    requires term in ClickBait
    ensures term != [] && !IsWhitespace(term[0])
  {
  }

  /** A whitespace-only title contains no marker phrase. */
  lemma BlankHasNoMarker(title: string)
    requires IsBlank(title)
    ensures !HasMarker(title)
  {
    if HasMarker(title) {
      var term, i :| term in ClickBait && OccursAt(title, term, i);
      MarkersNotBlank(term);
      assert false;
    }
  }

  /** A title is accepted iff some marker phrase occurs in it, and is then
      returned unchanged; "" gets the "must have a title" message and every
      other rejected title gets the terms message. */
  lemma TitleAccepted(title: string)
    ensures ValidateTitle(title).Ok? <==> HasMarker(title)
    ensures title == "" ==> ValidateTitle(title) == Err(TitleRequired)
    ensures title != "" && !HasMarker(title) ==> ValidateTitle(title) == Err(TitleTerms)
  {
    var b := HasClickBait(title);
    assert b <==> HasMarker(title);
    if title == "" {
      assert Strip(title) == "";
    } else if b {
      assert ValidateTitle(title) == Ok(title);
    } else {
      assert ValidateTitle(title) == Err(TitleTerms);
    }
  }

  /** As written, the blank guard rejects only "": a non-empty title made of
      whitespace passes it and is then rejected by the marker check. */
  lemma TitleRequiredOnlyForEmpty(title: string)
    ensures ValidateTitle(title) == Err(TitleRequired) <==> title == ""
    ensures title != "" && IsBlank(title) ==> ValidateTitle(title) == Err(TitleTerms)
  {
    if title != "" && IsBlank(title) {
      BlankHasNoMarker(title);
      TitleAccepted(title);
    }
  }

  /** The terms message lists the markers joined by ", ". */
  lemma TitleTermsMessage()
    ensures TitleTerms == TermsPrefix + "Won't Believe, Secret, Top, Guess"
  {
    JoinFour(", ", "Won't Believe", "Secret", "Top", "Guess");
  }

  /** The terms message names every marker phrase. */
  lemma TitleTermsNamesMarkers(k: int)
    requires 0 <= k < |ClickBait|
    ensures Contains(TitleTerms, ClickBait[k])
  {
    var prefix := TermsPrefix;
    var joined := Join(", ", ClickBait);
    JoinNamesItems(", ", ClickBait, k);
    var i :| OccursAt(joined, ClickBait[k], i);
    assert TitleTerms[|prefix| + i..|prefix| + i + |ClickBait[k]|] == joined[i..i + |ClickBait[k]|];
    assert OccursAt(TitleTerms, ClickBait[k], |prefix| + i);
    ContainsIff(TitleTerms, ClickBait[k]);
  }

  /** A title that contains one of the markers is accepted. */
  lemma TitleWithMarker(title: string, k: int)
    requires 0 <= k < |ClickBait| && Contains(title, ClickBait[k])
    ensures ValidateTitle(title) == Ok(title)
  {
    ContainsIff(title, ClickBait[k]);
    var i :| OccursAt(title, ClickBait[k], i);
    assert HasMarker(title);
  }

  /** A non-empty title that contains none of the markers gets the terms
      message. */
  lemma TitleWithoutMarker(title: string)
    requires title != ""
    requires forall k :: 0 <= k < |ClickBait| ==> !Contains(title, ClickBait[k])
    ensures ValidateTitle(title) == Err(TitleTerms)
  {
    forall term, i | term in ClickBait && OccursAt(title, term, i) ensures false {
      var k :| 0 <= k < |ClickBait| && ClickBait[k] == term;
      ContainsIff(title, term);
    }
    assert !HasMarker(title);
  }

  // The two examples below pin their titles through a requires rather than
  // writing them into the ensures, so that the verifier does not unfold the
  // substring scan over each literal character by character.

  /** "Top 10 Tips" is accepted unchanged. */
  lemma TitleExampleAccepted(good: string)
    requires good == "Top 10 Tips"
    ensures ValidateTitle(good) == Ok(good)
  {
    assert good[..3] == ClickBait[2];
    TitleWithMarker(good, 2);
  }

  /** "Hello World" contains none of the markers: it lacks the apostrophe,
      'S', 'T' and 'G' that occur in them. */
  lemma TitleExampleRejected(bad: string)
    requires bad == "Hello World"
    ensures ValidateTitle(bad) == Err(TitleTerms)
  {
    MissingCharNotContained(bad, ClickBait[0], '\'');
    MissingCharNotContained(bad, ClickBait[1], 'S');
    MissingCharNotContained(bad, ClickBait[2], 'T');
    MissingCharNotContained(bad, ClickBait[3], 'G');
    TitleWithoutMarker(bad);
  }

  // ---------------------------------------------------------------------
  // category

  /** A category is accepted iff it is exactly "Fiction" or "Non-Fiction";
      case matters, so "fiction" is rejected. */
  lemma CategoryAccepted(category: string)
    ensures ValidateCategory(category).Ok? <==> category == "Fiction" || category == "Non-Fiction"
    ensures ValidateCategory("fiction") == Err(BadCategory)
  {
  }

  // ---------------------------------------------------------------------
  // the dispatch

  /** Re-validating an accepted value accepts it again, unchanged. */
  lemma PostFieldIdempotent(key: PostField, value: string)
    requires ValidatePostField(key, value).Ok?
    ensures ValidatePostField(key, ValidatePostField(key, value).value)
         == ValidatePostField(key, value)
  {
  }
}
