/**
 * The score bookkeeping of the counselor review views: which subtotal an
 * approved submission feeds, how much it adds, and how the academic
 * comprehensive score is read from the form.
 */
module Scoring {
  import opened Wrappers
  import opened Text
  import opened Decimals
  import opened Models

  const AcademicCategories: seq<string> := ["thesis", "competition", "research", "other_academic"]
  const ComprehensiveCategories: seq<string> := ["volunteer", "leadership", "social_practice", "other_comprehensive"]

  /** The subtotal a submission category feeds, if any. */
  datatype Group = Academic | Comprehensive | Ungrouped

  /** The academic list is tested first; a category in neither list feeds nothing. */
  function GroupOf(category: string): (g: Group)
    ensures g == Academic <==> category in AcademicCategories
    ensures g == Comprehensive <==> category in ComprehensiveCategories
    ensures g == Ungrouped <==> category !in AcademicCategories && category !in ComprehensiveCategories
  {
    CategoriesDisjoint(category);
    if category in AcademicCategories then Academic
    else if category in ComprehensiveCategories then Comprehensive
    else Ungrouped
  }

  /** No category is in both lists, so the order of the two tests does not matter. */
  lemma CategoriesDisjoint(category: string)
    ensures !(category in AcademicCategories && category in ComprehensiveCategories)
  {
    if category in AcademicCategories {
      // Every academic name differs from every comprehensive one in its first letters.
      assert category[0] in {'t', 'c', 'r', 'o'};
      if category[0] == 'o' {
        assert category == "other_academic";
        assert category[6] == 'a';
      }
    }
  }

  /**
   * `Decimal(submission.approved_score or 0)`: a missing or empty score counts as
   * zero; any other text must be a decimal (surrounding white space allowed),
   * otherwise Python raises InvalidOperation and the result is None.
   */
  function ApprovedAmount(posted: Option<string>): (r: Option<real>)
    ensures posted.None? || posted == Some("") ==> r == Some(0.0)
    ensures posted.Some? && posted.value != "" ==>
              (r.Some? <==> FromText(posted.value).Some?) &&
              (r.Some? ==> r.value == Value(FromText(posted.value).value))
  {
    if posted.None? || posted.value == "" then Some(0.0)
    else match FromText(posted.value)
      case Some(d) => Some(Value(d))
      case None => None
  }

  /** A score written as `whole.fraction`, possibly padded with white space, is added exactly. */
  lemma ApprovedAmountExact(pre: string, negative: bool, whole: string, fraction: string, post: string)
    requires AllSpace(pre) && AllSpace(post) && AllDigits(whole) && AllDigits(fraction) && whole != []
    ensures var magnitude := DigitsValue(whole) as real + DigitsValue(fraction) as real / Pow10(|fraction|) as real;
            ApprovedAmount(Some(pre + DecimalText(negative, whole, fraction) + post))
            == Some(if negative then -magnitude else magnitude)
  {
    var s := DecimalText(negative, whole, fraction);
    StrippedDecimalText(negative, whole, fraction);
    FromTextIgnoresSpace(pre, s, post);
    ParseMeaning(negative, whole, fraction);
    assert |pre + s + post| >= |s| > 0;
  }

  /** Decimal text starts with a sign or digit and ends with a digit or point, so strip leaves it alone. */
  lemma StrippedDecimalText(negative: bool, whole: string, fraction: string)
    requires AllDigits(whole) && AllDigits(fraction) && whole != []
    ensures Strip(DecimalText(negative, whole, fraction)) == DecimalText(negative, whole, fraction)
  {
    var s := DecimalText(negative, whole, fraction);
    assert s == SignText(negative) + UnsignedText(whole, fraction);
    assert !IsSpace(s[0]);
    assert !IsSpace(s[|s| - 1]);
  }

  /**
   * The submission after `approve_submission`: approved, with the posted score text
   * kept as it came; a previous rejection and its reason are left in place.
   */
  function Approve(s: Submission, posted: Option<string>): (t: Submission)
    ensures t.approved && t.approvedScore == posted
    ensures t.rejected == s.rejected && t.rejectReason == s.rejectReason
    ensures t.(approved := s.approved, approvedScore := s.approvedScore) == s
  {
    s.(approved := true, approvedScore := posted)
  }

  /**
   * The submission after `reject_submission`: no longer approved, rejected with
   * the posted reason; the approved score text is left in place.
   */
  function Reject(s: Submission, reason: Option<string>): (t: Submission)
    ensures !t.approved && t.rejected && t.rejectReason == reason
    ensures t.approvedScore == s.approvedScore
    ensures t.(approved := s.approved, rejected := s.rejected, rejectReason := s.rejectReason) == s
  {
    s.(approved := false, rejected := true, rejectReason := reason)
  }

  /** Approving after a rejection leaves the submission both approved and marked rejected. */
  lemma ApproveAfterReject(s: Submission, reason: Option<string>, posted: Option<string>)
    ensures var t := Approve(Reject(s, reason), posted);
            t.approved && t.rejected && t.rejectReason == reason
  {
  }

  /** The subtotal a group feeds. */
  function Subtotal(p: StudentProfile, g: Group): real {
    match g
    case Academic => p.academicExpertiseScore
    case Comprehensive => p.comprehensivePerformanceScore
    case Ungrouped => 0.0
  }

  /**
   * `student.<subtotal> += score` for the submission's category: exactly the
   * subtotal of the category's group grows by `amount`; every other field of the
   * student is kept.
   */
  function Credit(p: StudentProfile, category: string, amount: real): (q: StudentProfile)
    ensures GroupOf(category) != Ungrouped ==> Subtotal(q, GroupOf(category)) == Subtotal(p, GroupOf(category)) + amount
    ensures forall g :: g != GroupOf(category) ==> Subtotal(q, g) == Subtotal(p, g)
    ensures q.(academicExpertiseScore := p.academicExpertiseScore,
               comprehensivePerformanceScore := p.comprehensivePerformanceScore) == p
  {
    match GroupOf(category)
    case Academic => p.(academicExpertiseScore := p.academicExpertiseScore + amount)
    case Comprehensive => p.(comprehensivePerformanceScore := p.comprehensivePerformanceScore + amount)
    case Ungrouped => p
  }

  /** An academic category raises the academic expertise score only. */
  lemma CreditAcademic(p: StudentProfile, category: string, amount: real)
    requires category in AcademicCategories
    ensures Credit(p, category, amount).academicExpertiseScore == p.academicExpertiseScore + amount
    ensures Credit(p, category, amount).comprehensivePerformanceScore == p.comprehensivePerformanceScore
  {
    assert Subtotal(Credit(p, category, amount), Comprehensive) == Subtotal(p, Comprehensive);
  }

  /** A comprehensive category raises the comprehensive performance score only. */
  lemma CreditComprehensive(p: StudentProfile, category: string, amount: real)
    requires category in ComprehensiveCategories
    ensures Credit(p, category, amount).comprehensivePerformanceScore == p.comprehensivePerformanceScore + amount
    ensures Credit(p, category, amount).academicExpertiseScore == p.academicExpertiseScore
  {
    assert Subtotal(Credit(p, category, amount), Academic) == Subtotal(p, Academic);
  }

  /** A category in neither list leaves the student as it was. */
  lemma CreditUngrouped(p: StudentProfile, category: string, amount: real)
    requires category !in AcademicCategories && category !in ComprehensiveCategories
    ensures Credit(p, category, amount) == p
  {
  }

  /** A zero amount (a missing or empty score) changes nothing. */
  lemma CreditZero(p: StudentProfile, category: string)
    ensures Credit(p, category, 0.0) == p
  {
  }

  /** There is no status guard: approving the same submission twice credits its amount twice. */
  lemma CreditTwice(p: StudentProfile, category: string, amount: real)
    requires GroupOf(category) != Ungrouped
    ensures Subtotal(Credit(Credit(p, category, amount), category, amount), GroupOf(category))
            == Subtotal(p, GroupOf(category)) + 2.0 * amount
  {
  }

  /** Approvals can be applied in either order. */
  lemma CreditCommutes(p: StudentProfile, c1: string, a1: real, c2: string, a2: real)
    ensures Credit(Credit(p, c1, a1), c2, a2) == Credit(Credit(p, c2, a2), c1, a1)
  {
  }

  /** One approval: the submission's category and the amount credited. */
  datatype Approval = Approval(category: string, amount: real)

  /** The student after a run of approvals, oldest first. */
  function CreditAll(p: StudentProfile, approvals: seq<Approval>): StudentProfile
    decreases |approvals|
  {
    if approvals == [] then p
    else CreditAll(Credit(p, approvals[0].category, approvals[0].amount), approvals[1..])
  }

  /** The sum of the amounts of the approvals that feed group `g`. */
  function GroupTotal(approvals: seq<Approval>, g: Group): real
    decreases |approvals|
  {
    if approvals == [] then 0.0
    else (if GroupOf(approvals[0].category) == g then approvals[0].amount else 0.0) + GroupTotal(approvals[1..], g)
  }

  /**
   * After any run of approvals each subtotal has grown by the amounts approved
   * in its group, and nothing but the two subtotals has changed.
   */
  lemma {:induction false} CreditAllTotals(p: StudentProfile, approvals: seq<Approval>)
    ensures Subtotal(CreditAll(p, approvals), Academic) == Subtotal(p, Academic) + GroupTotal(approvals, Academic)
    ensures Subtotal(CreditAll(p, approvals), Comprehensive)
            == Subtotal(p, Comprehensive) + GroupTotal(approvals, Comprehensive)
    ensures CreditAll(p, approvals).(academicExpertiseScore := p.academicExpertiseScore,
                                     comprehensivePerformanceScore := p.comprehensivePerformanceScore) == p
    decreases |approvals|
  {
    if approvals != [] {
      var q := Credit(p, approvals[0].category, approvals[0].amount);
      CreditAllTotals(q, approvals[1..]);
    }
  }

  /**
   * `set_academic_score`'s input: `POST.get('academic_comprehensive_score', '').strip()`;
   * blank text sets nothing, text that is not a decimal sets nothing, and a
   * decimal sets its exact value.
   */
  function AcademicScoreInput(raw: Option<string>): (r: Option<real>)
    ensures Strip(raw.GetOr("")) == "" ==> r.None?
    ensures r.Some? <==> Strip(raw.GetOr("")) != "" && FromText(Strip(raw.GetOr(""))).Some?
    ensures r.Some? ==> r.value == Value(FromText(Strip(raw.GetOr(""))).value)
  {
    var text := Strip(raw.GetOr(""));
    if text == "" then None
    else match FromText(text)
      case Some(d) => Some(Value(d))
      case None => None
  }

  /** A decimal written `whole.fraction` with white space around it sets exactly its value. */
  lemma AcademicScoreExact(pre: string, negative: bool, whole: string, fraction: string, post: string)
    requires AllSpace(pre) && AllSpace(post) && AllDigits(whole) && AllDigits(fraction) && whole != []
    ensures var magnitude := DigitsValue(whole) as real + DigitsValue(fraction) as real / Pow10(|fraction|) as real;
            AcademicScoreInput(Some(pre + DecimalText(negative, whole, fraction) + post))
            == Some(if negative then -magnitude else magnitude)
  {
    var s := DecimalText(negative, whole, fraction);
    assert s != [] by { assert s == SignText(negative) + UnsignedText(whole, fraction); }
    StrippedDecimalText(negative, whole, fraction);
    StripSurrounded(pre, s, post);
    assert FromText(s) == Parse(s);
    ParseMeaning(negative, whole, fraction);
    assert AcademicScoreInput(Some(pre + s + post)) == Some(Value(Parse(s).value));
  }
}
