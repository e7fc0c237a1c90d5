/**
 * Message filters of the console application
 * (src/EmailClient.Application/Services/EmailFilterService.cs).
 *
 * Each filter is an order-preserving selection over the message list. The
 * subject and sender filters match a substring ignoring case and pass the
 * list through untouched when their argument is null, empty or white space.
 */
module EmailFilterService {
  import opened Wrappers
  import opened Models
  import opened Sequences

  /** `char.IsWhiteSpace`: the Unicode space, line and paragraph separators, U+0009 to U+000D and U+0085. */
  predicate IsWhiteSpace(c: char)
  {
    c == ' ' || '\t' <= c <= '\r' || c == '\U{0085}' || c == '\U{00A0}' || c == '\U{1680}'
    || '\U{2000}' <= c <= '\U{200A}' || c == '\U{2028}' || c == '\U{2029}' || c == '\U{202F}'
    || c == '\U{205F}' || c == '\U{3000}'
  }

  /** `string.IsNullOrWhiteSpace`; `None` stands for a null reference. */
  function IsNullOrWhiteSpace(s: Option<string>): (blank: bool)
    ensures s == None || s == Some("") ==> blank
    ensures !blank <==> s.Some? && exists i :: 0 <= i < |s.value| && !IsWhiteSpace(s.value[i])
  {
    s.None? || forall i :: 0 <= i < |s.value| ==> IsWhiteSpace(s.value[i])
  }

  /** Upper-case mapping used by ordinal case-insensitive comparison, on the ASCII letters. */
  function ToUpperAscii(c: char): char
  {
    if 'a' <= c <= 'z' then (c as int - 32) as char else c
  }

  function FoldCase(s: string): string
  {
    seq(|s|, i requires 0 <= i < |s| => ToUpperAscii(s[i]))
  }

  /** `s.Contains(value, StringComparison.OrdinalIgnoreCase)`. */
  function ContainsIgnoreCase(s: string, value: string): (found: bool)
    ensures value == [] ==> found
    ensures found ==> |value| <= |s|
  {
    if |value| > |s| then
      LongerIsNotSubstring(FoldCase(value), FoldCase(s));
      false
    else
      IsSubstring(FoldCase(value), FoldCase(s))
  }

  /** `value` matches the characters of `s` from index `i` on, ignoring case. */
  ghost predicate MatchesIgnoreCaseAt(s: string, value: string, i: int)
  {
    0 <= i && i + |value| <= |s|
    && forall j :: 0 <= j < |value| ==> ToUpperAscii(s[i + j]) == ToUpperAscii(value[j])
  }

  /** Case-insensitive containment means a character-by-character match at some position. */
  lemma ContainsIgnoreCaseIff(s: string, value: string)
    ensures ContainsIgnoreCase(s, value) <==> exists i :: MatchesIgnoreCaseAt(s, value, i)
  {
    var fs, fv := FoldCase(s), FoldCase(value);
    IsSubstringIffOccurs(fv, fs);
    if ContainsIgnoreCase(s, value) {
      var i :| OccursAt(fv, fs, i);
      forall j | 0 <= j < |value| ensures ToUpperAscii(s[i + j]) == ToUpperAscii(value[j]) {
        assert fs[i..i + |fv|][j] == fv[j];
      }
      assert MatchesIgnoreCaseAt(s, value, i);
    }
    if exists i :: MatchesIgnoreCaseAt(s, value, i) {
      var i :| MatchesIgnoreCaseAt(s, value, i);
      assert fs[i..i + |fv|] == fv;
      assert OccursAt(fv, fs, i);
    }
  }

  /** The selection `FilterBySubject` applies to a non-blank keyword. */
  function SubjectContains(keyword: string): EmailMessage -> bool
  {
    (m: EmailMessage) => ContainsIgnoreCase(m.subject, keyword)
  }

  /** The selection `FilterBySender` applies to a non-blank sender. */
  function SenderContains(sender: string): EmailMessage -> bool
  {
    (m: EmailMessage) => ContainsIgnoreCase(m.from, sender)
  }

  /** The selection of `FilterByDate`: both ends of the range are inclusive. */
  function DateWithin(fromDate: Ticks, toDate: Ticks): EmailMessage -> bool
  {
    (m: EmailMessage) => fromDate <= m.date && m.date <= toDate
  }

  /** The selection of `FilterByAttachments`. */
  function AttachmentFlagIs(hasAttachments: bool): EmailMessage -> bool
  {
    (m: EmailMessage) => m.hasAttachments == hasAttachments
  }

  /**
   * `FilterBySubject`: a blank keyword returns the list itself; otherwise the
   * result is the list of messages whose subject contains the keyword,
   * ignoring case, each as often as in the input and in input order.
   */
  function FilterBySubject(emails: seq<EmailMessage>, keyword: Option<string>): (r: seq<EmailMessage>)
    ensures IsNullOrWhiteSpace(keyword) ==> r == emails
    ensures !IsNullOrWhiteSpace(keyword) ==>
      forall m: EmailMessage :: m in r <==> m in emails && ContainsIgnoreCase(m.subject, keyword.value)
    ensures !IsNullOrWhiteSpace(keyword) ==>
      forall m: EmailMessage :: multiset(r)[m] == if ContainsIgnoreCase(m.subject, keyword.value) then multiset(emails)[m] else 0
    ensures IsSubsequence(r, emails) && |r| <= |emails|
  {
    if IsNullOrWhiteSpace(keyword) then
      IsSubsequenceReflexive(emails);
      emails
    else
      WhereIsSubsequence(emails, SubjectContains(keyword.value));
      WhereCountsAll(emails, SubjectContains(keyword.value));
      Where(emails, SubjectContains(keyword.value))
  }

  /** `FilterBySender`: the same as `FilterBySubject`, on the sender address. */
  function FilterBySender(emails: seq<EmailMessage>, sender: Option<string>): (r: seq<EmailMessage>)
    ensures IsNullOrWhiteSpace(sender) ==> r == emails
    ensures !IsNullOrWhiteSpace(sender) ==>
      forall m: EmailMessage :: m in r <==> m in emails && ContainsIgnoreCase(m.from, sender.value)
    ensures !IsNullOrWhiteSpace(sender) ==>
      forall m: EmailMessage :: multiset(r)[m] == if ContainsIgnoreCase(m.from, sender.value) then multiset(emails)[m] else 0
    ensures IsSubsequence(r, emails) && |r| <= |emails|
  {
    if IsNullOrWhiteSpace(sender) then
      IsSubsequenceReflexive(emails);
      emails
    else
      WhereIsSubsequence(emails, SenderContains(sender.value));
      WhereCountsAll(emails, SenderContains(sender.value));
      Where(emails, SenderContains(sender.value))
  }

  /** `FilterByDate`: the messages dated from `fromDate` to `toDate`, both included, in input order. */
  function FilterByDate(emails: seq<EmailMessage>, fromDate: Ticks, toDate: Ticks): (r: seq<EmailMessage>)
    ensures forall m: EmailMessage :: m in r <==> m in emails && fromDate <= m.date <= toDate
    ensures forall m: EmailMessage :: multiset(r)[m] == if fromDate <= m.date <= toDate then multiset(emails)[m] else 0
    ensures IsSubsequence(r, emails) && |r| <= |emails|
  {
    WhereIsSubsequence(emails, DateWithin(fromDate, toDate));
    WhereCountsAll(emails, DateWithin(fromDate, toDate));
    Where(emails, DateWithin(fromDate, toDate))
  }

  /** `FilterByAttachments`: the messages whose attachment flag equals `hasAttachments`, in input order. */
  function FilterByAttachments(emails: seq<EmailMessage>, hasAttachments: bool := true): (r: seq<EmailMessage>)
    ensures forall m: EmailMessage :: m in r <==> m in emails && m.hasAttachments == hasAttachments
    ensures forall m: EmailMessage :: multiset(r)[m] == if m.hasAttachments == hasAttachments then multiset(emails)[m] else 0
    ensures IsSubsequence(r, emails) && |r| <= |emails|
  {
    WhereIsSubsequence(emails, AttachmentFlagIs(hasAttachments));
    WhereCountsAll(emails, AttachmentFlagIs(hasAttachments));
    Where(emails, AttachmentFlagIs(hasAttachments))
  }

  lemma FilterBySubjectIdempotent(emails: seq<EmailMessage>, keyword: Option<string>)
    ensures FilterBySubject(FilterBySubject(emails, keyword), keyword) == FilterBySubject(emails, keyword)
  {
    if !IsNullOrWhiteSpace(keyword) {
      WhereIdempotent(emails, SubjectContains(keyword.value));
    }
  }

  lemma FilterBySenderIdempotent(emails: seq<EmailMessage>, sender: Option<string>)
    ensures FilterBySender(FilterBySender(emails, sender), sender) == FilterBySender(emails, sender)
  {
    if !IsNullOrWhiteSpace(sender) {
      WhereIdempotent(emails, SenderContains(sender.value));
    }
  }

  lemma FilterByDateIdempotent(emails: seq<EmailMessage>, fromDate: Ticks, toDate: Ticks)
    ensures FilterByDate(FilterByDate(emails, fromDate, toDate), fromDate, toDate) == FilterByDate(emails, fromDate, toDate)
  {
    WhereIdempotent(emails, DateWithin(fromDate, toDate));
  }

  lemma FilterByAttachmentsIdempotent(emails: seq<EmailMessage>, hasAttachments: bool)
    ensures FilterByAttachments(FilterByAttachments(emails, hasAttachments), hasAttachments)
         == FilterByAttachments(emails, hasAttachments)
  {
    WhereIdempotent(emails, AttachmentFlagIs(hasAttachments));
  }

  /** An empty date range (`fromDate` after `toDate`) selects nothing. */
  lemma FilterByDateEmptyRange(emails: seq<EmailMessage>, fromDate: Ticks, toDate: Ticks)
    requires fromDate > toDate
    ensures FilterByDate(emails, fromDate, toDate) == []
  {
    WhereNonePass(emails, DateWithin(fromDate, toDate));
  }

  /** The messages with attachments and those without split the list between them. */
  lemma FilterByAttachmentsPartition(emails: seq<EmailMessage>)
    ensures |FilterByAttachments(emails, true)| + |FilterByAttachments(emails, false)| == |emails|
    ensures multiset(FilterByAttachments(emails, true)) + multiset(FilterByAttachments(emails, false)) == multiset(emails)
  {
    WhereComplement(emails, AttachmentFlagIs(true), AttachmentFlagIs(false));
  }

  /** A message with only a subject and a sender, as the unit tests build them. */
  function TestMessage(subject: string, from: string): EmailMessage
  {
    EmailMessage("", subject, "", from, "", 0, false, [])
  }

  /** The case-insensitive matches the unit tests rely on. */
  lemma ScenarioMatches(k: string)
    requires k == "Practice" || k == "practice"
    ensures !IsNullOrWhiteSpace(Some(k))
    ensures ContainsIgnoreCase("Optima Practice", k) && ContainsIgnoreCase("Practice Report", k)
  {
    assert !IsWhiteSpace(k[0]);
    assert MatchesIgnoreCaseAt("Optima Practice", k, 7) by {
      assert "Optima Practice"[7..] == "Practice";
    }
    MatchedAt("Optima Practice", k, 7);
    assert MatchesIgnoreCaseAt("Practice Report", k, 0) by {
      assert "Practice Report"[..8] == "Practice";
    }
    MatchedAt("Practice Report", k, 0);
  }

  lemma MatchedAt(s: string, value: string, i: int)
    requires MatchesIgnoreCaseAt(s, value, i)
    ensures ContainsIgnoreCase(s, value)
  {
    ContainsIgnoreCaseIff(s, value);
  }

  lemma ScenarioMismatch(k: string)
    requires k == "Practice" || k == "practice"
    ensures !ContainsIgnoreCase("Discount", k)
  {
    assert FoldCase("Discount")[0] != FoldCase(k)[0];
    LongerIsNotSubstring(FoldCase(k), FoldCase("Discount")[1..]);
  }

  /** The case-insensitivity unit test: "optima" selects the message with subject "OPTIMA". */
  lemma FilterBySubjectIgnoresCase()
    ensures FilterBySubject([TestMessage("OPTIMA", "test@test.com")], Some("optima"))
         == [TestMessage("OPTIMA", "test@test.com")]
  {
    assert !IsWhiteSpace("optima"[0]);
    assert MatchesIgnoreCaseAt("OPTIMA", "optima", 0);
    ContainsIgnoreCaseIff("OPTIMA", "optima");
  }

  /**
   * The unit-test scenario: of "Optima Practice", "Discount" and "Practice
   * Report", the keyword "Practice" or "practice" selects the first and the
   * third, in that order.
   */
  lemma FilterBySubjectScenario(k: string)
    requires k == "Practice" || k == "practice"
    ensures var emails := [TestMessage("Optima Practice", "tutor@optima-osvita.org"),
                           TestMessage("Discount", "shop@store.com"),
                           TestMessage("Practice Report", "student@optima-osvita.org")];
            FilterBySubject(emails, Some(k)) == [emails[0], emails[2]]
  {
    var emails := [TestMessage("Optima Practice", "tutor@optima-osvita.org"),
                   TestMessage("Discount", "shop@store.com"),
                   TestMessage("Practice Report", "student@optima-osvita.org")];
    var p := SubjectContains(k);
    ScenarioMatches(k);
    ScenarioMismatch(k);
    assert p(emails[0]) && !p(emails[1]) && p(emails[2]);
    WhereKeepDropKeep(emails[0], emails[1], emails[2], p);
  }
}
