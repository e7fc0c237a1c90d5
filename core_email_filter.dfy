/**
 * The Python filter of the script front end (core/email_filter.py).
 *
 * An e-mail there is a dict built by the POP3 receiver: "from" and "subject"
 * hold a str, or None when the header is missing. Each filter is a list
 * comprehension with a case-sensitive `in` test; it raises `KeyError` for a
 * dict without the key and `TypeError` when the value is not a str.
 */
module CoreEmailFilter {
  import opened Wrappers
  import opened Sequences

  datatype PyValue = Str(s: string) | NoneValue | Bool(b: bool)

  type PyEmail = map<string, PyValue>

  datatype PyError = KeyError(key: string) | TypeError

  datatype PyResult<T> = Ok(value: T) | Raised(error: PyError)

  /** `email[key]` exists and is a str, so `needle in email[key]` does not raise. */
  predicate HasStr(email: PyEmail, key: string)
  {
    key in email && email[key].Str?
  }

  /** The exception `needle in email[key]` raises when `email[key]` is not a str. */
  function ErrorOf(email: PyEmail, key: string): PyError
  {
    if key in email then TypeError else KeyError(key)
  }

  /** `needle in email[key]`, for a dict where it does not raise. */
  predicate Contains(email: PyEmail, key: string, needle: string)
    requires HasStr(email, key)
  {
    IsSubstring(needle, email[key].s)
  }

  /** The test of the comprehension, on a dict where it does not raise. */
  function Passes(key: string, needle: string): PyEmail -> bool
  {
    (e: PyEmail) => HasStr(e, key) && Contains(e, key, needle)
  }

  /** The index of the first dict for which `needle in email[key]` raises, if any. */
  function FirstBad(emails: seq<PyEmail>, key: string): (r: Option<nat>)
    ensures r.None? <==> forall i :: 0 <= i < |emails| ==> HasStr(emails[i], key)
    ensures r.Some? ==>
      r.value < |emails| && !HasStr(emails[r.value], key) && forall j :: 0 <= j < r.value ==> HasStr(emails[j], key)
  {
    if emails == [] then None
    else if !HasStr(emails[0], key) then Some(0)
    else
      match FirstBad(emails[1..], key)
      case None =>
        assert forall i :: 1 <= i < |emails| ==> emails[i] == emails[1..][i - 1];
        None
      case Some(i) =>
        assert forall j :: 1 <= j <= i + 1 ==> emails[j] == emails[1..][j - 1];
        Some(i + 1)
  }

  /**
   * `[email for email in emails if needle in email[key]]`. The comprehension
   * runs left to right, so the first dict for which the test raises decides the
   * exception; otherwise the result is the dicts that pass, in input order,
   * each as often as in the input.
   */
  function Select(emails: seq<PyEmail>, key: string, needle: string): (r: PyResult<seq<PyEmail>>)
    ensures r.Ok? <==> forall i :: 0 <= i < |emails| ==> HasStr(emails[i], key)
    ensures r.Raised? ==>
      exists i :: (0 <= i < |emails| && !HasStr(emails[i], key)
        && r.error == ErrorOf(emails[i], key) && forall j :: 0 <= j < i ==> HasStr(emails[j], key))
    ensures r.Ok? ==> forall e :: e in r.value <==> e in emails && HasStr(e, key) && Contains(e, key, needle)
    ensures r.Ok? ==> forall e :: multiset(r.value)[e] == if HasStr(e, key) && Contains(e, key, needle) then multiset(emails)[e] else 0
    ensures r.Ok? ==> IsSubsequence(r.value, emails)
    ensures r.Ok? ==> |r.value| <= |emails|
  {
    match FirstBad(emails, key)
    case Some(i) =>
      assert !HasStr(emails[i], key);
      Raised(ErrorOf(emails[i], key))
    case None =>
      WhereIsSubsequence(emails, Passes(key, needle));
      WhereCountsAll(emails, Passes(key, needle));
      Ok(Where(emails, Passes(key, needle)))
  }

  /** `filter_by_sender`: case-sensitive test on "from". */
  function FilterBySender(emails: seq<PyEmail>, sender: string): (r: PyResult<seq<PyEmail>>)
    ensures r.Ok? <==> forall i :: 0 <= i < |emails| ==> HasStr(emails[i], "from")
    ensures r.Ok? ==> forall e: PyEmail :: e in r.value <==> e in emails && HasStr(e, "from") && IsSubstring(sender, e["from"].s)
    ensures r.Ok? ==> forall e: PyEmail :: multiset(r.value)[e] == if HasStr(e, "from") && IsSubstring(sender, e["from"].s) then multiset(emails)[e] else 0
    ensures r.Ok? ==> IsSubsequence(r.value, emails)
  {
    Select(emails, "from", sender)
  }

  /** `filter_by_subject`: case-sensitive test on "subject". */
  function FilterBySubject(emails: seq<PyEmail>, keyword: string): (r: PyResult<seq<PyEmail>>)
    ensures r.Ok? <==> forall i :: 0 <= i < |emails| ==> HasStr(emails[i], "subject")
    ensures r.Ok? ==> forall e: PyEmail :: e in r.value <==> e in emails && HasStr(e, "subject") && IsSubstring(keyword, e["subject"].s)
    ensures r.Ok? ==> forall e: PyEmail :: multiset(r.value)[e] == if HasStr(e, "subject") && IsSubstring(keyword, e["subject"].s) then multiset(emails)[e] else 0
    ensures r.Ok? ==> IsSubsequence(r.value, emails)
  {
    Select(emails, "subject", keyword)
  }

  /** Filtering the result of a filter again with the same argument returns it unchanged. */
  lemma SelectIdempotent(emails: seq<PyEmail>, key: string, needle: string)
    requires Select(emails, key, needle).Ok?
    ensures Select(Select(emails, key, needle).value, key, needle) == Select(emails, key, needle)
  {
    var r := Where(emails, Passes(key, needle));
    forall i | 0 <= i < |r| ensures HasStr(r[i], key) {
      assert r[i] in r;
    }
    WhereIdempotent(emails, Passes(key, needle));
  }

  /** An empty argument keeps every e-mail: `"" in s` holds for every str `s`. */
  lemma SelectEmptyKeepsAll(emails: seq<PyEmail>, key: string)
    requires Select(emails, key, "").Ok?
    ensures Select(emails, key, "").value == emails
  {
    WhereAllPass(emails, Passes(key, ""));
  }

  lemma FilterBySenderIdempotent(emails: seq<PyEmail>, sender: string)
    requires FilterBySender(emails, sender).Ok?
    ensures FilterBySender(FilterBySender(emails, sender).value, sender) == FilterBySender(emails, sender)
  {
    SelectIdempotent(emails, "from", sender);
  }

  lemma FilterBySubjectIdempotent(emails: seq<PyEmail>, keyword: string)
    requires FilterBySubject(emails, keyword).Ok?
    ensures FilterBySubject(FilterBySubject(emails, keyword).value, keyword) == FilterBySubject(emails, keyword)
  {
    SelectIdempotent(emails, "subject", keyword);
  }

  lemma FilterBySenderEmptyKeepsAll(emails: seq<PyEmail>)
    requires FilterBySender(emails, "").Ok?
    ensures FilterBySender(emails, "").value == emails
  {
    SelectEmptyKeepsAll(emails, "from");
  }

  lemma FilterBySubjectEmptyKeepsAll(emails: seq<PyEmail>)
    requires FilterBySubject(emails, "").Ok?
    ensures FilterBySubject(emails, "").value == emails
  {
    SelectEmptyKeepsAll(emails, "subject");
  }

  /**
   * A blank argument is matched literally: a single space drops a sender
   * that has no space in it, where the C# filter would keep it.
   */
  lemma FilterBySenderSpaceIsLiteral()
    ensures FilterBySender([map["from" := Str("a")]], " ") == Ok([])
  {
    var e: PyEmail := map["from" := Str("a")];
    LongerIsNotSubstring(" ", "a"[1..]);
    assert !(" " <= "a") by { assert " "[0] != "a"[0]; }
    assert !IsSubstring(" ", "a");
    assert HasStr(e, "from") && !Contains(e, "from", " ");
    assert [e][1..] == [];
  }

  /** An e-mail without a "from" entry raises `KeyError`, whatever the others hold. */
  lemma FilterBySenderMissingKey(emails: seq<PyEmail>, sender: string, k: nat)
    requires k < |emails| && "from" !in emails[k]
    requires forall j :: 0 <= j < k ==> HasStr(emails[j], "from")
    ensures FilterBySender(emails, sender) == Raised(KeyError("from"))
  {
    var r := FilterBySender(emails, sender);
    if r.Raised? {
      var i :| 0 <= i < |emails| && !HasStr(emails[i], "from")
        && r.error == ErrorOf(emails[i], "from") && forall j :: 0 <= j < i ==> HasStr(emails[j], "from");
      assert i == k;
    }
  }
}
