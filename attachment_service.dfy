/**
 * Attachment aggregation (src/EmailClient.Application/Services/AttachmentService.cs).
 *
 * Both operations flatten the attachments of all messages, message by
 * message and in attachment order (LINQ `SelectMany`). The total size is a
 * LINQ `Sum` over `long`, which is checked: an intermediate sum outside the
 * range of `long` throws `OverflowException`, modelled here as `None`.
 */
module AttachmentService {
  import opened Wrappers
  import opened Models

  /**
   * `emails.SelectMany(e => e.Attachments)`: one entry per attachment, and
   * exactly the attachments of the messages.
   */
  function AllAttachments(emails: seq<EmailMessage>): (r: seq<EmailAttachment>)
    ensures |r| == AttachmentCount(emails)
    ensures forall a :: a in r <==> exists i :: 0 <= i < |emails| && a in emails[i].attachments
  {
    if emails == [] then [] else emails[0].attachments + AllAttachments(emails[1..])
  }

  /** A single message contributes its own attachments, in order. */
  lemma AllAttachmentsSingle(m: EmailMessage)
    ensures AllAttachments([m]) == m.attachments
  {
    assert [m][1..] == [];
  }

  /** Total number of attachments, message by message. */
  function AttachmentCount(emails: seq<EmailMessage>): nat
  {
    if emails == [] then 0 else |emails[0].attachments| + AttachmentCount(emails[1..])
  }

  /** Mathematical sum of the sizes, without any bound. */
  function SumSizes(atts: seq<EmailAttachment>): int
  {
    if atts == [] then 0 else atts[0].size + SumSizes(atts[1..])
  }

  /** Reference definition of the total: per message, the sum of its attachment sizes, added up. */
  function TotalSize(emails: seq<EmailMessage>): int
  {
    if emails == [] then 0 else SumSizes(emails[0].attachments) + TotalSize(emails[1..])
  }

  /** Adding up `atts` from `acc` leaves the range of `long` after the first `k` sizes. */
  ghost predicate OverflowsAt(acc: int, atts: seq<EmailAttachment>, k: int)
  {
    0 < k <= |atts| && !InInt64(acc + SumSizes(atts[..k]))
  }

  /**
   * The checked accumulation LINQ's `Sum` performs, from `acc`: it succeeds
   * with the exact sum exactly when no partial sum leaves the range of `long`.
   */
  function CheckedSum(acc: Int64, atts: seq<EmailAttachment>): (r: Option<Int64>)
    ensures r.Some? <==> forall k :: !OverflowsAt(acc, atts, k)
    ensures r.Some? ==> r.value == acc + SumSizes(atts)
    decreases |atts|
  {
    if atts == [] then Some(acc)
    else
      var t := acc + atts[0].size;
      SumSizesPrefix(atts, 1);
      if !InInt64(t) then
        assert OverflowsAt(acc, atts, 1);
        None
      else
        var r := CheckedSum(t, atts[1..]);
        if r.Some? then
          assert forall k :: !OverflowsAt(acc, atts, k) by {
            forall k | 1 < k <= |atts| ensures !OverflowsAt(acc, atts, k) {
              SumSizesPrefix(atts, k);
              assert !OverflowsAt(t, atts[1..], k - 1);
            }
          }
          r
        else
          assert exists k :: OverflowsAt(acc, atts, k) by {
            var k :| OverflowsAt(t, atts[1..], k);
            SumSizesPrefix(atts, k + 1);
            assert OverflowsAt(acc, atts, k + 1);
          }
          r
  }

  /** A non-empty prefix sums to its first size plus the rest of the prefix. */
  lemma SumSizesPrefix(atts: seq<EmailAttachment>, k: int)
    requires 0 < k <= |atts|
    ensures SumSizes(atts[..k]) == atts[0].size + SumSizes(atts[1..][..k - 1])
  {
    assert atts[..k][0] == atts[0] && atts[..k][1..] == atts[1..][..k - 1];
  }

  /** `GetTotalAttachmentSize`. */
  function GetTotalAttachmentSize(emails: seq<EmailMessage>): (r: Option<Int64>)
    ensures r.Some? ==> r.value == TotalSize(emails)
    ensures r.None? <==> exists k :: OverflowsAt(0, AllAttachments(emails), k)
  {
    TotalSizeFlattens(emails);
    CheckedSum(0, AllAttachments(emails))
  }

  /** `ExtractAttachmentNames`: the file name of every attachment, message by message. */
  function ExtractAttachmentNames(emails: seq<EmailMessage>): (names: seq<string>)
    ensures |names| == AttachmentCount(emails)
    ensures forall i :: 0 <= i < |names| ==> names[i] == AllAttachments(emails)[i].fileName
  {
    var atts := AllAttachments(emails);
    seq(|atts|, i requires 0 <= i < |atts| => atts[i].fileName)
  }

  lemma {:induction false} SumSizesAppend(a: seq<EmailAttachment>, b: seq<EmailAttachment>)
    ensures SumSizes(a + b) == SumSizes(a) + SumSizes(b)
  {
    if a == [] {
      assert a + b == b;
    } else {
      SumSizesAppend(a[1..], b);
      assert (a + b)[1..] == a[1..] + b;
    }
  }

  /** Summing the flattened list gives the per-message reference total. */
  lemma {:induction false} TotalSizeFlattens(emails: seq<EmailMessage>)
    ensures SumSizes(AllAttachments(emails)) == TotalSize(emails)
  {
    if emails != [] {
      TotalSizeFlattens(emails[1..]);
      SumSizesAppend(emails[0].attachments, AllAttachments(emails[1..]));
    }
  }

  lemma {:induction false} AllAttachmentsAppend(a: seq<EmailMessage>, b: seq<EmailMessage>)
    ensures AllAttachments(a + b) == AllAttachments(a) + AllAttachments(b)
  {
    if a == [] {
      assert a + b == b;
    } else {
      calc {
        AllAttachments(a + b);
        { assert (a + b)[0] == a[0] && (a + b)[1..] == a[1..] + b; }
        a[0].attachments + AllAttachments(a[1..] + b);
        { AllAttachmentsAppend(a[1..], b); }
        a[0].attachments + (AllAttachments(a[1..]) + AllAttachments(b));
      }
    }
  }

  /** The total is additive over concatenation of message lists. */
  lemma {:induction false} TotalSizeAppend(a: seq<EmailMessage>, b: seq<EmailMessage>)
    ensures TotalSize(a + b) == TotalSize(a) + TotalSize(b)
  {
    if a == [] {
      assert a + b == b;
    } else {
      TotalSizeAppend(a[1..], b);
      assert (a + b)[1..] == a[1..] + b;
    }
  }

  lemma {:induction false} NoAttachmentsNoneFlattened(emails: seq<EmailMessage>)
    requires forall i :: 0 <= i < |emails| ==> emails[i].attachments == []
    ensures AllAttachments(emails) == []
  {
    if emails != [] {
      NoAttachmentsNoneFlattened(emails[1..]);
    }
  }

  /** The total is 0 for an empty list and for messages without attachments. */
  lemma TotalSizeOfNoAttachments(emails: seq<EmailMessage>)
    requires forall i :: 0 <= i < |emails| ==> emails[i].attachments == []
    ensures GetTotalAttachmentSize(emails) == Some(0)
  {
    NoAttachmentsNoneFlattened(emails);
  }

  lemma {:induction false} SumSizesNonNegative(atts: seq<EmailAttachment>)
    requires forall i :: 0 <= i < |atts| ==> atts[i].size >= 0
    ensures SumSizes(atts) >= 0
  {
    if atts != [] {
      SumSizesNonNegative(atts[1..]);
    }
  }

  /** With sizes that are never negative the partial sums only grow, so the sum overflows exactly when the total exceeds the largest `long`. */
  lemma NonNegativeOverflow(emails: seq<EmailMessage>)
    requires forall a :: a in AllAttachments(emails) ==> a.size >= 0
    ensures GetTotalAttachmentSize(emails).None? <==> TotalSize(emails) > Int64Max
  {
    var atts := AllAttachments(emails);
    TotalSizeFlattens(emails);
    SumSizesNonNegative(atts);
    if TotalSize(emails) > Int64Max {
      assert atts[..|atts|] == atts;
      assert OverflowsAt(0, atts, |atts|);
    }
    forall k | 0 < k <= |atts| ensures 0 <= SumSizes(atts[..k]) <= SumSizes(atts) {
      assert atts == atts[..k] + atts[k..];
      SumSizesAppend(atts[..k], atts[k..]);
      SumSizesNonNegative(atts[..k]);
      SumSizesNonNegative(atts[k..]);
    }
  }

  lemma {:induction false} ExtractAttachmentNamesAppend(a: seq<EmailMessage>, b: seq<EmailMessage>)
    ensures ExtractAttachmentNames(a + b) == ExtractAttachmentNames(a) + ExtractAttachmentNames(b)
  {
    AllAttachmentsAppend(a, b);
  }

  /**
   * The names come message by message: those of the first message's
   * attachments, in order, then those of the rest; one name per attachment.
   */
  lemma ExtractAttachmentNamesSpec(emails: seq<EmailMessage>)
    ensures |ExtractAttachmentNames(emails)| == AttachmentCount(emails)
    ensures emails != [] ==>
      (ExtractAttachmentNames(emails)
       == seq(|emails[0].attachments|, i requires 0 <= i < |emails[0].attachments| => emails[0].attachments[i].fileName)
          + ExtractAttachmentNames(emails[1..]))
  {
  }
}
