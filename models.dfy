/**
 * The message record and its attachment records
 * (src/EmailClient.Core/Models/EmailMessage.cs).
 */
module Models {

  const Int64Min: int := -0x8000_0000_0000_0000
  const Int64Max: int := 0x7FFF_FFFF_FFFF_FFFF

  /** `x` is in the range of a .NET `long`. */
  predicate InInt64(x: int)
  {
    Int64Min <= x <= Int64Max
  }

  /** .NET `long`. */
  type Int64 = x: int | InInt64(x)

  /** Largest value of `DateTime.Ticks` (23:59:59.9999999 on 31 December 9999). */
  const MaxTicks: int := 3_155_378_975_999_999_999

  /** A `DateTime`, as its tick count; `DateTime` comparisons compare ticks only. */
  type Ticks = t: int | 0 <= t <= MaxTicks

  datatype EmailAttachment = EmailAttachment(fileName: string, size: Int64, contentType: string)

  /**
   * `hasAttachments` is a field of its own: nothing ties it to `attachments`.
   * Strings default to the empty string and are never null.
   */
  datatype EmailMessage = EmailMessage(
    id: string,
    subject: string,
    body: string,
    from: string,
    to: string,
    date: Ticks,
    hasAttachments: bool,
    attachments: seq<EmailAttachment>)
}
