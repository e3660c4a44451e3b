/**
 * The preview text of a file ingredient: the beginning of the name of the
 * attachment it links to, as the element editor shows it.
 */
module FileIngredient {
  import opened Text

  /** The attachment a file ingredient links to; its name may be missing. */
  datatype Attachment = Attachment(name: Option<string>)

  /** How many characters of the name the preview shows by default. */
  const DefaultMaxLength: int := 30

  function Min(a: int, b: int): int { if a <= b then a else b }
  function Max(a: int, b: int): int { if a <= b then b else a }

  /** `attachment&.name.to_s`: the name, or the empty string when there is
      no attachment or it has no name. */
  function NameText(attachment: Option<Attachment>): string {
    if attachment.Some? && attachment.value.name.Some? then attachment.value.name.value else ""
  }

  /** Ruby's `s[0..last]`: the characters up to and including index `last`.
      A negative `last` counts from the end of the string, and an end past
      the string is cut back to it. */
  function SliceFromStart(s: string, last: int): (r: string)
    ensures r <= s
    ensures last >= 0 ==> |r| == Min(last + 1, |s|)
    ensures last < 0 ==> |r| == Max(0, |s| + last + 1)
  {
    var end := if last < 0 then |s| + last else last;
    if end < 0 then "" else s[..Min(end + 1, |s|)]
  }

  /** `preview_text(max_length = 30)`: the first `maxLength` characters of the
      attachment's name. The slice ends at `maxLength - 1`, so a zero length
      selects the whole name and a negative one drops that many characters
      from its end. */
  function PreviewText(attachment: Option<Attachment>, maxLength: int := DefaultMaxLength): (r: string)
    ensures r <= NameText(attachment)
    ensures attachment.None? || attachment.value.name.None? ==> r == ""
    ensures maxLength >= 1 ==> |r| == Min(|NameText(attachment)|, maxLength)
    ensures maxLength >= 1 && |NameText(attachment)| <= maxLength ==> r == NameText(attachment)
    ensures maxLength == 0 ==> r == NameText(attachment)
    ensures maxLength < 0 ==> |r| == Max(0, |NameText(attachment)| + maxLength)
  {
    SliceFromStart(NameText(attachment), maxLength - 1)
  }

  /** Without an argument the preview is the first 30 characters of the name. */
  lemma PreviewTextDefault(name: string)
    ensures PreviewText(Some(Attachment(Some(name)))) == name[..Min(|name|, 30)]
  {
    var r := PreviewText(Some(Attachment(Some(name))));
    assert |r| == Min(|name|, 30);
    assert r <= name;
  }

  /** A name of 31 characters loses its last one; a name of 3 is shown whole,
      and so it is when the length asked for is zero. */
  lemma PreviewTextExamples()
    ensures PreviewText(Some(Attachment(Some("0123456789012345678901234567890")))) == "012345678901234567890123456789"
    ensures PreviewText(Some(Attachment(Some("pdf"))), 30) == "pdf"
    ensures PreviewText(Some(Attachment(Some("report.pdf"))), 0) == "report.pdf"
    ensures PreviewText(Some(Attachment(Some("report.pdf"))), -4) == "report"
    ensures PreviewText(Some(Attachment(None)), 5) == ""
  {
    PreviewTextDefault("0123456789012345678901234567890");
  }
}
