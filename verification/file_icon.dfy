/**
 The upload list's icon for a file, chosen from its MIME type by an ordered
 list of tests: the three media prefixes first, then the "pdf" and "text"
 substrings, then a fallback paper clip.
 */
module FileIcon {
  import opened Basics

  datatype Icon = Image | Video | Audio | Pdf | Text | Attachment

  /** The type has one of the three media prefixes, which are tested before any substring. */
  predicate MediaType(t: string) {
    StartsWith(t, "image/") || StartsWith(t, "video/") || StartsWith(t, "audio/")
  }

  /** The three media prefixes differ at their first character, so at most one applies. */
  lemma MediaPrefixesExclusive(t: string)
    ensures !(StartsWith(t, "image/") && StartsWith(t, "video/"))
    ensures !(StartsWith(t, "image/") && StartsWith(t, "audio/"))
    ensures !(StartsWith(t, "video/") && StartsWith(t, "audio/"))
  {
  }

  function GetFileIcon(t: string): (r: Icon)
    ensures r == Image <==> StartsWith(t, "image/")
    ensures r == Video <==> StartsWith(t, "video/")
    ensures r == Audio <==> StartsWith(t, "audio/")
    ensures r == Pdf <==> !MediaType(t) && Includes(t, "pdf")
    ensures r == Text <==> !MediaType(t) && !Includes(t, "pdf") && Includes(t, "text")
    ensures r == Attachment <==> !MediaType(t) && !Includes(t, "pdf") && !Includes(t, "text")
  {
    MediaPrefixesExclusive(t);
    if StartsWith(t, "image/") then Image
    else if StartsWith(t, "video/") then Video
    else if StartsWith(t, "audio/") then Audio
    else if Includes(t, "pdf") then Pdf
    else if Includes(t, "text") then Text
    else Attachment
  }

  /** The emoji the page shows for each icon. */
  function Glyph(icon: Icon): string {
    match icon
    case Image => "\U{1F5BC}\U{FE0F}"
    case Video => "\U{1F3A5}"
    case Audio => "\U{1F3B5}"
    case Pdf => "\U{1F4C4}"
    case Text => "\U{1F4DD}"
    case Attachment => "\U{1F4CE}"
  }

  /** The string `getFileIcon` returns: the emoji of the first test the type passes. */
  function FileIconGlyph(t: string): (g: string)
    ensures StartsWith(t, "image/") ==> g == "\U{1F5BC}\U{FE0F}"
    ensures StartsWith(t, "video/") ==> g == "\U{1F3A5}"
    ensures StartsWith(t, "audio/") ==> g == "\U{1F3B5}"
    ensures !MediaType(t) && Includes(t, "pdf") ==> g == "\U{1F4C4}"
    ensures !MediaType(t) && !Includes(t, "pdf") && Includes(t, "text") ==> g == "\U{1F4DD}"
    ensures !MediaType(t) && !Includes(t, "pdf") && !Includes(t, "text") ==> g == "\U{1F4CE}"
  {
    Glyph(GetFileIcon(t))
  }

  /** A media prefix wins over any substring the type also contains. */
  lemma PrefixBeatsSubstring(t: string)
    requires MediaType(t)
    ensures GetFileIcon(t) in {Image, Video, Audio}
  {
  }

  /** "pdf" is tested before "text": without a media prefix, a type containing "pdf" gets the PDF icon. */
  lemma PdfBeatsText(t: string)
    requires !MediaType(t) && Includes(t, "pdf")
    ensures GetFileIcon(t) == Pdf
  {
  }

  /** Illustrations of the test order on concrete types. */
  lemma IconExamples()
    ensures GetFileIcon("image/pdf") == Image
    ensures GetFileIcon("audio/x-text") == Audio
    ensures GetFileIcon("text/pdf") == Pdf
    ensures GetFileIcon("text/plain") == Text
  {
    assert OccursAt("text/pdf", "pdf", 5);
    assert OccursAt("text/plain", "text", 0);
    assert "text/pdf"[..6][0] == 't' && "text/plain"[..6][0] == 't';
    NotIncludedByFirstTwo("text/plain", "pdf");
  }

  /** Illustrations of the fallback: the empty type and a type no test recognises. */
  lemma FallbackExamples()
    ensures GetFileIcon("") == Attachment
    ensures GetFileIcon("application/zip") == Attachment
  {
    assert !Includes("", "pdf") && !Includes("", "text");
    assert "application/zip"[..6][1] == 'p';
    NotIncludedByFirstTwo("application/zip", "pdf");
    NotIncludedByFirstTwo("application/zip", "text");
  }
}
