/** `format_date`: the calendar date of an ISO-8601 timestamp. */
module Date {
  import opened Text

  /** `format_date(iso_date)`: "Unknown" for the empty string, otherwise the
      first piece of `iso_date.split('T')`. */
  function FormatDate(iso: string): (r: string)
    ensures iso == "" ==> r == "Unknown"
    ensures iso != "" ==> |r| <= |iso| && r == iso[..|r|] && 'T' !in r
    ensures iso != "" && |r| < |iso| ==> iso[|r|] == 'T'
    ensures iso != "" && 'T' !in iso ==> r == iso
  {
    if iso == "" then "Unknown"
    else
      FirstPiece(iso, 'T');
      Split(iso, 'T')[0]
  }

  /** A timestamp starting with 'T' gives the empty string, not "Unknown". */
  lemma LeadingTGivesEmpty(iso: string)
    requires |iso| > 0 && iso[0] == 'T'
    ensures FormatDate(iso) == ""
  {
  }

  /** The result is exactly the text before the first 'T'. */
  lemma CutsAtFirstT(iso: string, k: nat)
    requires k < |iso| && iso[k] == 'T' && 'T' !in iso[..k]
    ensures FormatDate(iso) == iso[..k]
  {
  }

  /** The example: "2025-12-26T10:45:00Z" gives "2025-12-26". */
  lemma ExampleDate(iso: string)
    requires iso == "2025-12-26T10:45:00Z"
    ensures FormatDate(iso) == "2025-12-26"
  {
    CutsAtFirstT(iso, 10);
  }
}
