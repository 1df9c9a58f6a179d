/**
 * The status strings a search produces for a term
 * (USPTO_Checker_Final.py:240-264), and the one a cancelled task reports
 * (USPTO_Checker_Final.py:304-305). The results table and the final report
 * recognise them by their leading words.
 */
module Statuses {

  const NoMatch: string := "No match found"
  const Cancelled: string := "Cancelled"

  function Deleted(id: string): string {
    "Deleted description found (Term ID: " + id + ")"
  }

  function Full(id: string): string {
    "Full match found (Term ID: " + id + ")"
  }

  function Partial(prefix: string, id: string): string {
    "Full match not found, but partial match found: '" + prefix + "' (Term ID: " + id + ")"
  }

  function Larger(example: string, id: string): string {
    "Apart of a larger description (Example - " + example + " - Term ID: " + id + ")"
  }

  /** What a template match reports once its example and ID have been reset. */
  const Template: string := Larger("Not found", "Not found")

  /** What is reported when the page showed results but nothing else applied. */
  const Fallback: string := Larger("Description not found", "Not found")
}
