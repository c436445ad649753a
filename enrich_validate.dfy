/**
 * ValidateOutput of internal/enrich/validate.go: the checks an agent's
 * output must pass before it is stored, in order.
 */
module EnrichValidate {
  import opened Wrappers
  import opened Strs
  import opened EnrichTypes

  /** The confidence levels an output may state. */
  predicate ValidConfidence(confidence: string) {
    var c := ToLower(TrimSpace(confidence));
    c == "low" || c == "medium" || c == "high"
  }

  /**
   * ValidateOutput: None when the summary, purpose and side effects are
   * all non-blank and the confidence is low, medium or high (in any case,
   * with surrounding space); otherwise the message of the first check that
   * fails.
   */
  function ValidateOutput(output: Output): (err: Option<string>)
    ensures err.None? <==> TrimSpace(output.Summary) != "" && TrimSpace(output.Purpose) != "" &&
                           TrimSpace(output.SideEffects) != "" && ValidConfidence(output.Confidence)
    ensures TrimSpace(output.Summary) == "" ==> err == Some("missing output.summary")
    ensures TrimSpace(output.Summary) != "" && TrimSpace(output.Purpose) == "" ==> err == Some("missing output.purpose")
    ensures TrimSpace(output.Summary) != "" && TrimSpace(output.Purpose) != "" && TrimSpace(output.SideEffects) == "" ==>
      err == Some("missing output.side_effects")
  {
    if TrimSpace(output.Summary) == "" then Some("missing output.summary")
    else if TrimSpace(output.Purpose) == "" then Some("missing output.purpose")
    else if TrimSpace(output.SideEffects) == "" then Some("missing output.side_effects")
    else
      var confidence := ToLower(TrimSpace(output.Confidence));
      if confidence == "low" || confidence == "medium" || confidence == "high" then None
      else Some("output.confidence must be one of low|medium|high")
  }

  /** Upper-case letters and surrounding space in the confidence do not matter. */
  lemma ValidConfidenceNormalised(confidence: string)
    ensures ValidConfidence(confidence) <==> ValidConfidence(ToLower(TrimSpace(confidence)))
  {
    var t := TrimSpace(confidence);
    NoEdgeSpaceLower(t);
    TrimSpaceNoop(ToLower(t));
    ToLowerIdempotent(t);
  }

  /** Lower-casing keeps a text free of edge space. */
  lemma NoEdgeSpaceLower(t: string)
    requires NoEdgeSpace(t)
    ensures NoEdgeSpace(ToLower(t))
  {
  }
}
