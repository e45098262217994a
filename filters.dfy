/**
 * The filename filter of a section: a section applies to a file when the file's base
 * name starts with the section's prefix and ends with its suffix.  Three variants of
 * the check exist in the program; a prefix or suffix that is absent or empty is falsy
 * in Python and is handled like "no filter" by the first two and like "never" by the
 * third.
 */
module Filters {
  import opened Wrappers
  import opened Text

  /** A filter value that Python treats as set: present and non-empty. */
  predicate IsSet(f: Option<string>) {
    f.Some? && f.value != ""
  }

  /** `provision_fulfilled` as written in the shared utilities, the executor and `auto_print.py`. */
  function ProvisionFulfilled(fileName: string, prefix: Option<string>, suffix: Option<string>): (r: bool)
    ensures r <==> StartsWith(fileName, prefix.GetOr("")) && EndsWith(fileName, suffix.GetOr(""))
  {
    if IsSet(prefix) && !StartsWith(fileName, prefix.value) then false
    else if IsSet(suffix) && !EndsWith(fileName, suffix.value) then false
    else true
  }

  /** The newer executor's form, which returns the negated suffix test directly. */
  function ProvisionFulfilledNegated(fileName: string, prefix: Option<string>, suffix: Option<string>): (r: bool)
    ensures r == ProvisionFulfilled(fileName, prefix, suffix)
  {
    if IsSet(prefix) && !StartsWith(fileName, prefix.value) then false
    else !(IsSet(suffix) && !EndsWith(fileName, suffix.value))
  }

  /** The oldest script's form: a section applies only when both filters are set and hold. */
  function ProvisionBothRequired(fileName: string, prefix: Option<string>, suffix: Option<string>): (r: bool)
    ensures r <==> IsSet(prefix) && IsSet(suffix) && StartsWith(fileName, prefix.value) && EndsWith(fileName, suffix.value)
  {
    if !IsSet(prefix) || !StartsWith(fileName, prefix.value) then false
    else if !IsSet(suffix) || !EndsWith(fileName, suffix.value) then false
    else true
  }

  /** An empty filter and a missing one mean the same thing. */
  lemma EmptyFilterActsAsAbsent(fileName: string, other: Option<string>)
    ensures ProvisionFulfilled(fileName, Some(""), other) == ProvisionFulfilled(fileName, None, other)
    ensures ProvisionFulfilled(fileName, other, Some("")) == ProvisionFulfilled(fileName, other, None)
  {
  }

  /** Every file the both-required check accepts is accepted by the optional-filter check, and
      the two agree exactly when both filters are set. */
  lemma BothRequiredIsStricter(fileName: string, prefix: Option<string>, suffix: Option<string>)
    ensures ProvisionBothRequired(fileName, prefix, suffix) ==> ProvisionFulfilled(fileName, prefix, suffix)
    ensures IsSet(prefix) && IsSet(suffix) ==>
      ProvisionBothRequired(fileName, prefix, suffix) == ProvisionFulfilled(fileName, prefix, suffix)
    ensures !IsSet(prefix) || !IsSet(suffix) ==> !ProvisionBothRequired(fileName, prefix, suffix)
  {
  }

  /** The truth table the test suite checks on the file name "test.pdf". */
  lemma ProvisionExamples()
    ensures ProvisionFulfilled("test.pdf", None, None)
    ensures ProvisionFulfilled("test.pdf", Some("test"), None)
    ensures !ProvisionFulfilled("test.pdf", Some("other"), None)
    ensures ProvisionFulfilled("test.pdf", None, Some(".pdf"))
    ensures !ProvisionFulfilled("test.pdf", None, Some(".txt"))
    ensures ProvisionFulfilled("test.pdf", Some("test"), Some(".pdf"))
    ensures !ProvisionFulfilled("test.pdf", Some("test"), Some(".txt"))
    ensures !ProvisionFulfilled("test.pdf", Some("other"), Some(".pdf"))
  {
    assert "test" <= "test.pdf";
    assert "test.pdf"[4..] == ".pdf";
    assert "other"[0] != "test.pdf"[0];
    assert "test.pdf"[4..][1] != ".txt"[1];
  }
}
