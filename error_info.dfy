/**
 * The error page's classifier: which title, description and suggestion to
 * show for an error, chosen from words in its message.
 */
module ErrorInfo {
  import opened Wrappers
  import opened JsString

  datatype Info = Info(title: string, description: string, suggestion: string)

  const ConnectionIssue: Info := Info(
    "Connection Issue",
    "Unable to connect to our servers. Please check your internet connection.",
    "Try refreshing the page or check your network connection.")

  const RequestTimeout: Info := Info(
    "Request Timeout",
    "The request took too long to complete.",
    "Our servers might be busy. Please try again in a moment.")

  const SomethingWentWrong: Info := Info(
    "Something went wrong",
    "An unexpected error occurred while loading this page.",
    "Please try refreshing the page.")

  /** `getErrorInfo`: network or fetch trouble first, then a timeout, else the generic
      text; the words are looked for in the lower-cased message, a missing one counting
      as empty. */
  function GetErrorInfo(message: Option<string>): (info: Info)
    ensures var m := if message.Some? then ToLower(message.value) else [];
      (info == ConnectionIssue <==> Contains(m, "network") || Contains(m, "fetch")) &&
      (info == RequestTimeout <==> !Contains(m, "network") && !Contains(m, "fetch") && Contains(m, "timeout")) &&
      (info == SomethingWentWrong <==> !Contains(m, "network") && !Contains(m, "fetch") && !Contains(m, "timeout"))
  {
    var m := if message.Some? then ToLower(message.value) else [];
    if Contains(m, "network") || Contains(m, "fetch") then ConnectionIssue
    else if Contains(m, "timeout") then RequestTimeout
    else SomethingWentWrong
  }

  /** A missing message gets the generic text. */
  lemma MissingMessageIsGeneric()
    ensures GetErrorInfo(None) == SomethingWentWrong
  {
    assert !Contains([], "network") && !Contains([], "fetch") && !Contains([], "timeout");
  }

  lemma {:induction false} LowerOfUpper(s: string)
    ensures ToLower(ToUpper(s)) == ToLower(s)
  {
    var u := ToUpper(s);
    forall k | 0 <= k < |s| ensures ToLower(u)[k] == ToLower(s)[k] {
      assert u[k] == UpperChar(s[k]);
    }
  }

  /** The classification does not depend on letter case. */
  lemma ClassificationIgnoresCase(s: string)
    ensures GetErrorInfo(Some(ToUpper(s))) == GetErrorInfo(Some(s))
  {
    LowerOfUpper(s);
  }
}
