/** The notification banner shown at the bottom of the page. */
module Snackbar {

  /** The four alert levels the banner can take. */
  datatype Severity = Success | Error | Warning | Info

  datatype Snackbar = Snackbar(open: bool, message: string, severity: Severity)

  /** Closed, empty, level `success`. */
  const Initial: Snackbar := Snackbar(false, "", Success)

  /** Why the banner asks to close: a click outside it, the auto-hide timer,
      the Escape key, or the alert's own close button (which gives no reason). */
  datatype CloseReason = Clickaway | Timeout | EscapeKeyDown | NoReason

  /** `showSnackbar`: whatever was shown before is replaced. */
  function Show(message: string, severity: Severity): (r: Snackbar)
    ensures r.open
    ensures r.message == message && r.severity == severity
  {
    Snackbar(true, message, severity)
  }

  /** `handleSnackbarClose`: a click-away is ignored; any other reason hides
      the banner and keeps its message and level. */
  function Close(sb: Snackbar, reason: CloseReason): (r: Snackbar)
    ensures reason == Clickaway ==> r == sb
    ensures reason != Clickaway ==> !r.open && r.message == sb.message && r.severity == sb.severity
  {
    if reason == Clickaway then sb else sb.(open := false)
  }

  /** Closing an already closed banner changes nothing, whatever the reason. */
  lemma CloseIdempotent(sb: Snackbar, reason: CloseReason)
    ensures Close(Close(sb, reason), reason) == Close(sb, reason)
  {
  }

  /** A banner that was just shown can only be closed by a reason other than
      a click-away, and closing it keeps the text it showed. */
  lemma ShowThenClose(message: string, severity: Severity, reason: CloseReason)
    ensures Close(Show(message, severity), reason).open <==> reason == Clickaway
    ensures Close(Show(message, severity), reason).message == message
    ensures Close(Show(message, severity), reason).severity == severity
  {
  }
}
