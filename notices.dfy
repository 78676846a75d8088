/** `showNotification` (script.js:37-61) and the download-button click
    (script.js:6-27), reduced to what they decide: the notice's text and
    style override, and whether a download button takes the "coming soon"
    path or the loader path. */
module Notices {
  import opened Wrappers

  /** The background override a notice receives; the stylesheet's success
      look applies when there is none. */
  datatype Treatment = ErrorGradient | WarningGradient | InfoGradient

  /** A notice appended to the page. */
  datatype Notification = Notification(text: string, override: Option<Treatment>)

  /** `type = 'success'`: the default parameter value. */
  function Severity(kind: Option<string>): string {
    match kind
    case None => "success"
    case Some(k) => k
  }

  /** `showNotification(message, type)`: the notice shows `message`; the
      three severities `error`, `warning` and `info` each get their own
      override, and every other type, `success` and an omitted type included,
      gets none. */
  function ShowNotification(message: string, kind: Option<string>): (n: Notification)
    ensures n.text == message
    ensures n.override == None <==> Severity(kind) != "error" && Severity(kind) != "warning" && Severity(kind) != "info"
    ensures n.override == Some(ErrorGradient) <==> Severity(kind) == "error"
    ensures n.override == Some(InfoGradient) <==> Severity(kind) == "info"
  {
    var severity := Severity(kind);
    var override :=
      if severity == "error" then Some(ErrorGradient)
      else if severity == "warning" then Some(WarningGradient)
      else if severity == "info" then Some(InfoGradient)
      else None;
    Notification(message, override)
  }

  const ComingSoonMessage: string := "Play Store version coming soon!"
  const StartingHtml: string := "<div class=\"loader\"></div> Starting download..."

  /** What a click on a `.download-btn` does at once. */
  datatype DownloadReaction =
    | ComingSoon(notice: Notification)        // default navigation cancelled
    | Starting(innerHtml: string, tracked: Option<string>)  // loader shown, `href` logged

  /** A Play Store button cancels the navigation and shows an information
      notice without ever reaching the loader; any other button shows the
      loader label and reports its `href` to `trackDownload`. */
  function DownloadClick(isPlayStore: bool, href: Option<string>): (r: DownloadReaction)
    ensures isPlayStore <==> r.ComingSoon?
    ensures r.ComingSoon? ==> r.notice.text == ComingSoonMessage && r.notice.override == Some(InfoGradient)
    ensures r.Starting? ==> r.innerHtml == StartingHtml && r.tracked == href
  {
    if isPlayStore then ComingSoon(ShowNotification(ComingSoonMessage, Some("info")))
    else Starting(StartingHtml, href)
  }
}
