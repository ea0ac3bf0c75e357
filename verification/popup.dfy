/**
 The extension popup's logic: merging what the content script detected into
 the application form, the status message that follows, the retry of the
 request while the content script is not yet listening, and what a save
 response does to the message, the stored credentials and the form.
 */
module Popup {
  import opened Text
  import opened Dom
  import opened Extractors

  /** The popup's form; every field is a string. */
  datatype Form = Form(
    jobTitle: string,
    company: string,
    location: string,
    jobLink: string,
    dateApplied: string,
    status: string,
    notes: string)

  /** JavaScript's `a || b` on two strings: `a` unless it is empty. The
      result is one of the two, and empty only when both are. */
  function Or(a: string, b: string): (r: string)
    ensures r == a || r == b
    ensures r == "" <==> a == "" && b == ""
  {
    if a != "" then a else b
  }

  // ----- fetchJobInfo -----

  /** The form after a reply carrying `jobInfo`: each detected field replaces
      the form's only when it is non-empty, the tab's URL replaces the link
      only when it is non-empty, and date, status and notes are untouched. */
  function MergeJobInfo(prev: Form, info: JobInfo, url: string): (r: Form)
    ensures info.jobTitle != "" ==> r.jobTitle == info.jobTitle
    ensures info.jobTitle == "" ==> r.jobTitle == prev.jobTitle
    ensures info.company != "" ==> r.company == info.company
    ensures info.company == "" ==> r.company == prev.company
    ensures info.location != "" ==> r.location == info.location
    ensures info.location == "" ==> r.location == prev.location
    ensures url != "" ==> r.jobLink == url
    ensures url == "" ==> r.jobLink == prev.jobLink
    ensures r.dateApplied == prev.dateApplied && r.status == prev.status && r.notes == prev.notes
  {
    prev.(
      jobTitle := Or(info.jobTitle, prev.jobTitle),
      company := Or(info.company, prev.company),
      location := Or(info.location, prev.location),
      jobLink := Or(url, prev.jobLink))
  }

  /** A field the user has filled is never blanked by a merge. */
  lemma MergeNeverErases(prev: Form, info: JobInfo, url: string)
    ensures var r := MergeJobInfo(prev, info, url);
            (prev.jobTitle != "" ==> r.jobTitle != "")
            && (prev.company != "" ==> r.company != "")
            && (prev.location != "" ==> r.location != "")
            && (prev.jobLink != "" ==> r.jobLink != "")
  {
  }

  /** Merging the same reply twice is merging it once. */
  lemma MergeIdempotent(prev: Form, info: JobInfo, url: string)
    ensures MergeJobInfo(MergeJobInfo(prev, info, url), info, url) == MergeJobInfo(prev, info, url)
  {
  }

  /** An empty reply on a tab without a URL leaves the form as it was. */
  lemma MergeEmptyIsIdentity(prev: Form)
    ensures MergeJobInfo(prev, EmptyInfo, "") == prev
  {
  }

  /** The three outcomes the status message distinguishes. */
  datatype Tier = Detected | Partial | Undetected

  /** Both title and company, exactly one of them, or neither. */
  function MessageTier(info: JobInfo): (t: Tier)
    ensures t == Detected <==> info.jobTitle != "" && info.company != ""
    ensures t == Partial <==> (info.jobTitle != "") != (info.company != "")
    ensures t == Undetected <==> info.jobTitle == "" && info.company == ""
  {
    if info.jobTitle != "" && info.company != "" then Detected
    else if info.jobTitle != "" || info.company != "" then Partial
    else Undetected
  }

  function TierMessage(t: Tier): string {
    match t
    case Detected => "\U{2713} Job information detected!"
    case Partial => "Partial info detected. Please fill remaining fields."
    case Undetected => "Could not auto-detect. Please fill manually."
  }

  const FailMessage := "Could not detect job info. Please fill manually."

  /** The location plays no part in the message: only title and company do. */
  lemma TierIgnoresLocation(info: JobInfo, loc: string)
    ensures MessageTier(info.(location := loc)) == MessageTier(info)
  {
  }

  /** How `chrome.tabs.sendMessage` answered one request: with
      `runtime.lastError` set, with a response lacking `jobInfo`, or with
      `jobInfo`. */
  datatype Reply = LastError | NoJobInfo | WithJobInfo(info: JobInfo)

  /** The popup after a round of requests: form, message and the number of
      messages sent. */
  datatype Fetched = Fetched(form: Form, message: string, sent: nat)

  /** The form and message when detection gives up: the form is what an
      empty reply would have made of it, so only the link can change. */
  function GiveUp(prev: Form, url: string): (r: Fetched)
    ensures r.form == MergeJobInfo(prev, EmptyInfo, url) && r.message == FailMessage
  {
    Fetched(prev.(jobLink := Or(url, prev.jobLink)), FailMessage, 0)
  }

  /** tryGetJobInfo(attempts), whose request is message number `sent`
      (`replies(sent)` is its answer): a `lastError` with attempts left
      retries with one fewer; otherwise the answer settles the form. */
  function TryGetJobInfo(replies: nat -> Reply, prev: Form, url: string, attempts: nat, sent: nat): (r: Fetched)
    ensures sent < r.sent <= sent + attempts + 1
    ensures forall k :: sent <= k < r.sent - 1 ==> replies(k).LastError?
    ensures r.sent < sent + attempts + 1 ==> !replies(r.sent - 1).LastError?
    ensures replies(r.sent - 1).WithJobInfo? ==>
              var info := replies(r.sent - 1).info;
              r.form == MergeJobInfo(prev, info, url) && r.message == TierMessage(MessageTier(info))
    ensures !replies(r.sent - 1).WithJobInfo? ==>
              r.form == prev.(jobLink := Or(url, prev.jobLink)) && r.message == FailMessage
    decreases attempts
  {
    match replies(sent)
    case LastError =>
      if attempts > 0 then TryGetJobInfo(replies, prev, url, attempts - 1, sent + 1)
      else GiveUp(prev, url).(sent := sent + 1)
    case NoJobInfo => GiveUp(prev, url).(sent := sent + 1)
    case WithJobInfo(info) => Fetched(MergeJobInfo(prev, info, url), TierMessage(MessageTier(info)), sent + 1)
  }

  const InitialAttempts := 3

  /** The active tab, when there is one; its URL may be empty. */
  datatype Tab = Tab(url: string)

  /** fetchJobInfo: nothing happens without an active tab; otherwise at most
      four messages are sent, the form changes only by a merge of the
      answer or, when every answer is an error, only in its link. */
  function FetchJobInfo(tab: Option<Tab>, replies: nat -> Reply, prev: Form, message: string): (r: Fetched)
    ensures tab.None? ==> r == Fetched(prev, message, 0)
    ensures tab.Some? ==> 1 <= r.sent <= InitialAttempts + 1
    ensures tab.Some? && (forall k :: 0 <= k <= InitialAttempts ==> replies(k).LastError?) ==>
              r.sent == InitialAttempts + 1 && r.message == FailMessage
              && r.form == prev.(jobLink := Or(tab.value.url, prev.jobLink))
    ensures tab.Some? && replies(0).WithJobInfo? ==>
              r.sent == 1 && r.form == MergeJobInfo(prev, replies(0).info, tab.value.url)
  {
    match tab
    case None => Fetched(prev, message, 0)
    case Some(t) => TryGetJobInfo(replies, prev, t.url, InitialAttempts, 0)
  }

  /** Whatever the answers, date, status and notes survive fetchJobInfo. */
  lemma FetchKeepsUserFields(tab: Option<Tab>, replies: nat -> Reply, prev: Form, message: string)
    ensures var r := FetchJobInfo(tab, replies, prev, message);
            r.form.dateApplied == prev.dateApplied && r.form.status == prev.status
            && r.form.notes == prev.notes
  {
    if tab.Some? {
      var r := TryGetJobInfo(replies, prev, tab.value.url, InitialAttempts, 0);
      if replies(r.sent - 1).WithJobInfo? {
        var info := replies(r.sent - 1).info;
        assert r.form == MergeJobInfo(prev, info, tab.value.url);
      }
    }
  }

  // ----- handleSubmit -----

  /** A JSON value in an error body: a string, an array of strings, or null. */
  datatype Json = JStr(s: string) | JList(items: seq<string>) | JNull

  /** JavaScript truthiness: an array always, a string when non-empty. */
  predicate Truthy(v: Json) {
    match v
    case JStr(s) => s != ""
    case JList(_) => true
    case JNull => false
  }

  /** How a template literal renders a field's errors. */
  function Render(v: Json): string {
    match v
    case JStr(s) => s
    case JList(items) => Join(items, ", ")
    case JNull => "null"
  }

  /** No key occurs twice, as in any object `JSON.parse` builds. */
  predicate DistinctKeys(entries: seq<(string, Json)>) {
    forall i, j :: 0 <= i < j < |entries| ==> entries[i].0 != entries[j].0
  }

  /** A parsed error body: its entries in key order, each key once. An
      unparsable body is the empty object. */
  type ErrorBody = entries: seq<(string, Json)> | DistinctKeys(entries)

  function Lookup(body: ErrorBody, key: string): (r: Option<Json>)
    ensures r.Some? <==> exists i :: 0 <= i < |body| && body[i].0 == key
    ensures r.Some? ==> exists i :: 0 <= i < |body| && body[i].0 == key && r.value == body[i].1
                                   && forall j :: 0 <= j < i ==> body[j].0 != key
  {
    if |body| == 0 then None
    else if body[0].0 == key then Some(body[0].1)
    else
      var r := Lookup(body[1..], key);
      assert forall i :: 1 <= i < |body| ==> body[i] == body[1..][i - 1];
      r
  }

  /** `field: errors` for every entry, in key order. */
  function FieldEntries(body: ErrorBody): (r: seq<string>)
    ensures |r| == |body|
    ensures forall i :: 0 <= i < |body| ==> r[i] == body[i].0 + ": " + Render(body[i].1)
  {
    if |body| == 0 then [] else [body[0].0 + ": " + Render(body[0].1)] + FieldEntries(body[1..])
  }

  function HttpFallback(status: nat): string {
    "HTTP " + NatToString(status) + ": Failed to save application"
  }

  /** The error message, or the TypeError thrown when `non_field_errors` is a
      non-empty string: `.join` is not a function of a string. */
  datatype Built = Message(text: string) | TypeError

  /** The builder at App.jsx's handleSubmit. The initial `detail || message`
      value is overwritten on every path. */
  function BuildErrorMessage(body: ErrorBody, status: nat): (r: Built)
    ensures r.TypeError? <==> Lookup(body, "non_field_errors").Some?
                              && Truthy(Lookup(body, "non_field_errors").value)
                              && !Lookup(body, "non_field_errors").value.JList?
    ensures Lookup(body, "non_field_errors").Some? && Lookup(body, "non_field_errors").value.JList? ==>
              r == Message(Join(Lookup(body, "non_field_errors").value.items, ", "))
    ensures |body| == 0 ==> r == Message(HttpFallback(status))
    ensures |body| > 0 && !(Lookup(body, "non_field_errors").Some? && Truthy(Lookup(body, "non_field_errors").value)) ==>
              r == Message(Join(FieldEntries(body), "; ")) && (body[0].0 + ": ") <= r.text
  {
    var nfe := Lookup(body, "non_field_errors");
    if nfe.Some? && Truthy(nfe.value) then
      if nfe.value.JList? then Message(Join(nfe.value.items, ", ")) else TypeError
    else if |body| > 0 then
      var fieldErrors := Join(FieldEntries(body), "; ");
      Message(Or(fieldErrors, HttpFallback(status)))
    else Message(HttpFallback(status))
  }

  /** A body holding only `detail` shows it under its key, never bare. */
  lemma DetailIsOverwritten(d: string, status: nat)
    ensures BuildErrorMessage([("detail", JStr(d))], status) == Message("detail: " + d)
  {
    assert Lookup([("detail", JStr(d))], "non_field_errors").None?;
  }

  const CredentialKeys: set<string> := {"access_token", "refresh_token", "user_id", "username"}

  /** The popup's state: authentication, the token, `chrome.storage.local`,
      the form and the message line. */
  datatype Popup = Popup(authenticated: bool, token: Option<string>, storage: map<string, string>, form: Form, message: string)

  /** What the POST of an application came to: a 2xx response, another
      status with its parsed body, or an exception with its message. */
  datatype SaveResult = Saved | Rejected(status: nat, body: ErrorBody) | Unreachable(error: string)

  const ServerRoot := "http://localhost:8000"

  function ConnectError(error: string): string {
    "Error connecting to server: " + error + ". Make sure the backend is running at " + ServerRoot
  }

  /** The form after a save: all fields empty, status "Applied", dated today. */
  function BlankForm(today: string): Form {
    Form("", "", "", "", today, "Applied", "")
  }

  /** handleSubmit's response handling. `typeError` is the engine's text for
      the TypeError the builder can throw; it is caught with the network
      errors, before the 401 check is reached. */
  function HandleSave(s: Popup, result: SaveResult, today: string, typeError: string): (r: Popup)
    ensures result.Saved? ==>
              r == s.(form := BlankForm(today), message := "Application saved successfully!")
    ensures result.Rejected? && BuildErrorMessage(result.body, result.status).Message? ==>
              r.message == "Error: " + BuildErrorMessage(result.body, result.status).text
    ensures result.Rejected? && result.status == 401 && BuildErrorMessage(result.body, result.status).Message? ==>
              !r.authenticated && r.token.None?
              && (forall k :: k in CredentialKeys ==> k !in r.storage)
              && (forall k :: k in s.storage && k !in CredentialKeys ==> k in r.storage && r.storage[k] == s.storage[k])
              && (forall k :: k in r.storage ==> k in s.storage)
    ensures !result.Saved? && !(result.Rejected? && result.status == 401 && BuildErrorMessage(result.body, result.status).Message?) ==>
              r == s.(message := r.message)
    ensures !result.Saved? ==> r.form == s.form
  {
    match result
    case Saved => s.(form := BlankForm(today), message := "Application saved successfully!")
    case Rejected(status, body) =>
      (match BuildErrorMessage(body, status)
       case TypeError => s.(message := ConnectError(typeError))
       case Message(m) =>
         var shown := s.(message := "Error: " + m);
         if status == 401 then shown.(authenticated := false, token := None, storage := s.storage - CredentialKeys)
         else shown)
    case Unreachable(e) => s.(message := ConnectError(e))
  }

  /** handleSubmit: without a token only the message changes; with one the
      save's outcome is handled. */
  function Submit(s: Popup, result: SaveResult, today: string, typeError: string): (r: Popup)
    ensures (s.token.None? || s.token.value == "") ==> r == s.(message := "Please login first")
    ensures s.token.Some? && s.token.value != "" ==> r == HandleSave(s, result, today, typeError)
    ensures s.token.Some? && s.token.value != "" && result.Saved? ==>
              r.form == BlankForm(today) && r.message == "Application saved successfully!"
              && r.authenticated == s.authenticated && r.storage == s.storage
    ensures s.token.Some? && s.token.value != "" && !result.Saved? ==> r.form == s.form
    ensures s.token.Some? && s.token.value != "" && result.Unreachable? ==>
              r == s.(message := ConnectError(result.error))
  {
    if s.token.None? || s.token.value == "" then s.(message := "Please login first")
    else HandleSave(s, result, today, typeError)
  }

  /** The popup opening: signed in exactly when a non-empty access token is
      stored. */
  predicate Restore(storage: map<string, string>) {
    "access_token" in storage && storage["access_token"] != ""
  }

  /** Reopening depends on the stored access token alone. */
  lemma RestoreReadsOnlyToken(a: map<string, string>, b: map<string, string>)
    requires ("access_token" in a) == ("access_token" in b)
    requires "access_token" in a ==> a["access_token"] == b["access_token"]
    ensures Restore(a) == Restore(b)
  {
  }

  /** Reopening after a save: signed in exactly when it was before and the
      save was not a 401 whose error message could be built. No other outcome
      touches the stored token. */
  lemma RestoreAfterSave(s: Popup, result: SaveResult, today: string, typeError: string)
    ensures Restore(HandleSave(s, result, today, typeError).storage)
            == (Restore(s.storage)
                && !(result.Rejected? && result.status == 401
                     && BuildErrorMessage(result.body, result.status).Message?))
  {
  }

  /** A builder that throws is caught like a failed connection: the save is
      handled as an unreachable server reporting the TypeError, so even a 401
      then keeps the session. */
  lemma ThrowingBuilderIsUnreachable(s: Popup, status: nat, body: ErrorBody, today: string, typeError: string)
    requires BuildErrorMessage(body, status).TypeError?
    ensures HandleSave(s, Rejected(status, body), today, typeError)
            == HandleSave(s, Unreachable(typeError), today, typeError)
    ensures HandleSave(s, Rejected(status, body), today, typeError)
            == s.(message := ConnectError(typeError))
  {
  }

  /** After a 401 the popup is signed out for good: the next submit asks for
      a login, and reopening the popup does not sign back in. */
  lemma UnauthorizedSignsOut(s: Popup, body: ErrorBody, today: string, typeError: string,
                             next: SaveResult, today2: string)
    requires BuildErrorMessage(body, 401).Message?
    ensures var r := HandleSave(s, Rejected(401, body), today, typeError);
            Submit(r, next, today2, typeError).message == "Please login first" && !Restore(r.storage)
  {
    var r := HandleSave(s, Rejected(401, body), today, typeError);
    assert "access_token" in CredentialKeys;
  }

  /** A rejected save other than a 401 keeps the user's work and session. */
  lemma RejectionKeepsWork(s: Popup, status: nat, body: ErrorBody, today: string, typeError: string)
    requires status != 401
    ensures var r := HandleSave(s, Rejected(status, body), today, typeError);
            r.form == s.form && r.storage == s.storage && r.authenticated == s.authenticated && r.token == s.token
  {
  }
}
