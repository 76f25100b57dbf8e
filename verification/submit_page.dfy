/** The submit page: the form check made before anything is sent, the client call to the
    loom proxy with the order in which it picks an error message, and what the page does once
    the submission settles. The HTTP call is an oracle: its outcome is an input. */
module SubmitPage {
  import opened Wrappers
  import opened Text
  import Loom
  import LoomProxy

  /** The fields of a JSON body that the client reads; an absent or falsy field is "". */
  datatype Data = Data(error: string, message: string, status: string)

  /** The form state: the URL field, the chosen recording type, and whether the page is about
      to leave for the dashboard. */
  datatype Form = Form(loomUrl: string, recordingType: string, redirecting: bool)

  /** The page opens with an empty URL and the recording type "meeting". */
  function InitialForm(): (f: Form)
    ensures f.loomUrl == "" && f.recordingType == "meeting" && !f.redirecting
  {
    Form("", "meeting", false)
  }

  // ---------------------------------------------------------------------------------------
  // `handleSubmit`

  const ShareMarker := "loom.com/share/"

  /** A submit either shows an error and sends nothing, or calls the mutation once. */
  datatype SubmitStep = Rejected(notice: Loom.Notice) | Mutate(loomUrl: string, recordingType: string)

  function HandleSubmit(form: Form): SubmitStep
  {
    if Trim(form.loomUrl) == "" then Rejected(Loom.Error("Please enter a Loom URL"))
    else if !Contains(form.loomUrl, ShareMarker) then Rejected(Loom.Error("Please enter a valid Loom share URL"))
    else Mutate(form.loomUrl, form.recordingType)
  }

  /** A string holding the share marker is not blank. */
  lemma MarkerNotBlank(url: string)
    requires Contains(url, ShareMarker)
    ensures !IsBlank(url)
  {
    var i :| 0 <= i <= |url| && OccursAt(url, ShareMarker, i);
    assert url[i..i + |ShareMarker|][0] == url[i];
  }

  /** The two checks and their messages: a blank URL (white space only) is asked for, a
      non-blank one without the share marker is called invalid, and exactly the URLs that hold
      the marker are submitted, once, untrimmed and with the chosen recording type. */
  lemma HandleSubmitSpec(form: Form)
    ensures HandleSubmit(form) == Rejected(Loom.Error("Please enter a Loom URL")) <==> IsBlank(form.loomUrl)
    ensures HandleSubmit(form) == Rejected(Loom.Error("Please enter a valid Loom share URL"))
      <==> !IsBlank(form.loomUrl) && !Contains(form.loomUrl, ShareMarker)
    ensures HandleSubmit(form).Mutate? <==> Contains(form.loomUrl, ShareMarker)
    ensures HandleSubmit(form).Mutate? ==>
      HandleSubmit(form) == Mutate(form.loomUrl, form.recordingType)
  {
    TrimEmptyIffBlank(form.loomUrl);
    if Contains(form.loomUrl, ShareMarker) {
      MarkerNotBlank(form.loomUrl);
    }
  }

  /** Submitting the untouched form asks for a URL; a URL typed into it is submitted with the
      default recording type "meeting". */
  lemma FreshFormSubmit(url: string)
    ensures HandleSubmit(InitialForm()) == Rejected(Loom.Error("Please enter a Loom URL"))
    ensures Contains(url, ShareMarker) ==>
      HandleSubmit(InitialForm().(loomUrl := url)) == Mutate(url, "meeting")
  {
    HandleSubmitSpec(InitialForm());
    HandleSubmitSpec(InitialForm().(loomUrl := url));
  }

  // ---------------------------------------------------------------------------------------
  // `submitLoomUrl`

  /** How `axios.post` ended: a 2xx answer with its data, an axios error (with the response
      data when a response came back, and the error's own message), or another thrown value. */
  datatype PostOutcome =
    | Answered(data: Data)
    | AxiosFailed(response: Option<Data>, message: string)
    | OtherFailed(thrown: Thrown)

  /** A value caught by the `catch` block. */
  datatype Caught = FromAxios(response: Option<Data>, message: string) | FromError(message: string) | FromOther

  /** `submitLoomUrl` returns the data, or throws an `Error` with this message. */
  datatype Submitted = Returned(data: Data) | Failed(message: string)

  /** The first non-empty candidate, or the fallback when every candidate is empty. */
  function FirstAvailable(candidates: seq<string>, fallback: string): (r: string)
    ensures r == fallback || r in candidates
  {
    if |candidates| == 0 then fallback
    else if candidates[0] != "" then candidates[0]
    else FirstAvailable(candidates[1..], fallback)
  }

  /** `FirstAvailable` picks the candidate at the first non-empty position, and the fallback
      exactly when there is none. */
  lemma {:induction false} FirstAvailableSpec(candidates: seq<string>, fallback: string)
    ensures (forall k :: 0 <= k < |candidates| ==> candidates[k] == "") ==>
      FirstAvailable(candidates, fallback) == fallback
    ensures forall k ::
      (0 <= k < |candidates| && candidates[k] != "" && (forall j :: 0 <= j < k ==> candidates[j] == ""))
      ==> FirstAvailable(candidates, fallback) == candidates[k]
  {
    if |candidates| > 0 {
      FirstAvailableSpec(candidates[1..], fallback);
      forall k | 0 <= k < |candidates| && candidates[k] != "" && (forall j :: 0 <= j < k ==> candidates[j] == "")
        ensures FirstAvailable(candidates, fallback) == candidates[k]
      {
        if k > 0 {
          assert candidates[0] == "";
          assert candidates[1..][k - 1] == candidates[k];
          assert forall j :: 0 <= j < k - 1 ==> candidates[1..][j] == candidates[j + 1];
        }
      }
      if forall k :: 0 <= k < |candidates| ==> candidates[k] == "" {
        assert candidates[0] == "";
        assert forall k :: 0 <= k < |candidates| - 1 ==> candidates[1..][k] == candidates[k + 1];
      }
    }
  }

  /** The message the `catch` block settles on, before its prefix. */
  function CaughtMessage(c: Caught): string
  {
    match c
    case FromAxios(response, m) =>
      if response.Some? && response.value.error != "" then response.value.error
      else if response.Some? && response.value.message != "" then response.value.message
      else if m != "" then m
      else "Unknown error occurred"
    case FromError(m) => m
    case FromOther => "Unknown error occurred"
  }

  /** For an axios error the message is the first available of the response's `error`, its
      `message`, and the error's own message, else "Unknown error occurred"; an `Error` gives
      its message as it is, even an empty one. */
  lemma CaughtMessagePrecedence(c: Caught)
    ensures c.FromAxios? ==>
      var data := c.response.GetOr(Data("", "", ""));
      CaughtMessage(c) == FirstAvailable([data.error, data.message, c.message], "Unknown error occurred")
    ensures c.FromError? ==> CaughtMessage(c) == c.message
    ensures CaughtMessage(c) == "" ==> c.FromError?
  {
    if c.FromAxios? {
      var data := c.response.GetOr(Data("", "", ""));
      var cs := [data.error, data.message, c.message];
      assert cs[1..] == [data.message, c.message];
      assert cs[1..][1..] == [c.message];
      assert cs[1..][1..][1..] == [];
      var fallback := "Unknown error occurred";
      assert FirstAvailable(cs[1..][1..], fallback) == if c.message != "" then c.message else fallback;
      assert FirstAvailable(cs[1..], fallback) ==
        if data.message != "" then data.message else FirstAvailable(cs[1..][1..], fallback);
      assert FirstAvailable(cs, fallback) ==
        if data.error != "" then data.error else FirstAvailable(cs[1..], fallback);
    }
  }

  /** `submitLoomUrl`: a 2xx answer whose data carries an `error` is turned into a failure, and
      every failure is rethrown as an `Error` whose message is "API Error: " and the caught
      message. */
  function SubmitLoomUrl(outcome: PostOutcome): (r: Submitted)
    ensures r.Returned? ==> outcome.Answered? && r.data == outcome.data && r.data.error == ""
    ensures r.Failed? ==> |r.message| >= 11 && r.message[..11] == "API Error: "
  {
    var caught := match outcome
      case Answered(data) => FromError(data.error)
      case AxiosFailed(response, m) => FromAxios(response, m)
      case OtherFailed(thrown) => if thrown.ErrorObject? then FromError(thrown.message) else FromOther;
    if outcome.Answered? && outcome.data.error == "" then Returned(outcome.data)
    else Failed("API Error: " + CaughtMessage(caught))
  }

  /** What axios makes of a proxy response: a 2xx status is an answer, any other status an
      axios error carrying the response body. */
  function FromProxy(r: LoomProxy.Response<Data>): PostOutcome
  {
    var data := match r.body
      case Document(d) => d
      case ErrorBody(e) => Data(e, "", "");
    if LoomProxy.Ok(r.status) then Answered(data)
    else AxiosFailed(Some(data), "Request failed with status code " + IntToString(r.status))
  }

  /** End to end through the proxy: every error the proxy answers with reaches the page as
      "API Error: " and the proxy's own error text, and a relayed document is returned as it
      is unless it carries an `error` of its own. */
  lemma ProxyErrorsReachThePage(incoming: LoomProxy.Incoming, upstream: LoomProxy.Upstream, parse: string -> Option<Data>, statusError: int -> string)
    ensures var r := LoomProxy.Post(incoming, upstream, parse, statusError);
      r.body.ErrorBody? ==> SubmitLoomUrl(FromProxy(r)) == Failed("API Error: " + r.body.error)
    ensures var r := LoomProxy.Post(incoming, upstream, parse, statusError);
      r.body.Document? ==>
        SubmitLoomUrl(FromProxy(r)) ==
          if r.body.doc.error == "" then Returned(r.body.doc) else Failed("API Error: " + r.body.doc.error)
  {
    LoomProxy.SuccessStatusIffDocument(incoming, upstream, parse, statusError);
    LoomProxy.ErrorTextNonEmpty(incoming, upstream, parse, statusError);
  }

  // ---------------------------------------------------------------------------------------
  // The mutation's `onSuccess` and `onError`

  /** What is left to do after the notice: refresh the data and leave for the dashboard now,
      do the same after a short delay, or nothing. */
  datatype Followup = RefreshNow | RefreshLater | NoFollowup

  datatype Settled = Settled(form: Form, notice: Loom.Notice, followup: Followup)

  const ProcessingNote := "Your Loom video is being processed in the background. Check back soon for results."
  const SubmittedNote := "Loom video has been successfully submitted for analysis!"

  /** `onSuccess` and `onError` of the mutation. */
  function Settle(form: Form, s: Submitted): Settled
  {
    match s
    case Returned(data) =>
      if data.status == "processing" then
        Settled(form.(loomUrl := ""), Loom.Info(if data.message != "" then data.message else ProcessingNote), RefreshLater)
      else
        Settled(form.(loomUrl := "", redirecting := true), Loom.Success(SubmittedNote), RefreshNow)
    case Failed(m) => Settled(form, Loom.Error(m), NoFollowup)
  }

  /** A returned submission always clears the URL field; "processing" shows an information
      notice and defers the refresh and the redirect, any other status shows the success
      notice and redirects now. A failure changes nothing in the form and shows the error,
      which always begins "API Error: " (so the generic connection message is never shown). */
  lemma SettleSpec(form: Form, outcome: PostOutcome)
    ensures var s := SubmitLoomUrl(outcome);
      s.Returned? ==>
        (Settle(form, s).form.loomUrl == "" && Settle(form, s).form.recordingType == form.recordingType)
    ensures var s := SubmitLoomUrl(outcome);
      s.Returned? ==>
        && (Settle(form, s).notice.Info? <==> s.data.status == "processing")
        && (Settle(form, s).notice.Success? <==> s.data.status != "processing")
        && (Settle(form, s).form.redirecting <==> s.data.status != "processing" || form.redirecting)
    ensures var s := SubmitLoomUrl(outcome);
      s.Failed? ==>
        && Settle(form, s).form == form && Settle(form, s).followup == NoFollowup
        && Settle(form, s).notice.Error? && Settle(form, s).notice.message[..11] == "API Error: "
  {
  }
}
