/**
 * The transform-layout form: on submit it checks that something was chosen,
 * collects the chosen layout keys and the text overlay, and hands them to the
 * hook's `transformLayout` in a single call.
 */
module LayoutForm {
  import opened Json
  import opened Hook
  import LegacyHook

  /** The form's inputs: the three layout selects, the overlay text and its
      checkbox. */
  datatype FormState = FormState(layout: string, hostLayout: string, guestLayout: string,
                                 overlayText: string, isTextEnabled: bool)

  /** The form reads only `"lecture"` as a lecture conference. */
  predicate IsFormLecture(conferenceType: JsStr) {
    conferenceType == Str("lecture")
  }

  /** A select's value as a payload key: present only when not empty. */
  function KeyOf(v: string): (k: JsStr)
    ensures k.Str? <==> v != ""
    ensures k.Str? ==> k.s == v
  {
    if v != "" then Str(v) else Undefined
  }

  /** Whether the form lets a submission through. */
  predicate Accepts(conferenceType: JsStr, f: FormState): (ok: bool)
    ensures ok <==>
      var a := Payload(conferenceType, f);
      a.layout.Str? || a.hostLayout.Str? || a.guestLayout.Str? || f.isTextEnabled
  {
    if IsFormLecture(conferenceType) then f.hostLayout != "" || f.guestLayout != "" || f.isTextEnabled
    else f.layout != "" || f.isTextEnabled
  }

  /** The argument of the `onTransformLayout` call for an accepted submission. */
  function Payload(conferenceType: JsStr, f: FormState): (a: LayoutArgs)
    ensures IsFormLecture(conferenceType) ==>
      a.layout == Undefined && (a.hostLayout.Str? <==> f.hostLayout != "") && (a.guestLayout.Str? <==> f.guestLayout != "")
    ensures !IsFormLecture(conferenceType) ==>
      (a.layout.Str? <==> f.layout != "") && a.hostLayout == Undefined && a.guestLayout == Undefined
    ensures a.transforms.Some? && "text_overlay" in a.transforms.value
    ensures a.transforms.value["text_overlay"].text == Str(if f.isTextEnabled then f.overlayText else "")
  {
    var lecture := IsFormLecture(conferenceType);
    LayoutArgs(
      if lecture then Undefined else KeyOf(f.layout),
      if lecture then KeyOf(f.hostLayout) else Undefined,
      if lecture then KeyOf(f.guestLayout) else Undefined,
      Some(map["text_overlay" := OverlayArg(Str(if f.isTextEnabled then f.overlayText else ""), Undefined, Undefined)]))
  }

  /** `handleSubmit`: the calls it makes to `onTransformLayout`, in order. A
      rejected submission (the alert) makes none; an accepted one makes
      exactly one, whose `transforms` always carries a `text_overlay`, with
      empty text when the overlay is disabled. */
  method HandleSubmit(conferenceType: JsStr, f: FormState) returns (calls: seq<LayoutArgs>)
    ensures |calls| <= 1
    ensures |calls| == 1 <==> Accepts(conferenceType, f)
    ensures |calls| == 1 ==> calls[0] == Payload(conferenceType, f)
    ensures |calls| == 1 && IsFormLecture(conferenceType) ==>
      calls[0].layout == Undefined && calls[0].hostLayout.Str? == (f.hostLayout != "")
      && calls[0].guestLayout.Str? == (f.guestLayout != "")
    ensures |calls| == 1 && !IsFormLecture(conferenceType) ==>
      calls[0].layout.Str? == (f.layout != "") && calls[0].hostLayout == Undefined && calls[0].guestLayout == Undefined
    ensures |calls| == 1 ==>
      && calls[0].transforms.Some? && "text_overlay" in calls[0].transforms.value
      && calls[0].transforms.value["text_overlay"].text == Str(if f.isTextEnabled then f.overlayText else "")
  {
    var layoutPayload := LayoutArgs(Undefined, Undefined, Undefined, None);
    var textTransforms: map<string, OverlayArg> := map[];
    if conferenceType == Str("lecture") {
      if f.hostLayout == "" && f.guestLayout == "" && !f.isTextEnabled {
        return [];
      }
      if f.hostLayout != "" {
        layoutPayload := layoutPayload.(hostLayout := Str(f.hostLayout));
      }
      if f.guestLayout != "" {
        layoutPayload := layoutPayload.(guestLayout := Str(f.guestLayout));
      }
    } else {
      if f.layout == "" && !f.isTextEnabled {
        return [];
      }
      if f.layout != "" {
        layoutPayload := layoutPayload.(layout := Str(f.layout));
      }
    }
    if f.isTextEnabled {
      textTransforms := textTransforms["text_overlay" := OverlayArg(Str(f.overlayText), Undefined, Undefined)];
    } else {
      textTransforms := textTransforms["text_overlay" := OverlayArg(Str(""), Undefined, Undefined)];
    }
    calls := [layoutPayload.(transforms := Some(textTransforms))];
  }

  // ---------------------------------------------------------------------------
  // The form wired to either hook

  /** With the current hook, an enabled overlay whose text is blank never
      reaches the node: the form accepts the submission, but the hook drops the
      blank overlay, and when no layout was chosen it sends nothing at all. The
      disabled case, whose empty text is meant to clear the overlay, is
      dropped the same way. */
  lemma BlankOverlayIsDropped(conferenceType: JsStr, f: FormState)
    requires Blank(f.overlayText) || !f.isTextEnabled
    ensures !OverlayRequested(Payload(conferenceType, f))
    ensures var sent := RequestBody(conferenceType, Payload(conferenceType, f));
      sent.Some? ==> sent.value.textOverlay == None
    ensures f.isTextEnabled && f.layout == "" && f.hostLayout == "" && f.guestLayout == "" ==>
      Accepts(conferenceType, f) && RequestBody(conferenceType, Payload(conferenceType, f)) == None
  {
    var args := Payload(conferenceType, f);
    var text := if f.isTextEnabled then f.overlayText else "";
    assert Blank(text);
    TrimEmptyIffBlank(text);
    assert args.transforms.value["text_overlay"].text == Str(text);
    assert Requested(conferenceType, args).textOverlay == None;
  }

  /** With the earlier hook every accepted submission is sent, and the overlay
      entry, blank or not, goes with it. */
  lemma LegacyHookSendsEverySubmission(conferenceType: JsStr, f: FormState)
    requires Accepts(conferenceType, f)
    ensures var sent := LegacyHook.LegacyRequestBody(conferenceType, Payload(conferenceType, f));
      sent.Some? && sent.value.transforms == Payload(conferenceType, f).transforms
  {
    assert |Payload(conferenceType, f).transforms.value| == 1;
  }

  /** For a `lecture_mode` or `lecture_type` conference the form shows the
      single layout select, but the current hook reads only the host and guest
      layouts there, so the chosen layout is never sent. */
  lemma LectureModeLayoutIsDropped(conferenceType: JsStr, f: FormState)
    requires conferenceType == Str("lecture_mode") || conferenceType == Str("lecture_type")
    requires f.layout != ""
    ensures Accepts(conferenceType, f) && Payload(conferenceType, f).layout == Str(f.layout)
    ensures var sent := RequestBody(conferenceType, Payload(conferenceType, f));
      sent.Some? ==> sent.value.layout == None && sent.value.hostLayout == None && sent.value.guestLayout == None
    ensures !f.isTextEnabled || Blank(f.overlayText) ==> RequestBody(conferenceType, Payload(conferenceType, f)) == None
  {
    var args := Payload(conferenceType, f);
    assert IsLecture(conferenceType) && !IsFormLecture(conferenceType);
    assert args.hostLayout == Undefined && args.guestLayout == Undefined;
    var t := Requested(conferenceType, args);
    assert t.layout == None && t.hostLayout == None && t.guestLayout == None;
    if !f.isTextEnabled || Blank(f.overlayText) {
      BlankOverlayIsDropped(conferenceType, f);
    }
  }

  /** In a `"lecture"` conference the form and the current hook agree: the
      host and guest layouts chosen are the ones sent. */
  lemma LectureAgrees(f: FormState)
    requires f.hostLayout != "" || f.guestLayout != ""
    ensures var sent := RequestBody(Str("lecture"), Payload(Str("lecture"), f));
      && sent.Some?
      && sent.value.hostLayout == (if f.hostLayout != "" then Some(f.hostLayout) else None)
      && sent.value.guestLayout == (if f.guestLayout != "" then Some(f.guestLayout) else None)
      && sent.value.layout == None
  {
  }
}
