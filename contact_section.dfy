// The contact form's send button and success pill, derived from the two
// booleans of the form-submission state.
module ContactSection {
  /** The part of the submission state the section reads. */
  datatype FormState = FormState(submitting: bool, succeeded: bool)

  const BtnBase := "rounded-[calc(var(--radius)+4px)] w-full h-full min-h-[140px] " +
    "font-medium tracking-wide border pill-shadow " +
    "flex items-center justify-center gap-2 transition-transform will-change-transform"
  const BtnIdle := "bg-[color:var(--pill-banana)] text-[color:var(--pill-ink)] " +
    "border-[color:var(--pill-banana)]/40 hover:scale-[1.02] active:scale-[0.99]"
  const BtnSent := "bg-[color:var(--card-pastel-red)] text-[color:var(--pill-ink)] " +
    "border-[color:var(--card-pastel-red)]/40 opacity-90 cursor-not-allowed"

  const SentLabel := "Sent"
  const SendingLabel := "Sending\U{2026}"
  const SendLabel := "Send"

  /** `btnLabel`: success wins over an ongoing submission. */
  function Label(s: FormState): (l: string)
    ensures l == SentLabel <==> s.succeeded
    ensures l == SendingLabel <==> s.submitting && !s.succeeded
    ensures l == SendLabel <==> !s.submitting && !s.succeeded
  {
    if s.succeeded then SentLabel else if s.submitting then SendingLabel else SendLabel
  }

  /** `isDisabled`: the button refuses clicks exactly when it does not offer to send. */
  function Disabled(s: FormState): (d: bool)
    ensures d <==> Label(s) != SendLabel
  {
    s.submitting || s.succeeded
  }

  /** What the rendered button shows. */
  datatype Button = Button(disabled: bool, ariaDisabled: bool, className: string, ariaLabel: string, showsIcon: bool, text: string)

  /**
   * The send button: disabled and aria-disabled together, the sent styling
   * and no icon exactly after success, and the same label as accessible name
   * and as visible text.
   */
  function RenderButton(s: FormState): (b: Button)
    ensures b.disabled == b.ariaDisabled && (b.disabled <==> s.submitting || s.succeeded)
    ensures b.className == BtnBase + " " + BtnSent <==> s.succeeded
    ensures b.className == BtnBase + " " + BtnIdle <==> !s.succeeded
    ensures b.showsIcon <==> !s.succeeded
    ensures b.ariaLabel == b.text == Label(s)
  {
    var d := Disabled(s);
    var l := Label(s);
    assert BtnSent != BtnIdle by { assert |BtnSent| == 133 && |BtnIdle| == 134; }
    Button(d, d, BtnBase + " " + (if s.succeeded then BtnSent else BtnIdle), l, !s.succeeded, l)
  }

  /** The thank-you pill under the form: shown exactly when the button reads "Sent". */
  function ShowsThanks(s: FormState): (t: bool)
    ensures t <==> Label(s) == SentLabel
  {
    s.succeeded
  }

  /**
   * The button is clickable exactly when it offers to send; a sent form shows
   * its pill and no longer accepts clicks.
   */
  lemma {:induction false} EnabledOnlyWhenSend(s: FormState)
    ensures !RenderButton(s).disabled <==> RenderButton(s).text == SendLabel
    ensures ShowsThanks(s) ==> RenderButton(s).disabled && !RenderButton(s).showsIcon
  {
    var b := RenderButton(s);
    assert b.text == Label(s) && b.disabled == Disabled(s);
  }

  /** The pill appears exactly when the button wears its sent styling and loses its icon. */
  lemma ThanksMatchesButton(s: FormState)
    ensures ShowsThanks(s) <==> RenderButton(s).className == BtnBase + " " + BtnSent
    ensures ShowsThanks(s) <==> !RenderButton(s).showsIcon
  {
  }

  /** The label alone tells whether the form has succeeded and whether it is submitting. */
  lemma LabelDeterminesState(s: FormState, t: FormState)
    requires Label(s) == Label(t)
    ensures s.succeeded == t.succeeded
    ensures !s.succeeded ==> s.submitting == t.submitting
  {
  }
}
