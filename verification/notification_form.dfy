/**
 * The "get notified" panel: three contact options, two of which open an
 * external link, and an email form shown for the third whose submission is
 * a stub that always succeeds after a delay.
 */
module NotificationForm {
  import opened Shared

  datatype NotificationType = WhatsApp | Phone | Email

  /** One option button. `link` is absent for options handled in place. */
  datatype NotificationOption = NotificationOption(
    kind: NotificationType,
    caption: string,
    placeholder: string,
    link: Option<string>)

  /** The option table, in display order. */
  const Options: seq<NotificationOption> := [
    NotificationOption(WhatsApp, "WhatsApp", "Click to chat on WhatsApp", Some("https://wa.me/919079195956")),
    NotificationOption(Phone, "Call Us", "Click to call", Some("tel:+919079195956")),
    NotificationOption(Email, "Email Us", "Enter your email", None)
  ]

  /** Only the email option is handled in place; the others all carry a link. */
  lemma OnlyEmailLacksLink()
    ensures forall i :: 0 <= i < |Options| ==> (Options[i].link.None? <==> Options[i].kind == Email)
    ensures forall i, j :: 0 <= i < j < |Options| ==> Options[i].kind != Options[j].kind
  {
  }

  /** The delayed callbacks a submission schedules (1.5 s, then 3 s). */
  datatype Continuation = FinishSubmit | ResetStatus

  datatype Form = Form(
    selectedType: Option<NotificationType>,
    contact: string,
    status: Status,
    isSubmitting: bool,
    pending: seq<Continuation>)

  const Initial := Form(None, "", Idle, false, [])

  datatype Event =
    | ClickOption(option: nat)   // the option button at this index
    | EditContact(value: string) // the input's `onChange`
    | Submit                     // `handleSubmit`
    | Fire(index: nat)           // the pending continuation at `index` runs

  /**
   * `handleOptionClick`: an option with a link opens it (the second
   * component of the result) and selects nothing; one without selects its type.
   */
  function HandleOptionClick(f: Form, option: NotificationOption): (r: (Form, Option<string>))
    ensures option.link.Some? ==> r.0 == f && r.1 == option.link
    ensures option.link.None? ==> r.0 == f.(selectedType := Some(option.kind)) && r.1.None?
  {
    if option.link.Some? then (f, option.link) else (f.(selectedType := Some(option.kind)), None)
  }

  /** `handleSubmit`: marks the form submitting and schedules the stubbed reply. */
  function HandleSubmit(f: Form): (r: Form)
    ensures r.isSubmitting
    ensures r.pending == f.pending + [FinishSubmit]
    ensures r.selectedType == f.selectedType && r.contact == f.contact && r.status == f.status
  {
    f.(isSubmitting := true, pending := f.pending + [FinishSubmit])
  }

  /** The body of a continuation. */
  function Continue(f: Form, c: Continuation): (r: Form)
    ensures c == FinishSubmit ==>
      && !r.isSubmitting && r.status == Success && r.contact == "" && r.selectedType.None?
      && r.pending == f.pending + [ResetStatus]
    ensures c == ResetStatus ==> r == f.(status := Idle)
  {
    match c
    case FinishSubmit =>
      f.(isSubmitting := false, status := Success, contact := "", selectedType := None,
         pending := f.pending + [ResetStatus])
    case ResetStatus => f.(status := Idle)
  }

  /** One event. An index with no option or no pending continuation does nothing. */
  function Step(f: Form, e: Event): Form {
    match e
    case ClickOption(i) => if i < |Options| then HandleOptionClick(f, Options[i]).0 else f
    case EditContact(v) => f.(contact := v)
    case Submit => HandleSubmit(f)
    case Fire(i) =>
      if i < |f.pending| then Continue(f.(pending := RemoveAt(f.pending, i)), f.pending[i]) else f
  }

  function Apply(f: Form, events: seq<Event>): Form
    decreases |events|
  {
    if |events| == 0 then f else Apply(Step(f, events[0]), events[1..])
  }

  /** The email form is rendered exactly when the email option is selected. */
  predicate FormVisible(f: Form) {
    f.selectedType == Some(Email)
  }

  /** Its input and button are disabled while submitting or showing success. */
  predicate Disabled(f: Form) {
    f.isSubmitting || f.status == Success
  }

  /**
   * What holds in every reachable state: the selection is empty or the
   * email option, the status is never an error, and a submission in
   * flight or a success message has the continuation that ends it pending.
   */
  predicate Consistent(f: Form) {
    && (f.selectedType.None? || f.selectedType == Some(Email))
    && f.status != Error
    && (f.isSubmitting ==> FinishSubmit in f.pending)
    && (f.status == Success ==> ResetStatus in f.pending)
  }

  lemma StepConsistent(f: Form, e: Event)
    requires Consistent(f)
    ensures Consistent(Step(f, e))
  {
    if e.ClickOption? && e.option < |Options| {
      OnlyEmailLacksLink();
    }
  }

  /** Every state reachable from a consistent one is consistent. */
  lemma {:induction false} ApplyConsistent(f: Form, events: seq<Event>)
    requires Consistent(f)
    ensures Consistent(Apply(f, events))
    decreases |events|
  {
    if |events| > 0 {
      StepConsistent(f, events[0]);
      ApplyConsistent(Step(f, events[0]), events[1..]);
    }
  }

  /**
   * Whatever the user clicks and whenever the callbacks run, the status is
   * never `error` and only the email option is ever selected.
   */
  lemma NeverError(events: seq<Event>)
    ensures Apply(Initial, events).status != Error
    ensures Apply(Initial, events).selectedType in {None, Some(Email)}
  {
    ApplyConsistent(Initial, events);
  }

  /**
   * A disabled form always has a continuation pending, and once nothing
   * is in flight, running the pending status reset re-enables it.
   */
  lemma DisabledOnlyWhilePending(events: seq<Event>)
    ensures var f := Apply(Initial, events);
      Disabled(f) ==> |f.pending| > 0
    ensures var f := Apply(Initial, events);
      f.status == Success && !f.isSubmitting ==>
        exists i :: 0 <= i < |f.pending| && !Disabled(Step(f, Fire(i)))
  {
    var f := Apply(Initial, events);
    ApplyConsistent(Initial, events);
    if f.status == Success && !f.isSubmitting {
      var i :| 0 <= i < |f.pending| && f.pending[i] == ResetStatus;
      assert !Disabled(Step(f, Fire(i)));
    }
  }

  /**
   * Choosing email shows the form; a submission then hides it again when
   * it finishes, with a success message until the status reset.
   */
  lemma SubmissionSequence(f: Form)
    requires f.pending == [] && !f.isSubmitting
    ensures var f1 := Step(f, ClickOption(2));
      FormVisible(f1) && !Disabled(f1) == (f.status != Success)
    ensures var f2 := Step(Step(f, ClickOption(2)), Submit);
      FormVisible(f2) && Disabled(f2) && f2.pending == [FinishSubmit]
    ensures var f3 := Step(Step(Step(f, ClickOption(2)), Submit), Fire(0));
      !FormVisible(f3) && f3.status == Success && f3.contact == "" && f3.pending == [ResetStatus]
    ensures var f4 := Step(Step(Step(Step(f, ClickOption(2)), Submit), Fire(0)), Fire(0));
      f4.status == Idle && !Disabled(f4) && f4.pending == []
  {
  }
}
