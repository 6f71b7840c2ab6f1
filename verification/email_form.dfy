/**
 * The stand-alone email sign-up form: the address check and the small
 * state machine driven by typing, submitting, and the two delayed
 * continuations a submission schedules.
 */
module EmailForm {
  import opened Shared

  // ---------------------------------------------------------------------
  // Address check

  /** The characters JavaScript's `\s` class matches. */
  predicate IsWhitespace(c: char) {
    || c == ' ' || c == '\t' || c == '\n' || c == '\r' || c == '\U{000B}' || c == '\U{000C}'
    || c == '\U{00A0}' || c == '\U{1680}' || ('\U{2000}' <= c <= '\U{200A}')
    || c == '\U{2028}' || c == '\U{2029}' || c == '\U{202F}' || c == '\U{205F}'
    || c == '\U{3000}' || c == '\U{FEFF}'
  }

  /** The class `[^\s@]`. */
  predicate InClass(c: char) {
    !IsWhitespace(c) && c != '@'
  }

  /** `[^\s@]+` matches all of `s`. */
  predicate OneOrMore(s: string) {
    |s| > 0 && forall i :: 0 <= i < |s| ==> InClass(s[i])
  }

  /**
   * `s` splits as `^[^\s@]+@[^\s@]+\.[^\s@]+$` with the `@` at `at` and the
   * literal dot at `dot`.
   */
  predicate SplitsAt(s: string, at: int, dot: int) {
    && 0 <= at < dot < |s|
    && s[at] == '@' && s[dot] == '.'
    && OneOrMore(s[..at]) && OneOrMore(s[at + 1..dot]) && OneOrMore(s[dot + 1..])
  }

  /** The address pattern, as a regular-expression match: some split exists. */
  ghost predicate MatchesPattern(s: string) {
    exists at, dot :: SplitsAt(s, at, dot)
  }

  /** `d` has a dot that is neither its first nor its last character. */
  predicate HasInnerDot(d: string) {
    exists j :: 0 < j < |d| - 1 && d[j] == '.'
  }

  /** Position of the first `c` in `s`, or `|s|` when there is none. */
  function IndexOf(s: string, c: char): (k: nat)
    ensures k <= |s|
    ensures k < |s| ==> s[k] == c
    ensures forall i :: 0 <= i < k ==> s[i] != c
  {
    if |s| == 0 then 0
    else if s[0] == c then 0
    else 1 + IndexOf(s[1..], c)
  }

  /**
   * `validateEmail`, computed directly: no whitespace, a first `@` that is
   * not the first character and is the only one, and a dot after it that
   * is neither right after the `@` nor the last character.
   */
  function ValidateEmail(s: string): bool {
    var at := IndexOf(s, '@');
    && 0 < at < |s|
    && (forall i :: 0 <= i < |s| ==> !IsWhitespace(s[i]))
    && (forall i :: at < i < |s| ==> s[i] != '@')
    && (exists j :: at + 1 < j < |s| - 1 && s[j] == '.')
  }

  /** The direct check accepts exactly the strings the pattern matches. */
  lemma ValidateEmailMatchesPattern(s: string)
    ensures ValidateEmail(s) <==> MatchesPattern(s)
  {
    if ValidateEmail(s) {
      var at := IndexOf(s, '@');
      var j :| at + 1 < j < |s| - 1 && s[j] == '.';
      assert SplitsAt(s, at, j) by {
        assert OneOrMore(s[..at]);
        assert OneOrMore(s[at + 1..j]);
        assert OneOrMore(s[j + 1..]);
      }
    }
    if MatchesPattern(s) {
      var at, dot :| SplitsAt(s, at, dot);
      assert forall i :: 0 <= i < at ==> s[i] == s[..at][i];
      assert IndexOf(s, '@') == at;
      forall i | 0 <= i < |s|
        ensures !IsWhitespace(s[i]) && (i > at ==> s[i] != '@')
      {
        if i < at {
          assert s[i] == s[..at][i];
        } else if at < i < dot {
          assert s[i] == s[at + 1..dot][i - at - 1];
        } else if dot < i {
          assert s[i] == s[dot + 1..][i - dot - 1];
        }
      }
    }
  }

  /**
   * What an accepted address looks like: exactly one `@`, no whitespace,
   * something before the `@`, and a dot in the domain that is neither its
   * first nor its last character.
   */
  lemma AcceptedShape(s: string)
    requires ValidateEmail(s)
    ensures multiset(s)['@'] == 1
    ensures forall i :: 0 <= i < |s| ==> !IsWhitespace(s[i])
    ensures exists at :: 0 < at < |s| && s[at] == '@' && HasInnerDot(s[at + 1..])
  {
    var at := IndexOf(s, '@');
    assert s == s[..at] + [s[at]] + s[at + 1..];
    assert '@' !in s[..at];
    assert '@' !in s[at + 1..];
    assert multiset(s) == multiset(s[..at]) + multiset{'@'} + multiset(s[at + 1..]);
    var j :| at + 1 < j < |s| - 1 && s[j] == '.';
    assert s[at + 1..][j - at - 1] == '.';
    assert HasInnerDot(s[at + 1..]);
  }

  /** The empty string and a domain without a dot are refused; `a@b.c` is accepted. */
  lemma ValidateEmailExamples()
    ensures !ValidateEmail("")
    ensures !ValidateEmail("a@b")
    ensures ValidateEmail("a@b.c")
    ensures !ValidateEmail("a b@c.d")
    ensures !ValidateEmail("a@b@c.d")
  {
    assert IndexOf("a@b", '@') == 1;
    assert IndexOf("a@b.c", '@') == 1;
    assert "a@b.c"[3] == '.';
    assert "a b@c.d"[1] == ' ';
    assert IndexOf("a@b@c.d", '@') == 1;
    assert "a@b@c.d"[3] == '@';
  }

  // ---------------------------------------------------------------------
  // Form state machine

  const InvalidEmailMessage := "Please enter a valid email address."

  /** The delayed callbacks a submission schedules (1.5 s, then 5 s). */
  datatype Continuation = FinishSubmit | ClearSuccess

  /** The form's state, with the continuations scheduled and not yet run. */
  datatype Form = Form(
    email: string,
    isSubmitting: bool,
    status: Status,
    errorMessage: string,
    pending: seq<Continuation>)

  const Initial := Form("", false, Idle, "", [])

  datatype Event =
    | Edit(value: string)   // the input's `onChange`
    | Submit                // `handleSubmit`
    | Fire(index: nat)      // the pending continuation at `index` runs

  /** `handleSubmit`. */
  function HandleSubmit(f: Form): (r: Form)
    // a refused address shows the error and starts nothing
    ensures !ValidateEmail(f.email) ==>
      && r.status == Error && r.errorMessage == InvalidEmailMessage
      && r.email == f.email && r.isSubmitting == f.isSubmitting && r.pending == f.pending
    // an accepted one starts a submission
    ensures ValidateEmail(f.email) ==>
      && r.isSubmitting && r.status == Idle
      && r.email == f.email && r.errorMessage == f.errorMessage
      && r.pending == f.pending + [FinishSubmit]
  {
    if !ValidateEmail(f.email) then
      f.(status := Error, errorMessage := InvalidEmailMessage)
    else
      f.(isSubmitting := true, status := Idle, pending := f.pending + [FinishSubmit])
  }

  /** The body of a continuation. */
  function Continue(f: Form, c: Continuation): (r: Form)
    ensures c == FinishSubmit ==>
      && !r.isSubmitting && r.status == Success && r.email == ""
      && r.errorMessage == f.errorMessage && r.pending == f.pending + [ClearSuccess]
    ensures c == ClearSuccess ==> r == f.(status := Idle)
  {
    match c
    case FinishSubmit => f.(isSubmitting := false, status := Success, email := "",
                            pending := f.pending + [ClearSuccess])
    case ClearSuccess => f.(status := Idle)
  }

  /** The input's `onChange`. */
  function HandleEdit(f: Form, value: string): (r: Form)
    ensures r.email == value
    ensures f.status == Error ==> r.status == Idle
    ensures f.status != Error ==> r.status == f.status
    ensures r.isSubmitting == f.isSubmitting && r.errorMessage == f.errorMessage && r.pending == f.pending
  {
    f.(email := value, status := if f.status == Error then Idle else f.status)
  }

  /** One event. Firing an index with nothing pending there does nothing. */
  function Step(f: Form, e: Event): Form {
    match e
    case Edit(v) => HandleEdit(f, v)
    case Submit => HandleSubmit(f)
    case Fire(i) =>
      if i < |f.pending| then Continue(f.(pending := RemoveAt(f.pending, i)), f.pending[i]) else f
  }

  function Apply(f: Form, events: seq<Event>): Form
    decreases |events|
  {
    if |events| == 0 then f else Apply(Step(f, events[0]), events[1..])
  }

  /** The input and the button are disabled while submitting or showing success. */
  predicate Disabled(f: Form) {
    f.isSubmitting || f.status == Success
  }

  /**
   * What holds in every reachable state: a submission in flight has its
   * finishing continuation pending, a success message has its clearing
   * continuation pending, and an error always carries the fixed message.
   */
  predicate Consistent(f: Form) {
    && (f.isSubmitting ==> FinishSubmit in f.pending)
    && (f.status == Success ==> ClearSuccess in f.pending)
    && (f.status == Error ==> f.errorMessage == InvalidEmailMessage)
  }

  lemma StepConsistent(f: Form, e: Event)
    requires Consistent(f)
    ensures Consistent(Step(f, e))
  {
  }

  /** Every state reachable from the initial one is consistent. */
  lemma {:induction false} ApplyConsistent(f: Form, events: seq<Event>)
    requires Consistent(f)
    ensures Consistent(Apply(f, events))
    decreases |events|
  {
    if |events| > 0 {
      StepConsistent(f, events[0]);
      ApplyConsistent(Step(f, events[0]), events[1..]);
    }
  }

  /**
   * The form never locks up: whenever it is disabled in a reachable state,
   * some continuation is still pending, and running the one that clears
   * the state re-enables it once nothing is in flight.
   */
  lemma DisabledOnlyWhilePending(events: seq<Event>)
    ensures var f := Apply(Initial, events);
      Disabled(f) ==> |f.pending| > 0
    ensures var f := Apply(Initial, events);
      f.status == Success && !f.isSubmitting ==>
        exists i :: 0 <= i < |f.pending| && !Disabled(Step(f, Fire(i)))
  {
    var f := Apply(Initial, events);
    ApplyConsistent(Initial, events);
    if f.status == Success && !f.isSubmitting {
      var i :| 0 <= i < |f.pending| && f.pending[i] == ClearSuccess;
      assert !Disabled(Step(f, Fire(i)));
    }
  }

  /** The valid-submission sequence: submit, finish after 1.5 s, clear after 5 s. */
  lemma SubmissionSequence(f: Form)
    requires ValidateEmail(f.email) && f.pending == []
    ensures var f1 := Step(f, Submit);
      && f1.isSubmitting && f1.status == Idle && Disabled(f1)
      && f1.pending == [FinishSubmit]
    ensures var f2 := Step(Step(f, Submit), Fire(0));
      && !f2.isSubmitting && f2.status == Success && f2.email == "" && Disabled(f2)
      && f2.pending == [ClearSuccess]
    ensures var f3 := Step(Step(Step(f, Submit), Fire(0)), Fire(0));
      && f3.status == Idle && !Disabled(f3) && f3.pending == [] && f3.email == ""
  {
  }
}
