/**
  The add-task form: two text fields and an "Add Task" button. Pressing the
  button hands both fields, exactly as typed, to the `onAddTask` callback and
  clears them, unless one of them is blank, in which case nothing changes.
 */
module AddTaskForm {

  import opened Wrappers
  import opened Text

  /** The form's state: the current contents of its two inputs. */
  datatype Form = Form(title: string, description: string)

  /** The arguments of one call of `onAddTask`. */
  datatype NewTask = NewTask(title: string, description: string)

  /** The state after an event, and the callback call it made, if any. */
  datatype Outcome = Outcome(form: Form, submitted: Option<NewTask>)

  /** User input the form reacts to. */
  datatype Event =
    | TitleChanged(title: string)
    | DescriptionChanged(description: string)
    | AddClicked

  /** The empty form the component starts from and returns to after a submission. */
  const Empty := Form("", "")

  /**
    The "Add Task" button handler. It submits exactly when both fields hold a
    non-whitespace character, passes them on untrimmed, and clears the form only
    when it submits.
   */
  function HandleAddTask(f: Form): (o: Outcome)
    ensures o.submitted.Some? <==> HasNonWhitespace(f.title) && HasNonWhitespace(f.description)
    ensures o.submitted.Some? ==> o.submitted.value == NewTask(f.title, f.description)
    ensures o.submitted.Some? ==> o.form == Empty
    ensures o.submitted.None? ==> o.form == f
  {
    if IsBlank(f.title) || IsBlank(f.description) then Outcome(f, None)
    else Outcome(Empty, Some(NewTask(f.title, f.description)))
  }

  /** The form's reaction to one event: typing replaces one field, the button submits. */
  function Step(f: Form, e: Event): Outcome
  {
    match e
    case TitleChanged(t) => Outcome(f.(title := t), None)
    case DescriptionChanged(d) => Outcome(f.(description := d), None)
    case AddClicked => HandleAddTask(f)
  }

  /** What a run of events leaves behind: the final form and every `onAddTask` call, in order. */
  datatype Session = Session(form: Form, calls: seq<NewTask>)

  /** A call the form can make: both texts hold a non-whitespace character. */
  ghost predicate Acceptable(n: NewTask)
  {
    HasNonWhitespace(n.title) && HasNonWhitespace(n.description)
  }

  /** The number of button presses among `es`. */
  function Clicks(es: seq<Event>): nat
  {
    if |es| == 0 then 0 else (if es[0].AddClicked? then 1 else 0) + Clicks(es[1..])
  }

  /** The callback call one event makes, if any, as a sequence of at most one call. */
  function Made(f: Form, e: Event): seq<NewTask>
  {
    var o := Step(f, e);
    if o.submitted.Some? then [o.submitted.value] else []
  }

  /**
    The form driven by a run of events from state `f`. There are never more
    callback calls than button presses, and every call carries a title and
    a description that each hold a non-whitespace character.
   */
  function Run(f: Form, es: seq<Event>): (s: Session)
    ensures |s.calls| <= Clicks(es)
    ensures forall k :: 0 <= k < |s.calls| ==> Acceptable(s.calls[k])
    decreases |es|
  {
    if |es| == 0 then Session(f, [])
    else
      var rest := Run(Step(f, es[0]).form, es[1..]);
      Session(rest.form, Made(f, es[0]) + rest.calls)
  }

  /** Running two stretches of events one after the other is running them together. */
  lemma {:induction false} RunConcat(f: Form, a: seq<Event>, b: seq<Event>)
    ensures Run(f, a + b).form == Run(Run(f, a).form, b).form
    ensures Run(f, a + b).calls == Run(f, a).calls + Run(Run(f, a).form, b).calls
    decreases |a|
  {
    if |a| == 0 {
      assert a + b == b;
    } else {
      var g := Step(f, a[0]).form;
      var made := Made(f, a[0]);
      assert (a + b)[0] == a[0];
      assert (a + b)[1..] == a[1..] + b;
      RunConcat(g, a[1..], b);
      var tail := Run(g, a[1..]);
      var second := Run(tail.form, b);
      assert Run(f, a + b).calls == made + (tail.calls + second.calls);
      assert made + (tail.calls + second.calls) == (made + tail.calls) + second.calls;
    }
  }

  /**
    Whatever happened before, typing a title and a description that both
    hold a non-whitespace character and pressing the button makes exactly one more
    call, carrying the two texts as last typed, and leaves the form empty.
   */
  lemma TypeThenAdd(f: Form, es: seq<Event>, title: string, description: string)
    requires HasNonWhitespace(title) && HasNonWhitespace(description)
    ensures var s := Run(f, es + [TitleChanged(title), DescriptionChanged(description), AddClicked]);
      && s.calls == Run(f, es).calls + [NewTask(title, description)]
      && s.form == Empty
  {
    var typed := [TitleChanged(title), DescriptionChanged(description), AddClicked];
    RunConcat(f, es, typed);
    var g := Run(f, es).form;
    var withBoth := g.(title := title).(description := description);
    assert typed[1..] == [DescriptionChanged(description), AddClicked];
    assert typed[1..][1..] == [AddClicked];
    assert Run(withBoth, [AddClicked]) == Session(Empty, [NewTask(title, description)]);
    assert Run(g.(title := title), typed[1..]) == Run(withBoth, [AddClicked]);
    assert Run(g, typed) == Session(Empty, [NewTask(title, description)]);
  }

  /** The event that makes a call leaves the form empty, so each call is followed by an empty form. */
  lemma CallClearsForm(f: Form, es: seq<Event>, e: Event)
    requires |Run(f, es + [e]).calls| > |Run(f, es).calls|
    ensures Run(f, es + [e]).form == Empty
    ensures e.AddClicked?
  {
    RunConcat(f, es, [e]);
  }

  /** A blank title is rejected and leaves both fields as they were. */
  lemma BlankTitleRejected(f: Form)
    requires IsBlank(f.title)
    ensures HandleAddTask(f) == Outcome(f, None)
  {
  }

  /** A blank description is rejected and leaves both fields as they were. */
  lemma BlankDescriptionRejected(f: Form)
    requires IsBlank(f.description)
    ensures HandleAddTask(f) == Outcome(f, None)
  {
  }

  /**
    Whitespace around a title never causes a rejection on its own: padding
    the title changes neither whether the form submits nor, when it does,
    anything but the title handed on, which keeps its padding.
   */
  lemma PaddingDoesNotDecide(f: Form, before: string, after: string)
    requires forall i :: 0 <= i < |before| ==> IsWhitespace(before[i])
    requires forall i :: 0 <= i < |after| ==> IsWhitespace(after[i])
    ensures
      var padded := HandleAddTask(f.(title := before + f.title + after));
      && padded.submitted.Some? == HandleAddTask(f).submitted.Some?
      && (padded.submitted.Some? ==> padded.submitted.value.title == before + f.title + after)
  {
    BlankIgnoresPadding(before, f.title, after);
  }

  /** Submitting twice in a row submits at most once: the cleared form is blank. */
  lemma NoDoubleSubmit(f: Form)
    ensures HandleAddTask(HandleAddTask(f).form).submitted.Some? ==> HandleAddTask(f).submitted.None?
  {
  }

}
