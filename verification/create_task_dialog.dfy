/**
 * The task form of the timeline page (component/create_task_dialog.py):
 * validation of the submitted fields, the priority and date conversions,
 * the status lookup by name, and the call that creates the task in the
 * milestone the form was opened for.
 */
module TaskForm {
  import opened Wrappers
  import opened Model
  import opened ProjectView
  import opened ProjectHandlers
  import opened Intents
  import CrudTasks

  /** Which milestone the form was opened for. */
  datatype FormState = FormState(milestoneId: Option<int>)

  /** The submitted form: every input, as the text it holds. */
  datatype Fields = Fields(
    name: string, status: string, priority: string, description: string,
    startDate: string, endDate: string)

  /** `date_to_epoch` is not part of this model: the conversion of a date string is a parameter. */
  type DateToEpoch = string -> int

  /** set_which_dialog_open. */
  function SetWhichDialogOpen(f: FormState, milestoneId: Option<int>): (r: FormState)
    ensures r.milestoneId == milestoneId
  {
    FormState(milestoneId)
  }

  // ---------------------------------------------------------------------
  // Required fields
  // ---------------------------------------------------------------------

  /** The required fields, quoted, in the order they are checked. */
  const RequiredFields: seq<string> := ["\"name\"", "\"priority\"", "\"status\""]

  /** Whether the i-th required field was left empty. */
  predicate FieldMissing(fs: Fields, i: int) {
    (i == 0 && fs.name == "") || (i == 1 && fs.priority == "") || (i == 2 && fs.status == "")
  }

  /** The quoted names of the required fields left empty, in checking order. */
  function MissingFields(fs: Fields): (r: seq<string>)
    ensures |r| <= |RequiredFields|
    ensures forall i :: 0 <= i < |RequiredFields| ==> (RequiredFields[i] in r <==> FieldMissing(fs, i))
    ensures forall x :: x in r ==> x in RequiredFields
    ensures forall i, j :: 0 <= i < j < |r| ==> Position(r[i]) < Position(r[j])
  {
    (if fs.name == "" then [RequiredFields[0]] else [])
    + (if fs.priority == "" then [RequiredFields[1]] else [])
    + (if fs.status == "" then [RequiredFields[2]] else [])
  }

  /** Where a required field stands in the checking order. */
  function Position(x: string): nat {
    if x == RequiredFields[0] then 0 else if x == RequiredFields[1] then 1 else 2
  }

  /** `sep.join(xs)`. */
  function Join(xs: seq<string>, sep: string): (r: string)
    ensures xs == [] ==> r == ""
    ensures |xs| == 1 ==> r == xs[0]
    ensures |xs| >= 1 ==> |r| == |xs[0]| + |Join(xs[1..], sep)| + (if |xs| == 1 then 0 else |sep|)
  {
    if xs == [] then ""
    else if |xs| == 1 then xs[0]
    else xs[0] + sep + Join(xs[1..], sep)
  }

  const MissingPrefix := "Please fill in all required fields, including: "

  /** The error shown for a form with empty required fields; none when all are filled. */
  function MissingFieldsMessage(fs: Fields): (r: Option<string>)
    ensures r.None? <==> fs.name != "" && fs.priority != "" && fs.status != ""
    ensures r.Some? ==> r.value == MissingPrefix + Join(MissingFields(fs), ", ")
  {
    var missing := MissingFields(fs);
    if |missing| > 0 then Some(MissingPrefix + Join(missing, ", ")) else None
  }

  // ---------------------------------------------------------------------
  // Conversions
  // ---------------------------------------------------------------------

  /** `str.upper` on the ASCII letters; other characters are unchanged. */
  function UpperChar(c: char): (r: char)
    ensures 'a' <= c <= 'z' ==> r as int == c as int - 32
    ensures !('a' <= c <= 'z') ==> r == c
  {
    if 'a' <= c <= 'z' then (c as int - 32) as char else c
  }

  function Upper(s: string): (r: string)
    ensures |r| == |s|
    ensures forall i :: 0 <= i < |s| ==> r[i] == UpperChar(s[i])
  {
    seq(|s|, i requires 0 <= i < |s| => UpperChar(s[i]))
  }

  /** Two strings that agree once upper-cased. */
  predicate SameIgnoringCase(a: string, b: string) {
    |a| == |b| && forall i :: 0 <= i < |a| ==> UpperChar(a[i]) == UpperChar(b[i])
  }

  /** The priority field is `Priority(value.upper())`; a value naming no member raises ValueError. */
  function PriorityField(value: string): (r: Option<Priority>)
    ensures forall p :: r == Some(p) <==> SameIgnoringCase(value, PriorityValue(p))
  {
    PriorityIgnoresCase(value);
    PriorityOf(Upper(value))
  }

  /** The priority lookup accepts exactly the member values written in any case. */
  lemma PriorityIgnoresCase(value: string)
    ensures forall p :: PriorityOf(Upper(value)) == Some(p) <==> SameIgnoringCase(value, PriorityValue(p))
  {
    forall p ensures PriorityOf(Upper(value)) == Some(p) <==> SameIgnoringCase(value, PriorityValue(p)) {
      var v := PriorityValue(p);
      assert Upper(v) == v by {
        assert forall i :: 0 <= i < |v| ==> 'A' <= v[i] <= 'Z';
      }
      if SameIgnoringCase(value, v) {
        assert Upper(value) == Upper(v);
      }
      if Upper(value) == v {
        assert forall i :: 0 <= i < |value| ==> UpperChar(value[i]) == Upper(value)[i] == v[i] == UpperChar(v[i]);
      }
    }
  }

  /** A date field: empty means no date, anything else is converted. */
  function DateField(value: string, toEpoch: DateToEpoch): (r: Option<int>)
    ensures r.None? <==> value == ""
    ensures r.Some? ==> r.value == toEpoch(value)
  {
    if |value| > 0 then Some(toEpoch(value)) else None
  }

  /** The id of the first status, in the order given, whose name is `name`. */
  function FirstStatusNamed(statuses: seq<StatusView>, name: string): (r: Option<int>)
    ensures r.None? <==> forall i :: 0 <= i < |statuses| ==> statuses[i].name != name
    ensures r.Some? ==> exists i :: 0 <= i < |statuses| && statuses[i].name == name && statuses[i].id == r.value
                                      && forall j :: 0 <= j < i ==> statuses[j].name != name
  {
    if statuses == [] then None
    else if statuses[0].name == name then Some(statuses[0].id)
    else
      var rest := FirstStatusNamed(statuses[1..], name);
      if rest.Some? then
        ghost var i :| 0 <= i < |statuses[1..]| && statuses[1..][i].name == name && statuses[1..][i].id == rest.value
                        && forall j :: 0 <= j < i ==> statuses[1..][j].name != name;
        assert statuses[i + 1].name == name;
        rest
      else rest
  }

  // ---------------------------------------------------------------------
  // Submission
  // ---------------------------------------------------------------------

  /**
   * submit: nothing without a milestone; an error toast when a required
   * field is empty; ValueError for an unknown priority; AssertionError
   * when no status has the selected name; otherwise the task is created
   * with the form's fields in the form's milestone.
   */
  function Submit(f: FormState, fs: Fields, data: Option<Data>, toEpoch: DateToEpoch): (r: Effect)
    ensures f.milestoneId.None? ==> r == NoEffect
    ensures f.milestoneId.Some? ==> (r == Rejected <==> MissingFieldsMessage(fs).Some?)
    ensures f.milestoneId.Some? && MissingFieldsMessage(fs).None? ==>
              (r == Fail(ValueError) <==> PriorityField(fs.priority).None?)
    ensures r == Fail(AssertionError) <==>
              && f.milestoneId.Some? && MissingFieldsMessage(fs).None? && PriorityField(fs.priority).Some?
              && FirstStatusNamed(Statuses(data), fs.status).None?
    ensures r.Forward? ==>
              && f.milestoneId.Some? && PriorityField(fs.priority).Some? && FirstStatusNamed(Statuses(data), fs.status).Some?
              && r.call == CreateTaskFullCall(fs.name, fs.description, PriorityField(fs.priority).value,
                                              FirstStatusNamed(Statuses(data), fs.status).value, f.milestoneId,
                                              DateField(fs.startDate, toEpoch), DateField(fs.endDate, toEpoch))
    ensures r != NoEffect <==> f.milestoneId.Some?
  {
    if f.milestoneId.None? then NoEffect
    else if MissingFieldsMessage(fs).Some? then Rejected
    else
      var priority := PriorityField(fs.priority);
      if priority.None? then Fail(ValueError)
      else
        var startDate := DateField(fs.startDate, toEpoch);
        var endDate := DateField(fs.endDate, toEpoch);
        var statusId := FirstStatusNamed(Statuses(data), fs.status);
        if statusId.None? then Fail(AssertionError)
        else Forward(CreateTaskFullCall(fs.name, fs.description, priority.value, statusId.value, f.milestoneId,
                                        startDate, endDate))
  }

  /**
   * With the seven-argument crud create_task and the corrected handler
   * that Intents.Perform runs, a form that passes validation against a
   * loaded projection that agrees with the store: with the form's
   * milestone loaded, the call ends
   * normally, with a taken name or with a bad date range; an exception
   * means the milestone is not loaded. A normal end stores the task with
   * the form's fields, milestone and dates, and lists it under its
   * milestone.
   */
  lemma SubmittedFormCreatesTask(f: FormState, fs: Fields, s: Store, d: Data, toEpoch: DateToEpoch, update: DateUpdate)
    requires Valid(s) && WellKeyed(d) && Mirrors(s, d)
    requires Submit(f, fs, Some(d), toEpoch).Forward?
    ensures var r := Perform(Submit(f, fs, Some(d), toEpoch).call, s, Some(d), update);
            && (f.milestoneId.value in d.milestones ==>
                  r.outcome in {Done, Caught(ExistingTaskNameError), Caught(DateError)})
            && (r.outcome.Raised? ==> f.milestoneId.value !in d.milestones)
            && (r.outcome == Caught(DateError) ==>
                  CrudTasks.BadDateRange(DateField(fs.startDate, toEpoch), DateField(fs.endDate, toEpoch)))
            && (r.outcome == Done ==>
                  && r.data.Some? && f.milestoneId.value in r.data.value.milestones
                  && exists id ::
                       && id !in s.tasks
                       && r.store.tasks == s.tasks[id := Task(id, fs.name, fs.description, PriorityField(fs.priority).value,
                                                              FirstStatusNamed(Statuses(Some(d)), fs.status).value, f.milestoneId,
                                                              DateField(fs.startDate, toEpoch), DateField(fs.endDate, toEpoch))]
                       && id in r.data.value.milestones[f.milestoneId.value].taskIds)
  {
    FoundStatusIsLoaded(d, fs.status);
    FullCreateEnds(Submit(f, fs, Some(d), toEpoch).call, s, d, update);
  }

  /** The seven-argument create_task call for a loaded status, in a milestone that is loaded, ends normally, with a taken name or with a bad date range. */
  lemma FullCreateEnds(c: Call, s: Store, d: Data, update: DateUpdate)
    requires Valid(s) && Mirrors(s, d) && c.CreateTaskFullCall? && c.statusId in d.statuses && c.milestoneId.Some?
    ensures var r := Perform(c, s, Some(d), update);
            && (c.milestoneId.value in d.milestones ==> r.outcome in {Done, Caught(ExistingTaskNameError), Caught(DateError)})
            && (r.outcome.Raised? ==> c.milestoneId.value !in d.milestones)
            && (r.outcome == Caught(DateError) ==> CrudTasks.BadDateRange(c.startDate, c.endDate))
            && (r.outcome == Done ==>
                  && r.data.Some? && c.milestoneId.value in r.data.value.milestones
                  && exists id ::
                       && id !in s.tasks
                       && r.store.tasks == s.tasks[id := Task(id, c.name, c.description, c.priority, c.statusId,
                                                              c.milestoneId, c.startDate, c.endDate)]
                       && id in r.data.value.milestones[c.milestoneId.value].taskIds)
  {
    assert c.statusId in s.statuses;
    var r := Perform(c, s, Some(d), update);
    var created := CrudTasks.CreateTaskWith(s, c.name, c.description, c.priority, c.statusId, c.milestoneId,
                                            c.startDate, c.endDate);
    var m := c.milestoneId.value;
    if m in d.milestones {
      assert m in s.milestones;
      if created.Failure? {
        assert created.error in {ExistingTaskNameError, DateError};
      }
    }
    if r.outcome == Done {
      var (s', t) := CrudTasks.CreateTaskWith(s, c.name, c.description, c.priority, c.statusId, c.milestoneId,
                                              c.startDate, c.endDate).value;
      assert r.store.tasks == s.tasks[t.id := t];
      assert t.id in r.data.value.milestones[c.milestoneId.value].taskIds;
    }
  }

  /**
   * Opening the form for a milestone makes a valid submission create the
   * task in that milestone; closing it (no milestone) makes every
   * submission do nothing.
   */
  lemma OpenedFormTargetsMilestone(f: FormState, fs: Fields, data: Option<Data>, toEpoch: DateToEpoch, milestoneId: Option<int>)
    ensures milestoneId.None? ==> Submit(SetWhichDialogOpen(f, milestoneId), fs, data, toEpoch) == NoEffect
    ensures Submit(SetWhichDialogOpen(f, milestoneId), fs, data, toEpoch).Forward? ==>
              Submit(SetWhichDialogOpen(f, milestoneId), fs, data, toEpoch).call.milestoneId == milestoneId
  {
  }

  /** A status found by name in a well-keyed projection is one of its statuses. */
  lemma FoundStatusIsLoaded(d: Data, name: string)
    requires WellKeyed(d)
    ensures FirstStatusNamed(Statuses(Some(d)), name).Some? ==> FirstStatusNamed(Statuses(Some(d)), name).value in d.statuses
  {
    var statuses := Statuses(Some(d));
    var found := FirstStatusNamed(statuses, name);
    if found.Some? {
      var i :| 0 <= i < |statuses| && statuses[i].name == name && statuses[i].id == found.value;
      var v := statuses[i];
      assert v in statuses;
      assert v in d.statuses.Values;
      var k :| k in d.statuses && d.statuses[k] == v;
      assert d.statuses[k].id == k;
    }
  }
}
