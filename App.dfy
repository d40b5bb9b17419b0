/**
 * The planner application's state and the operations that change it: the
 * in-memory plan (years of quarters of courses and two bookmark sets), the
 * user options with their write-through to browser storage, and the
 * "unsaved changes" flag with the persisted baseline it is computed from.
 *
 * Confirmation dialogs become an explicit `confirmed` argument, and the
 * outcome of every network call becomes an argument of the operation that
 * consumes it. The plan codec is not part of this model: the encoding and
 * the string loader are function-valued constants fixed at construction.
 */
module Planner {
  import opened Wrappers
  import opened Plan
  import opened Utility

  /** What the codec makes of a stored plan string. */
  datatype LoadResult = Malformed | Empty | Loaded(plan: PlanData)

  /** One plan saved in the user's account. */
  datatype AccountPlan = AccountPlan(name: string, content: string)

  /** What the start-up load resolved: the plan, the active account plan id, and the baseline string. */
  datatype LoadResponse = LoadResponse(data: LoadResult, activePlanId: OptionValue, originalDataString: string)

  /** The option that names the active account plan. */
  const ActivePlanKey: string := "active_plan_id"

  /** The id meaning "no account plan is active". */
  const NoPlan: OptionValue := Text("None")

  /** The values JavaScript treats as false: `undefined`, `false` and the empty string. */
  predicate IsFalsy(v: OptionValue)
    ensures v.Unset? ==> IsFalsy(v)
    ensures v.Flag? ==> (IsFalsy(v) <==> !v.b)
    ensures v.Text? ==> (IsFalsy(v) <==> !Truthy(Some(v.s)))
  {
    v == Unset || v == Flag(false) || v == Text("")
  }

  /**
   * An option set with `save` survives a reload: a boolean, or a non-empty
   * string that does not spell a boolean, reads back as itself. An unset or
   * empty value is removed from storage instead and reloads as its default,
   * or is absent (RemoveThenLoad).
   */
  lemma SavedSwitchReloads(store: Storage, key: string, v: OptionValue)
    requires v.Flag? || (v.Text? && v.s != "" && v.s != "true" && v.s != "false")
    ensures key in LoadedSwitches(SaveSwitchToStorage(store, key, Stringify(v)))
    ensures LoadedSwitches(SaveSwitchToStorage(store, key, Stringify(v)))[key] == v
  {
    StoredValueRoundTrip(v);
    SaveThenLoad(store, key, Stringify(v).value);
  }

  /** The account plan with this id, when the plans were fetched and hold one. */
  function Lookup(plans: Option<map<string, AccountPlan>>, planId: string): (p: Option<AccountPlan>)
    ensures p.Some? <==> plans.Some? && planId in plans.value
    ensures p.Some? ==> p.value == plans.value[planId]
  {
    if plans.Some? && planId in plans.value then Some(plans.value[planId]) else None
  }

  // ---------------------------------------------------------------------------
  // The address bar's query parameters
  // ---------------------------------------------------------------------------

  /** One name/value pair of a query string. */
  datatype Param = Param(name: string, value: string)

  /** `URLSearchParams.get`: the value of the first pair with this name. */
  function ParamGet(params: seq<Param>, name: string): (v: Option<string>)
    ensures v.None? <==> forall i :: 0 <= i < |params| ==> params[i].name != name
    ensures v.Some? ==> exists i :: 0 <= i < |params| && params[i] == Param(name, v.value)
                                   && forall j :: 0 <= j < i ==> params[j].name != name
  {
    if params == [] then None
    else if params[0].name == name then Some(params[0].value)
    else ParamGet(params[1..], name)
  }

  /** `URLSearchParams.delete`: every pair with this name removed, the rest in order. */
  function ParamDelete(params: seq<Param>, name: string): (r: seq<Param>)
    ensures forall p :: p in r <==> p in params && p.name != name
    ensures |params| == 1 ==> r == if params[0].name == name then [] else params
  {
    if params == [] then []
    else if params[0].name == name then ParamDelete(params[1..], name)
    else [params[0]] + ParamDelete(params[1..], name)
  }

  /** Deletion keeps every other pair exactly as often as it occurred. */
  lemma {:induction false} ParamDeleteCounts(params: seq<Param>, name: string)
    ensures forall p :: multiset(ParamDelete(params, name))[p] == if p.name == name then 0 else multiset(params)[p]
  {
    if params != [] {
      ParamDeleteCounts(params[1..], name);
      assert params == [params[0]] + params[1..];
    }
  }

  /** Deletion works pair by pair: deleting from a concatenation deletes from each part, in order. */
  lemma {:induction false} ParamDeleteAppend(a: seq<Param>, b: seq<Param>, name: string)
    ensures ParamDelete(a + b, name) == ParamDelete(a, name) + ParamDelete(b, name)
  {
    if a == [] {
      assert a + b == b;
    } else {
      assert (a + b)[1..] == a[1..] + b;
      ParamDeleteAppend(a[1..], b, name);
    }
  }

  /** Deleting one name leaves what every other name reads as it was. */
  lemma {:induction false} DeleteKeepsOthers(params: seq<Param>, name: string, other: string)
    requires other != name
    ensures ParamGet(ParamDelete(params, name), other) == ParamGet(params, other)
  {
    if params != [] {
      DeleteKeepsOthers(params[1..], name, other);
      if params[0].name != name {
        assert ([params[0]] + ParamDelete(params[1..], name))[1..] == ParamDelete(params[1..], name);
      }
    }
  }

  /** The names of the login-flow parameters. */
  predicate IsAuthParam(name: string) {
    name == "code" || name == "state" || name == "action"
  }

  /**
   * The query string written back to the address bar at start-up: the
   * login-flow parameters `code`, `state` and `action` are gone, every other
   * pair is kept as often as it occurred, and every other name reads exactly
   * as before. StripAuthParamsAppend and StripAuthParamsCounts add that the
   * kept pairs keep their order and their number of occurrences.
   */
  function StripAuthParams(params: seq<Param>): (r: seq<Param>)
    ensures forall p :: p in r <==> p in params && !IsAuthParam(p.name)
    ensures ParamGet(r, "code").None? && ParamGet(r, "state").None? && ParamGet(r, "action").None?
    ensures forall n :: !IsAuthParam(n) ==> ParamGet(r, n) == ParamGet(params, n)
  {
    var withoutCode := ParamDelete(params, "code");
    var withoutState := ParamDelete(withoutCode, "state");
    var r := ParamDelete(withoutState, "action");
    forall n | !IsAuthParam(n) ensures ParamGet(r, n) == ParamGet(params, n) {
      DeleteKeepsOthers(params, "code", n);
      DeleteKeepsOthers(withoutCode, "state", n);
      DeleteKeepsOthers(withoutState, "action", n);
    }
    r
  }

  /**
   * Stripping works pair by pair: a single pair is dropped exactly when it is
   * a login-flow parameter, and the pairs of a concatenation are stripped
   * part by part, so the kept pairs stay in their original order.
   */
  lemma StripAuthParamsAppend(a: seq<Param>, b: seq<Param>)
    ensures StripAuthParams(a + b) == StripAuthParams(a) + StripAuthParams(b)
    ensures |a| == 1 ==> StripAuthParams(a) == if IsAuthParam(a[0].name) then [] else a
  {
    ParamDeleteAppend(a, b, "code");
    ParamDeleteAppend(ParamDelete(a, "code"), ParamDelete(b, "code"), "state");
    ParamDeleteAppend(ParamDelete(ParamDelete(a, "code"), "state"), ParamDelete(ParamDelete(b, "code"), "state"), "action");
  }

  /** Stripping keeps every other pair exactly as often as it occurred. */
  lemma StripAuthParamsCounts(params: seq<Param>)
    ensures forall p :: multiset(StripAuthParams(params))[p] == if IsAuthParam(p.name) then 0 else multiset(params)[p]
  {
    var withoutCode := ParamDelete(params, "code");
    var withoutState := ParamDelete(withoutCode, "state");
    ParamDeleteCounts(params, "code");
    ParamDeleteCounts(withoutCode, "state");
    ParamDeleteCounts(withoutState, "action");
  }

  /**
   * Whether the address carries the answer of a login: a non-empty `code` and
   * a non-empty `state`. It reads the address before stripping; afterwards no
   * login would be seen.
   */
  predicate LoginReturned(params: seq<Param>)
    ensures LoginReturned(params) ==>
      (exists i :: 0 <= i < |params| && params[i].name == "code" && params[i].value != "")
      && (exists i :: 0 <= i < |params| && params[i].name == "state" && params[i].value != "")
  {
    Truthy(ParamGet(params, "code")) && Truthy(ParamGet(params, "state"))
  }

  /** The address written back carries no login any more. */
  lemma StrippedAddressHasNoLogin(params: seq<Param>)
    ensures !LoginReturned(StripAuthParams(params))
  {
  }

  /** JavaScript truthiness of a query value: present and non-empty. */
  predicate Truthy(v: Option<string>) {
    v.Some? && v.value != ""
  }

  // ---------------------------------------------------------------------------
  // The application
  // ---------------------------------------------------------------------------

  class App {
    /** The schedule: years of quarters of courses. */
    var courses: Schedule
    /** The two bookmark sets. */
    var forCredit: set<Course>
    var noCredit: set<Course>
    /** The user options. */
    var switches: Switches
    /** The browser's key/value storage. */
    var storage: Storage
    /** Whether the plan differs from the last persisted account copy. */
    var unsavedChanges: bool
    /** The encoding of the plan as last persisted in, or loaded from, the account. */
    var originalDataString: string
    /** Whether the start-up load is still outstanding. */
    var loadingLogin: bool

    /** The plan's persisted encoding. */
    const encode: PlanData -> string
    /** The codec's reading of a stored plan string. */
    const loadFromString: string -> LoadResult

    function Data(): PlanData
      reads this
    {
      PlanData(courses, forCredit, noCredit)
    }

    /**
     * What a save reports: the plan's encoding differs from the baseline.
     * This is the whole specification of `CourseManager.save`'s result.
     */
    predicate Dirty()
      reads this
    {
      encode(Data()) != originalDataString
    }

    /** The current value of an option; a missing one reads as `undefined`. */
    function Switch(key: string): OptionValue
      reads this
    {
      if key in switches then switches[key] else Unset
    }

    /**
     * A fresh application: four years of two empty quarters, no bookmarks,
     * the options loaded from storage with the open tab set to the search,
     * nothing unsaved and an empty baseline.
     */
    constructor (store: Storage, encode: PlanData -> string, loadFromString: string -> LoadResult)
      ensures courses == EmptySchedule(4, 2) && forCredit == {} && noCredit == {}
      ensures switches == LoadedSwitches(store)["tab" := Text("Search")]
      ensures storage == store
      ensures !unsavedChanges && originalDataString == "" && !loadingLogin
      ensures this.encode == encode && this.loadFromString == loadFromString
    {
      var defaultSwitches := LoadSwitchesFromStorage(store);
      switches := defaultSwitches["tab" := Text("Search")];
      courses := EmptySchedule(4, 2);
      forCredit, noCredit := {}, {};
      storage := store;
      unsavedChanges, originalDataString, loadingLogin := false, "", false;
      this.encode, this.loadFromString := encode, loadFromString;
    }

    /**
     * Sets an option, and writes it through to storage when `save` is set.
     * Setting the active plan id to "None" when it was something else clears
     * the unsaved-changes flag; no other option or value touches the flag.
     */
    method SetSwitch(key: string, val: OptionValue, save: bool)
      modifies this`switches, this`storage, this`unsavedChanges
      ensures switches == old(switches)[key := val]
      ensures key == ActivePlanKey && val == NoPlan && old(Switch(key)) != val ==> !unsavedChanges
      ensures !(key == ActivePlanKey && val == NoPlan && old(Switch(key)) != val) ==>
        unsavedChanges == old(unsavedChanges)
      ensures storage == if save then SaveSwitchToStorage(old(storage), key, Stringify(val)) else old(storage)
    {
      if key == ActivePlanKey && val == NoPlan && Switch(key) != val {
        unsavedChanges := false;
      }
      switches := switches[key := val];
      if save {
        storage := SaveSwitchToStorage(storage, key, Stringify(val));
      }
    }

    /**
     * Adds a course to a quarter, subject to the confirmation policy: with no
     * prompt, or once the prompt shown is confirmed, the quarter gains the
     * course and is re-sorted and the unsaved flag is recomputed; otherwise
     * nothing changes. A confirmed duplicate warning goes straight to the
     * insertion, whatever the credits.
     */
    method AddCourse(course: Course, loc: Location, confirmed: bool) returns (prompt: Prompt, applied: bool)
      requires InSchedule(courses, loc.year, loc.quarter)
      modifies this`courses, this`unsavedChanges
      ensures prompt == CoursePrompt(old(courses), course, loc, false)
      ensures applied <==> prompt == NoPrompt || confirmed
      ensures applied ==> courses == AddToQuarter(old(courses), course, loc.year, loc.quarter)
      ensures applied ==> (InSchedule(courses, loc.year, loc.quarter)
        && multiset(courses[loc.year][loc.quarter]) == multiset(old(courses)[loc.year][loc.quarter]) + multiset{course}
        && Ordered(courses[loc.year][loc.quarter])
        && SameElsewhere(old(courses), courses, loc.year, loc.quarter))
      ensures applied ==> unsavedChanges == Dirty()
      ensures !applied ==> courses == old(courses) && unsavedChanges == old(unsavedChanges)
    {
      prompt := CoursePrompt(courses, course, loc, false);
      applied := prompt == NoPrompt || confirmed;
      if applied {
        courses := AddToQuarter(courses, course, loc.year, loc.quarter);
        unsavedChanges := Dirty();
      }
    }

    /**
     * Removes a course. At a bookmark location (negative year) it removes the
     * course from the bookmark set that `quarter == 1` selects and leaves the
     * schedule alone; otherwise it splices the course's first occurrence out
     * of the quarter (the last course, if it is absent). The unsaved flag is
     * recomputed either way.
     */
    method RemoveCourse(course: Course, loc: Location)
      requires loc.year < 0 || InSchedule(courses, loc.year, loc.quarter)
      modifies this`courses, this`forCredit, this`noCredit, this`unsavedChanges
      ensures loc.year < 0 ==> courses == old(courses)
      ensures loc.year < 0 && loc.quarter == 1 ==> forCredit == old(forCredit) - {course} && noCredit == old(noCredit)
      ensures loc.year < 0 && loc.quarter != 1 ==> noCredit == old(noCredit) - {course} && forCredit == old(forCredit)
      ensures loc.year >= 0 ==> (courses == RemoveFromQuarter(old(courses), course, loc.year, loc.quarter)
        && forCredit == old(forCredit) && noCredit == old(noCredit))
      ensures unsavedChanges == Dirty()
    {
      if loc.year < 0 {
        RemoveBookmark(course, loc.quarter == 1);
        return;
      }
      courses := RemoveFromQuarter(courses, course, loc.year, loc.quarter);
      unsavedChanges := Dirty();
    }

    /**
     * Moves a course. Between equal locations it does nothing. Otherwise the
     * duplicate check is waived, so only the credit warning can stop it; when
     * it goes ahead the course leaves its old quarter (if that is a schedule
     * location; bookmarks are never touched) and joins the new one, which is
     * re-sorted, and the unsaved flag is recomputed.
     */
    method MoveCourse(course: Course, from: Location, to: Location, confirmed: bool) returns (prompt: Prompt, applied: bool)
      requires from == to || (InSchedule(courses, to.year, to.quarter)
                              && (from.year < 0 || InSchedule(courses, from.year, from.quarter)))
      modifies this`courses, this`unsavedChanges
      ensures from == to ==> prompt == NoPrompt && !applied
      ensures from != to ==> prompt == CoursePrompt(old(courses), course, to, true) && !prompt.DuplicateWarning?
      ensures applied <==> from != to && (prompt == NoPrompt || confirmed)
      ensures applied ==> courses == MoveSchedule(old(courses), course, from, to) && unsavedChanges == Dirty()
      ensures applied ==> (InSchedule(courses, to.year, to.quarter) && course in courses[to.year][to.quarter]
        && Ordered(courses[to.year][to.quarter]))
      ensures applied && from.year >= 0 && course in old(courses)[from.year][from.quarter] ==>
        ScheduleBag(courses) == ScheduleBag(old(courses))
      ensures applied && from.year >= 0 && old(courses)[from.year][from.quarter] != [] ==>
        |ScheduleBag(courses)| == |ScheduleBag(old(courses))|
      ensures applied && from.year < 0 ==> ScheduleBag(courses) == ScheduleBag(old(courses)) + multiset{course}
      ensures !applied ==> courses == old(courses) && unsavedChanges == old(unsavedChanges)
    {
      if from.year == to.year && from.quarter == to.quarter {
        return NoPrompt, false;
      }
      prompt := CoursePrompt(courses, course, to, true);
      applied := prompt == NoPrompt || confirmed;
      if applied {
        ghost var before := courses;
        if from.year >= 0 {
          courses := RemoveFromQuarter(courses, course, from.year, from.quarter);
        }
        courses := AddToQuarter(courses, course, to.year, to.quarter);
        unsavedChanges := Dirty();
        assert courses == MoveSchedule(before, course, from, to);
        if from.year >= 0 && course in before[from.year][from.quarter] {
          MovePreservesCourses(before, course, from, to);
        }
        if from.year >= 0 && before[from.year][from.quarter] != [] {
          MovePreservesCount(before, course, from, to);
        }
        if from.year < 0 {
          MoveFromBookmarksAddsCourse(before, course, from, to);
        }
      }
    }

    /**
     * Bookmarks a course in the set `credit` selects; the other set and the
     * schedule stay as they were, and bookmarking a course twice is the same
     * as bookmarking it once.
     */
    method AddBookmark(course: Course, credit: bool)
      modifies this`forCredit, this`noCredit, this`unsavedChanges
      ensures credit ==> forCredit == old(forCredit) + {course} && noCredit == old(noCredit)
      ensures !credit ==> noCredit == old(noCredit) + {course} && forCredit == old(forCredit)
      ensures course in (if credit then forCredit else noCredit)
      ensures course in (if credit then old(forCredit) else old(noCredit)) ==>
        forCredit == old(forCredit) && noCredit == old(noCredit)
      ensures unsavedChanges == Dirty()
    {
      if credit {
        forCredit := forCredit + {course};
      } else {
        noCredit := noCredit + {course};
      }
      unsavedChanges := Dirty();
    }

    /**
     * Removes a course from the bookmark set `credit` selects, leaving the
     * other set and the schedule as they were; removing an absent course
     * changes no set.
     */
    method RemoveBookmark(course: Course, credit: bool)
      modifies this`forCredit, this`noCredit, this`unsavedChanges
      ensures credit ==> forCredit == old(forCredit) - {course} && noCredit == old(noCredit)
      ensures !credit ==> noCredit == old(noCredit) - {course} && forCredit == old(forCredit)
      ensures course !in (if credit then forCredit else noCredit)
      ensures course !in (if credit then old(forCredit) else old(noCredit)) ==>
        forCredit == old(forCredit) && noCredit == old(noCredit)
      ensures unsavedChanges == Dirty()
    {
      if credit {
        forCredit := forCredit - {course};
      } else {
        noCredit := noCredit - {course};
      }
      unsavedChanges := Dirty();
    }

    /** Once confirmed, gives one year another empty quarter; other years stay, and the unsaved flag is not recomputed. */
    method AddSummerQuarter(year: int, confirmed: bool)
      requires 0 <= year < |courses|
      modifies this`courses
      ensures confirmed ==> courses == old(courses)[year := old(courses)[year] + [[]]]
      ensures !confirmed ==> courses == old(courses)
    {
      if confirmed {
        courses := courses[year := courses[year] + [[]]];
      }
    }

    /** Appends one year of three empty quarters; the unsaved flag is not recomputed. */
    method AddYear()
      modifies this`courses
      ensures courses == old(courses) + [EmptyYear(3)]
    {
      courses := courses + [EmptyYear(3)];
    }

    /**
     * Without a year: replaces the plan by four years of three empty quarters
     * and no bookmarks. With a year, once confirmed: resets that year to two
     * empty quarters, keeping every other year and the bookmarks. The unsaved
     * flag is recomputed whenever the plan changed.
     */
    method ClearData(year: Option<int>, confirmed: bool)
      requires year.Some? ==> 0 <= year.value < |courses|
      modifies this`courses, this`forCredit, this`noCredit, this`unsavedChanges
      ensures year.None? ==> courses == EmptySchedule(4, 3) && forCredit == {} && noCredit == {}
      ensures year.Some? && confirmed ==> (courses == old(courses)[year.value := EmptyYear(2)]
        && forCredit == old(forCredit) && noCredit == old(noCredit))
      ensures year.None? || confirmed ==> unsavedChanges == Dirty()
      ensures year.Some? && !confirmed ==> Data() == old(Data()) && unsavedChanges == old(unsavedChanges)
    {
      if year.None? {
        courses := EmptySchedule(4, 3);
        forCredit, noCredit := {}, {};
        unsavedChanges := Dirty();
      } else if confirmed {
        courses := courses[year.value := EmptyYear(2)];
        unsavedChanges := Dirty();
      }
    }

    /**
     * Guards an action that would drop unsaved work. With neither an
     * overwrite warning nor unsaved changes the action proceeds at once;
     * otherwise it proceeds only when confirmed, and the confirmation clears
     * the unsaved flag. When the action proceeds the flag is always clear.
     */
    method DiscardChanges(confirmNonAccountOverwrite: bool, confirmed: bool) returns (proceed: bool)
      modifies this`unsavedChanges
      ensures proceed <==> (!confirmNonAccountOverwrite && !old(unsavedChanges)) || confirmed
      ensures (confirmNonAccountOverwrite || old(unsavedChanges)) && confirmed ==> !unsavedChanges
      ensures !((confirmNonAccountOverwrite || old(unsavedChanges)) && confirmed) ==>
        unsavedChanges == old(unsavedChanges)
      ensures proceed ==> !unsavedChanges
    {
      if confirmNonAccountOverwrite || unsavedChanges {
        if confirmed {
          unsavedChanges := false;
          return true;
        }
        return false;
      }
      return true;
    }

    /** Deactivates the account plan, guarded by DiscardChanges. */
    method DeactivatePlan(confirmed: bool) returns (proceed: bool)
      modifies this`switches, this`storage, this`unsavedChanges
      ensures proceed <==> !old(unsavedChanges) || confirmed
      ensures proceed ==> (switches == old(switches)[ActivePlanKey := NoPlan] && !unsavedChanges
        && storage == SaveSwitchToStorage(old(storage), ActivePlanKey, Some("None")))
      ensures !proceed ==> (switches == old(switches) && storage == old(storage)
        && unsavedChanges == old(unsavedChanges))
    {
      proceed := DiscardChanges(false, confirmed);
      if proceed {
        SetSwitch(ActivePlanKey, NoPlan, true);
      }
    }

    /**
     * Activates account plan `planId` given the fetched plans (none when the
     * fetch failed) and whether the address carries a query string. A
     * missing plan or a malformed one changes nothing. An empty one becomes
     * the active id and the baseline, with unsaved changes exactly when the
     * address has a query. A non-empty one replaces the plan, guarded by
     * DiscardChanges (which also warns when no account plan was active and the
     * address carries a plan), and leaves nothing unsaved.
     */
    method ActivateAccountPlan(planId: string, plans: Option<map<string, AccountPlan>>, hasQuery: bool, confirmed: bool)
      returns (activated: bool)
      modifies this`courses, this`forCredit, this`noCredit, this`switches, this`storage
      modifies this`unsavedChanges, this`originalDataString
      ensures var plan := Lookup(plans, planId);
        activated <==> plan.Some? && match loadFromString(plan.value.content)
          case Malformed => false
          case Empty => true
          case Loaded(_) => (!(old(Switch(ActivePlanKey)) == NoPlan && hasQuery) && !old(unsavedChanges)) || confirmed
      ensures activated ==> var content := Lookup(plans, planId).value.content;
        && originalDataString == content
        && switches == old(switches)[ActivePlanKey := Text(planId)]
        && storage == SaveSwitchToStorage(old(storage), ActivePlanKey, Some(planId))
        && (loadFromString(content) == Empty ==> Data() == old(Data()) && unsavedChanges == hasQuery)
        && (loadFromString(content).Loaded? ==> Data() == loadFromString(content).plan && !unsavedChanges)
      ensures !activated ==> (Data() == old(Data()) && switches == old(switches) && storage == old(storage)
        && originalDataString == old(originalDataString) && unsavedChanges == old(unsavedChanges))
    {
      var plan := Lookup(plans, planId);
      if plan.None? {
        return false;
      }
      var content := plan.value.content;
      var data := loadFromString(content);
      if data == Malformed {
        return false;
      }
      if data == Empty {
        SetSwitch(ActivePlanKey, Text(planId), true);
        originalDataString := content;
        unsavedChanges := hasQuery;
        return true;
      }
      var confirmNonAccountOverwrite := Switch(ActivePlanKey) == NoPlan && hasQuery;
      activated := DiscardChanges(confirmNonAccountOverwrite, confirmed);
      if activated {
        SetSwitch(ActivePlanKey, Text(planId), true);
        courses, forCredit, noCredit := data.plan.courses, data.plan.forCredit, data.plan.noCredit;
        originalDataString := content;
      }
    }

    /**
     * Starts saving the plan to the active account plan. With no active plan
     * (a false value or "None") nothing happens and no save is pending.
     * Otherwise the plan's encoding is snapshotted and the unsaved flag is
     * cleared at once, before the outcome is known.
     */
    method UpdatePlan() returns (snapshot: Option<string>)
      modifies this`unsavedChanges
      ensures IsFalsy(old(Switch(ActivePlanKey))) || old(Switch(ActivePlanKey)) == NoPlan ==>
        snapshot.None? && unsavedChanges == old(unsavedChanges)
      ensures !(IsFalsy(old(Switch(ActivePlanKey))) || old(Switch(ActivePlanKey)) == NoPlan) ==>
        snapshot == Some(encode(Data())) && !unsavedChanges
    {
      var activePlanId := Switch(ActivePlanKey);
      if IsFalsy(activePlanId) || activePlanId == NoPlan {
        return None;
      }
      var dataStr := encode(Data());
      unsavedChanges := false;
      return Some(dataStr);
    }

    /**
     * The outcome of a save started by UpdatePlan with `snapshot`. Success
     * makes the snapshot the baseline (edits made since stay flagged as they
     * were); failure restores the unsaved flag.
     */
    method UpdatePlanSettled(snapshot: string, success: bool)
      modifies this`originalDataString, this`unsavedChanges
      ensures success ==> originalDataString == snapshot && unsavedChanges == old(unsavedChanges)
      ensures !success ==> unsavedChanges && originalDataString == old(originalDataString)
      ensures success && snapshot == encode(Data()) ==> !Dirty()
    {
      if success {
        originalDataString := snapshot;
      } else {
        unsavedChanges := true;
      }
    }

    /**
     * Applies the start-up load (none when it failed). A failure or a
     * malformed plan changes nothing. Otherwise the active plan id is set and
     * saved and the baseline taken from the load; a loaded plan replaces the
     * current one, an empty load keeps it. Loading is over in every case.
     */
    method InitializePlan(response: Option<LoadResponse>)
      modifies this`courses, this`forCredit, this`noCredit, this`switches, this`storage
      modifies this`unsavedChanges, this`originalDataString, this`loadingLogin
      ensures !loadingLogin
      ensures response.None? || response.value.data == Malformed ==>
        Data() == old(Data()) && switches == old(switches) && storage == old(storage)
        && unsavedChanges == old(unsavedChanges) && originalDataString == old(originalDataString)
      ensures response.Some? && response.value.data != Malformed ==> var r := response.value;
        && switches == old(switches)[ActivePlanKey := r.activePlanId]
        && storage == SaveSwitchToStorage(old(storage), ActivePlanKey, Stringify(r.activePlanId))
        && originalDataString == r.originalDataString
        && (r.activePlanId == NoPlan && old(Switch(ActivePlanKey)) != NoPlan ==> !unsavedChanges)
        && (!(r.activePlanId == NoPlan && old(Switch(ActivePlanKey)) != NoPlan) ==> unsavedChanges == old(unsavedChanges))
        && Data() == if r.data.Loaded? then r.data.plan else old(Data())
    {
      if response.Some? {
        var r := response.value;
        if r.data != Malformed {
          SetSwitch(ActivePlanKey, r.activePlanId, true);
          originalDataString := r.originalDataString;
          if r.data.Loaded? {
            courses, forCredit, noCredit := r.data.plan.courses, r.data.plan.forCredit, r.data.plan.noCredit;
          }
        }
      }
      loadingLogin := false;
    }

    /**
     * The answer of the login started from a returned code and state: on
     * success the account tab opens and any account plan is deactivated, with
     * the id saved to storage; on failure (an error alert) nothing changes.
     */
    method LogInSettled(success: bool)
      modifies this`switches, this`storage, this`unsavedChanges
      ensures success ==> switches == old(switches)["tab" := Text("Plans")][ActivePlanKey := NoPlan]
      ensures success ==> storage == SaveSwitchToStorage(old(storage), ActivePlanKey, Stringify(NoPlan))
      ensures success ==> unsavedChanges == (old(unsavedChanges) && old(Switch(ActivePlanKey)) == NoPlan)
      ensures !success ==> switches == old(switches) && storage == old(storage) && unsavedChanges == old(unsavedChanges)
    {
      if success {
        assert |"tab"| != |ActivePlanKey|;
        SetSwitch("tab", Text("Plans"), false);
        SetSwitch(ActivePlanKey, NoPlan, true);
      }
    }

    /**
     * Start-up: strips the login-flow parameters from the address, then, when
     * the query carried both a login code and a state, applies the login's
     * answer; finally applies the start-up load. Returns the rewritten query.
     */
    method ComponentDidMount(params: seq<Param>, loginSucceeded: bool, response: Option<LoadResponse>)
      returns (address: seq<Param>)
      modifies this`courses, this`forCredit, this`noCredit, this`switches, this`storage
      modifies this`unsavedChanges, this`originalDataString, this`loadingLogin
      ensures address == StripAuthParams(params)
      ensures !loadingLogin
      ensures LoginReturned(params) && loginSucceeded ==>
        Switch("tab") == Text("Plans")
      ensures !(LoginReturned(params) && loginSucceeded) ==>
        Switch("tab") == old(Switch("tab"))
      ensures response.Some? && response.value.data.Loaded? ==> Data() == response.value.data.plan
      ensures response.None? || !response.value.data.Loaded? ==> Data() == old(Data())
    {
      loadingLogin := true;
      address := StripAuthParams(params);
      if LoginReturned(params) {
        LogInSettled(loginSucceeded);
      }
      ghost var tab := Switch("tab");
      assert |"tab"| != |ActivePlanKey|;
      InitializePlan(response);
      assert Switch("tab") == tab;
    }
  }
}
