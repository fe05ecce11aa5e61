/** The reducer-based robot store (`robotsSlice`): the item list with its create, update,
    delete and clear reducers, and the `saving`/`error` flags the save thunk drives. A reducer
    that throws leaves the state as it was, since its draft is discarded. */
module RobotsSlice {
  import opened Wrappers
  import opened Text
  import opened Robots

  const NameInUse: string := "Name déjà utilisé"
  const RobotNotFound: string := "Robot introuvable"
  /** The error recorded for a rejected save whose error carries no message. */
  const DefaultAsyncError: string := "Erreur async"

  /** The message `assertValid` pushes for each rule. */
  function SliceMessage(rule: Rule, currentYear: int): string {
    match rule
    case NameTooShort => "Name min 2"
    case LabelTooShort => "Label min 3"
    case YearNotInteger => "Year entier"
    case YearOutOfRange => "Year entre 1950 et " + IntToString(currentYear)
    case TypeMissing => "Type requis"
  }

  /** The message of each rule in `rules`, in the same order. */
  function SliceMessages(rules: seq<Rule>, currentYear: int): (ms: seq<string>)
    ensures |ms| == |rules|
    ensures forall i :: 0 <= i < |rules| ==> ms[i] == SliceMessage(rules[i], currentYear)
  {
    if rules == [] then [] else [SliceMessage(rules[0], currentYear)] + SliceMessages(rules[1..], currentYear)
  }

  /** One check of the validator: the rule's message is added exactly when it is broken. */
  lemma {:induction false} SliceMessagesCheck(rules: seq<Rule>, input: RobotInput, currentYear: int, rule: Rule)
    ensures SliceMessages(rules + Check(input, currentYear, rule), currentYear)
      == SliceMessages(rules, currentYear)
         + (if Violates(input, currentYear, rule) then [SliceMessage(rule, currentYear)] else [])
  {
    if Violates(input, currentYear, rule) {
      assert rules + Check(input, currentYear, rule) == rules + [rule];
    } else {
      assert rules + Check(input, currentYear, rule) == rules;
    }
  }

  /** What `assertValid` throws: every broken rule's message, joined with `" | "`. */
  function ValidationMessage(input: RobotInput, currentYear: int): string {
    Join(SliceMessages(Broken(input, currentYear), currentYear), " | ")
  }

  /** `assertValid`: throws all violations at once, or passes when there are none. */
  method AssertValid(robot: Robot, currentYear: int) returns (err: Option<string>)
    ensures err.None? <==> InputValid(Fields(robot), currentYear)
    ensures err.Some? ==> err.value == ValidationMessage(Fields(robot), currentYear)
  {
    ghost var input := Fields(robot);
    var errors: seq<string> := [];
    ghost var rules: seq<Rule> := [];
    if |Trim(robot.name)| < 2 {
      errors := errors + [SliceMessage(NameTooShort, currentYear)];
    }
    SliceMessagesCheck(rules, input, currentYear, NameTooShort);
    rules := rules + Check(input, currentYear, NameTooShort);
    assert errors == SliceMessages(rules, currentYear);
    if |Trim(robot.caption)| < 3 {
      errors := errors + [SliceMessage(LabelTooShort, currentYear)];
    }
    SliceMessagesCheck(rules, input, currentYear, LabelTooShort);
    rules := rules + Check(input, currentYear, LabelTooShort);
    assert errors == SliceMessages(rules, currentYear);
    if robot.year < 1950 || robot.year > currentYear {
      errors := errors + [SliceMessage(YearOutOfRange, currentYear)];
    }
    SliceMessagesCheck(rules, input, currentYear, YearOutOfRange);
    rules := rules + Check(input, currentYear, YearOutOfRange);
    assert errors == SliceMessages(rules, currentYear);
    if robot.kind == "" {
      errors := errors + [SliceMessage(TypeMissing, currentYear)];
    }
    SliceMessagesCheck(rules, input, currentYear, TypeMissing);
    rules := rules + Check(input, currentYear, TypeMissing);
    assert errors == SliceMessages(rules, currentYear);
    BrokenStepwise(input, currentYear);
    assert rules == Broken(input, currentYear);
    BrokenExactly(input, currentYear);
    if |errors| > 0 {
      err := Some(Join(errors, " | "));
    } else {
      err := None;
    }
  }

  /** The robot `createRobot` stores: the payload itself when it carries an id, otherwise
      the payload under a generated id. */
  function Incoming(payload: Robot, freshId: string): (r: Robot)
    ensures Fields(r) == Fields(payload)
    ensures r.id == if payload.id != "" then payload.id else freshId
  {
    if payload.id != "" then payload else payload.(id := freshId)
  }

  class RobotsState {
    var items: seq<Robot>
    var saving: bool
    var error: Option<string>
    /** `CURRENT_YEAR`, evaluated once when the module loads. */
    const currentYear: int

    /** Unique normalised names and valid fields. Creating, deleting and clearing keep it;
        updating keeps it only while ids are unique as well, which `createRobot` does not
        ensure for a payload that brings its own id (see `SharedIdScenario`). */
    ghost predicate Valid()
      reads this
    {
      NamesUnique(items) && AllValid(items, currentYear)
    }

    /** `initialState`. */
    constructor (currentYear: int)
      ensures this.currentYear == currentYear
      ensures items == [] && !saving && error == None
      ensures Valid()
    {
      this.currentYear := currentYear;
      items := [];
      saving := false;
      error := None;
    }

    /** `createRobot`: keeps a provided id and generates one only for an empty id, validates,
        rejects a name already in use, and otherwise pushes exactly one item at the end. */
    method CreateRobot(payload: Robot, freshId: string) returns (res: Outcome<string>)
      requires FreshId(freshId, items)
      modifies this
      ensures !InputValid(Fields(payload), currentYear) ==>
        res == Fail(ValidationMessage(Fields(payload), currentYear))
      ensures InputValid(Fields(payload), currentYear) && NameTaken(old(items), NormalizeName(payload.name)) ==>
        res == Fail(NameInUse)
      ensures res.Pass? <==>
        InputValid(Fields(payload), currentYear) && !NameTaken(old(items), NormalizeName(payload.name))
      ensures res.Fail? ==> items == old(items)
      ensures res.Pass? ==> items == old(items) + [Incoming(payload, freshId)]
      ensures saving == old(saving) && error == old(error)
      ensures old(Valid()) ==> Valid()
      ensures old(IdsUnique(items)) && FreshId(Incoming(payload, freshId).id, old(items)) ==> IdsUnique(items)
    {
      var incoming := if payload.id != "" then payload else payload.(id := freshId);
      var err := AssertValid(incoming, currentYear);
      if err.Some? {
        return Fail(err.value);
      }
      var nameNorm := NormalizeName(incoming.name);
      var taken := exists i :: 0 <= i < |items| && NormalizeName(items[i].name) == nameNorm;
      if taken {
        return Fail(NameInUse);
      }
      if Valid() {
        AppendKeepsNamesUnique(items, incoming);
        AppendKeepsValid(items, incoming, currentYear);
      }
      if IdsUnique(items) && FreshId(incoming.id, items) {
        AppendKeepsIdsUnique(items, incoming);
      }
      items := items + [incoming];
      res := Pass;
    }

    /** `updateRobot`: validates, rejects an unknown id, rejects a name another id already
        uses, and otherwise replaces only `items[idx]` with `{ id, ...changes }`. */
    method UpdateRobot(id: string, changes: RobotInput) returns (res: Outcome<string>)
      modifies this
      ensures !InputValid(changes, currentYear) ==> res == Fail(ValidationMessage(changes, currentYear))
      ensures InputValid(changes, currentYear) && FindIndex(old(items), id) == -1 ==>
        res == Fail(RobotNotFound)
      ensures (InputValid(changes, currentYear) && FindIndex(old(items), id) != -1
               && NameTakenByOther(old(items), NormalizeName(changes.name), id)) ==> res == Fail(NameInUse)
      ensures res.Pass? <==>
        && InputValid(changes, currentYear)
        && FindIndex(old(items), id) != -1
        && !NameTakenByOther(old(items), NormalizeName(changes.name), id)
      ensures res.Fail? ==> items == old(items)
      ensures res.Pass? ==> items == old(items)[FindIndex(old(items), id) := WithId(id, changes)]
      ensures saving == old(saving) && error == old(error)
      ensures old(Valid()) && old(IdsUnique(items)) ==> Valid() && IdsUnique(items)
    {
      var err := AssertValid(WithId(id, changes), currentYear);
      if err.Some? {
        return Fail(err.value);
      }
      var idx := FindIndex(items, id);
      if idx == -1 {
        return Fail(RobotNotFound);
      }
      var norm := NormalizeName(changes.name);
      var collision := exists i :: 0 <= i < |items| && items[i].id != id && NormalizeName(items[i].name) == norm;
      if collision {
        return Fail(NameInUse);
      }
      if Valid() && IdsUnique(items) {
        ReplaceKeepsNamesUnique(items, idx, WithId(id, changes));
        assert IdsUnique(items[idx := WithId(id, changes)]);
      }
      items := items[idx := WithId(id, changes)];
      res := Pass;
    }

    /** `deleteRobot`: removes every item with the id, the others keep their order. */
    method DeleteRobot(id: string)
      modifies this
      ensures items == RemoveId(old(items), id)
      ensures saving == old(saving) && error == old(error)
      ensures old(Valid()) ==> Valid()
    {
      if Valid() {
        RemoveIdKeepsNamesUnique(items, id);
        RemoveIdKeepsValid(items, id, currentYear);
      }
      items := RemoveId(items, id);
    }

    /** `clearAll`: empties the items and touches nothing else. */
    method ClearAll()
      modifies this
      ensures items == [] && saving == old(saving) && error == old(error)
      ensures Valid()
    {
      items := [];
    }

    /** `saveRobotAsync.pending`: a save is in progress and the last error is cleared. */
    method SavePending()
      modifies this
      ensures saving && error == None && items == old(items)
    {
      saving := true;
      error := None;
    }

    /** `saveRobotAsync.fulfilled`: the save is over; the error is left as it is. */
    method SaveFulfilled()
      modifies this
      ensures !saving && error == old(error) && items == old(items)
    {
      saving := false;
    }

    /** `saveRobotAsync.rejected`: the save is over and the error is the thrown message, or
        `'Erreur async'` when that message is missing or empty. */
    method SaveRejected(message: string)
      modifies this
      ensures !saving && items == old(items)
      ensures error == Some(if message != "" then message else DefaultAsyncError)
    {
      saving := false;
      error := Some(if message != "" then message else DefaultAsyncError);
    }
  }

  /** Names and labels the scenario below uses are their own trim and lower-case form. */
  lemma ScenarioTrims()
    ensures Trim("xx") == "xx" && Trim("yy") == "yy" && Trim("abc") == "abc"
  {
    TrimUnspaced("xx");
    TrimUnspaced("yy");
    TrimUnspaced("abc");
  }

  lemma ScenarioLiterals()
    ensures NormalizeName("xx") == "xx" && NormalizeName("yy") == "yy"
  {
    ScenarioTrims();
    assert ToLower("xx") == "xx" && ToLower("yy") == "yy";
  }

  /** Both payloads of the scenario below pass `assertValid`. */
  lemma ScenarioInputsValid(currentYear: int)
    requires currentYear >= 2000
    ensures InputValid(RobotInput("xx", "abc", 2000, "service"), currentYear)
    ensures InputValid(RobotInput("yy", "abc", 2000, "service"), currentYear)
  {
    ScenarioTrims();
    InputValidFieldByField(RobotInput("xx", "abc", 2000, "service"), currentYear);
    InputValidFieldByField(RobotInput("yy", "abc", 2000, "service"), currentYear);
  }

  /** Two payloads that bring the same id, "a". */
  const SharedFirst: Robot := Robot("a", "xx", "abc", 2000, "service")
  const SharedSecond: Robot := Robot("a", "yy", "abc", 2000, "service")

  /** `createRobot` checks names only, so both payloads are pushed under id "a", and the
      items are valid. Renaming the first to the second's name then meets every condition
      under which `updateRobot` passes, since its collision test skips every item with that
      id, and the result has two items with the same normalised name. */
  lemma SharedIdScenario(currentYear: int)
    requires currentYear >= 2000
    ensures InputValid(Fields(SharedFirst), currentYear) && !NameTaken([], NormalizeName(SharedFirst.name))
    ensures InputValid(Fields(SharedSecond), currentYear)
      && !NameTaken([SharedFirst], NormalizeName(SharedSecond.name))
    ensures NamesUnique([SharedFirst, SharedSecond]) && AllValid([SharedFirst, SharedSecond], currentYear)
    ensures FindIndex([SharedFirst, SharedSecond], "a") == 0
      && !NameTakenByOther([SharedFirst, SharedSecond], NormalizeName(SharedSecond.name), "a")
    ensures !NamesUnique([SharedFirst, SharedSecond][0 := WithId("a", Fields(SharedSecond))])
  {
    ScenarioLiterals();
    ScenarioInputsValid(currentYear);
    var after := [SharedFirst, SharedSecond][0 := WithId("a", Fields(SharedSecond))];
    assert NormalizeName(after[0].name) == NormalizeName(after[1].name);
  }
}
