/** The in-memory robot store (`useRobotsStore`): a sequence of robots and a selected id,
    changed only through its actions, each of which validates before it writes. */
module RobotStore {
  import opened Wrappers
  import opened Text
  import opened Robots

  /** Thrown when the normalised name is already in use. */
  const NameInUse: string := "Name déjà utilisé"

  /** Thrown by `update` for an id no robot holds. */
  const RobotNotFound: string := "Robot introuvable"

  /** The separator `validateInput` joins its messages with. */
  const Separator: string := " | "

  /** The message `validateInput` pushes for each rule. */
  function StoreMessage(rule: Rule, currentYear: int): string {
    match rule
    case NameTooShort => "Name: min 2 caractères"
    case LabelTooShort => "Label: min 3 caractères"
    case YearNotInteger => "Year: entier requis"
    case YearOutOfRange => "Year: entre 1950 et " + IntToString(currentYear)
    case TypeMissing => "Type requis"
  }

  /** The error message of an input that breaks at least one rule: the message of every
      broken rule, in the order of the checks, joined with `" | "`. */
  function ValidationMessage(input: RobotInput, currentYear: int): string {
    Join(StoreMessages(Broken(input, currentYear), currentYear), Separator)
  }

  /** The message of each rule in `rules`, in the same order. */
  function StoreMessages(rules: seq<Rule>, currentYear: int): (ms: seq<string>)
    ensures |ms| == |rules|
    ensures forall i :: 0 <= i < |rules| ==> ms[i] == StoreMessage(rules[i], currentYear)
  {
    if rules == [] then [] else [StoreMessage(rules[0], currentYear)] + StoreMessages(rules[1..], currentYear)
  }

  /** One check of the validator: the rule's message is added exactly when it is broken. */
  lemma {:induction false} StoreMessagesCheck(rules: seq<Rule>, input: RobotInput, currentYear: int, rule: Rule)
    ensures StoreMessages(rules + Check(input, currentYear, rule), currentYear)
      == StoreMessages(rules, currentYear)
         + (if Violates(input, currentYear, rule) then [StoreMessage(rule, currentYear)] else [])
  {
    if Violates(input, currentYear, rule) {
      assert rules + Check(input, currentYear, rule) == rules + [rule];
    } else {
      assert rules + Check(input, currentYear, rule) == rules;
    }
  }

  /** `validateInput`: collects the message of every broken rule and fails with all of them
      at once, or passes when no rule is broken. */
  method ValidateInput(input: RobotInput, currentYear: int) returns (err: Option<string>)
    ensures err.None? <==> InputValid(input, currentYear)
    ensures err.Some? ==> err.value == ValidationMessage(input, currentYear)
  {
    var errors: seq<string> := [];
    ghost var rules: seq<Rule> := [];
    if |Trim(input.name)| < 2 {
      errors := errors + [StoreMessage(NameTooShort, currentYear)];
    }
    StoreMessagesCheck(rules, input, currentYear, NameTooShort);
    rules := rules + Check(input, currentYear, NameTooShort);
    assert errors == StoreMessages(rules, currentYear);
    if |Trim(input.caption)| < 3 {
      errors := errors + [StoreMessage(LabelTooShort, currentYear)];
    }
    StoreMessagesCheck(rules, input, currentYear, LabelTooShort);
    rules := rules + Check(input, currentYear, LabelTooShort);
    assert errors == StoreMessages(rules, currentYear);
    if input.year < MinYear || input.year > currentYear {
      errors := errors + [StoreMessage(YearOutOfRange, currentYear)];
    }
    StoreMessagesCheck(rules, input, currentYear, YearOutOfRange);
    rules := rules + Check(input, currentYear, YearOutOfRange);
    assert errors == StoreMessages(rules, currentYear);
    if input.kind == "" {
      errors := errors + [StoreMessage(TypeMissing, currentYear)];
    }
    StoreMessagesCheck(rules, input, currentYear, TypeMissing);
    rules := rules + Check(input, currentYear, TypeMissing);
    assert errors == StoreMessages(rules, currentYear);
    BrokenStepwise(input, currentYear);
    assert rules == Broken(input, currentYear);
    BrokenExactly(input, currentYear);
    if |errors| > 0 {
      err := Some(Join(errors, Separator));
    } else {
      err := None;
    }
  }

  class Store {
    /** The robots, in creation order. */
    var robots: seq<Robot>
    /** The robot the UI has selected, if any. */
    var selectedId: Option<string>
    /** `CURRENT_YEAR`, evaluated once when the module loads. */
    const currentYear: int

    /** What the actions keep: unique normalised names, unique ids, valid fields. */
    ghost predicate Valid()
      reads this
    {
      NamesUnique(robots) && IdsUnique(robots) && AllValid(robots, currentYear)
    }

    /** The initial state: no robots, nothing selected. */
    constructor (currentYear: int)
      ensures this.currentYear == currentYear
      ensures robots == [] && selectedId == None
      ensures Valid()
    {
      this.currentYear := currentYear;
      robots := [];
      selectedId := None;
    }

    /** `create`: validates, rejects a name already in use (after trimming and lower-casing),
        and otherwise appends the input, as given, under a fresh id. */
    method Create(input: RobotInput, freshId: string) returns (res: Result<Robot, string>)
      requires FreshId(freshId, robots)
      modifies this
      ensures !InputValid(input, currentYear) ==> res == Failure(ValidationMessage(input, currentYear))
      ensures InputValid(input, currentYear) && NameTaken(old(robots), NormalizeName(input.name)) ==>
        res == Failure(NameInUse)
      ensures res.Success? <==>
        InputValid(input, currentYear) && !NameTaken(old(robots), NormalizeName(input.name))
      ensures res.Failure? ==> robots == old(robots)
      ensures res.Success? ==> res.value == WithId(freshId, input) && robots == old(robots) + [res.value]
      ensures selectedId == old(selectedId)
      ensures old(Valid()) ==> Valid()
    {
      var err := ValidateInput(input, currentYear);
      if err.Some? {
        return Failure(err.value);
      }
      var norm := NormalizeName(input.name);
      var taken := exists i :: 0 <= i < |robots| && NormalizeName(robots[i].name) == norm;
      if taken {
        return Failure(NameInUse);
      }
      var robot := WithId(freshId, input);
      if Valid() {
        AppendKeepsNamesUnique(robots, robot);
        AppendKeepsIdsUnique(robots, robot);
        AppendKeepsValid(robots, robot, currentYear);
      }
      robots := robots + [robot];
      res := Success(robot);
    }

    /** `update`: validates, fails for an unknown id, rejects a name that another robot
        already uses, and otherwise replaces the robot in place, keeping its position. */
    method Update(id: string, input: RobotInput) returns (res: Result<Robot, string>)
      modifies this
      ensures !InputValid(input, currentYear) ==> res == Failure(ValidationMessage(input, currentYear))
      ensures InputValid(input, currentYear) && FindIndex(old(robots), id) == -1 ==>
        res == Failure(RobotNotFound)
      ensures (InputValid(input, currentYear) && FindIndex(old(robots), id) != -1
               && NameTakenByOther(old(robots), NormalizeName(input.name), id)) ==> res == Failure(NameInUse)
      ensures res.Success? <==>
        && InputValid(input, currentYear)
        && FindIndex(old(robots), id) != -1
        && !NameTakenByOther(old(robots), NormalizeName(input.name), id)
      ensures res.Failure? ==> robots == old(robots)
      ensures res.Success? ==>
        res.value == WithId(id, input) && robots == old(robots)[FindIndex(old(robots), id) := res.value]
      ensures selectedId == old(selectedId)
      ensures old(Valid()) ==> Valid()
    {
      var err := ValidateInput(input, currentYear);
      if err.Some? {
        return Failure(err.value);
      }
      var norm := NormalizeName(input.name);
      var idx := FindIndex(robots, id);
      if idx == -1 {
        return Failure(RobotNotFound);
      }
      var duplicate := exists i :: 0 <= i < |robots| && robots[i].id != id && NormalizeName(robots[i].name) == norm;
      if duplicate {
        return Failure(NameInUse);
      }
      var updated := WithId(id, input);
      var next := robots;
      next := next[idx := updated];
      if Valid() {
        ReplaceKeepsNamesUnique(robots, idx, updated);
      }
      robots := next;
      res := Success(updated);
    }

    /** `remove`: drops every robot with that id and clears the selection if it was that id. */
    method Remove(id: string)
      modifies this
      ensures robots == RemoveId(old(robots), id)
      ensures selectedId == if old(selectedId) == Some(id) then None else old(selectedId)
      ensures old(Valid()) ==> Valid()
    {
      if Valid() {
        RemoveIdKeepsNamesUnique(robots, id);
        RemoveIdKeepsIdsUnique(robots, id);
        RemoveIdKeepsValid(robots, id, currentYear);
      }
      robots := RemoveId(robots, id);
      selectedId := if selectedId == Some(id) then None else selectedId;
    }

    /** `getById`: the first robot with that id, or nothing. */
    function GetById(id: string): (r: Option<Robot>)
      reads this
      ensures r.None? <==> forall i :: 0 <= i < |robots| ==> robots[i].id != id
      ensures r.Some? ==> r.value.id == id && r.value in robots
    {
      FindById(robots, id)
    }

    /** `setSelected`. */
    method SetSelected(id: Option<string>)
      modifies this
      ensures selectedId == id && robots == old(robots)
    {
      selectedId := id;
    }

    /** `clearAll`: no robots and no selection. */
    method ClearAll()
      modifies this
      ensures robots == [] && selectedId == None
      ensures Valid()
    {
      robots := [];
      selectedId := None;
    }
  }

  lemma TrimLiterals()
    ensures Trim("R2D2") == "R2D2" && Trim("Astromech") == "Astromech" && Trim("dup") == "dup"
  {
    TrimUnspaced("R2D2");
    TrimUnspaced("Astromech");
    TrimUnspaced("dup");
  }

  lemma TrimSpacedLiteral()
    ensures Trim(" r2d2 ") == "r2d2"
  {
    assert LeadingSpaces(" r2d2 ") == 1;
    assert " r2d2 "[1..] == "r2d2 ";
    assert TrailingSpaces("r2d2 ") == 1;
  }

  lemma LowerLiterals()
    ensures ToLower("R2D2") == "r2d2" && ToLower("r2d2") == "r2d2"
  {
    assert ToLower("R2D2")[0] == 'r' && ToLower("R2D2")[2] == 'd';
  }

  /** The names of the two scenario robots normalise to the same key. */
  lemma ScenarioNames()
    ensures NormalizeName("R2D2") == "r2d2"
    ensures NormalizeName(" r2d2 ") == "r2d2"
  {
    TrimLiterals();
    TrimSpacedLiteral();
    LowerLiterals();
  }

  /** Both scenario inputs pass validation. */
  lemma ScenarioInputsValid(currentYear: int)
    requires currentYear >= 2000
    ensures InputValid(RobotInput("R2D2", "Astromech", 1977, "service"), currentYear)
    ensures InputValid(RobotInput(" r2d2 ", "dup", 2000, "other"), currentYear)
  {
    TrimLiterals();
    TrimSpacedLiteral();
    InputValidFieldByField(RobotInput("R2D2", "Astromech", 1977, "service"), currentYear);
    InputValidFieldByField(RobotInput(" r2d2 ", "dup", 2000, "other"), currentYear);
  }

  /** Two robots whose names differ only in case and surrounding spaces cannot both be
      created, and `getById` finds the first one under its new id with its fields as given. */
  method CreateTwiceScenario(currentYear: int)
    requires currentYear >= 2000
  {
    ScenarioNames();
    ScenarioInputsValid(currentYear);
    var store := new Store(currentYear);
    var first := store.Create(RobotInput("R2D2", "Astromech", 1977, "service"), "id-1");
    assert first == Success(Robot("id-1", "R2D2", "Astromech", 1977, "service"));
    assert store.GetById("id-1") == Some(Robot("id-1", "R2D2", "Astromech", 1977, "service"));
    var second := store.Create(RobotInput(" r2d2 ", "dup", 2000, "other"), "id-2");
    assert NameTaken(store.robots, NormalizeName(" r2d2 ")) by {
      assert NormalizeName(store.robots[0].name) == NormalizeName(" r2d2 ");
    }
    assert second == Failure(NameInUse);
    assert store.robots == [Robot("id-1", "R2D2", "Astromech", 1977, "service")];
  }
}
