/** The robot record shared by the in-memory store and the reducer store, the validation
    rules both of them apply, and the case-insensitive name uniqueness both of them enforce. */
module Robots {
  import opened Wrappers
  import opened Text

  /** The fields a caller supplies (`RobotInput`, `Omit<Robot, 'id'>`). `caption` is the
      source's `label` field and `kind` its `type` field (both names are Dafny keywords);
      the empty string stands for a missing value. */
  datatype RobotInput = RobotInput(name: string, caption: string, year: int, kind: string)

  /** A stored robot. */
  datatype Robot = Robot(id: string, name: string, caption: string, year: int, kind: string)

  /** The input fields of a robot. */
  function Fields(r: Robot): RobotInput {
    RobotInput(r.name, r.caption, r.year, r.kind)
  }

  /** `{ id, ...input }`: the input stored under `id`, fields as given. */
  function WithId(id: string, input: RobotInput): (r: Robot)
    ensures r.id == id && Fields(r) == input
  {
    Robot(id, input.name, input.caption, input.year, input.kind)
  }

  /** The earliest accepted year. */
  const MinYear: int := 1950

  /** The five robot types. */
  const RobotTypes: seq<string> := ["industrial", "service", "medical", "educational", "other"]

  /** The rules `validateInput` and `assertValid` check, in the order they check them. */
  datatype Rule = NameTooShort | LabelTooShort | YearNotInteger | YearOutOfRange | TypeMissing

  /** Position of a rule in the order of the checks. */
  function RuleRank(rule: Rule): nat {
    match rule
    case NameTooShort => 0
    case LabelTooShort => 1
    case YearNotInteger => 2
    case YearOutOfRange => 3
    case TypeMissing => 4
  }

  /** Whether `input` breaks `rule` in the calendar year `currentYear`. Years are integers
      in this model, so the integer rule is never broken. */
  predicate Violates(input: RobotInput, currentYear: int, rule: Rule) {
    match rule
    case NameTooShort => |Trim(input.name)| < 2
    case LabelTooShort => |Trim(input.caption)| < 3
    case YearNotInteger => false
    case YearOutOfRange => input.year < MinYear || input.year > currentYear
    case TypeMissing => input.kind == ""
  }

  /** An input that breaks no rule. */
  predicate InputValid(input: RobotInput, currentYear: int) {
    forall rule :: !Violates(input, currentYear, rule)
  }

  /** The same condition, field by field. */
  lemma InputValidFieldByField(input: RobotInput, currentYear: int)
    ensures InputValid(input, currentYear) <==>
      && |Trim(input.name)| >= 2
      && |Trim(input.caption)| >= 3
      && MinYear <= input.year <= currentYear
      && input.kind != ""
  {
    if !InputValid(input, currentYear) {
      var rule :| Violates(input, currentYear, rule);
    } else {
      assert !Violates(input, currentYear, NameTooShort);
      assert !Violates(input, currentYear, LabelTooShort);
      assert !Violates(input, currentYear, YearOutOfRange);
      assert !Violates(input, currentYear, TypeMissing);
    }
  }

  /** `[rule]` when `input` breaks `rule`, else nothing. */
  function Check(input: RobotInput, currentYear: int, rule: Rule): (rules: seq<Rule>)
    ensures rules == [] || rules == [rule]
    ensures rule in rules <==> Violates(input, currentYear, rule)
  {
    if Violates(input, currentYear, rule) then [rule] else []
  }

  /** Every rule `input` breaks, each once, in the order of the checks. */
  function Broken(input: RobotInput, currentYear: int): (rules: seq<Rule>)
    ensures forall i, j :: 0 <= i < j < |rules| ==> RuleRank(rules[i]) < RuleRank(rules[j])
  {
    var name, caption := Check(input, currentYear, NameTooShort), Check(input, currentYear, LabelTooShort);
    var year, kind := Check(input, currentYear, YearOutOfRange), Check(input, currentYear, TypeMissing);
    RanksAscend(name, caption, year, kind);
    name + caption + year + kind
  }

  /** `Broken` as the validators build it, one check at a time from the empty list. */
  lemma BrokenStepwise(input: RobotInput, currentYear: int)
    ensures Broken(input, currentYear)
      == [] + Check(input, currentYear, NameTooShort) + Check(input, currentYear, LabelTooShort)
         + Check(input, currentYear, YearOutOfRange) + Check(input, currentYear, TypeMissing)
  {
    assert [] + Check(input, currentYear, NameTooShort) == Check(input, currentYear, NameTooShort);
  }

  /** At most one of each checked rule, in check order, gives strictly increasing ranks. */
  lemma {:induction false} RanksAscend(name: seq<Rule>, caption: seq<Rule>, year: seq<Rule>, kind: seq<Rule>)
    requires name == [] || name == [NameTooShort]
    requires caption == [] || caption == [LabelTooShort]
    requires year == [] || year == [YearOutOfRange]
    requires kind == [] || kind == [TypeMissing]
    ensures var rules := name + caption + year + kind;
      forall i, j :: 0 <= i < j < |rules| ==> RuleRank(rules[i]) < RuleRank(rules[j])
  {
    var front := name + caption;
    var back := year + kind;
    assert name + caption + year + kind == front + back;
    assert forall i :: 0 <= i < |front| ==> RuleRank(front[i]) <= 1;
    assert forall i :: 0 <= i < |back| ==> RuleRank(back[i]) >= 3;
  }

  /** `Broken` lists exactly the broken rules, and it is empty exactly for a valid input. */
  lemma BrokenExactly(input: RobotInput, currentYear: int)
    ensures forall rule :: rule in Broken(input, currentYear) <==> Violates(input, currentYear, rule)
    ensures Broken(input, currentYear) == [] <==> InputValid(input, currentYear)
  {
    var name, caption := Check(input, currentYear, NameTooShort), Check(input, currentYear, LabelTooShort);
    var year, kind := Check(input, currentYear, YearOutOfRange), Check(input, currentYear, TypeMissing);
    var broken := Broken(input, currentYear);
    assert broken == name + caption + year + kind;
    forall rule ensures rule in broken <==> Violates(input, currentYear, rule) {
      assert rule in broken <==> rule in name || rule in caption || rule in year || rule in kind;
      match rule
      case NameTooShort =>
        assert rule !in caption && rule !in year && rule !in kind;
      case LabelTooShort =>
        assert rule !in name && rule !in year && rule !in kind;
      case YearNotInteger =>
        assert rule !in name && rule !in caption && rule !in year && rule !in kind;
      case YearOutOfRange =>
        assert rule !in name && rule !in caption && rule !in kind;
      case TypeMissing =>
        assert rule !in name && rule !in caption && rule !in year;
    }
    if broken != [] {
      assert broken[0] in broken;
    }
  }

  /** `normalizeName`: the key under which names must be unique. */
  function NormalizeName(name: string): string {
    ToLower(Trim(name))
  }

  /** Lower-casing maps white space to white space and nothing else to white space. */
  lemma LowerCharKeepsSpace(c: char)
    ensures IsSpace(LowerChar(c)) <==> IsSpace(c)
  {
  }

  /** Lower-casing does not move the ends of a trimmed string. */
  lemma {:induction false} LeadingSpacesToLower(s: string)
    ensures LeadingSpaces(ToLower(s)) == LeadingSpaces(s)
  {
    if s != [] {
      LowerCharKeepsSpace(s[0]);
      assert ToLower(s)[1..] == ToLower(s[1..]);
      LeadingSpacesToLower(s[1..]);
    }
  }

  lemma {:induction false} TrailingSpacesToLower(s: string)
    ensures TrailingSpaces(ToLower(s)) == TrailingSpaces(s)
  {
    if s != [] {
      LowerCharKeepsSpace(s[|s| - 1]);
      assert ToLower(s)[..|s| - 1] == ToLower(s[..|s| - 1]);
      TrailingSpacesToLower(s[..|s| - 1]);
    }
  }

  /** Lower-casing commutes with taking a suffix and with taking a prefix. */
  lemma ToLowerSuffix(s: string, n: nat)
    requires n <= |s|
    ensures ToLower(s)[n..] == ToLower(s[n..])
  {
  }

  lemma ToLowerPrefix(s: string, m: nat)
    requires m <= |s|
    ensures ToLower(s)[..m] == ToLower(s[..m])
  {
  }

  /** The second half of `Trim`: `s` without its trailing white space. */
  function TrimEnd(t: string): string {
    t[..|t| - TrailingSpaces(t)]
  }

  lemma TrimIsTrimEnd(s: string)
    ensures Trim(s) == TrimEnd(s[LeadingSpaces(s)..])
  {
  }

  lemma LowerAfterLeading(s: string)
    ensures ToLower(s)[LeadingSpaces(ToLower(s))..] == ToLower(s[LeadingSpaces(s)..])
  {
    LeadingSpacesToLower(s);
    ToLowerSuffix(s, LeadingSpaces(s));
  }

  lemma TrimEndToLower(t: string)
    ensures TrimEnd(ToLower(t)) == ToLower(TrimEnd(t))
  {
    TrailingSpacesToLower(t);
    ToLowerPrefix(t, |t| - TrailingSpaces(t));
  }

  /** Trimming and lower-casing commute. */
  lemma {:induction false} TrimToLower(s: string)
    ensures ToLower(Trim(s)) == Trim(ToLower(s))
  {
    TrimIsTrimEnd(s);
    TrimIsTrimEnd(ToLower(s));
    LowerAfterLeading(s);
    TrimEndToLower(s[LeadingSpaces(s)..]);
  }

  /** Normalising a normalised name changes nothing. */
  lemma {:induction false} NormalizeNameIdempotent(name: string)
    ensures NormalizeName(NormalizeName(name)) == NormalizeName(name)
  {
    TrimToLower(ToLower(Trim(name)));
    TrimIdempotent(name);
    ToLowerIdempotent(Trim(name));
    // NormalizeName(n) = ToLower(Trim(ToLower(Trim(name)))) = ToLower(ToLower(Trim(Trim(name))))
    TrimToLower(Trim(name));
  }

  /** Some robot already has a name that normalises to `norm`. */
  predicate NameTaken(robots: seq<Robot>, norm: string) {
    exists i :: 0 <= i < |robots| && NormalizeName(robots[i].name) == norm
  }

  /** Some robot whose id is not `id` has a name that normalises to `norm`. */
  predicate NameTakenByOther(robots: seq<Robot>, norm: string, id: string) {
    exists i :: 0 <= i < |robots| && robots[i].id != id && NormalizeName(robots[i].name) == norm
  }

  /** No two robots share a normalised name. */
  predicate NamesUnique(robots: seq<Robot>) {
    forall i, j :: 0 <= i < j < |robots| ==> NormalizeName(robots[i].name) != NormalizeName(robots[j].name)
  }

  /** No two robots share an id. */
  predicate IdsUnique(robots: seq<Robot>) {
    forall i, j :: 0 <= i < j < |robots| ==> robots[i].id != robots[j].id
  }

  /** Every robot's fields pass validation. */
  predicate AllValid(robots: seq<Robot>, currentYear: int) {
    forall i :: 0 <= i < |robots| ==> InputValid(Fields(robots[i]), currentYear)
  }

  /** An id the fresh-id oracle may hand out: non-empty and used by no robot. */
  predicate FreshId(id: string, robots: seq<Robot>) {
    id != "" && forall i :: 0 <= i < |robots| ==> robots[i].id != id
  }

  /** `findIndex(r => r.id === id)`: the first position holding `id`, or -1. */
  function FindIndex(robots: seq<Robot>, id: string): (idx: int)
    ensures -1 <= idx < |robots|
    ensures idx == -1 <==> forall i :: 0 <= i < |robots| ==> robots[i].id != id
    ensures idx >= 0 ==> robots[idx].id == id && forall i :: 0 <= i < idx ==> robots[i].id != id
  {
    if robots == [] then -1
    else if robots[0].id == id then 0
    else var k := FindIndex(robots[1..], id); if k == -1 then -1 else k + 1
  }

  /** `find(r => r.id === id)`: the first robot holding `id`, if any. */
  function FindById(robots: seq<Robot>, id: string): (r: Option<Robot>)
    ensures r.None? <==> forall i :: 0 <= i < |robots| ==> robots[i].id != id
    ensures r.Some? ==> r.value.id == id && r.value in robots
    ensures r.Some? ==> r.value == robots[FindIndex(robots, id)]
  {
    var idx := FindIndex(robots, id);
    if idx == -1 then None else Some(robots[idx])
  }

  /** `filter(r => r.id !== id)`. */
  function RemoveId(robots: seq<Robot>, id: string): (rest: seq<Robot>)
    ensures |rest| <= |robots|
    ensures forall r :: r in rest <==> r in robots && r.id != id
  {
    if robots == [] then []
    else (if robots[0].id == id then [] else [robots[0]]) + RemoveId(robots[1..], id)
  }

  /** Removal works piecewise, so the robots that stay keep their relative order. */
  lemma {:induction false} RemoveIdAppend(a: seq<Robot>, b: seq<Robot>, id: string)
    ensures RemoveId(a + b, id) == RemoveId(a, id) + RemoveId(b, id)
  {
    if a == [] {
      assert a + b == b;
    } else {
      assert (a + b)[0] == a[0];
      assert (a + b)[1..] == a[1..] + b;
      RemoveIdAppend(a[1..], b, id);
    }
  }

  /** Removing an id nobody holds changes nothing. */
  lemma {:induction false} RemoveIdAbsent(robots: seq<Robot>, id: string)
    requires forall i :: 0 <= i < |robots| ==> robots[i].id != id
    ensures RemoveId(robots, id) == robots
  {
    if robots != [] {
      RemoveIdAbsent(robots[1..], id);
    }
  }

  /** Removing an id only robot `k` holds takes exactly that one robot out. */
  lemma {:induction false} RemoveIdAt(robots: seq<Robot>, k: nat)
    requires k < |robots|
    requires forall i :: 0 <= i < |robots| && i != k ==> robots[i].id != robots[k].id
    ensures RemoveId(robots, robots[k].id) == robots[..k] + robots[k + 1..]
  {
    var x := robots[k];
    var before, after := robots[..k], robots[k + 1..];
    assert robots == before + [x] + after;
    forall i | 0 <= i < |before| ensures before[i].id != x.id {
      assert before[i] == robots[i];
    }
    forall i | 0 <= i < |after| ensures after[i].id != x.id {
      assert after[i] == robots[k + 1 + i];
    }
    RemoveIdAbsent(before, x.id);
    RemoveIdAbsent(after, x.id);
    RemoveIdSplit(before, x, after);
  }

  /** Removing the id of the robot between two runs that do not hold it leaves the two runs. */
  lemma {:induction false} RemoveIdSplit(before: seq<Robot>, x: Robot, after: seq<Robot>)
    requires RemoveId(before, x.id) == before && RemoveId(after, x.id) == after
    ensures RemoveId(before + [x] + after, x.id) == before + after
  {
    var single := [x];
    assert single[1..] == [];
    assert RemoveId(single, x.id) == [];
    var front := before + single;
    RemoveIdAppend(before, single, x.id);
    assert RemoveId(front, x.id) == before;
    RemoveIdAppend(front, after, x.id);
  }

  /** Every robot that stays after a removal comes from the original sequence. */
  lemma RemoveIdFrom(robots: seq<Robot>, id: string, i: nat) returns (j: nat)
    requires i < |RemoveId(robots, id)|
    ensures j < |robots| && robots[j] == RemoveId(robots, id)[i]
  {
    assert RemoveId(robots, id)[i] in RemoveId(robots, id);
    j :| 0 <= j < |robots| && robots[j] == RemoveId(robots, id)[i];
  }

  /** Removal keeps names unique. */
  lemma {:induction false} RemoveIdKeepsNamesUnique(robots: seq<Robot>, id: string)
    requires NamesUnique(robots)
    ensures NamesUnique(RemoveId(robots, id))
  {
    if robots != [] {
      RemoveIdKeepsNamesUnique(robots[1..], id);
      var rest := RemoveId(robots[1..], id);
      if robots[0].id != id {
        forall i | 0 <= i < |rest| ensures NormalizeName(robots[0].name) != NormalizeName(rest[i].name) {
          var j := RemoveIdFrom(robots[1..], id, i);
          assert robots[j + 1] == rest[i];
        }
        assert RemoveId(robots, id) == [robots[0]] + rest;
      }
    }
  }

  /** Removal keeps ids unique. */
  lemma {:induction false} RemoveIdKeepsIdsUnique(robots: seq<Robot>, id: string)
    requires IdsUnique(robots)
    ensures IdsUnique(RemoveId(robots, id))
  {
    if robots != [] {
      RemoveIdKeepsIdsUnique(robots[1..], id);
      var rest := RemoveId(robots[1..], id);
      if robots[0].id != id {
        forall i | 0 <= i < |rest| ensures robots[0].id != rest[i].id {
          var j := RemoveIdFrom(robots[1..], id, i);
          assert robots[j + 1] == rest[i];
        }
        assert RemoveId(robots, id) == [robots[0]] + rest;
      }
    }
  }

  /** Removal keeps every robot valid. */
  lemma RemoveIdKeepsValid(robots: seq<Robot>, id: string, currentYear: int)
    requires AllValid(robots, currentYear)
    ensures AllValid(RemoveId(robots, id), currentYear)
  {
    var rest := RemoveId(robots, id);
    forall i | 0 <= i < |rest| ensures InputValid(Fields(rest[i]), currentYear) {
      var j := RemoveIdFrom(robots, id, i);
    }
  }

  /** Appending a robot whose name is free keeps names unique. */
  lemma AppendKeepsNamesUnique(robots: seq<Robot>, r: Robot)
    requires NamesUnique(robots) && !NameTaken(robots, NormalizeName(r.name))
    ensures NamesUnique(robots + [r])
  {
    var s := robots + [r];
    forall i, j | 0 <= i < j < |s| ensures NormalizeName(s[i].name) != NormalizeName(s[j].name) {
      if j == |robots| {
        assert s[i] == robots[i];
      }
    }
  }

  /** Appending a robot under an id no robot holds keeps ids unique. */
  lemma AppendKeepsIdsUnique(robots: seq<Robot>, r: Robot)
    requires IdsUnique(robots) && FreshId(r.id, robots)
    ensures IdsUnique(robots + [r])
  {
    var s := robots + [r];
    forall i, j | 0 <= i < j < |s| ensures s[i].id != s[j].id {
      if j == |robots| {
        assert s[i] == robots[i];
      }
    }
  }

  /** Appending a robot whose fields pass validation keeps every robot valid. */
  lemma AppendKeepsValid(robots: seq<Robot>, r: Robot, currentYear: int)
    requires AllValid(robots, currentYear) && InputValid(Fields(r), currentYear)
    ensures AllValid(robots + [r], currentYear)
  {
    var s := robots + [r];
    forall i | 0 <= i < |s| ensures InputValid(Fields(s[i]), currentYear) {
      if i < |robots| {
        assert s[i] == robots[i];
      }
    }
  }

  /** Replacing robot `k` with one that keeps its id and takes a name no other id holds
      keeps names unique, provided no other robot shares that id. */
  lemma ReplaceKeepsNamesUnique(robots: seq<Robot>, k: nat, r: Robot)
    requires k < |robots| && NamesUnique(robots)
    requires forall i :: 0 <= i < |robots| && i != k ==> robots[i].id != r.id
    requires !NameTakenByOther(robots, NormalizeName(r.name), r.id)
    ensures NamesUnique(robots[k := r])
  {
    var s := robots[k := r];
    forall i, j | 0 <= i < j < |s| ensures NormalizeName(s[i].name) != NormalizeName(s[j].name) {
      if i == k {
        assert robots[j].id != r.id;
      } else if j == k {
        assert robots[i].id != r.id;
      }
    }
  }
}
