/** The form schema (`robotSchema`): a validity predicate over the four fields. Unlike the
    stores' rules it does not trim, and it restricts the type to the five known values. */
module RobotSchema {
  import opened Text
  import opened Robots

  /** `name: z.string().min(2)` */
  predicate NameAccepted(name: string) {
    |name| >= 2
  }

  /** `label: z.string().min(3)` */
  predicate LabelAccepted(caption: string) {
    |caption| >= 3
  }

  /** `year: z.coerce.number().int().gte(1950).lte(CURRENT_YEAR)` on an integer year. */
  predicate YearAccepted(year: int, currentYear: int) {
    MinYear <= year && year <= currentYear
  }

  /** `type: z.enum([...])` */
  predicate TypeAccepted(kind: string) {
    kind in RobotTypes
  }

  /** `robotSchema` accepts a value exactly when each of its four fields is accepted. */
  predicate SchemaValid(v: RobotInput, currentYear: int) {
    NameAccepted(v.name) && LabelAccepted(v.caption) && YearAccepted(v.year, currentYear) && TypeAccepted(v.kind)
  }

  /** The type enum, spelled out. */
  lemma TypeAcceptedExactly(kind: string)
    ensures TypeAccepted(kind) <==>
      kind == "industrial" || kind == "service" || kind == "medical" || kind == "educational" || kind == "other"
  {
  }

  /** Both year bounds are accepted and nothing beyond them. */
  lemma YearBoundsInclusive(v: RobotInput, currentYear: int)
    requires currentYear >= MinYear
    requires NameAccepted(v.name) && LabelAccepted(v.caption) && TypeAccepted(v.kind)
    ensures SchemaValid(v.(year := MinYear), currentYear)
    ensures SchemaValid(v.(year := currentYear), currentYear)
    ensures !SchemaValid(v.(year := MinYear - 1), currentYear)
    ensures !SchemaValid(v.(year := currentYear + 1), currentYear)
  {
  }

  /** Whatever the schema accepts has a type, so it never breaks the stores' type rule, and
      its year is in the stores' range. */
  lemma SchemaKeepsStoreYearAndType(v: RobotInput, currentYear: int)
    requires SchemaValid(v, currentYear)
    ensures !Violates(v, currentYear, TypeMissing)
    ensures !Violates(v, currentYear, YearOutOfRange)
  {
  }

  /** An input the stores accept, with one of the five types, is accepted by the schema:
      trimming only shortens a name. */
  lemma StoreValidImpliesSchemaValid(v: RobotInput, currentYear: int)
    requires InputValid(v, currentYear) && TypeAccepted(v.kind)
    ensures SchemaValid(v, currentYear)
  {
    InputValidFieldByField(v, currentYear);
    assert |Trim(v.name)| <= |v.name|;
    assert |Trim(v.caption)| <= |v.caption|;
  }

  lemma TrimSpaceA()
    ensures Trim(" a") == "a"
  {
    assert LeadingSpaces(" a") == 1;
    assert TrailingSpaces("a") == 0;
  }

  /** The converse fails: a name padded with a space passes the schema but not the stores,
      and the stores accept a type outside the enum. */
  lemma SchemaAndStoresDisagree(currentYear: int)
    requires currentYear >= 2000
    ensures SchemaValid(RobotInput(" a", "abc", 2000, "other"), currentYear)
    ensures !InputValid(RobotInput(" a", "abc", 2000, "other"), currentYear)
    ensures !SchemaValid(RobotInput("ab", "abc", 2000, "drone"), currentYear)
  {
    TrimSpaceA();
    assert Violates(RobotInput(" a", "abc", 2000, "other"), currentYear, NameTooShort);
  }
}
