/** The lead form's validation schema: each field's rules, which of them a
    filled-in form violates, the messages the schema attaches to them, and
    the single combined message shown under each `{ min, max }` pair.

    Every rule is evaluated independently and all violations are collected;
    which single message the form library surfaces first is not modelled. */
module LeadForm {
  import opened Wrappers
  import opened JsText
  import opened PhonePattern
  import opened LeaseDates

  /** A selected option of the place-type select. */
  datatype PlaceOption = PlaceOption(id: string, value: string)

  /** A `{ min, max }` pair of the form. */
  datatype Bounds<T> = Bounds(min: Option<T>, max: Option<T>)

  /** The form record; None stands for a value the user never set. Areas are
      reals because the schema only compares them. */
  datatype Lead = Lead(
    title: Option<string>,
    address: Option<string>,
    phone: Option<string>,
    field: Option<PlaceOption>,
    rangeField: Bounds<real>,
    rangeDate: Bounds<string>)

  /** The schema paths that carry rules. */
  datatype FieldPath =
    | Title | Address | Phone | Field
    | RangeFieldMin | RangeFieldMax | RangeDateMin | RangeDateMax

  /** One rule of the schema. */
  datatype RuleId =
    | Required     // `.required(...)`
    | Matches      // `.matches(phone pattern)`
    | NonNegative  // `.min(0)` on the minimum area
    | NotAboveMax  // `.max(ref('max'))` on the minimum area
    | NotBelowMin  // `.min(ref('min'))` on the maximum area
    | Positive     // `.positive()` on the maximum area
    | ValidDate    // the `is-valid-date` test
    | Later        // the `is-later` test on the end date

  const AllPaths: set<FieldPath> :=
    {Title, Address, Phone, Field, RangeFieldMin, RangeFieldMax, RangeDateMin, RangeDateMax}

  /** One call in a field's schema chain as yup registers it: the test's
      name, whether it is exclusive, and the rule it checks. `min`, `max`
      and `positive` (which is `moreThan(0)`, registered under the name
      `min`) are exclusive; `required`, `matches` and custom tests are not. */
  datatype SchemaTest = SchemaTest(name: string, exclusive: bool, rule: RuleId)

  /** The tests each path's chain calls, in source order. */
  function Chain(path: FieldPath): seq<SchemaTest>
  {
    var required := SchemaTest("required", false, Required);
    match path
    case Title | Address | Field => [required]
    case Phone => [SchemaTest("matches", false, Matches), required]
    case RangeFieldMin =>
      [required, SchemaTest("min", true, NonNegative), SchemaTest("max", true, NotAboveMax)]
    case RangeFieldMax =>
      [required, SchemaTest("min", true, NotBelowMin), SchemaTest("min", true, Positive)]
    case RangeDateMin => [required, SchemaTest("is-valid-date", false, ValidDate)]
    case RangeDateMax =>
      [required, SchemaTest("is-valid-date", false, ValidDate), SchemaTest("is-later", false, Later)]
  }

  /** The earlier tests that survive adding `t`: an exclusive test drops
      every test registered under its name. */
  function Surviving(tests: seq<SchemaTest>, t: SchemaTest): (kept: seq<SchemaTest>)
    ensures forall x :: x in kept <==> x in tests && !(t.exclusive && x.name == t.name)
  {
    if tests == [] then []
    else
      var rest := Surviving(tests[1..], t);
      if t.exclusive && tests[0].name == t.name then rest else [tests[0]] + rest
  }

  /** The tests a chain leaves on the schema, adding its calls one by one. */
  function Build(chain: seq<SchemaTest>): (tests: seq<SchemaTest>)
    ensures forall x :: x in tests ==> x in chain
    ensures chain != [] ==> chain[|chain| - 1] in tests
  {
    if chain == [] then []
    else
      var last := chain[|chain| - 1];
      Surviving(Build(chain[..|chain| - 1]), last) + [last]
  }

  /** The rules a list of tests checks. */
  function RuleSet(tests: seq<SchemaTest>): set<RuleId>
  {
    set t | t in tests :: t.rule
  }

  /** The rules the schema declares on each path, whether or not yup keeps
      them: the rules of each `Chain`, written out as a table. */
  function DeclaredRules(path: FieldPath): set<RuleId>
  {
    match path
    case Title | Address | Field => {Required}
    case Phone => {Required, Matches}
    case RangeFieldMin => {Required, NonNegative, NotAboveMax}
    case RangeFieldMax => {Required, NotBelowMin, Positive}
    case RangeDateMin => {Required, ValidDate}
    case RangeDateMax => {Required, ValidDate, Later}
  }

  /** The rules the built schema checks on each path: the result of `Build`
      on each `Chain`, written out as a table (`RulesOfBuiltSchema` proves
      the two agree). On the maximum area, `positive` is registered under
      the name `min` and so replaces the earlier `min(ref('min'))`. */
  function RulesOf(path: FieldPath): set<RuleId>
  {
    match path
    case RangeFieldMax => {Required, Positive}
    case _ => DeclaredRules(path)
  }

  /** A test that replaces nothing keeps every earlier test in place. */
  lemma {:induction false} SurvivingAll(tests: seq<SchemaTest>, t: SchemaTest)
    requires forall i :: 0 <= i < |tests| ==> !(t.exclusive && tests[i].name == t.name)
    ensures Surviving(tests, t) == tests
  {
    if tests != [] {
      SurvivingAll(tests[1..], t);
      assert [tests[0]] + tests[1..] == tests;
    }
  }

  /** A chain in which no exclusive test follows a test of its name builds
      to itself. */
  lemma {:induction false} BuildWithoutReplacement(chain: seq<SchemaTest>)
    requires forall i, j :: 0 <= i < j < |chain| ==> !(chain[j].exclusive && chain[i].name == chain[j].name)
    ensures Build(chain) == chain
  {
    if chain != [] {
      var n := |chain| - 1;
      var front, last := chain[..n], chain[n];
      assert forall i, j :: 0 <= i < j < |front| ==> front[i] == chain[i] && front[j] == chain[j];
      BuildWithoutReplacement(front);
      assert forall i :: 0 <= i < |front| ==> front[i] == chain[i];
      SurvivingAll(front, last);
      assert Build(chain) == Surviving(Build(front), last) + [last];
      FrontAndLast(chain);
    }
  }

  lemma FrontAndLast<T>(s: seq<T>)
    requires s != []
    ensures s[..|s| - 1] + [s[|s| - 1]] == s
  {
  }

  /** On the maximum area, `positive` replaces `min(ref('min'))`. */
  lemma MaxChainBuild()
    ensures Build(Chain(RangeFieldMax)) == [Chain(RangeFieldMax)[0], Chain(RangeFieldMax)[2]]
  {
    var chain := Chain(RangeFieldMax);
    var front := chain[..2];
    assert front == [chain[0], chain[1]];
    BuildWithoutReplacement(front);
    assert Surviving(front[1..], chain[2]) == [];
    assert Surviving(front, chain[2]) == [chain[0]];
  }

  /** Both tables come from the chains: the declared one lists every call,
      the built one what survives the exclusive replacements; only the
      maximum area loses a rule. */
  lemma RulesOfBuiltSchema(path: FieldPath)
    ensures DeclaredRules(path) == RuleSet(Chain(path))
    ensures RulesOf(path) == RuleSet(Build(Chain(path)))
    ensures DeclaredRules(path) - RulesOf(path) == (if path == RangeFieldMax then {NotBelowMin} else {})
  {
    DeclaredFromChain(path);
    KeptFromBuild(path);
    if path == RangeFieldMax {
      assert DeclaredRules(path) == {Required, NotBelowMin, Positive};
    }
  }

  lemma DeclaredFromChain(path: FieldPath)
    ensures DeclaredRules(path) == RuleSet(Chain(path))
  {
    RuleSetSpelled(Chain(path));
  }

  lemma KeptFromBuild(path: FieldPath)
    ensures RulesOf(path) == RuleSet(Build(Chain(path)))
  {
    if path == RangeFieldMax {
      KeptOnMaxArea();
    } else {
      ChainKeepsEveryTest(path);
      DeclaredFromChain(path);
    }
  }

  lemma KeptOnMaxArea()
    ensures RuleSet(Build(Chain(RangeFieldMax))) == {Required, Positive}
  {
    var chain := Chain(RangeFieldMax);
    MaxChainBuild();
    RuleSetSpelled([chain[0], chain[2]]);
  }

  /** The rules of one to three tests, spelled out. */
  lemma RuleSetSpelled(tests: seq<SchemaTest>)
    requires 1 <= |tests| <= 3
    ensures |tests| == 1 ==> RuleSet(tests) == {tests[0].rule}
    ensures |tests| == 2 ==> RuleSet(tests) == {tests[0].rule, tests[1].rule}
    ensures |tests| == 3 ==> RuleSet(tests) == {tests[0].rule, tests[1].rule, tests[2].rule}
  {
    assert forall t :: t in tests ==> t == tests[0] || (|tests| >= 2 && t == tests[1]) || (|tests| == 3 && t == tests[2]);
  }

  /** Off the maximum area, no chain replaces any of its tests. */
  lemma ChainKeepsEveryTest(path: FieldPath)
    requires path != RangeFieldMax
    ensures Build(Chain(path)) == Chain(path)
  {
    var chain := Chain(path);
    match path {
      case Title | Address | Field =>
        assert !chain[0].exclusive;
      case Phone | RangeDateMin =>
        assert !chain[1].exclusive;
      case RangeDateMax =>
        assert !chain[1].exclusive && !chain[2].exclusive;
      case RangeFieldMin =>
        assert chain[0].name != chain[1].name && chain[0].name != chain[2].name && chain[1].name != chain[2].name;
    }
    BuildWithoutReplacement(chain);
  }

  /** A required string is missing when it is absent or empty. */
  predicate MissingText(s: Option<string>)
  {
    s.None? || s.value == ""
  }

  /** Whether `lead` violates `rule` on `path`. `valid` is the date-string
      check the schema imports. A rule other than `required` skips an absent
      value; the cross-field area rules apply only when both areas are set. */
  predicate Violates(valid: string -> bool, lead: Lead, path: FieldPath, rule: RuleId)
  {
    var area, dates := lead.rangeField, lead.rangeDate;
    match (path, rule)
    case (Title, Required) => MissingText(lead.title)
    case (Address, Required) => MissingText(lead.address)
    case (Phone, Required) => MissingText(lead.phone)
    case (Phone, Matches) => lead.phone.Some? && !MatchesPhone(lead.phone.value)
    case (Field, Required) => lead.field.None?
    case (RangeFieldMin, Required) => area.min.None?
    case (RangeFieldMin, NonNegative) => area.min.Some? && area.min.value < 0.0
    case (RangeFieldMin, NotAboveMax) => area.min.Some? && area.max.Some? && area.min.value > area.max.value
    case (RangeFieldMax, Required) => area.max.None?
    case (RangeFieldMax, NotBelowMin) => area.min.Some? && area.max.Some? && area.max.value < area.min.value
    case (RangeFieldMax, Positive) => area.max.Some? && area.max.value <= 0.0
    case (RangeDateMin, Required) => MissingText(dates.min)
    case (RangeDateMin, ValidDate) => dates.min.Some? && !valid(dates.min.value)
    case (RangeDateMax, Required) => MissingText(dates.max)
    case (RangeDateMax, ValidDate) => dates.max.Some? && !valid(dates.max.value)
    case (RangeDateMax, Later) => !LaterTest(valid, dates.min, dates.max)
    case _ => false
  }

  /** The rules among `rules` that `lead` violates on `path`. */
  function Violations(rules: FieldPath -> set<RuleId>, valid: string -> bool, lead: Lead, path: FieldPath): (broken: set<RuleId>)
    ensures broken <= rules(path)
    ensures forall rule :: rule in broken <==> rule in rules(path) && Violates(valid, lead, path, rule)
  {
    set rule | rule in rules(path) && Violates(valid, lead, path, rule)
  }

  /** `errors` reports `rule` on `path`. */
  predicate Reports(errors: map<FieldPath, set<RuleId>>, path: FieldPath, rule: RuleId)
  {
    path in errors && rule in errors[path]
  }

  /** Checks every rule of a rule table and collects the violations: one
      entry per path with at least one violated rule, holding exactly the
      violated rules of that path. */
  function Collect(rules: FieldPath -> set<RuleId>, valid: string -> bool, lead: Lead): (errors: map<FieldPath, set<RuleId>>)
    ensures forall path :: path in errors ==> errors[path] != {} && errors[path] <= rules(path)
    ensures forall path, rule :: Reports(errors, path, rule) <==> rule in rules(path) && Violates(valid, lead, path, rule)
  {
    map path | path in AllPaths && Violations(rules, valid, lead, path) != {} :: Violations(rules, valid, lead, path)
  }

  /** Validates the whole record against the schema yup builds. */
  function Validate(valid: string -> bool, lead: Lead): (errors: map<FieldPath, set<RuleId>>)
    ensures forall path :: path in errors ==> errors[path] != {} && errors[path] <= RulesOf(path)
    ensures forall path, rule :: Reports(errors, path, rule) <==> rule in RulesOf(path) && Violates(valid, lead, path, rule)
    ensures !Reports(errors, RangeFieldMax, NotBelowMin)
  {
    Collect(RulesOf, valid, lead)
  }

  /** Validates the whole record against every rule the schema declares,
      including the `min(ref('min'))` rule that yup drops from the maximum
      area. */
  function ValidateAsDeclared(valid: string -> bool, lead: Lead): (errors: map<FieldPath, set<RuleId>>)
    ensures forall path :: path in errors ==> errors[path] != {} && errors[path] <= DeclaredRules(path)
    ensures forall path, rule :: Reports(errors, path, rule) <==> rule in DeclaredRules(path) && Violates(valid, lead, path, rule)
  {
    Collect(DeclaredRules, valid, lead)
  }

  // ---------------------------------------------------------------------------
  // Messages

  /** A message with text and no whitespace at either end. */
  predicate PlainMessage(m: string)
  {
    m != "" && NoEdgeSpace(m)
  }

  /** The text the schema attaches to each rule. The organisation name and
      the address share one message. */
  function Message(path: FieldPath, rule: RuleId): (m: string)
    requires rule in DeclaredRules(path)
    ensures PlainMessage(m)
  {
    match path
    case Title => "Наименование организации " + "обязательно"
    case Address => "Наименование организации " + "обязательно"
    case Phone =>
      if rule == Matches then "Номер телефона некорректен"
      else "Телефон обязателен"
    case Field => "Тип помещения обязателен"
    case RangeFieldMin =>
      if rule == Required then "Минимальная площадь " + "обязательна"
      else if rule == NonNegative then "Минимальная площадь " + "не может быть отрицательной"
      else "Минимальная площадь " + "не может превышать максимальную площадь"
    case RangeFieldMax =>
      if rule == Required then "Максимальная площадь " + "обязательна"
      else if rule == NotBelowMin then "Максимальная площадь " + "должна быть больше или равна минимальной"
      else "Максимальная площадь " + "должна быть положительной"
    case RangeDateMin =>
      if rule == Required then "Дата начала аренды обязательна"
      else "Дата начала аренды " + "должна быть валидной"
    case RangeDateMax =>
      if rule == Required then "Дата окончания аренды " + "обязательна"
      else if rule == ValidDate then "Дата окончания аренды " + "должна быть валидной"
      else "Дата окончания " + "должна быть позже даты начала"
  }

  /** The message shown under a `{ min, max }` pair: the two fields' current
      messages, each defaulting to "" when unset or empty, joined by a space
      and trimmed. */
  function CombinedError(minError: Option<string>, maxError: Option<string>): (r: string)
    ensures NoEdgeSpace(r)
  {
    Trim(minError.GetOr("") + " " + maxError.GetOr(""))
  }

  /** With plain messages the combined text is empty when neither field has
      an error, the one message when exactly one has, and both separated by
      one space otherwise. */
  lemma CombinedErrorCases(minError: Option<string>, maxError: Option<string>)
    requires minError.Some? ==> PlainMessage(minError.value)
    requires maxError.Some? ==> PlainMessage(maxError.value)
    ensures minError.None? && maxError.None? ==> CombinedError(minError, maxError) == ""
    ensures minError.Some? && maxError.None? ==> CombinedError(minError, maxError) == minError.value
    ensures minError.None? && maxError.Some? ==> CombinedError(minError, maxError) == maxError.value
    ensures minError.Some? && maxError.Some? ==>
              CombinedError(minError, maxError) == minError.value + " " + maxError.value
  {
    var a, b := minError.GetOr(""), maxError.GetOr("");
    var joined := a + " " + b;
    assert AllSpace(" ") && AllSpace("");
    if minError.None? && maxError.None? {
      assert joined == " " + "" + "";
      TrimPadded(" ", "", "");
    } else if maxError.None? {
      assert joined == "" + a + " ";
      TrimPadded("", a, " ");
    } else if minError.None? {
      assert joined == " " + b + "";
      TrimPadded(" ", b, "");
    } else {
      assert joined == "" + joined + "";
      assert joined[0] == a[0] && joined[|joined| - 1] == b[|b| - 1];
      TrimPadded("", joined, "");
    }
  }

  // ---------------------------------------------------------------------------
  // What the schema promises

  /** The form passes every rule, stated field by field: a non-empty name
      and address, a phone of the required pattern, a chosen place type,
      areas with 0 <= min <= max and max > 0, and two valid dates with the
      end strictly after the start. */
  predicate Acceptable(valid: string -> bool, lead: Lead)
  {
    var area, dates := lead.rangeField, lead.rangeDate;
    && lead.title.Some? && lead.title.value != ""
    && lead.address.Some? && lead.address.value != ""
    && lead.phone.Some? && MatchesPhone(lead.phone.value)
    && lead.field.Some?
    && area.min.Some? && area.max.Some?
    && 0.0 <= area.min.value <= area.max.value && 0.0 < area.max.value
    && dates.min.Some? && dates.min.value != "" && valid(dates.min.value)
    && dates.max.Some? && dates.max.value != "" && valid(dates.max.value)
    && match (ParseIso(Normalize(dates.min.value)), ParseIso(Normalize(dates.max.value)))
       case (Some(start), Some(end)) => Before(start, end)
       case _ => false
  }

  /** No rule of the table is violated on any path. */
  predicate NoViolation(rules: FieldPath -> set<RuleId>, valid: string -> bool, lead: Lead)
  {
    forall path, rule :: rule in rules(path) ==> !Violates(valid, lead, path, rule)
  }

  /** Validation reports nothing exactly for acceptable forms. */
  lemma AcceptedIff(valid: string -> bool, lead: Lead)
    ensures Validate(valid, lead) == map[] <==> Acceptable(valid, lead)
  {
    EmptyIffNoViolation(RulesOf, valid, lead);
    AcceptableIffNoViolation(valid, lead);
  }

  lemma EmptyIffNoViolation(rules: FieldPath -> set<RuleId>, valid: string -> bool, lead: Lead)
    ensures Collect(rules, valid, lead) == map[] <==> NoViolation(rules, valid, lead)
  {
    var errors := Collect(rules, valid, lead);
    if errors == map[] {
      forall path, rule | rule in rules(path)
        ensures !Violates(valid, lead, path, rule)
      {
        assert !Reports(errors, path, rule);
      }
    } else {
      var path :| path in errors;
      var rule :| rule in errors[path];
      assert Reports(errors, path, rule);
    }
  }

  /** The field-by-field condition is the same as breaking no rule, whether
      the rules are those yup keeps or every rule the schema declares. */
  lemma AcceptableIffNoViolation(valid: string -> bool, lead: Lead)
    ensures Acceptable(valid, lead) <==> NoViolation(RulesOf, valid, lead)
    ensures Acceptable(valid, lead) <==> NoViolation(DeclaredRules, valid, lead)
  {
    if NoViolation(RulesOf, valid, lead) {
      assert !Violates(valid, lead, Title, Required);
      assert !Violates(valid, lead, Address, Required);
      assert !Violates(valid, lead, Phone, Required);
      assert !Violates(valid, lead, Phone, Matches);
      assert !Violates(valid, lead, Field, Required);
      assert !Violates(valid, lead, RangeFieldMin, Required);
      assert !Violates(valid, lead, RangeFieldMin, NonNegative);
      assert !Violates(valid, lead, RangeFieldMin, NotAboveMax);
      assert !Violates(valid, lead, RangeFieldMax, Required);
      assert !Violates(valid, lead, RangeFieldMax, Positive);
      assert !Violates(valid, lead, RangeDateMin, Required);
      assert !Violates(valid, lead, RangeDateMin, ValidDate);
      assert !Violates(valid, lead, RangeDateMax, Required);
      assert !Violates(valid, lead, RangeDateMax, ValidDate);
      assert !Violates(valid, lead, RangeDateMax, Later);
    }
    if Acceptable(valid, lead) {
      PhoneNotEmpty(lead.phone.value);
      forall path, rule | rule in DeclaredRules(path)
        ensures !Violates(valid, lead, path, rule)
      {
      }
    }
    if NoViolation(DeclaredRules, valid, lead) {
      forall path, rule | rule in RulesOf(path)
        ensures !Violates(valid, lead, path, rule)
      {
        assert rule in DeclaredRules(path);
      }
    }
  }

  /** The rule yup drops changes no verdict: both schemas accept the same
      forms, and their reports differ only in `min(ref('min'))` on the
      maximum area. */
  lemma DroppedRuleChangesNoVerdict(valid: string -> bool, lead: Lead)
    ensures Validate(valid, lead) == map[] <==> ValidateAsDeclared(valid, lead) == map[]
    ensures forall path, rule :: (path, rule) != (RangeFieldMax, NotBelowMin) ==>
              (Reports(Validate(valid, lead), path, rule) <==> Reports(ValidateAsDeclared(valid, lead), path, rule))
  {
    EmptyIffNoViolation(RulesOf, valid, lead);
    EmptyIffNoViolation(DeclaredRules, valid, lead);
    AcceptableIffNoViolation(valid, lead);
  }

  /** An accepted phone is never empty. */
  lemma PhoneNotEmpty(s: string)
    requires MatchesPhone(s)
    ensures s != ""
  {
  }

  // ---------------------------------------------------------------------------
  // Field by field

  /** The organisation name and the address are each rejected exactly when
      absent or empty, only by `required`, and with the same message. */
  lemma OrganisationRules(valid: string -> bool, lead: Lead)
    ensures Title in Validate(valid, lead) <==> lead.title.None? || lead.title == Some("")
    ensures Title in Validate(valid, lead) ==> Validate(valid, lead)[Title] == {Required}
    ensures Address in Validate(valid, lead) <==> lead.address.None? || lead.address == Some("")
    ensures Address in Validate(valid, lead) ==> Validate(valid, lead)[Address] == {Required}
    ensures Message(Title, Required) == Message(Address, Required)
  {
    var errors := Validate(valid, lead);
    assert Reports(errors, Title, Required) <==> MissingText(lead.title);
    assert Reports(errors, Address, Required) <==> MissingText(lead.address);
  }

  /** The value `path` validates is unset. */
  predicate Unset(lead: Lead, path: FieldPath)
  {
    match path
    case Title => lead.title.None?
    case Address => lead.address.None?
    case Phone => lead.phone.None?
    case Field => lead.field.None?
    case RangeFieldMin => lead.rangeField.min.None?
    case RangeFieldMax => lead.rangeField.max.None?
    case RangeDateMin => lead.rangeDate.min.None?
    case RangeDateMax => lead.rangeDate.max.None?
  }

  /** An unset value is reported by `required` and by nothing else. */
  lemma UnsetReportsOnlyRequired(valid: string -> bool, lead: Lead, path: FieldPath)
    requires Unset(lead, path)
    ensures path in Validate(valid, lead) && Validate(valid, lead)[path] == {Required}
  {
    var errors := Validate(valid, lead);
    assert Reports(errors, path, Required);
    forall rule | rule in errors[path] ensures rule == Required {
      assert Reports(errors, path, rule);
    }
  }

  /** A phone that is set and not empty passes exactly when it matches the
      pattern, and then has 18 to 20 characters; an empty one breaks both
      `required` and the pattern. */
  lemma PhoneRules(valid: string -> bool, lead: Lead)
    requires lead.phone.Some?
    ensures lead.phone.value != "" ==> (Phone !in Validate(valid, lead) <==> MatchesPhone(lead.phone.value))
    ensures Phone !in Validate(valid, lead) ==> 18 <= |lead.phone.value| <= 20
    ensures lead.phone.value == "" ==> Validate(valid, lead)[Phone] == {Required, Matches}
  {
    var errors := Validate(valid, lead);
    var s := lead.phone.value;
    assert Reports(errors, Phone, Matches) <==> !MatchesPhone(s);
    if Phone !in errors {
      PhoneLength(s);
    }
    if s == "" {
      assert !MatchesPhone(s);
      assert Reports(errors, Phone, Required) && Reports(errors, Phone, Matches);
    }
  }

  /** With both areas set: the minimum is reported for being negative or
      above the maximum, and the maximum only for not being positive, since
      yup drops its `min(ref('min'))`. So min > max with a positive maximum
      is reported on the minimum alone, and a maximum of 0 is never
      accepted. */
  lemma AreaRules(valid: string -> bool, lead: Lead, min: real, max: real)
    requires lead.rangeField == Bounds(Some(min), Some(max))
    ensures Reports(Validate(valid, lead), RangeFieldMin, NonNegative) <==> min < 0.0
    ensures Reports(Validate(valid, lead), RangeFieldMin, NotAboveMax) <==> min > max
    ensures Reports(Validate(valid, lead), RangeFieldMax, Positive) <==> max <= 0.0
    ensures RangeFieldMin !in Validate(valid, lead) <==> 0.0 <= min <= max
    ensures RangeFieldMax !in Validate(valid, lead) <==> 0.0 < max
    ensures RangeFieldMax in Validate(valid, lead) ==> Validate(valid, lead)[RangeFieldMax] == {Positive}
    ensures min > max ==> RangeFieldMin in Validate(valid, lead)
    ensures max == 0.0 ==> RangeFieldMax in Validate(valid, lead)
  {
    var errors := Validate(valid, lead);
    assert !Reports(errors, RangeFieldMin, Required) && !Reports(errors, RangeFieldMax, Required);
    if RangeFieldMin in errors {
      var rule :| rule in errors[RangeFieldMin];
      assert Reports(errors, RangeFieldMin, rule);
    }
    if RangeFieldMax in errors {
      forall rule | rule in errors[RangeFieldMax] ensures rule == Positive {
        assert Reports(errors, RangeFieldMax, rule);
      }
      var rule :| rule in errors[RangeFieldMax];
      assert Reports(errors, RangeFieldMax, rule);
    }
  }

  /** Under every declared rule, the maximum would also be reported for
      being below the minimum, so min > max would mark both fields. */
  lemma DeclaredAreaRules(valid: string -> bool, lead: Lead, min: real, max: real)
    requires lead.rangeField == Bounds(Some(min), Some(max))
    ensures Reports(ValidateAsDeclared(valid, lead), RangeFieldMax, NotBelowMin) <==> max < min
    ensures RangeFieldMax !in ValidateAsDeclared(valid, lead) <==> min <= max && 0.0 < max
    ensures min > max ==> RangeFieldMin in ValidateAsDeclared(valid, lead) && RangeFieldMax in ValidateAsDeclared(valid, lead)
  {
    var errors := ValidateAsDeclared(valid, lead);
    assert !Reports(errors, RangeFieldMax, Required);
    assert Reports(errors, RangeFieldMin, NotAboveMax) <==> min > max;
    if RangeFieldMax in errors {
      var rule :| rule in errors[RangeFieldMax];
      assert Reports(errors, RangeFieldMax, rule);
    }
  }

  /** An area of 50 to 30 is reported on the minimum alone, although the
      schema declares a message for a maximum below the minimum; a minimum
      of -5 is reported only as negative. */
  lemma AreaExamples(valid: string -> bool, lead: Lead)
    ensures lead.rangeField == Bounds(Some(50.0), Some(30.0)) ==>
              Validate(valid, lead)[RangeFieldMin] == {NotAboveMax}
              && RangeFieldMax !in Validate(valid, lead)
              && Reports(ValidateAsDeclared(valid, lead), RangeFieldMax, NotBelowMin)
    ensures lead.rangeField == Bounds(Some(-5.0), Some(10.0)) ==>
              Validate(valid, lead)[RangeFieldMin] == {NonNegative}
  {
    var errors := Validate(valid, lead);
    if lead.rangeField == Bounds(Some(50.0), Some(30.0)) {
      AreaRules(valid, lead, 50.0, 30.0);
      DeclaredAreaRules(valid, lead, 50.0, 30.0);
      forall rule | rule in errors[RangeFieldMin] ensures rule == NotAboveMax {
        assert Reports(errors, RangeFieldMin, rule);
      }
    }
    if lead.rangeField == Bounds(Some(-5.0), Some(10.0)) {
      assert Reports(errors, RangeFieldMin, NonNegative);
      forall rule | rule in errors[RangeFieldMin] ensures rule == NonNegative {
        assert Reports(errors, RangeFieldMin, rule);
      }
    }
  }

  /** With both dates set: each is reported by `is-valid-date` exactly when
      the date check rejects it; the end is reported by `is-later` only when
      both are valid, and then, for dates written `DD.MM.YYYY`, exactly when
      the end is not strictly after the start. Equal valid dates are
      rejected. */
  lemma DateRules(valid: string -> bool, lead: Lead, min: string, max: string)
    requires lead.rangeDate == Bounds(Some(min), Some(max))
    ensures Reports(Validate(valid, lead), RangeDateMin, ValidDate) <==> !valid(min)
    ensures Reports(Validate(valid, lead), RangeDateMax, ValidDate) <==> !valid(max)
    ensures !valid(min) || !valid(max) ==> !Reports(Validate(valid, lead), RangeDateMax, Later)
    ensures valid(min) && valid(max) && IsDotted(min) && IsDotted(max) ==>
              (Reports(Validate(valid, lead), RangeDateMax, Later) <==>
                 !(ReadDotted(min).Some? && ReadDotted(max).Some? && Before(ReadDotted(min).value, ReadDotted(max).value)))
    ensures valid(min) && min == max ==> Reports(Validate(valid, lead), RangeDateMax, Later)
  {
    var errors := Validate(valid, lead);
    assert Reports(errors, RangeDateMax, Later) <==> !LaterTest(valid, Some(min), Some(max));
    if valid(min) && valid(max) && IsDotted(min) && IsDotted(max) {
      LaterOnDottedDates(valid, min, max);
    }
    if valid(min) && min == max {
      SameDateRejected(valid, min);
    }
  }
}
