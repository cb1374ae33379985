/** The checkbox state machines that keep each "TODOS" (select all) box in
    step with its option boxes. The year and month callbacks share one rule;
    the four category callbacks share another. Each takes what fired the
    callback, the TODOS value (`None` when unset), the option values and the
    number of options, and either replaces both or leaves the page alone. */
module SelectionSync {
  import opened Base

  /** What fired the callback: nothing yet (page load), the TODOS box, or one
      of the option boxes. */
  datatype Trigger = Untriggered | TodosBox | OptionBox

  /** New option values and TODOS value, or `PreventUpdate`. */
  datatype SyncOut = Update(values: seq<bool>, todos: bool) | PreventUpdate

  /** Python truthiness of an optional flag. */
  predicate Truthy(b: Option<bool>)
  {
    b.Some? && b.value
  }

  /** `sync_year_checkboxes` and `sync_month_checkboxes` over `n` options. */
  function SyncYearMonth(t: Trigger, todos: Option<bool>, values: seq<bool>, n: nat): (r: SyncOut)
    ensures r.Update?
  {
    match t
    case Untriggered => Update(Repeat(true, n), true)
    case TodosBox =>
      if !Truthy(todos) then Update(Repeat(false, n), false) else Update(Repeat(true, n), true)
    case OptionBox =>
      if |values| == 0 then Update(Repeat(false, n), false)
      else if !Any(values) then Update(Repeat(false, n), false)
      else if All(values) then Update(Repeat(true, n), true)
      else Update(values, false)
  }

  /** The rule of the especialidade, pagamento, profissional and segmento
      callbacks over `n` options. */
  function SyncCategory(t: Trigger, todos: Option<bool>, values: seq<bool>, n: nat): (r: SyncOut)
    ensures r.Update? && n > 0 ==> r.todos == All(r.values)
    ensures t.OptionBox? && |values| > 0 ==> r == Update(values, All(values))
  {
    RepeatAll(n);
    match t
    case Untriggered => PreventUpdate
    case OptionBox =>
      if |values| == 0 then Update(Repeat(false, n), false) else Update(values, All(values))
    case TodosBox =>
      if todos.None? then PreventUpdate else Update(Repeat(todos.value, n), todos.value)
  }

  lemma RepeatAll(n: nat)
    ensures n > 0 ==> All(Repeat(true, n)) && !All(Repeat(false, n))
  {
    if n > 0 {
      AllRepeat(true, n);
      AllRepeat(false, n);
    }
  }

  lemma AllRepeat(b: bool, n: nat)
    requires n > 0
    ensures All(Repeat(b, n)) == b
  {
    if !b {
      assert !Repeat(b, n)[0];
    }
  }

  /** With at least one option, TODOS comes out checked exactly when every
      option does, whatever fired the year/month rule. */
  lemma YearMonthTodosIsAll(t: Trigger, todos: Option<bool>, values: seq<bool>, n: nat)
    requires n > 0
    ensures SyncYearMonth(t, todos, values, n).todos == All(SyncYearMonth(t, todos, values, n).values)
  {
    var r := SyncYearMonth(t, todos, values, n);
    if r.values == Repeat(r.todos, n) {
      AllRepeat(r.todos, n);
    }
  }

  /** The same for the category rule, whenever it updates. */
  lemma CategoryTodosIsAll(t: Trigger, todos: Option<bool>, values: seq<bool>, n: nat)
    requires n > 0
    requires SyncCategory(t, todos, values, n).Update?
    ensures SyncCategory(t, todos, values, n).todos == All(SyncCategory(t, todos, values, n).values)
  {
    var r := SyncCategory(t, todos, values, n);
    if r.values == Repeat(r.todos, n) {
      AllRepeat(r.todos, n);
    }
  }

  /** The year/month rule starts with every option and TODOS checked. */
  lemma InitialAllSelected(todos: Option<bool>, values: seq<bool>, n: nat)
    ensures var r := SyncYearMonth(Untriggered, todos, values, n);
      |r.values| == n && r.todos && All(r.values)
  {
  }

  /** An option click never overrides the user's choice: the year/month rule's
      normalizing branches change nothing once the list has `n` entries, and
      the category rule passes a non-empty list through. */
  lemma OptionClickKeepsChoice(todos: Option<bool>, values: seq<bool>, n: nat)
    requires |values| == n
    ensures SyncYearMonth(OptionBox, todos, values, n).values == values
    ensures n > 0 ==> SyncCategory(OptionBox, todos, values, n) == Update(values, All(values))
  {
    if n > 0 && !Any(values) {
      assert forall i :: 0 <= i < n ==> !values[i];
    }
  }

  /** A TODOS click sets every option to the new TODOS value under both
      rules, unless the value is unset, where the category rule does nothing. */
  lemma TodosClickSetsAll(todos: Option<bool>, values: seq<bool>, n: nat)
    ensures todos.Some? ==> SyncCategory(TodosBox, todos, values, n) == Update(Repeat(todos.value, n), todos.value)
    ensures todos.None? ==> SyncCategory(TodosBox, todos, values, n) == PreventUpdate
    ensures SyncYearMonth(TodosBox, todos, values, n) == Update(Repeat(Truthy(todos), n), Truthy(todos))
  {
  }

  /** On option clicks with one value per option the two rules agree. */
  lemma RulesAgreeOnOptions(todos: Option<bool>, values: seq<bool>, n: nat)
    requires |values| == n
    ensures SyncYearMonth(OptionBox, todos, values, n) == SyncCategory(OptionBox, todos, values, n)
  {
    OptionClickKeepsChoice(todos, values, n);
    if n > 0 && All(values) {
      assert values == Repeat(true, n);
    }
    if n > 0 && !Any(values) {
      assert All(values) == false by {
        assert !values[0];
      }
    }
  }

  /** On a TODOS click with a set value the two rules agree too. */
  lemma RulesAgreeOnTodos(b: bool, values: seq<bool>, n: nat)
    ensures SyncYearMonth(TodosBox, Some(b), values, n) == SyncCategory(TodosBox, Some(b), values, n)
  {
  }

  // ----- Sessions: a page's boxes under a sequence of clicks -----

  datatype Rule = YearMonthRule | CategoryRule

  function Apply(rule: Rule, t: Trigger, todos: Option<bool>, values: seq<bool>, n: nat): SyncOut
  {
    match rule
    case YearMonthRule => SyncYearMonth(t, todos, values, n)
    case CategoryRule => SyncCategory(t, todos, values, n)
  }

  /** What the page shows: the option boxes and the TODOS box. */
  datatype State = State(values: seq<bool>, todos: Option<bool>)

  /** A user click: the TODOS box, or option `index`, set to `checked`. */
  datatype Event = ClickTodos(checked: bool) | ClickOption(index: nat, checked: bool)

  /** Every box starts checked. */
  function Initial(n: nat): State
  {
    State(Repeat(true, n), Some(true))
  }

  /** The browser applies the click; the callback's outputs, if any, then
      overwrite the boxes. A click on an option that is not shown does nothing. */
  function Step(rule: Rule, s: State, e: Event, n: nat): State
  {
    match e
    case ClickTodos(b) =>
      (match Apply(rule, TodosBox, Some(b), s.values, n)
       case PreventUpdate => State(s.values, Some(b))
       case Update(vs, td) => State(vs, Some(td)))
    case ClickOption(i, b) =>
      if i >= |s.values| then s
      else
        var vs0 := s.values[i := b];
        (match Apply(rule, OptionBox, s.todos, vs0, n)
         case PreventUpdate => State(vs0, s.todos)
         case Update(vs, td) => State(vs, Some(td)))
  }

  function Run(rule: Rule, s: State, events: seq<Event>, n: nat): State
    decreases |events|
  {
    if |events| == 0 then s else Run(rule, Step(rule, s, events[0], n), events[1..], n)
  }

  /** The page is consistent: one box per option, and TODOS checked exactly
      when every option is. */
  predicate Consistent(s: State, n: nat)
  {
    |s.values| == n && s.todos == Some(All(s.values))
  }

  lemma StepConsistent(rule: Rule, s: State, e: Event, n: nat)
    requires n > 0 && Consistent(s, n)
    ensures Consistent(Step(rule, s, e, n), n)
  {
    match e
    case ClickTodos(b) =>
      YearMonthTodosIsAll(TodosBox, Some(b), s.values, n);
    case ClickOption(i, b) =>
      if i < |s.values| {
        var vs0 := s.values[i := b];
        YearMonthTodosIsAll(OptionBox, s.todos, vs0, n);
        OptionClickKeepsChoice(s.todos, vs0, n);
      }
  }

  /** From the initial page, every sequence of clicks leaves the page
      consistent, under either rule. */
  lemma {:induction false} SessionConsistent(rule: Rule, s: State, events: seq<Event>, n: nat)
    requires n > 0 && Consistent(s, n)
    ensures Consistent(Run(rule, s, events, n), n)
    decreases |events|
  {
    if |events| > 0 {
      StepConsistent(rule, s, events[0], n);
      SessionConsistent(rule, Step(rule, s, events[0], n), events[1..], n);
    }
  }

  lemma InitialConsistent(n: nat)
    requires n > 0
    ensures Consistent(Initial(n), n)
  {
  }

  lemma StepsAgree(s: State, e: Event, n: nat)
    requires |s.values| == n
    ensures Step(YearMonthRule, s, e, n) == Step(CategoryRule, s, e, n)
    ensures |Step(YearMonthRule, s, e, n).values| == n
  {
    match e
    case ClickTodos(b) =>
      RulesAgreeOnTodos(b, s.values, n);
    case ClickOption(i, b) =>
      if i < |s.values| {
        RulesAgreeOnOptions(s.todos, s.values[i := b], n);
        OptionClickKeepsChoice(s.todos, s.values[i := b], n);
      }
  }

  /** The two hand-written rules are interchangeable: from a page with one
      box per option, the same clicks lead to the same page. */
  lemma {:induction false} SessionsAgree(s: State, events: seq<Event>, n: nat)
    requires |s.values| == n
    ensures Run(YearMonthRule, s, events, n) == Run(CategoryRule, s, events, n)
    decreases |events|
  {
    if |events| > 0 {
      StepsAgree(s, events[0], n);
      SessionsAgree(Step(YearMonthRule, s, events[0], n), events[1..], n);
    }
  }
}
