/** The checkout page: payment cards and price plans fetched as untyped JSON
    and checked structurally, the plan list and its selection, the grouping
    of card numbers, the payment-confirmation form and the 15-minute
    countdown. */
module OrderPage {
  import opened Optional
  import opened Text
  import opened Seqs
  import opened StableSort
  import opened Json

  /* ----- Structural checks ----- */

  /** `typeof id === "number" || typeof id === "string"`. */
  predicate IsId(o: Option<Value>) {
    o.Some? && (o.value.Number? || o.value.Str?)
  }

  /** `isPaymentCard`: an object with a numeric or string `id` and string
      `card_number`, `full_name` and `type`. */
  predicate IsPaymentCard(v: Value) {
    && v.Object?
    && IsId(Member(v, "id"))
    && IsString(Member(v, "card_number"))
    && IsString(Member(v, "full_name"))
    && IsString(Member(v, "type"))
  }

  /** `isPricePlan`: an object with a numeric or string `id`, string `course`
      and `price`, and a boolean `is_active`. */
  predicate IsPricePlan(v: Value) {
    && v.Object?
    && IsId(Member(v, "id"))
    && IsString(Member(v, "course"))
    && IsString(Member(v, "price"))
    && Member(v, "is_active").Some? && Member(v, "is_active").value.Bool?
  }

  /** Only objects can pass either check. */
  lemma ChecksNeedObjects(v: Value)
    ensures IsPaymentCard(v) || IsPricePlan(v) ==> v.Object? && "id" in v.fields
    ensures !v.Object? ==> !IsPaymentCard(v) && !IsPricePlan(v)
  {
  }

  /** A payment card is exactly an object whose `id` is a number or a string
      and whose `card_number`, `full_name` and `type` are strings; a missing
      member of the four fails the check. */
  lemma PaymentCardMembers(v: Value)
    ensures IsPaymentCard(v) <==>
      && v.Object?
      && "id" in v.fields && (v.fields["id"].Number? || v.fields["id"].Str?)
      && "card_number" in v.fields && v.fields["card_number"].Str?
      && "full_name" in v.fields && v.fields["full_name"].Str?
      && "type" in v.fields && v.fields["type"].Str?
  {
  }

  /** A price plan is exactly an object whose `id` is a number or a string,
      whose `course` and `price` are strings and whose `is_active` is a
      boolean; a missing member of the four fails the check. */
  lemma PricePlanMembers(v: Value)
    ensures IsPricePlan(v) <==>
      && v.Object?
      && "id" in v.fields && (v.fields["id"].Number? || v.fields["id"].Str?)
      && "course" in v.fields && v.fields["course"].Str?
      && "price" in v.fields && v.fields["price"].Str?
      && "is_active" in v.fields && v.fields["is_active"].Bool?
  {
  }

  /* ----- Payload normalisation ----- */

  /** Why a fetch yields nothing: the request failed, or reading `.results`
      of a `null` body threw. Both end in the same catch block. */
  datatype LoadError = RequestFailed | NullPayload

  /** `Array.isArray(payload) ? payload : (Array.isArray(payload.results) ?
      payload.results : [])`. */
  function RawList(payload: Value): (r: Result<seq<Value>, LoadError>)
    ensures r.Err? <==> payload.Null?
    ensures payload.Array? ==> r == Ok(payload.items)
    ensures payload.Object? && "results" in payload.fields && payload.fields["results"].Array? ==>
      r == Ok(payload.fields["results"].items)
    ensures r.Ok? && r.value != [] ==>
      payload.Array? || (payload.Object? && "results" in payload.fields && payload.fields["results"] == Array(r.value))
  {
    if payload.Null? then Err(NullPayload)
    else if payload.Array? then Ok(payload.items)
    else if payload.Object? && "results" in payload.fields && payload.fields["results"].Array? then
      Ok(payload.fields["results"].items)
    else Ok([])
  }

  /** The payment cards kept from a payload. */
  function Cards(payload: Value): (r: Result<seq<Value>, LoadError>)
    ensures r.Err? <==> payload.Null?
    ensures r.Ok? ==> forall i :: 0 <= i < |r.value| ==> IsPaymentCard(r.value[i]) && r.value[i] in RawList(payload).value
    ensures r.Ok? ==> forall i :: 0 <= i < |RawList(payload).value| && IsPaymentCard(RawList(payload).value[i]) ==>
      RawList(payload).value[i] in r.value
    ensures r.Ok? && (forall i :: 0 <= i < |RawList(payload).value| ==> IsPaymentCard(RawList(payload).value[i])) ==>
      r.value == RawList(payload).value
  {
    match RawList(payload)
    case Err(e) => Err(e)
    case Ok(raw) => Ok(Filter(raw, IsPaymentCard))
  }

  /** The kept cards of a one-element array are that element if it is a card
      and nothing otherwise. */
  lemma CardsSingle(v: Value)
    ensures Cards(Array([v])) == Ok(if IsPaymentCard(v) then [v] else [])
  {
    assert [v][1..] == [];
  }

  /** Cards are kept in payload order: the cards of two concatenated arrays
      are the cards of the first followed by those of the second. With
      `CardsSingle` this determines the kept list of every array. */
  lemma CardsConcat(a: seq<Value>, b: seq<Value>)
    ensures Cards(Array(a + b)) == Ok(Cards(Array(a)).value + Cards(Array(b)).value)
  {
    FilterConcat(a, b, IsPaymentCard);
  }

  /* ----- Plans ----- */

  /** `Number.MAX_SAFE_INTEGER`, the sort key of a plan without an order. */
  const MaxSafeInteger := 9007199254740991

  predicate IsActivePlan(v: Value) {
    Member(v, "is_active") == Some(Bool(true))
  }

  /** `plan.order ?? Number.MAX_SAFE_INTEGER`. */
  function PlanOrderKey(v: Value): int {
    var order := Member(v, "order");
    if order.Some? && order.value.Number? then order.value.n else MaxSafeInteger
  }

  /** The valid, active plans in payload order. */
  function ValidActivePlans(raw: seq<Value>): (r: seq<Value>)
    ensures forall i :: 0 <= i < |r| ==> IsPricePlan(r[i]) && IsActivePlan(r[i]) && r[i] in raw
    ensures forall i :: 0 <= i < |raw| && IsPricePlan(raw[i]) && IsActivePlan(raw[i]) ==> raw[i] in r
    ensures (forall i :: 0 <= i < |raw| ==> IsPricePlan(raw[i]) && IsActivePlan(raw[i])) ==> r == raw
  {
    Filter(Filter(raw, IsPricePlan), IsActivePlan)
  }

  /** A one-element payload keeps its element exactly when it is a valid,
      active plan. */
  lemma ValidActivePlansSingle(v: Value)
    ensures ValidActivePlans([v]) == if IsPricePlan(v) && IsActivePlan(v) then [v] else []
  {
    assert [v][1..] == [];
    var f := Filter([v], IsPricePlan);
    assert f == if IsPricePlan(v) then [v] else [];
    if IsPricePlan(v) {
      assert Filter(f, IsActivePlan) == (if IsActivePlan(v) then [v] else []) + Filter([], IsActivePlan);
    }
  }

  /** Plans are kept in payload order: the kept plans of two concatenated
      payloads are those of the first followed by those of the second. With
      `ValidActivePlansSingle` this determines the kept list, which fixes
      the order of ties in `ActivePlans`. */
  lemma ValidActivePlansConcat(a: seq<Value>, b: seq<Value>)
    ensures ValidActivePlans(a + b) == ValidActivePlans(a) + ValidActivePlans(b)
  {
    FilterConcat(a, b, IsPricePlan);
    FilterConcat(Filter(a, IsPricePlan), Filter(b, IsPricePlan), IsActivePlan);
  }

  /** The plan list: valid, active plans, all of them, ordered by `order` with
      missing orders last, ties in payload order. */
  function ActivePlans(raw: seq<Value>): (r: seq<Value>)
    ensures forall i :: 0 <= i < |r| ==> IsPricePlan(r[i]) && IsActivePlan(r[i]) && r[i] in raw
    ensures forall i :: 0 <= i < |raw| && IsPricePlan(raw[i]) && IsActivePlan(raw[i]) ==> raw[i] in r
    ensures Sorted(r, PlanOrderKey)
    ensures multiset(r) == multiset(ValidActivePlans(raw))
    ensures forall k :: KeyFilter(r, PlanOrderKey, k) == KeyFilter(ValidActivePlans(raw), PlanOrderKey, k)
  {
    var valid := ValidActivePlans(raw);
    SortStableAll(valid, PlanOrderKey);
    var r := Sort(valid, PlanOrderKey);
    forall i | 0 <= i < |r|
      ensures IsPricePlan(r[i]) && IsActivePlan(r[i]) && r[i] in raw
    {
      assert r[i] in multiset(valid);
    }
    forall i | 0 <= i < |raw| && IsPricePlan(raw[i]) && IsActivePlan(raw[i])
      ensures raw[i] in r
    {
      assert raw[i] in multiset(valid);
    }
    r
  }

  /** A plan without an order sorts after every plan whose order is a
      safe integer. */
  lemma UnorderedPlansLast(raw: seq<Value>, i: int, j: int)
    requires 0 <= i < |ActivePlans(raw)| && 0 <= j < |ActivePlans(raw)|
    requires Member(ActivePlans(raw)[i], "order").None?
    requires var o := Member(ActivePlans(raw)[j], "order"); o.Some? && o.value.Number? && o.value.n < MaxSafeInteger
    ensures j < i
  {
    var r := ActivePlans(raw);
    UnorderedKeyLarger(r[i], r[j]);
    SmallerKeyFirst(r, PlanOrderKey, i, j);
  }

  lemma UnorderedKeyLarger(a: Value, b: Value)
    requires Member(a, "order").None?
    requires var o := Member(b, "order"); o.Some? && o.value.Number? && o.value.n < MaxSafeInteger
    ensures PlanOrderKey(b) < PlanOrderKey(a)
  {
  }

  /** `String(plan.id)` for a number or string id. */
  function IdString(v: Value): string {
    var id := Member(v, "id");
    if id.Some? && id.value.Number? then IntToString(id.value.n)
    else if id.Some? && id.value.Str? then id.value.s
    else ""
  }

  predicate Lists(plans: seq<Value>, id: string) {
    exists i :: 0 <= i < |plans| && IdString(plans[i]) == id
  }

  /** The selection after a load: the previous id when it is a non-empty
      string some plan carries, otherwise the first plan's id, otherwise
      nothing. */
  function Reselect(prev: Option<string>, plans: seq<Value>): (r: Option<string>)
    ensures r.None? <==> |plans| == 0
    ensures r.Some? ==> Lists(plans, r.value)
    ensures prev.Some? && prev.value != "" && Lists(plans, prev.value) ==> r == prev
    ensures !(prev.Some? && prev.value != "" && Lists(plans, prev.value)) && |plans| > 0 ==>
      r == Some(IdString(plans[0]))
  {
    if prev.Some? && prev.value != "" && Lists(plans, prev.value) then prev
    else if |plans| > 0 then Some(IdString(plans[0]))
    else None
  }

  /** Reloading the same plans keeps the selection. */
  lemma ReselectIdempotent(prev: Option<string>, plans: seq<Value>)
    ensures Reselect(Reselect(prev, plans), plans) == Reselect(prev, plans)
  {
    var r := Reselect(prev, plans);
    if r.Some? && r.value == "" && !(prev.Some? && prev.value != "" && Lists(plans, prev.value)) {
      assert r == Some(IdString(plans[0]));
    }
  }

  /** `plans.find((plan) => String(plan.id) === selectedPlanId) ?? null`:
      the first listed plan with the selected id, if any. */
  function SelectedPlan(plans: seq<Value>, selected: Option<string>): (r: Option<Value>)
    ensures r.Some? <==> selected.Some? && Lists(plans, selected.value)
    ensures r.Some? ==>
      (exists i :: && 0 <= i < |plans| && r.value == plans[i] && IdString(plans[i]) == selected.value
                   && forall j :: 0 <= j < i ==> IdString(plans[j]) != selected.value)
  {
    if selected.None? then None
    else
      var i := FirstIndex(Project(plans, IdString), selected.value);
      if i < |plans| then Some(plans[i]) else None
  }

  /** The plans part of the page state. */
  datatype PlansState = PlansState(
    plans: seq<Value>,
    selected: Option<string>,
    error: Option<string>,
    loading: bool)

  const PlansErrorMessage := "Tariflarni yuklab bo'lmadi. Iltimos, qayta urinib ko'ring."

  /** The state when the plans request settles with `response` (`None` when
      the request itself failed). */
  function LoadPlans(st: PlansState, response: Option<Value>): (r: PlansState)
    ensures !r.loading
    ensures r.error.None? <==> response.Some? && !response.value.Null?
    ensures r.error.None? ==>
      r.plans == ActivePlans(RawList(response.value).value) && r.selected == Reselect(st.selected, r.plans)
    ensures r.error.Some? ==> r.plans == st.plans && r.selected == st.selected
  {
    var raw := if response.Some? then RawList(response.value) else Err(RequestFailed);
    match raw
    case Err(_) => st.(error := Some(PlansErrorMessage), loading := false)
    case Ok(items) =>
      var plans := ActivePlans(items);
      PlansState(plans, Reselect(st.selected, plans), None, false)
  }

  /** Whatever the responses, the selection is `null` or names a listed plan
      once it was so before, and a listed plan is then found for it. */
  lemma SelectionStaysListed(st: PlansState, response: Option<Value>)
    requires st.selected.None? || Lists(st.plans, st.selected.value)
    ensures var r := LoadPlans(st, response);
      && (r.selected.None? || Lists(r.plans, r.selected.value))
      && (r.selected.Some? ==> SelectedPlan(r.plans, r.selected).Some?)
      && (r.plans != [] && r.error.None? ==> r.selected.Some?)
  {
  }

  /** Clicking a plan in the open list: `setSelectedPlanId(String(plan.id))`.
      Only the selection changes. */
  function PickPlan(st: PlansState, plan: Value): (r: PlansState)
    ensures r.selected == Some(IdString(plan))
    ensures r.plans == st.plans && r.error == st.error && r.loading == st.loading
  {
    st.(selected := Some(IdString(plan)))
  }

  /** After clicking the `i`-th listed plan the page shows a plan with that
      plan's id, the clicked plan itself unless an earlier plan shares its
      id, and a reload listing the id again keeps the pick when the id is
      non-empty. */
  lemma PickPlanShown(st: PlansState, i: int, response: Value)
    requires 0 <= i < |st.plans|
    ensures var r := PickPlan(st, st.plans[i]);
      && SelectedPlan(r.plans, r.selected).Some?
      && IdString(SelectedPlan(r.plans, r.selected).value) == IdString(st.plans[i])
      && ((forall j :: 0 <= j < i ==> IdString(st.plans[j]) != IdString(st.plans[i])) ==>
            SelectedPlan(r.plans, r.selected) == Some(st.plans[i]))
    ensures var r := PickPlan(st, st.plans[i]);
      var next := LoadPlans(r, Some(response));
      IdString(st.plans[i]) != "" && next.error.None? && Lists(next.plans, IdString(st.plans[i])) ==>
        next.selected == Some(IdString(st.plans[i]))
  {
    var r := PickPlan(st, st.plans[i]);
    var id := IdString(st.plans[i]);
    assert Lists(st.plans, id);
    var found := SelectedPlan(r.plans, r.selected);
    var k :| && 0 <= k < |st.plans| && found.value == st.plans[k] && IdString(st.plans[k]) == id
             && forall j :: 0 <= j < k ==> IdString(st.plans[j]) != id;
    if forall j :: 0 <= j < i ==> IdString(st.plans[j]) != id {
      assert !(k < i) && !(i < k);
    }
  }

  /** The cards part of the page state. */
  datatype CardsState = CardsState(cards: seq<Value>, error: Option<string>, loading: bool)

  const CardsErrorMessage := "To'lov kartalarini yuklab bo'lmadi. Iltimos, qayta urinib ko'ring."

  function LoadCards(st: CardsState, response: Option<Value>): (r: CardsState)
    ensures !r.loading
    ensures r.error.None? <==> response.Some? && !response.value.Null?
    ensures r.error.None? ==> r.cards == Cards(response.value).value
    ensures r.error.Some? ==> r.cards == st.cards
  {
    var cards := if response.Some? then Cards(response.value) else Err(RequestFailed);
    match cards
    case Err(_) => st.(error := Some(CardsErrorMessage), loading := false)
    case Ok(cs) => CardsState(cs, None, false)
  }

  /* ----- Card numbers ----- */

  /** `s.replace(/\D/g, "")`. */
  function DigitsOf(s: string): (r: string)
    ensures IsDigits(r)
  {
    Filter(s, IsDigit)
  }

  predicate IsNotSpace(c: char) {
    c != ' '
  }

  /** The text with its spaces deleted. */
  function RemoveSpaces(s: string): string {
    Filter(s, IsNotSpace)
  }

  /** `d.replace(/(.{4})/g, "$1 ")`: a space after every complete group of
      four characters. */
  function GroupBy4(d: string): string {
    if |d| >= 4 then d[..4] + " " + GroupBy4(d[4..]) else d
  }

  /** `formatCardNumber`. */
  function FormatCardNumber(s: string): string {
    Trim(GroupBy4(DigitsOf(s)))
  }

  /** The shape of a grouped card number: spaces exactly at every fifth
      position, digits elsewhere, and no space at the end. So the groups are
      separated by single spaces, all but the last have four digits, and the
      last has one to four. */
  predicate CardShape(r: string) {
    SpacedEveryFifth(r) && |r| % 5 != 0
  }

  predicate SpacedEveryFifth(r: string) {
    && (forall i :: 0 <= i < |r| ==> (r[i] == ' ' <==> i % 5 == 4))
    && (forall i :: 0 <= i < |r| && r[i] != ' ' ==> IsDigit(r[i]))
  }

  lemma {:induction false} GroupBy4Shape(d: string)
    requires IsDigits(d)
    ensures |GroupBy4(d)| == |d| + |d| / 4
    ensures forall i :: 0 <= i < |GroupBy4(d)| ==> (GroupBy4(d)[i] == ' ' <==> i % 5 == 4)
    ensures forall i :: 0 <= i < |GroupBy4(d)| && GroupBy4(d)[i] != ' ' ==> IsDigit(GroupBy4(d)[i])
  {
    if |d| >= 4 {
      var rest := d[4..];
      var g := GroupBy4(d);
      GroupBy4Shape(rest);
      forall i | 0 <= i < |g|
        ensures (g[i] == ' ' <==> i % 5 == 4)
        ensures g[i] != ' ' ==> IsDigit(g[i])
      {
        if i >= 5 {
          assert g[i] == GroupBy4(rest)[i - 5];
        } else if i < 4 {
          assert g[i] == d[i];
        }
      }
    }
  }

  /** Grouping only inserts spaces. */
  lemma GroupBy4Content(d: string)
    requires IsDigits(d)
    ensures DigitsOf(GroupBy4(d)) == d
    ensures RemoveSpaces(GroupBy4(d)) == d
  {
    GroupedFilter(d, IsDigit);
    GroupedFilter(d, IsNotSpace);
  }

  /** Any filter that keeps digits and drops the space undoes grouping. */
  lemma {:induction false} GroupedFilter(d: string, p: char -> bool)
    requires IsDigits(d)
    requires !p(' ') && forall c :: IsDigit(c) ==> p(c)
    ensures Filter(GroupBy4(d), p) == d
  {
    if |d| >= 4 {
      var rest := d[4..];
      GroupedFilter(rest, p);
      GroupStep(d[..4], GroupBy4(rest), rest, p);
      assert GroupBy4(d) == d[..4] + (" " + GroupBy4(rest));
      assert d == d[..4] + rest;
    } else {
      KeepsDigits(d, p);
    }
  }

  /** One group of four digits and its space, in front of a filtered tail. */
  lemma GroupStep(head: string, g: string, rest: string, p: char -> bool)
    requires IsDigits(head)
    requires !p(' ') && forall c :: IsDigit(c) ==> p(c)
    requires Filter(g, p) == rest
    ensures Filter(head + (" " + g), p) == head + rest
  {
    calc {
      Filter(head + (" " + g), p);
      { FilterConcat(head, " " + g, p); }
      Filter(head, p) + Filter(" " + g, p);
      { FilterConcat(" ", g, p); DropsSpace(p); }
      Filter(head, p) + Filter(g, p);
      { KeepsDigits(head, p); }
      head + rest;
    }
  }

  lemma DropsSpace(p: char -> bool)
    requires !p(' ')
    ensures Filter(" ", p) == []
  {
  }

  lemma KeepsDigits(d: string, p: char -> bool)
    requires IsDigits(d)
    requires forall c :: IsDigit(c) ==> p(c)
    ensures Filter(d, p) == d
  {
  }

  /** Dropping one trailing space that follows a digit is all `trim` does to
      a grouped card number. */
  lemma TrimGrouped(g: string)
    requires |g| > 0 && !IsJsWhitespace(g[0])
    ensures g[|g| - 1] == ' ' && |g| >= 2 && !IsJsWhitespace(g[|g| - 2]) ==> Trim(g) == g[..|g| - 1]
    ensures !IsJsWhitespace(g[|g| - 1]) ==> Trim(g) == g
  {
    if g[|g| - 1] == ' ' && |g| >= 2 && !IsJsWhitespace(g[|g| - 2]) {
      var init := g[..|g| - 1];
      assert TrimEnd(g) == TrimEnd(init);
      assert init[0] == g[0];
      TrimNoOp(init);
    } else if !IsJsWhitespace(g[|g| - 1]) {
      TrimNoOp(g);
    }
  }

  /** Formatting a card number: the output has the grouped shape, and
      deleting its spaces gives back exactly the digits of the input. */
  lemma FormatCardNumberShape(s: string)
    ensures var r := FormatCardNumber(s);
      && (r == "" <==> DigitsOf(s) == "")
      && RemoveSpaces(r) == DigitsOf(s)
      && DigitsOf(r) == DigitsOf(s)
      && (r != "" ==> CardShape(r))
  {
    var d := DigitsOf(s);
    if |d| > 0 {
      TrimmedGrouping(d);
    } else {
      assert GroupBy4(d) == "";
    }
  }

  lemma TrimmedGrouping(d: string)
    requires IsDigits(d) && |d| > 0
    ensures var r := Trim(GroupBy4(d));
      r != "" && CardShape(r) && DigitsOf(r) == d && RemoveSpaces(r) == d
  {
    var g := GroupBy4(d);
    GroupBy4Shape(d);
    GroupBy4Content(d);
    GroupedEnds(d);
    TrimSpaced(g, d);
  }

  /** Trimming a spaced text that starts with a digit and ends with a digit
      or with a space after a digit leaves the grouped shape. */
  lemma TrimSpaced(g: string, d: string)
    requires |g| > 0 && IsDigit(g[0]) && SpacedEveryFifth(g)
    requires g[|g| - 1] != ' ' ==> IsDigit(g[|g| - 1])
    requires g[|g| - 1] == ' ' ==> |g| >= 2 && IsDigit(g[|g| - 2])
    requires Filter(g, IsDigit) == d && Filter(g, IsNotSpace) == d
    ensures var r := Trim(g);
      r != "" && CardShape(r) && DigitsOf(r) == d && RemoveSpaces(r) == d
  {
    DigitNotWhitespace(g[0]);
    if g[|g| - 1] == ' ' {
      DigitNotWhitespace(g[|g| - 2]);
      TrimGrouped(g);
      TrimSpaceEnded(g, d);
    } else {
      DigitNotWhitespace(g[|g| - 1]);
      TrimGrouped(g);
      LastOfGroup(|g|);
    }
  }

  lemma TrimSpaceEnded(g: string, d: string)
    requires |g| >= 2 && g[|g| - 1] == ' ' && SpacedEveryFifth(g)
    requires Filter(g, IsDigit) == d && Filter(g, IsNotSpace) == d
    ensures var r := g[..|g| - 1];
      r != "" && CardShape(r) && DigitsOf(r) == d && RemoveSpaces(r) == d
  {
    PrefixShape(g);
    DropTrailing(g, IsDigit);
    DropTrailing(g, IsNotSpace);
  }

  /** A filter reads past a last character it drops. */
  lemma DropTrailing(g: string, p: char -> bool)
    requires |g| >= 1 && !p(g[|g| - 1])
    ensures Filter(g[..|g| - 1], p) == Filter(g, p)
  {
    var r := g[..|g| - 1];
    var last := [g[|g| - 1]];
    assert g == r + last;
    FilterConcat(r, last, p);
    assert Filter(last, p) == [];
  }

  /** Dropping a final space from a spaced text keeps its shape and leaves
      a length that is not a multiple of five. */
  lemma PrefixShape(g: string)
    requires |g| >= 2 && g[|g| - 1] == ' ' && SpacedEveryFifth(g)
    ensures SpacedEveryFifth(g[..|g| - 1]) && (|g| - 1) % 5 != 0
  {
    LastOfGroup(|g|);
    LastOfGroup(|g| - 1);
    assert g[|g| - 2] == g[..|g| - 1][|g| - 2];
  }

  /** Position `n - 1` ends a group of five exactly when `n` is a multiple
      of five. */
  lemma LastOfGroup(n: int)
    requires n >= 1
    ensures (n - 1) % 5 == 4 <==> n % 5 == 0
  {
    var q := (n - 1) / 5;
    var m := (n - 1) % 5;
    assert n == 5 * q + m + 1;
    if m == 4 {
      assert n == 5 * (q + 1);
    } else {
      assert n % 5 == m + 1;
    }
  }

  lemma DigitNotWhitespace(c: char)
    requires IsDigit(c)
    ensures !IsJsWhitespace(c)
  {
  }

  /** A grouped, non-empty digit string starts with a digit and ends with
      a digit, or with one space after a digit exactly when the number of
      digits is a multiple of four. */
  lemma GroupedEnds(d: string)
    requires IsDigits(d) && |d| > 0
    ensures var g := GroupBy4(d);
      && |g| > 0 && IsDigit(g[0])
      && (g[|g| - 1] == ' ' <==> |d| % 4 == 0)
      && (g[|g| - 1] != ' ' ==> IsDigit(g[|g| - 1]))
      && (g[|g| - 1] == ' ' ==> |g| >= 2 && IsDigit(g[|g| - 2]))
  {
    var g := GroupBy4(d);
    GroupBy4Shape(d);
    var q := |d| / 4;
    var m := |d| % 4;
    assert |d| == 4 * q + m;
    assert |g| == 5 * q + m;
    assert g[0] != ' ';
    GroupEndPositions(q, m);
  }

  /** Where the last two positions of `q` full groups and `m` more digits
      fall within their group of five. */
  lemma GroupEndPositions(q: nat, m: nat)
    requires m < 4 && 5 * q + m >= 1
    ensures m == 0 ==> (5 * q + m - 1) % 5 == 4 && (5 * q + m - 2) % 5 == 3
    ensures m > 0 ==> (5 * q + m - 1) % 5 == m - 1
  {
    if m == 0 {
      assert 5 * q - 1 == 5 * (q - 1) + 4;
      assert 5 * q - 2 == 5 * (q - 1) + 3;
    } else {
      assert 5 * q + m - 1 == 5 * q + (m - 1);
    }
  }

  /** Formatting twice is formatting once. */
  lemma FormatCardNumberIdempotent(s: string)
    ensures FormatCardNumber(FormatCardNumber(s)) == FormatCardNumber(s)
  {
    FormatCardNumberShape(s);
  }

  /* ----- Confirmation form ----- */

  datatype FormField = FullName | Phone | TelegramUsername

  datatype ConfirmationForm = ConfirmationForm(fullName: string, phone: string, telegramUsername: string)

  /** The confirmation part of the page state; the receipt is an opaque
      file handle. */
  datatype ConfirmationState = ConfirmationState(
    form: ConfirmationForm,
    file: Option<nat>,
    error: Option<string>,
    submitting: bool)

  function FieldOf(form: ConfirmationForm, field: FormField): string {
    match field
    case FullName => form.fullName
    case Phone => form.phone
    case TelegramUsername => form.telegramUsername
  }

  /** `handleFormFieldChange(field, value)`. */
  function ChangeField(st: ConfirmationState, field: FormField, value: string): (r: ConfirmationState)
    ensures FieldOf(r.form, field) == value
    ensures forall other :: other != field ==> FieldOf(r.form, other) == FieldOf(st.form, other)
    ensures r.error.None?
    ensures r.file == st.file && r.submitting == st.submitting
  {
    var form := match field
      case FullName => st.form.(fullName := value)
      case Phone => st.form.(phone := value)
      case TelegramUsername => st.form.(telegramUsername := value);
    st.(form := form, error := None)
  }

  /** `handleFileChange` / `onDrop`: the first chosen file, if any, replaces
      the receipt and clears the error; an empty choice changes nothing. */
  function SelectFile(st: ConfirmationState, files: seq<nat>): (r: ConfirmationState)
    ensures |files| == 0 ==> r == st
    ensures |files| > 0 ==> r.file == Some(files[0]) && r.error.None? && r.form == st.form
  {
    if |files| > 0 then st.(file := Some(files[0]), error := None) else st
  }

  /** `isConfirmationFormValid`. */
  predicate IsFormValid(st: ConfirmationState) {
    && |Trim(st.form.fullName)| > 0
    && |Trim(st.form.phone)| > 0
    && |Trim(st.form.telegramUsername)| > 0
    && st.file.Some?
  }

  predicate Blank(s: string) {
    forall i :: 0 <= i < |s| ==> IsJsWhitespace(s[i])
  }

  /** The form is valid exactly when each field has a non-white-space
      character and a receipt is attached. */
  lemma FormValidIff(st: ConfirmationState)
    ensures IsFormValid(st) <==>
      !Blank(st.form.fullName) && !Blank(st.form.phone) && !Blank(st.form.telegramUsername) && st.file.Some?
  {
    TrimEmptyIff(st.form.fullName);
    TrimEmptyIff(st.form.phone);
    TrimEmptyIff(st.form.telegramUsername);
  }

  /** The submit button is disabled for an invalid form or while sending. */
  predicate SubmitDisabled(st: ConfirmationState) {
    !IsFormValid(st) || st.submitting
  }

  /** The multipart body that is posted. */
  datatype ConfirmationPayload = ConfirmationPayload(
    fullName: string,
    phone: string,
    telegramUsername: string,
    checkImage: nat)

  datatype SubmitOutcome =
    | Rejected(next: ConfirmationState)
    | Post(payload: ConfirmationPayload, next: ConfirmationState)

  const MissingFieldsMessage := "Iltimos, barcha maydonlarni to'ldiring va chek rasmini yuklang."

  /** `handleConfirmationSubmit` up to the request. */
  function Submit(st: ConfirmationState): (r: SubmitOutcome)
    ensures r.Post? <==> IsFormValid(st)
    ensures r.Rejected? ==> r.next == st.(error := Some(MissingFieldsMessage))
    ensures r.Post? ==>
      && r.payload.fullName == Trim(st.form.fullName)
      && r.payload.phone == Trim(st.form.phone)
      && r.payload.telegramUsername == Trim(st.form.telegramUsername)
      && Some(r.payload.checkImage) == st.file
      && r.next.submitting && r.next.error.None? && r.next.form == st.form
  {
    var fullName := Trim(st.form.fullName);
    var phone := Trim(st.form.phone);
    var telegram := Trim(st.form.telegramUsername);
    if fullName == "" || phone == "" || telegram == "" || st.file.None? then
      Rejected(st.(error := Some(MissingFieldsMessage)))
    else
      Post(ConfirmationPayload(fullName, phone, telegram, st.file.value),
           st.(error := None, submitting := true))
  }

  /** How the confirmation request settles: accepted, rejected with an
      HTTP client error carrying `response.data.detail` (`None` when there
      is none), or failed in some other way. */
  datatype PostResult = Delivered | ClientError(detail: Option<Value>) | OtherFailure

  const PostFailedMessage := "Tasdiqlash yuborilmadi. Iltimos, qayta urinib ko'ring."

  /** The state once the post settles, with whether the page moves on to the
      success view. */
  datatype Settled = Settled(next: ConfirmationState, success: bool)

  /** The rest of `handleConfirmationSubmit`: success switches to the success
      view, a failure shows the server's `detail` when it is a string and the
      generic message otherwise, and the `finally` block re-enables the
      button in every case. */
  function AfterPost(st: ConfirmationState, result: PostResult): (r: Settled)
    ensures !r.next.submitting
    ensures r.next.form == st.form && r.next.file == st.file
    ensures r.success <==> result.Delivered?
    ensures result.Delivered? ==> r.next.error == st.error
    ensures result.ClientError? && result.detail.Some? && result.detail.value.Str? ==>
      r.next.error == Some(result.detail.value.s)
    ensures !result.Delivered? && !(result.ClientError? && result.detail.Some? && result.detail.value.Str?) ==>
      r.next.error == Some(PostFailedMessage)
  {
    match result
    case Delivered => Settled(st.(submitting := false), true)
    case ClientError(detail) =>
      var message := if detail.Some? && detail.value.Str? then detail.value.s else PostFailedMessage;
      Settled(st.(error := Some(message), submitting := false), false)
    case OtherFailure => Settled(st.(error := Some(PostFailedMessage), submitting := false), false)
  }

  /** A failed post leaves the form as it was and the button enabled again,
      and a second click posts the same fields and receipt. */
  lemma RetryAfterFailure(st: ConfirmationState, result: PostResult)
    requires IsFormValid(st) && !result.Delivered?
    ensures var n := AfterPost(Submit(st).next, result).next;
      && !SubmitDisabled(n) && n.error.Some?
      && Submit(n).Post? && Submit(n).payload == Submit(st).payload
  {
  }

  /** A trimmed field neither starts nor ends with white space. */
  lemma TrimmedEnds(s: string)
    ensures var t := Trim(s); t == "" || (!IsJsWhitespace(t[0]) && !IsJsWhitespace(t[|t| - 1]))
  {
    var e := TrimEnd(s);
    var t := Trim(s);
    if t != "" {
      assert t[|t| - 1] == e[|e| - 1];
    }
  }

  /** Every posted field is non-empty and already trimmed; a click on an
      enabled button always posts, and the state after posting disables the
      button against a second click. */
  lemma SubmitSendsTrimmedFields(st: ConfirmationState)
    ensures Submit(st).Post? ==>
      var p := Submit(st).payload;
      && p.fullName != "" && Trim(p.fullName) == p.fullName
      && p.phone != "" && Trim(p.phone) == p.phone
      && p.telegramUsername != "" && Trim(p.telegramUsername) == p.telegramUsername
    ensures !SubmitDisabled(st) ==> Submit(st).Post? && SubmitDisabled(Submit(st).next)
  {
    TrimmedEnds(st.form.fullName);
    TrimmedEnds(st.form.phone);
    TrimmedEnds(st.form.telegramUsername);
    if Submit(st).Post? {
      TrimNoOp(Trim(st.form.fullName));
      TrimNoOp(Trim(st.form.phone));
      TrimNoOp(Trim(st.form.telegramUsername));
    }
  }

  /* ----- Countdown ----- */

  /** The countdown's initial value: 15 minutes. */
  const CountdownStart := 15 * 60

  /** One timer effect: decrement while positive, stop at zero. */
  function CountdownStep(t: int): (r: int)
    ensures t > 0 ==> r == t - 1
    ensures t <= 0 ==> r == t
  {
    if t > 0 then t - 1 else t
  }

  /** The value after `k` timer ticks from the start. */
  function Countdown(k: nat): int {
    if k == 0 then CountdownStart else CountdownStep(Countdown(k - 1))
  }

  /** After `k` ticks the countdown shows `max(900 - k, 0)`: it never goes
      negative and stops at zero. */
  lemma {:induction false} CountdownValue(k: nat)
    ensures Countdown(k) == if k <= CountdownStart then CountdownStart - k else 0
  {
    if k > 0 {
      CountdownValue(k - 1);
    }
  }

  /** `formatTime` of the order page: minutes and seconds, each padded to two
      digits. */
  function FormatMinutes(seconds: nat): string {
    TwoDigits(seconds / 60) + ":" + TwoDigits(seconds % 60)
  }

  /** The text reads back as the seconds: a colon three from the end,
      minutes of at least two digits before it, two-digit seconds below 60
      after it. */
  lemma FormatMinutesFields(seconds: nat)
    ensures var r := FormatMinutes(seconds);
      && |r| >= 5 && r[|r| - 3] == ':'
      && IsDigits(r[..|r| - 3]) && IsDigits(r[|r| - 2..])
      && ParseNat(r[|r| - 2..]) < 60
      && ParseNat(r[..|r| - 3]) * 60 + ParseNat(r[|r| - 2..]) == seconds
      && (seconds < 6000 ==> |r| == 5)
  {
    var mm := seconds / 60;
    var ss := seconds % 60;
    MinutesArithmetic(seconds);
    var m := TwoDigits(mm);
    var s := TwoDigits(ss);
    assert FormatMinutes(seconds) == m + ":" + s;
    ColonJoin(m, s);
  }

  lemma MinutesArithmetic(seconds: nat)
    ensures seconds % 60 < 60
    ensures (seconds / 60) * 60 + seconds % 60 == seconds
    ensures seconds < 6000 ==> seconds / 60 < 100
  {
  }

  /** A text joined by a colon to a two-character tail splits back. */
  lemma ColonJoin(a: string, b: string)
    requires |b| == 2
    ensures var r := a + ":" + b;
      |r| == |a| + 3 && r[|r| - 3] == ':' && r[..|r| - 3] == a && r[|r| - 2..] == b
  {
    var r := a + ":" + b;
    assert r[..|a|] == a;
    assert r[|a| + 1..] == b;
  }

  /** The countdown text is always `MM:SS` with `MM` at most 15. */
  lemma CountdownText(k: nat)
    ensures Countdown(k) >= 0
    ensures |FormatMinutes(Countdown(k))| == 5
  {
    CountdownValue(k);
    FormatMinutesFields(Countdown(k));
  }
}
