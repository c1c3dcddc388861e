/**
  The subscription list and the form handlers that change it:
  `handleSubscriptionSubmit`, `editSubscription` /
  `handleEditSubscriptionSubmit` and `deleteSubscription` (script.js).
*/
module Subscriptions {
  import opened Wrappers
  import opened Calendar
  import Text

  /**
    A stored subscription. An empty `startDate` string is None; `renewalDate`
    is the field older records carry instead of `startDate`.
  */
  datatype Subscription = Subscription(
    id: int,
    name: string,
    price: real,
    period: string,
    currency: string,
    startDate: Option<Date>,
    renewalDate: Option<Date>)

  /**
    The raw values of the add or edit form. `price` is what `parseFloat`
    returned, None standing for NaN; `startDate` is None when the date input
    is empty.
  */
  datatype SubscriptionForm = SubscriptionForm(
    name: string,
    price: Option<real>,
    period: string,
    currency: string,
    startDate: Option<Date>)

  /** The two alerts a submission can raise. */
  datatype FormError =
    | MissingField      // "모든 필드를 입력해주세요."
    | NonPositivePrice  // "구독료는 0보다 큰 값을 입력해주세요."

  /** The fields of an accepted submission. */
  datatype Fields = Fields(name: string, price: real, period: string, currency: string, startDate: Date)

  /**
    The two checks both submit handlers make. `!price` is true for NaN and
    for 0, so a zero price is reported as a missing field, and only a
    negative one reaches the `price <= 0` check.
  */
  function ValidateForm(f: SubscriptionForm): (r: Result<Fields, FormError>)
    ensures r.Success? <==>
      && Text.Trim(f.name) != []
      && f.price.Some? && f.price.value > 0.0
      && f.period != [] && f.currency != [] && f.startDate.Some?
    ensures r.Failure? ==>
      (r.error == NonPositivePrice <==>
        (&& Text.Trim(f.name) != []
         && f.price.Some? && f.price.value < 0.0
         && f.period != [] && f.currency != [] && f.startDate.Some?))
    ensures r.Success? ==> r.value == Fields(Text.Trim(f.name), f.price.value, f.period, f.currency, f.startDate.value)
  {
    var name := Text.Trim(f.name);
    if name == [] || f.price.None? || f.price.value == 0.0 || f.period == [] || f.currency == [] || f.startDate.None? then
      Failure(MissingField)
    else if f.price.value <= 0.0 then
      Failure(NonPositivePrice)
    else
      Success(Fields(name, f.price.value, f.period, f.currency, f.startDate.value))
  }

  /**
    `handleSubscriptionSubmit`: append a new record with the given id
    (`Date.now()` in the source) when the form is accepted.
  */
  function AddSubscription(list: seq<Subscription>, f: SubscriptionForm, id: int): (r: Result<seq<Subscription>, FormError>)
    ensures r.Success? <==> ValidateForm(f).Success?
    ensures r.Failure? ==> r.error == ValidateForm(f).error
    ensures r.Success? ==>
      var v := ValidateForm(f).value;
      && |r.value| == |list| + 1
      && r.value[..|list|] == list
      && r.value[|list|] == Subscription(id, v.name, v.price, v.period, v.currency, Some(v.startDate), None)
  {
    match ValidateForm(f)
    case Failure(e) => Failure(e)
    case Success(v) =>
      Success(list + [Subscription(id, v.name, v.price, v.period, v.currency, Some(v.startDate), None)])
  }

  /**
    `handleEditSubscriptionSubmit`: `{...subscriptions[index], name, price,
    period, currency, startDate}` replaces the record at index; its id and
    any legacy field survive.
  */
  function EditSubscription(list: seq<Subscription>, index: nat, f: SubscriptionForm): (r: Result<seq<Subscription>, FormError>)
    requires index < |list|
    ensures r.Success? <==> ValidateForm(f).Success?
    ensures r.Failure? ==> r.error == ValidateForm(f).error
    ensures r.Success? ==>
      var v := ValidateForm(f).value;
      && |r.value| == |list|
      && (forall j :: 0 <= j < |list| && j != index ==> r.value[j] == list[j])
      && r.value[index].id == list[index].id
      && r.value[index].renewalDate == list[index].renewalDate
      && r.value[index].name == v.name
      && r.value[index].price == v.price
      && r.value[index].period == v.period
      && r.value[index].currency == v.currency
      && r.value[index].startDate == Some(v.startDate)
  {
    match ValidateForm(f)
    case Failure(e) => Failure(e)
    case Success(v) =>
      var current := list[index];
      var updated := current.(name := v.name, price := v.price, period := v.period,
                          currency := v.currency, startDate := Some(v.startDate));
      Success(list[index := updated])
  }

  /** The start date a row uses: `startDate || renewalDate`. */
  function StartDateOf(s: Subscription): (r: Option<Date>)
    ensures s.startDate.Some? ==> r == s.startDate
    ensures s.startDate.None? ==> r == s.renewalDate
    ensures r.None? <==> s.startDate.None? && s.renewalDate.None?
  {
    if s.startDate.Some? then s.startDate else s.renewalDate
  }

  /**
    `editSubscription`: the form filled in from a record, with a missing
    currency shown as USD and a missing start date taken from the legacy field.
  */
  function EditForm(s: Subscription): (f: SubscriptionForm)
    ensures f.name == s.name && f.price == Some(s.price) && f.period == s.period
    ensures f.currency != []
    ensures s.currency != [] ==> f.currency == s.currency
    ensures s.currency == [] ==> f.currency == "USD"
    ensures f.startDate == StartDateOf(s)
  {
    SubscriptionForm(s.name, Some(s.price), s.period,
      if s.currency == [] then "USD" else s.currency, StartDateOf(s))
  }

  /** A well-formed record's edit form is accepted with the record's own fields. */
  lemma EditFormOfWellFormedIsAccepted(s: Subscription)
    requires s.name != [] && Text.IsTrimmed(s.name)
    requires s.price > 0.0 && s.period != [] && s.currency != [] && s.startDate.Some?
    ensures ValidateForm(EditForm(s)) == Success(Fields(s.name, s.price, s.period, s.currency, s.startDate.value))
  {
    var f := EditForm(s);
    assert f == SubscriptionForm(s.name, Some(s.price), s.period, s.currency, s.startDate) by {}
    CompleteFormAccepted(f);
  }

  /** A complete form with a positive price and an already trimmed name is accepted as is. */
  lemma CompleteFormAccepted(f: SubscriptionForm)
    requires f.name != [] && Text.IsTrimmed(f.name)
    requires f.price.Some? && f.price.value > 0.0
    requires f.period != [] && f.currency != [] && f.startDate.Some?
    ensures ValidateForm(f) == Success(Fields(f.name, f.price.value, f.period, f.currency, f.startDate.value))
  {
    Text.TrimKeepsTrimmed(f.name);
  }

  /**
    Opening the edit form on a well-formed record and saving it unchanged
    gives back the same list.
  */
  lemma EditUnchangedIsIdentity(list: seq<Subscription>, index: nat)
    requires index < |list|
    requires var s := list[index];
      && s.name != [] && Text.IsTrimmed(s.name)
      && s.price > 0.0 && s.period != [] && s.currency != [] && s.startDate.Some?
    ensures EditSubscription(list, index, EditForm(list[index])) == Success(list)
  {
    var s := list[index];
    assert EditSubscription(list, index, EditForm(s)) == Success(list[index := s]) by {
      EditFormOfWellFormedIsAccepted(s);
      var v := Fields(s.name, s.price, s.period, s.currency, s.startDate.value);
      EditWithAcceptedForm(list, index, EditForm(s), v);
      assert s.(name := v.name, price := v.price, period := v.period,
                currency := v.currency, startDate := Some(v.startDate)) == s;
    }
    UpdateSameIsIdentity(list, index);
  }

  /** Writing back the element already at index leaves the sequence unchanged. */
  lemma UpdateSameIsIdentity<T>(list: seq<T>, index: nat)
    requires index < |list|
    ensures list[index := list[index]] == list
  {
    assert forall j :: 0 <= j < |list| ==> list[index := list[index]][j] == list[j];
  }

  /** An accepted form overwrites exactly the five edited fields of the record at index. */
  lemma EditWithAcceptedForm(list: seq<Subscription>, index: nat, f: SubscriptionForm, v: Fields)
    requires index < |list|
    requires ValidateForm(f) == Success(v)
    ensures EditSubscription(list, index, f) == Success(list[index := list[index].(
              name := v.name, price := v.price, period := v.period,
              currency := v.currency, startDate := Some(v.startDate))])
  {}

  /** `splice(index, 1)`: remove the element at index; an index past the end removes nothing. */
  function RemoveAt<T>(s: seq<T>, index: nat): (r: seq<T>)
    ensures index >= |s| ==> r == s
    ensures index < |s| ==>
      && |r| == |s| - 1
      && (forall j :: 0 <= j < index ==> r[j] == s[j])
      && (forall j :: index <= j < |r| ==> r[j] == s[j + 1])
  {
    if index < |s| then s[..index] + s[index + 1..] else s
  }

  /** Removal takes out exactly the one element at index. */
  lemma RemoveAtIsPermutationMinusOne<T>(s: seq<T>, index: nat)
    requires index < |s|
    ensures multiset(RemoveAt(s, index)) + multiset{s[index]} == multiset(s)
  {
    assert s == s[..index] + [s[index]] + s[index + 1..];
  }

  /** Deleting the record just added restores the list. */
  lemma DeleteUndoesAdd(list: seq<Subscription>, f: SubscriptionForm, id: int)
    requires AddSubscription(list, f, id).Success?
    ensures RemoveAt(AddSubscription(list, f, id).value, |list|) == list
  {}

  /**
    `deleteSubscription(index)`: when the user confirms, splice out the
    record at index; the records after it move down one place in order.
    Cancelling the `confirm` dialog changes nothing.
  */
  function DeleteSubscription(list: seq<Subscription>, index: nat, confirmed: bool): (r: seq<Subscription>)
    ensures !confirmed || index >= |list| ==> r == list
    ensures confirmed && index < |list| ==>
      && |r| == |list| - 1
      && (forall j :: 0 <= j < index ==> r[j] == list[j])
      && (forall j :: index <= j < |r| ==> r[j] == list[j + 1])
      && multiset(r) + multiset{list[index]} == multiset(list)
  {
    if !confirmed then list
    else if index < |list| then RemoveAtIsPermutationMinusOne(list, index); RemoveAt(list, index)
    else RemoveAt(list, index)
  }
}
