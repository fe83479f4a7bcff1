/**
  Admission of a complete resolver answer set, and the resolver step in front of it.
  `localeCompare` is library behaviour: what rests on the order of the list holds for any comparator
  that orders the canonical address texts, and is left free on all other texts.
 */
module AddressAdmission {
  import opened Wrappers
  import opened AddressText
  import opened AddressCase
  import opened AddressRanges

  datatype Environment = Local | Dev | Next

  /** A valid classification; an admitted address carries the same four facts. */
  datatype Item = Item(address: string, family: Family, kind: AddressClass, mapped: bool)

  /** One resolver answer: a record with exactly a text and a number, or anything else. */
  datatype Answer = NotARecord | Record(address: string, family: int)

  datatype Reason =
    | EmptyAnswer | AnswerSetOversized | AnswerAddressOversized | MalformedAddress | AddressFamilyMismatch
    | LocalAddressNotExact | AddressPolicyDenied | MixedAnswerSet | MappedAddressUnsupported

  datatype Admission =
    | Admitted(addresses: seq<Item>, selected: Item, answerCount: nat)
    | Denied(reason: Reason, answerCount: nat)
    | Failed(reason: Reason, answerCount: nat)

  const MAX_ADDRESS_COUNT := 8

  type Order = (string, string) -> bool

  /** A text the printer produces. */
  ghost predicate CanonicalText(t: string) {
    exists family, value: nat :: value < Space(family) && t == Canonical(family, value)
  }

  /** The comparator orders the canonical texts strictly and totally; elsewhere it may do anything. */
  ghost predicate OrdersCanonicalTexts(less: Order) {
    && (forall a, b :: CanonicalText(a) && CanonicalText(b) && less(a, b) ==> !less(b, a))
    && (forall a, b, c :: CanonicalText(a) && CanonicalText(b) && CanonicalText(c) && less(a, b) && less(b, c) ==> less(a, c))
    && (forall a, b :: CanonicalText(a) && CanonicalText(b) ==> a == b || less(a, b) || less(b, a))
  }

  // ----- classification -----

  /** What the policy knows about an address depends on its family and value alone. */
  function ItemOf(family: Family, value: nat): Item {
    var p := MakeParsed(family, value);
    var addressClass :=
      if p.mapped then ClassifyIpv4(value % 0x1_0000_0000)
      else if family == V4 then ClassifyIpv4(value)
      else ClassifyIpv6(value);
    Item(p.canonicalAddress, family, addressClass, p.mapped)
  }

  function Classify(address: string, family: Option<Family>): Option<Item> {
    match ParseAddress(address, family)
    case None => None
    case Some(p) => Some(ItemOf(p.family, p.value))
  }

  function FamilyOf(number: int): Option<Family> {
    if number == 4 then Some(V4) else if number == 6 then Some(V6) else None
  }

  predicate ExactLocalLoopback(item: Item) {
    !item.mapped &&
    ((item.family == V4 && item.address == "127.0.0.1") || (item.family == V6 && item.address == "::1"))
  }

  predicate Acceptable(environment: Environment, item: Item) {
    if item.mapped then false
    else if environment == Local then ExactLocalLoopback(item)
    else item.kind == GlobalUnicast
  }

  function RejectedReason(environment: Environment, items: seq<Item>): Reason {
    if exists item :: item in items && item.mapped then MappedAddressUnsupported
    else if environment == Local then LocalAddressNotExact
    else AddressPolicyDenied
  }

  // ----- the unique map and the sort -----

  /** The key `family:canonicalAddress` of the insertion-ordered map. */
  predicate SameKey(a: Item, b: Item) {
    a.family == b.family && a.address == b.address
  }

  /** `unique.set(key, item)` on the values in insertion order. */
  function MapSet(unique: seq<Item>, item: Item): seq<Item> {
    if unique == [] then [item]
    else if SameKey(unique[0], item) then [item] + unique[1..]
    else [unique[0]] + MapSet(unique[1..], item)
  }

  predicate ItemLess(a: Item, b: Item, less: Order) {
    (a.family == V4 && b.family == V6) || (a.family == b.family && less(a.address, b.address))
  }

  function Insert(item: Item, sorted: seq<Item>, less: Order): seq<Item> {
    if sorted == [] || ItemLess(item, sorted[0], less) then [item] + sorted
    else [sorted[0]] + Insert(item, sorted[1..], less)
  }

  function Sort(items: seq<Item>, less: Order): seq<Item> {
    if items == [] then [] else Insert(items[0], Sort(items[1..], less), less)
  }

  // ----- admission -----

  /** The checks on one answer, in the order of the code. */
  function CheckAnswer(answer: Answer): Result<Item, Reason> {
    match answer
    case NotARecord => Err(MalformedAddress)
    case Record(address, number) =>
      if |address| > MAX_ADDRESS_LENGTH then Err(AnswerAddressOversized)
      else if FamilyOf(number).None? then Err(MalformedAddress)
      else
        match Classify(address, FamilyOf(number))
        case Some(item) => Ok(item)
        case None => Err(if Classify(address, None).Some? then AddressFamilyMismatch else MalformedAddress)
  }

  /** The loop over the answers: the first bad one decides, otherwise the map has one entry per key. */
  function Collect(answers: seq<Answer>, unique: seq<Item>): Result<seq<Item>, Reason> {
    if answers == [] then Ok(unique)
    else
      match CheckAnswer(answers[0])
      case Err(reason) => Err(reason)
      case Ok(item) => Collect(answers[1..], MapSet(unique, item))
  }

  function Decide(environment: Environment, items: seq<Item>, answerCount: nat, less: Order): Admission
    requires items != []
  {
    if exists item :: item in items && !Acceptable(environment, item) then
      var reason := if exists item :: item in items && Acceptable(environment, item) then MixedAnswerSet
                    else RejectedReason(environment, items);
      Denied(reason, answerCount)
    else
      InsertNonempty(items, less);
      var addresses := Sort(items, less);
      Admitted(addresses, addresses[0], answerCount)
  }

  lemma InsertNonempty(items: seq<Item>, less: Order)
    requires items != []
    ensures Sort(items, less) != []
  {
  }

  function Admit(environment: Environment, answers: seq<Answer>, less: Order): Admission {
    if answers == [] then Failed(EmptyAnswer, 0)
    else if |answers| > MAX_ADDRESS_COUNT then Failed(AnswerSetOversized, |answers|)
    else
      match Collect(answers, [])
      case Err(reason) => Failed(reason, |answers|)
      case Ok(items) =>
        CollectNonempty(answers, []);
        Decide(environment, items, |answers|, less)
  }

  lemma {:induction false} CollectNonempty(answers: seq<Answer>, unique: seq<Item>)
    requires answers != [] || unique != []
    ensures Collect(answers, unique).Ok? ==> Collect(answers, unique).value != []
  {
    if answers != [] && CheckAnswer(answers[0]).Ok? {
      CollectNonempty(answers[1..], MapSet(unique, CheckAnswer(answers[0]).value));
    }
  }

  /** `admitResolvedAddressSet`: the loop that fills the map, then the decision. */
  method AdmitResolvedAddressSet(environment: Environment, answers: seq<Answer>, less: Order) returns (r: Admission)
    ensures r == Admit(environment, answers, less)
  {
    hide CheckAnswer;
    hide MapSet;
    hide Decide;
    if answers == [] { return Failed(EmptyAnswer, 0); }
    if |answers| > MAX_ADDRESS_COUNT { return Failed(AnswerSetOversized, |answers|); }
    CollectNonempty(answers, []);
    var unique: seq<Item> := [];
    var i := 0;
    assert answers[0..] == answers;
    while i < |answers|
      invariant 0 <= i <= |answers|
      invariant Collect(answers, []) == Collect(answers[i..], unique)
    {
      assert answers[i..][0] == answers[i] && answers[i..][1..] == answers[i + 1..];
      var checked := CheckAnswer(answers[i]);
      if checked.Err? { return Failed(checked.error, |answers|); }
      unique := MapSet(unique, checked.value);
      i := i + 1;
    }
    r := Decide(environment, unique, |answers|, less);
  }

  // ----- what an item says about its address -----

  ghost predicate Proper(item: Item) {
    exists family, value: nat :: value < Space(family) && item == ItemOf(family, value)
  }

  ghost predicate AllProper(items: seq<Item>) {
    forall item :: item in items ==> Proper(item)
  }

  lemma CanonicalInjective(family: Family, v: nat, w: nat)
    requires v < Space(family) && w < Space(family)
    requires Canonical(family, v) == Canonical(family, w)
    ensures v == w
  {
    hide Canonical;
    CanonicalValue(family, v);
    CanonicalValue(family, w);
  }

  /** The map key determines the whole item. */
  lemma KeyDeterminesItem(a: Item, b: Item)
    requires Proper(a) && Proper(b) && SameKey(a, b)
    ensures a == b
  {
    hide Canonical;
    hide Space;
    hide ClassifyIpv4;
    hide ClassifyIpv6;
    var f, v: nat :| v < Space(f) && a == ItemOf(f, v);
    var g, w: nat :| w < Space(g) && b == ItemOf(g, w);
    CanonicalInjective(f, v, w);
  }

  lemma CheckedIsProper(answer: Answer)
    requires CheckAnswer(answer).Ok?
    ensures Proper(CheckAnswer(answer).value)
  {
    hide ItemOf;
    hide ParseAddress;
    ParsedFacts(answer.address, FamilyOf(answer.family));
  }

  // ----- the map collects the set of items -----

  predicate NoDuplicates(items: seq<Item>) {
    forall i, j :: 0 <= i < j < |items| ==> items[i] != items[j]
  }

  predicate AllWellFormed(answers: seq<Answer>) {
    forall i :: 0 <= i < |answers| ==> CheckAnswer(answers[i]).Ok?
  }

  predicate HasItem(answers: seq<Answer>, item: Item) {
    exists i :: 0 <= i < |answers| && CheckAnswer(answers[i]) == Ok(item)
  }

  lemma {:induction false} MapSetAdds(unique: seq<Item>, item: Item)
    requires AllProper(unique) && Proper(item)
    ensures MapSet(unique, item) == if item in unique then unique else unique + [item]
  {
    if unique != [] {
      if SameKey(unique[0], item) {
        KeyDeterminesItem(unique[0], item);
      } else {
        MapSetAdds(unique[1..], item);
        assert unique == [unique[0]] + unique[1..];
      }
    }
  }

  lemma {:induction false} CollectsSet(answers: seq<Answer>, unique: seq<Item>)
    requires AllWellFormed(answers) && AllProper(unique) && NoDuplicates(unique)
    ensures var r := Collect(answers, unique);
            && r.Ok? && AllProper(r.value) && NoDuplicates(r.value)
            && forall item :: item in r.value <==> item in unique || HasItem(answers, item)
  {
    hide CheckAnswer;
    if answers != [] {
      var first, rest := CheckAnswer(answers[0]).value, answers[1..];
      CheckedIsProper(answers[0]);
      MapSetAdds(unique, first);
      hide Proper;
      hide MapSet;
      assert AllWellFormed(rest);
      CollectsSet(rest, MapSet(unique, first));
      forall item ensures HasItem(answers, item) <==> item == first || HasItem(rest, item) {
        HasItemStep(answers, item);
      }
      hide HasItem;
    }
  }

  lemma HasItemStep(answers: seq<Answer>, item: Item)
    requires answers != []
    ensures HasItem(answers, item) <==> CheckAnswer(answers[0]) == Ok(item) || HasItem(answers[1..], item)
  {
    hide CheckAnswer;
    if HasItem(answers[1..], item) {
      var i :| 0 <= i < |answers[1..]| && CheckAnswer(answers[1..][i]) == Ok(item);
      assert answers[i + 1] == answers[1..][i];
    }
    if HasItem(answers, item) && CheckAnswer(answers[0]) != Ok(item) {
      var i :| 0 <= i < |answers| && CheckAnswer(answers[i]) == Ok(item);
      assert answers[1..][i - 1] == answers[i];
    }
  }

  // ----- the sorted list is determined by the set -----

  predicate Sorted(items: seq<Item>, less: Order) {
    forall i, j :: 0 <= i < j < |items| ==> ItemLess(items[i], items[j], less)
  }

  lemma ProperIsCanonical(item: Item)
    requires Proper(item)
    ensures CanonicalText(item.address)
  {
    hide Canonical;
    hide ClassifyIpv4;
    hide ClassifyIpv6;
    var family, value: nat :| value < Space(family) && item == ItemOf(family, value);
    assert item.address == Canonical(family, value);
  }

  /** On proper items the comparator of the list is a strict total order. */
  lemma ItemsOrdered(a: Item, b: Item, c: Item, less: Order)
    requires OrdersCanonicalTexts(less) && Proper(a) && Proper(b) && Proper(c)
    ensures ItemLess(a, b, less) ==> !ItemLess(b, a, less)
    ensures ItemLess(a, b, less) && ItemLess(b, c, less) ==> ItemLess(a, c, less)
    ensures a == b || ItemLess(a, b, less) || ItemLess(b, a, less)
  {
    ProperIsCanonical(a);
    ProperIsCanonical(b);
    ProperIsCanonical(c);
    if SameKey(a, b) { KeyDeterminesItem(a, b); }
    hide CanonicalText;
    hide Proper;
  }

  lemma {:induction false} InsertMembers(item: Item, sorted: seq<Item>, less: Order)
    ensures forall x :: x in Insert(item, sorted, less) <==> x == item || x in sorted
  {
    hide ItemLess;
    if sorted != [] {
      InsertMembers(item, sorted[1..], less);
      assert sorted == [sorted[0]] + sorted[1..];
    }
  }

  /** The sort neither loses nor invents an item, whatever the comparator. */
  lemma {:induction false} SortMembers(items: seq<Item>, less: Order)
    ensures forall x :: x in Sort(items, less) <==> x in items
  {
    if items != [] {
      SortMembers(items[1..], less);
      InsertMembers(items[0], Sort(items[1..], less), less);
      assert items == [items[0]] + items[1..];
    }
  }

  lemma {:induction false} InsertSorts(item: Item, sorted: seq<Item>, less: Order)
    requires OrdersCanonicalTexts(less)
    requires Sorted(sorted, less) && AllProper(sorted) && Proper(item) && item !in sorted
    ensures Sorted(Insert(item, sorted, less), less)
  {
    hide Proper;
    hide OrdersCanonicalTexts;
    if sorted == [] {
    } else if ItemLess(item, sorted[0], less) {
      forall x | x in sorted ensures ItemLess(item, x, less) {
        LeastFirst(sorted, less, x);
        ItemsOrdered(item, sorted[0], x, less);
      }
      hide ItemLess;
    } else {
      var rest := Insert(item, sorted[1..], less);
      InsertSorts(item, sorted[1..], less);
      InsertMembers(item, sorted[1..], less);
      ItemsOrdered(item, sorted[0], item, less);
      hide ItemLess;
      forall x | x in rest ensures ItemLess(sorted[0], x, less) {
        if x != item {
          var i :| 0 <= i < |sorted[1..]| && sorted[1..][i] == x;
          assert sorted[i + 1] == x;
        }
      }
    }
  }

  lemma {:induction false} SortSorts(items: seq<Item>, less: Order)
    requires OrdersCanonicalTexts(less) && AllProper(items) && NoDuplicates(items)
    ensures Sorted(Sort(items, less), less)
  {
    hide OrdersCanonicalTexts;
    hide Proper;
    hide Insert;
    if items != [] {
      assert NoDuplicates(items[1..]);
      SortSorts(items[1..], less);
      SortMembers(items[1..], less);
      assert items[0] !in items[1..] by {
        assert forall i :: 0 <= i < |items[1..]| ==> items[1..][i] == items[i + 1];
      }
      InsertSorts(items[0], Sort(items[1..], less), less);
    }
  }

  lemma LeastFirst(s: seq<Item>, less: Order, x: Item)
    requires Sorted(s, less) && x in s
    ensures x == s[0] || ItemLess(s[0], x, less)
  {
    var i :| 0 <= i < |s| && s[i] == x;
  }

  lemma {:induction false} SortedUnique(s: seq<Item>, t: seq<Item>, less: Order)
    requires OrdersCanonicalTexts(less) && AllProper(s) && Sorted(s, less) && Sorted(t, less)
    requires forall x :: x in s <==> x in t
    ensures s == t
  {
    hide OrdersCanonicalTexts;
    hide Proper;
    assert (s == [] || s[0] in s) && (t == [] || t[0] in t);
    if s != [] {
      LeastFirst(s, less, t[0]);
      LeastFirst(t, less, s[0]);
      ItemsOrdered(s[0], t[0], s[0], less);
      assert s[0] == t[0];
      hide ItemLess;
      forall x ensures x in s[1..] <==> x in t[1..] {
        TailMembers(s, less, x);
        TailMembers(t, less, x);
      }
      SortedUnique(s[1..], t[1..], less);
    }
  }

  lemma TailMembers(s: seq<Item>, less: Order, x: Item)
    requires OrdersCanonicalTexts(less) && Sorted(s, less) && s != [] && Proper(s[0])
    ensures x in s[1..] <==> x in s && x != s[0]
  {
    ItemsOrdered(s[0], s[0], s[0], less);
    hide OrdersCanonicalTexts;
    hide Proper;
    hide ItemLess;
    if x in s && x != s[0] {
      var i :| 0 <= i < |s| && s[i] == x;
      assert s[1..][i - 1] == x;
    }
    if x in s[1..] {
      var i :| 0 <= i < |s[1..]| && s[1..][i] == x;
      assert s[i + 1] == x;
    }
  }

  // ----- admission depends on the set of addresses -----

  /** The (family, value) pairs that a list of answers denotes. */
  ghost predicate Denotes(answers: seq<Answer>, family: Family, value: nat) {
    exists i :: 0 <= i < |answers| && DenotesOne(answers[i], family, value)
  }

  ghost predicate DenotesOne(answer: Answer, family: Family, value: nat) {
    && answer.Record? && FamilyOf(answer.family) == Some(family)
    && var p := ParseAddress(answer.address, Some(family));
       p.Some? && p.value.value == value
  }

  /** An accepted answer yields exactly the item of the pair it denotes. */
  lemma AcceptedItem(answer: Answer, item: Item)
    ensures CheckAnswer(answer) == Ok(item) <==>
            exists family, value: nat :: value < Space(family) && DenotesOne(answer, family, value) && item == ItemOf(family, value)
  {
    hide ItemOf;
    hide ParseAddress;
    if CheckAnswer(answer) == Ok(item) {
      ParsedFacts(answer.address, FamilyOf(answer.family));
      var p := ParseAddress(answer.address, FamilyOf(answer.family)).value;
      assert DenotesOne(answer, p.family, p.value);
    }
    if family, value: nat :| value < Space(family) && DenotesOne(answer, family, value) && item == ItemOf(family, value) {
      ParsedFacts(answer.address, Some(family));
      AddressLength(answer.address, Some(family));
    }
  }

  lemma AddressLength(address: string, family: Option<Family>)
    ensures ParseAddress(address, family).Some? ==> |address| <= MAX_ADDRESS_LENGTH
  {
  }

  lemma SameDenotationSameItems(xs: seq<Answer>, ys: seq<Answer>, item: Item)
    requires forall family, value :: Denotes(xs, family, value) <==> Denotes(ys, family, value)
    requires HasItem(xs, item)
    ensures HasItem(ys, item)
  {
    hide CheckAnswer;
    hide DenotesOne;
    var i :| 0 <= i < |xs| && CheckAnswer(xs[i]) == Ok(item);
    AcceptedItem(xs[i], item);
    var family, value: nat :| value < Space(family) && DenotesOne(xs[i], family, value) && item == ItemOf(family, value);
    assert Denotes(xs, family, value);
    var j :| 0 <= j < |ys| && DenotesOne(ys[j], family, value);
    AcceptedItem(ys[j], item);
  }

  lemma SameItemsSameDecision(environment: Environment, a: seq<Item>, b: seq<Item>, n: nat, less: Order)
    requires a != [] && b != [] && OrdersCanonicalTexts(less)
    requires AllProper(a) && NoDuplicates(a) && AllProper(b) && NoDuplicates(b)
    requires forall item :: item in a <==> item in b
    ensures Decide(environment, a, n, less) == Decide(environment, b, n, less)
  {
    hide Acceptable;
    hide Sort;
    hide OrdersCanonicalTexts;
    hide Proper;
    SortSorts(a, less);
    SortSorts(b, less);
    SortMembers(a, less);
    SortMembers(b, less);
    SortedUnique(Sort(a, less), Sort(b, less), less);
    SameReason(environment, a, b);
  }

  lemma SameReason(environment: Environment, a: seq<Item>, b: seq<Item>)
    requires forall item :: item in a <==> item in b
    ensures RejectedReason(environment, a) == RejectedReason(environment, b)
  {
  }

  /**
    For well-formed answer lists, the outcome, the reason, the address list and the selection depend
    only on which addresses the list denotes, not on order, duplicates or spelling.
   */
  lemma AdmissionDependsOnSet(environment: Environment, xs: seq<Answer>, ys: seq<Answer>, less: Order)
    requires OrdersCanonicalTexts(less)
    requires 1 <= |xs| <= MAX_ADDRESS_COUNT && AllWellFormed(xs)
    requires 1 <= |ys| <= MAX_ADDRESS_COUNT && AllWellFormed(ys)
    requires forall family, value :: Denotes(xs, family, value) <==> Denotes(ys, family, value)
    ensures Admit(environment, xs, less).(answerCount := 0) == Admit(environment, ys, less).(answerCount := 0)
  {
    hide CheckAnswer;
    hide Decide;
    CollectsSet(xs, []);
    CollectsSet(ys, []);
    CollectNonempty(xs, []);
    CollectNonempty(ys, []);
    var a, b := Collect(xs, []).value, Collect(ys, []).value;
    forall item ensures item in a <==> item in b {
      if HasItem(xs, item) { SameDenotationSameItems(xs, ys, item); }
      if HasItem(ys, item) { SameDenotationSameItems(ys, xs, item); }
    }
    SameItemsSameDecision(environment, a, b, 0, less);
    DecideCount(environment, a, |xs|, less);
    DecideCount(environment, b, |ys|, less);
  }

  lemma DecideCount(environment: Environment, items: seq<Item>, n: nat, less: Order)
    requires items != []
    ensures Decide(environment, items, n, less).(answerCount := 0) == Decide(environment, items, 0, less)
  {
  }

  /**
    Admission happens exactly when there are one to eight answers and each is a well-formed acceptable
    address, and the addresses are then theirs, with the selected one among them, whatever the
    comparator. With one that orders the canonical texts they come in strictly increasing order and
    the selected one is the least.
   */
  lemma AdmittedExactly(environment: Environment, answers: seq<Answer>, less: Order)
    ensures var r := Admit(environment, answers, less);
            && (r.Admitted? <==> AllAcceptable(environment, answers))
            && (r.Admitted? ==>
                && r.answerCount == |answers| && r.addresses != [] && r.selected == r.addresses[0]
                && forall item :: item in r.addresses <==> HasItem(answers, item))
            && (r.Admitted? && OrdersCanonicalTexts(less) ==>
                && Sorted(r.addresses, less)
                && forall item :: item in r.addresses ==> item == r.selected || ItemLess(r.selected, item, less))
  {
    hide CheckAnswer;
    hide Acceptable;
    hide OrdersCanonicalTexts;
    hide Proper;
    if 1 <= |answers| <= MAX_ADDRESS_COUNT {
      CollectNonempty(answers, []);
      if AllWellFormed(answers) {
        CollectsSet(answers, []);
        var items := Collect(answers, []).value;
        hide Collect;
        forall i | 0 <= i < |answers| ensures CheckAnswer(answers[i]).value in items {
          assert HasItem(answers, CheckAnswer(answers[i]).value);
        }
        DecidedExactly(environment, items, |answers|, less);
        hide Decide;
        hide ItemLess;
      } else {
        BadAnswerFails(answers, []);
      }
    }
  }

  predicate AllAcceptable(environment: Environment, answers: seq<Answer>) {
    && 1 <= |answers| <= MAX_ADDRESS_COUNT
    && forall i :: 0 <= i < |answers| ==>
         CheckAnswer(answers[i]).Ok? && Acceptable(environment, CheckAnswer(answers[i]).value)
  }

  lemma DecidedExactly(environment: Environment, items: seq<Item>, n: nat, less: Order)
    requires items != [] && AllProper(items) && NoDuplicates(items)
    ensures var r := Decide(environment, items, n, less);
            && !r.Failed? && r.answerCount == n
            && (r.Admitted? <==> forall item :: item in items ==> Acceptable(environment, item))
            && (r.Admitted? ==>
                && r.addresses != [] && r.selected == r.addresses[0]
                && forall item :: item in r.addresses <==> item in items)
            && (r.Admitted? && OrdersCanonicalTexts(less) ==>
                && Sorted(r.addresses, less)
                && forall item :: item in r.addresses ==> item == r.selected || ItemLess(r.selected, item, less))
  {
    hide Acceptable;
    hide OrdersCanonicalTexts;
    hide Proper;
    SortMembers(items, less);
    if OrdersCanonicalTexts(less) {
      SortSorts(items, less);
    }
    hide Sort;
    hide ItemLess;
    var r := Decide(environment, items, n, less);
    if r.Admitted? && OrdersCanonicalTexts(less) {
      forall item | item in r.addresses ensures item == r.selected || ItemLess(r.selected, item, less) {
        LeastFirst(r.addresses, less, item);
      }
    }
  }

  lemma {:induction false} BadAnswerFails(answers: seq<Answer>, unique: seq<Item>)
    requires !AllWellFormed(answers)
    ensures Collect(answers, unique).Err?
  {
    hide CheckAnswer;
    if CheckAnswer(answers[0]).Ok? {
      var i :| 0 <= i < |answers| && !CheckAnswer(answers[i]).Ok?;
      assert answers[1..][i - 1] == answers[i];
      BadAnswerFails(answers[1..], MapSet(unique, CheckAnswer(answers[0]).value));
    }
  }

  // ----- what admission lets through -----

  lemma LoopbackTexts()
    ensures Canonical(V4, 0x7f000001) == "127.0.0.1"
    ensures Canonical(V6, 1) == "::1"
  {
    hide Digits;
    hide Join;
    hide FormatIpv6Value;
    OneText();
    LoopbackDigits();
    DottedJoin(127, 0, 0, 1);
    assert ValueToOctets(0x7f000001) == [127, 0, 0, 1];
    assert Dotted(127, 0, 0, 1) == "127.0.0.1";
  }

  lemma LoopbackDigits()
    ensures Digits(127, 10) == "127" && Digits(0, 10) == "0" && Digits(1, 10) == "1"
  {
  }

  lemma {:induction false} ZeroGroups(n: nat)
    ensures ToGroups(0, n) == Zeros(n)
  {
    if n > 0 {
      ZeroGroups(n - 1);
    }
  }

  lemma OneText()
    ensures FormatIpv6Value(1) == "::1"
  {
    hide CompressedText;
    hide BestRun;
    var groups := ValueToGroups(1);
    ZeroGroups(7);
    assert groups == Zeros(7) + [1];
    BestRunIsFirstLongest(groups, 8);
    assert ZeroRun(groups, 0) == 7;
    assert BestRun(groups, 8) == (0, 7);
    OneCompressed(groups);
  }

  lemma OneCompressed(groups: seq<nat>)
    requires groups == Zeros(7) + [1]
    ensures CompressedText(groups, 0, 7) == "::1"
  {
    assert groups[7..] == [1] && groups[..0] == [];
    ShortHexTexts();
    assert Texts([1], 16) == ["1"];
  }

  /** An item is acceptable to `local` exactly for 127.0.0.1 and ::1. */
  lemma AcceptableLocally(family: Family, value: nat)
    requires value < Space(family)
    ensures Acceptable(Local, ItemOf(family, value)) <==>
            (family == V4 && value == 0x7f000001) || (family == V6 && value == 1)
  {
    hide Canonical;
    hide ClassifyIpv4;
    hide ClassifyIpv6;
    LoopbackTexts();
    if Canonical(family, value) == "127.0.0.1" && family == V4 {
      CanonicalInjective(V4, value, 0x7f000001);
    }
    if Canonical(family, value) == "::1" && family == V6 {
      CanonicalInjective(V6, value, 1);
    }
  }

  /** For `dev` and `next` it is acceptable exactly outside every special-use block, and in 2000::/3 for IPv6. */
  lemma AcceptableRemotely(environment: Environment, family: Family, value: nat)
    requires environment != Local && value < Space(family)
    ensures Acceptable(environment, ItemOf(family, value)) <==>
            match family
            case V4 => forall i :: 0 <= i < |IPV4_BLOCKS| ==> !Within(value, IPV4_BLOCKS[i])
            case V6 =>
              && 0x20000000000000000000000000000000 <= value <= 0x3fffffffffffffffffffffffffffffff
              && forall i :: 0 <= i < |IPV6_BLOCKS| ==> !Within(value, IPV6_BLOCKS[i])
  {
    hide Canonical;
    hide ClassifyIpv4;
    hide ClassifyIpv6;
    match family
    case V4 => ClassifyIpv4ByBlocks(value);
    case V6 =>
      ClassifyIpv6ByBlocks(value);
      GlobalOnlyInside(value);
  }

  lemma GlobalOnlyInside(value: nat)
    ensures ClassifyIpv6(value) == GlobalUnicast ==>
              (forall i :: 0 <= i < |IPV6_BLOCKS| ==> !Within(value, IPV6_BLOCKS[i])) && !IsMapped(value)
    ensures 0x20000000000000000000000000000000 <= value ==> !IsMapped(value)
  {
    hide ClassifyIpv6;
    ClassifyIpv6ByBlocks(value);
  }

  // ----- the resolver step -----

  datatype Outcome = OutcomeAdmitted | OutcomeDenied | OutcomeFailed

  datatype ResolutionReason =
    | AddressSetAccepted | LiteralAddress | LocalhostCanonicalized
    | Refused(reason: Reason) | ResolverError | ResolutionTimeout

  datatype Resolution =
    Resolution(outcome: Outcome, reason: ResolutionReason, answerCount: nat, selected: Option<Item>, addresses: seq<Item>)

  /** How the race between the lookup and its timer ended. */
  datatype Settled = Answers(answers: seq<Answer>) | LookupFailed | TimedOut

  function FromAdmission(admission: Admission, accepted: ResolutionReason): Resolution {
    match admission
    case Admitted(addresses, selected, n) => Resolution(OutcomeAdmitted, accepted, n, Some(selected), addresses)
    case Denied(reason, n) => Resolution(OutcomeDenied, Refused(reason), n, None, [])
    case Failed(reason, n) => Resolution(OutcomeFailed, Refused(reason), n, None, [])
  }

  function FamilyNumber(family: Family): int {
    match family case V4 => 4 case V6 => 6
  }

  /** `resolveAndAdmitTarget`; `settled` is what the resolver would answer. */
  function ResolveAndAdmit(hostname: string, environment: Environment, settled: Settled, less: Order): Resolution {
    var normalized := Lower(hostname);
    match Classify(normalized, None)
    case Some(literal) =>
      FromAdmission(Admit(environment, [Record(literal.address, FamilyNumber(literal.family))], less), LiteralAddress)
    case None =>
      if normalized == "localhost" then
        FromAdmission(Admit(environment, [Record("127.0.0.1", 4)], less), LocalhostCanonicalized)
      else
        match settled
        case TimedOut => Resolution(OutcomeFailed, ResolutionTimeout, 0, None, [])
        case LookupFailed => Resolution(OutcomeFailed, ResolverError, 0, None, [])
        case Answers(answers) => FromAdmission(Admit(environment, answers, less), AddressSetAccepted)
  }

  /**
    The literal fast path agrees with the resolver path: for every host text that parses as an
    address, whatever the resolver would say, the result is that of admitting the text itself as
    the single answer, with the reason of an acceptance relabelled.
   */
  lemma LiteralAgreesWithResolver(hostname: string, environment: Environment, settled: Settled, less: Order)
    requires ParseAddress(hostname, None).Some?
    ensures var p := ParseAddress(hostname, None).value;
            ResolveAndAdmit(hostname, environment, settled, less) ==
            FromAdmission(Admit(environment, [Record(hostname, FamilyNumber(p.family))], less), LiteralAddress)
  {
    hide ParseAddress;
    hide Admit;
    hide CheckAnswer;
    hide ItemOf;
    var p := ParseAddress(hostname, None).value;
    LowerAlike(hostname);
    AlikeAddress(Lower(hostname), hostname, None);
    ParsedFacts(hostname, None);
    ItemAddress(p.family, p.value);
    var written, canonical := Record(hostname, FamilyNumber(p.family)), Record(p.canonicalAddress, FamilyNumber(p.family));
    RequiredFamily(hostname);
    assert DenotesOne(written, p.family, p.value) && DenotesOne(canonical, p.family, p.value);
    AcceptedItem(written, ItemOf(p.family, p.value));
    AcceptedItem(canonical, ItemOf(p.family, p.value));
    SameCheckSameAdmission(environment, written, canonical, less);
  }

  lemma SameCheckSameAdmission(environment: Environment, a: Answer, b: Answer, less: Order)
    requires CheckAnswer(a) == CheckAnswer(b)
    ensures Admit(environment, [a], less) == Admit(environment, [b], less)
  {
    hide CheckAnswer;
    hide Decide;
    assert [a][1..] == [] && [b][1..] == [];
  }

  lemma ItemAddress(family: Family, value: nat)
    ensures ItemOf(family, value).family == family && ItemOf(family, value).address == MakeParsed(family, value).canonicalAddress
  {
  }

  lemma RequiredFamily(address: string)
    ensures ParseAddress(address, None).Some? ==>
              ParseAddress(address, Some(ParseAddress(address, None).value.family)) == ParseAddress(address, None)
  {
  }
}
