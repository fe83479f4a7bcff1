/**
  What the admission of an answer set and the resolver step in front of it decide, case by case: the
  exact condition of every outcome and every reason.
 */
module AddressDecisions {
  import opened Wrappers
  import opened AddressText
  import opened AddressCase
  import opened AddressRanges
  import opened AddressAdmission

  // ----- one answer -----

  /** The text is an address of this family. */
  predicate IsAddress(text: string, family: Family) {
    ParseAddress(text, Some(family)).Some?
  }

  lemma FamiliesApart(text: string)
    ensures ParseAddress(text, None).Some? <==> IsAddress(text, V4) || IsAddress(text, V6)
    ensures !(IsAddress(text, V4) && IsAddress(text, V6))
  {
    hide ParseIpv4Value;
    hide ParseIpv6Groups;
  }

  function Other(family: Family): Family {
    if family == V4 then V6 else V4
  }

  /** Why an answer is no address: each reason with its exact condition. */
  lemma AnswerErrorExactly(answer: Answer)
    ensures var r := CheckAnswer(answer);
            && (r.Ok? <==>
                  && answer.Record? && |answer.address| <= 45
                  && ((answer.family == 4 && IsAddress(answer.address, V4)) || (answer.family == 6 && IsAddress(answer.address, V6))))
            && (r == Err(AnswerAddressOversized) <==> answer.Record? && |answer.address| > 45)
            && (r == Err(AddressFamilyMismatch) <==>
                  && answer.Record? && |answer.address| <= 45
                  && ((answer.family == 4 && IsAddress(answer.address, V6)) || (answer.family == 6 && IsAddress(answer.address, V4))))
            && (r == Err(MalformedAddress) <==>
                  || answer.NotARecord?
                  || (|answer.address| <= 45
                      && ((answer.family != 4 && answer.family != 6)
                          || (!IsAddress(answer.address, V4) && !IsAddress(answer.address, V6)))))
            && (r.Err? ==> r.error in {AnswerAddressOversized, AddressFamilyMismatch, MalformedAddress})
  {
    hide ParseAddress;
    hide ItemOf;
    if answer.Record? { FamiliesApart(answer.address); }
  }

  // ----- the answer set -----

  /** The first answer that is no address. */
  predicate FirstBad(answers: seq<Answer>, k: nat) {
    && k < |answers| && CheckAnswer(answers[k]).Err?
    && forall i :: 0 <= i < k ==> CheckAnswer(answers[i]).Ok?
  }

  lemma {:induction false} CollectStops(answers: seq<Answer>, unique: seq<Item>, k: nat)
    requires FirstBad(answers, k)
    ensures Collect(answers, unique) == Err(CheckAnswer(answers[k]).error)
  {
    hide CheckAnswer;
    if k > 0 {
      assert answers[1..][k - 1] == answers[k];
      assert forall i :: 0 <= i < k - 1 ==> answers[1..][i] == answers[i + 1];
      CollectStops(answers[1..], MapSet(unique, CheckAnswer(answers[0]).value), k - 1);
    }
  }

  predicate Acceptables(environment: Environment, answers: seq<Answer>, accepted: bool) {
    exists i :: 0 <= i < |answers| && CheckAnswer(answers[i]).Ok? && Acceptable(environment, CheckAnswer(answers[i]).value) == accepted
  }

  /** An answer is an IPv4-mapped IPv6 address, ::ffff:0:0/96. */
  predicate MappedAmong(answers: seq<Answer>) {
    exists i :: 0 <= i < |answers| && CheckAnswer(answers[i]).Ok? && CheckAnswer(answers[i]).value.mapped
  }

  /** Mapped is exactly the block ::ffff:0:0/96. */
  lemma MappedExactly(family: Family, value: nat)
    ensures ItemOf(family, value).mapped <==> family == V6 && 0xffff_0000_0000 <= value <= 0xffff_ffff_ffff
  {
    hide Canonical;
    hide ClassifyIpv4;
    hide ClassifyIpv6;
  }

  /** What a list of one to eight addresses comes to: all, some or none of them acceptable. */
  ghost predicate WellFormedCase(environment: Environment, answers: seq<Answer>, r: Admission) {
    && (r.Admitted? <==> !Acceptables(environment, answers, false))
    && (r == Denied(MixedAnswerSet, |answers|) <==> Acceptables(environment, answers, true) && Acceptables(environment, answers, false))
    && (!Acceptables(environment, answers, true) ==>
          r == Denied(if MappedAmong(answers) then MappedAddressUnsupported
                      else if environment == Local then LocalAddressNotExact
                      else AddressPolicyDenied, |answers|))
  }

  ghost predicate BadAnswerCase(answers: seq<Answer>, r: Admission) {
    exists k: nat :: FirstBad(answers, k) && r == Failed(CheckAnswer(answers[k]).error, |answers|)
  }

  /**
    Every way an answer set is not admitted, with its reason and exact condition: too few, too many,
    the first answer that is no address, or what the policy makes of the addresses. The count reported
    is that of the answers as they came.
   */
  lemma RefusedExactly(environment: Environment, answers: seq<Answer>, less: Order)
    ensures var r := Admit(environment, answers, less);
            && r.answerCount == |answers|
            && (answers == [] ==> r == Failed(EmptyAnswer, 0))
            && (|answers| > 8 ==> r == Failed(AnswerSetOversized, |answers|))
            && (1 <= |answers| <= 8 ==>
                  if AllWellFormed(answers) then !r.Failed? && WellFormedCase(environment, answers, r) else BadAnswerCase(answers, r))
  {
    hide CheckAnswer;
    hide WellFormedCase;
    hide Decide;
    hide Collect;
    if 1 <= |answers| <= 8 {
      if AllWellFormed(answers) {
        CollectNonempty(answers, []);
        CollectsSet(answers, []);
        DecidedReason(environment, answers, Collect(answers, []).value, less);
      } else {
        var k := FirstOfBad(answers, 0);
        CollectStops(answers, [], k);
        assert FirstBad(answers, k);
      }
    }
  }

  lemma FirstOfBad(answers: seq<Answer>, from: nat) returns (k: nat)
    requires from <= |answers| && !AllWellFormed(answers) && forall i :: 0 <= i < from ==> CheckAnswer(answers[i]).Ok?
    ensures FirstBad(answers, k) && forall j :: FirstBad(answers, j) ==> j == k
    decreases |answers| - from
  {
    hide CheckAnswer;
    if CheckAnswer(answers[from]).Err? { k := from; } else { k := FirstOfBad(answers, from + 1); }
  }

  /** The decision over the collected items, in terms of the answers. */
  lemma DecidedReason(environment: Environment, answers: seq<Answer>, items: seq<Item>, less: Order)
    requires items != [] && AllWellFormed(answers)
    requires forall item :: item in items <==> HasItem(answers, item)
    ensures var r := Decide(environment, items, |answers|, less);
            r.answerCount == |answers| && !r.Failed? && WellFormedCase(environment, answers, r)
  {
    hide CheckAnswer;
    hide Acceptable;
    hide Sort;
    forall accepted: bool
      ensures Acceptables(environment, answers, accepted) <==> exists item :: item in items && Acceptable(environment, item) == accepted {
      if i :| 0 <= i < |answers| && CheckAnswer(answers[i]).Ok? && Acceptable(environment, CheckAnswer(answers[i]).value) == accepted {
        assert HasItem(answers, CheckAnswer(answers[i]).value);
      }
      if item :| item in items && Acceptable(environment, item) == accepted {
        assert HasItem(answers, item);
      }
    }
    assert MappedAmong(answers) <==> exists item :: item in items && item.mapped by {
      if i :| 0 <= i < |answers| && CheckAnswer(answers[i]).Ok? && CheckAnswer(answers[i]).value.mapped {
        assert HasItem(answers, CheckAnswer(answers[i]).value);
      }
      if item :| item in items && item.mapped {
        assert HasItem(answers, item);
      }
    }
    hide Acceptables;
    hide MappedAmong;
    assert items[0] in items;
    assert Acceptable(environment, items[0]) == true || Acceptable(environment, items[0]) == false;
  }

  // ----- which one is selected -----

  /** All IPv4 items come first. */
  predicate Ipv4First(items: seq<Item>) {
    forall i, j :: 0 <= i < j < |items| && items[i].family == V6 ==> items[j].family == V6
  }

  lemma {:induction false} InsertKeepsFamilies(item: Item, sorted: seq<Item>, less: Order)
    requires Ipv4First(sorted)
    ensures Ipv4First(Insert(item, sorted, less))
  {
    if sorted != [] && !ItemLess(item, sorted[0], less) {
      InsertKeepsFamilies(item, sorted[1..], less);
      InsertMembers(item, sorted[1..], less);
      var rest := Insert(item, sorted[1..], less);
      if sorted[0].family == V6 {
        forall x | x in rest ensures x.family == V6 {
          if x != item {
            var i :| 0 <= i < |sorted[1..]| && sorted[1..][i] == x;
            assert sorted[i + 1] == x;
          }
        }
      }
    }
  }

  lemma {:induction false} SortsFamilies(items: seq<Item>, less: Order)
    ensures Ipv4First(Sort(items, less))
  {
    if items != [] {
      SortsFamilies(items[1..], less);
      InsertKeepsFamilies(items[0], Sort(items[1..], less), less);
    }
    hide Insert;
  }

  /**
    The order of the admitted addresses: IPv4 before IPv6, and by text within a family. So an IPv6
    address is selected only where no answer is an IPv4 one, whatever the comparator.
   */
  lemma SelectedFirst(environment: Environment, answers: seq<Answer>, less: Order)
    requires Admit(environment, answers, less).Admitted?
    ensures var r := Admit(environment, answers, less);
            && Ipv4First(r.addresses)
            && (r.selected.family == V6 ==> forall item :: HasItem(answers, item) ==> item.family == V6)
            && (OrdersCanonicalTexts(less) ==>
                  forall i, j :: 0 <= i < j < |r.addresses| && r.addresses[i].family == r.addresses[j].family ==>
                    less(r.addresses[i].address, r.addresses[j].address))
  {
    AdmittedExactly(environment, answers, less);
    FamiliesInOrder(environment, answers, less);
    hide Admit;
    hide CheckAnswer;
    hide AllAcceptable;
    hide OrdersCanonicalTexts;
    hide HasItem;
  }

  lemma FamiliesInOrder(environment: Environment, answers: seq<Answer>, less: Order)
    requires Admit(environment, answers, less).Admitted?
    ensures Ipv4First(Admit(environment, answers, less).addresses)
  {
    SortsFamilies(Collect(answers, []).value, less);
    hide Collect;
    hide Sort;
    hide Acceptable;
  }

  // ----- the resolver step -----

  /** Admitting one address: it alone decides. */
  lemma OneAnswer(environment: Environment, answer: Answer, item: Item, less: Order)
    requires CheckAnswer(answer) == Ok(item)
    ensures Admit(environment, [answer], less) ==
            if Acceptable(environment, item) then Admitted([item], item, 1)
            else Denied(if item.mapped then MappedAddressUnsupported
                        else if environment == Local then LocalAddressNotExact
                        else AddressPolicyDenied, 1)
  {
    hide CheckAnswer;
    hide Acceptable;
    assert [answer][1..] == [];
    assert Collect([answer], []) == Collect([], [item]) == Ok([item]);
    assert [item][1..] == [];
    assert Insert(item, [], less) == [item] + [] == [item];
    assert Sort([item], less) == Insert(item, Sort([], less), less);
    assert item in [item];
  }

  const LOOPBACK_V4: nat := 0x7f00_0001

  /** What a single address is resolved to; in any environment it is the only one, and selected if accepted. */
  function Alone(environment: Environment, family: Family, value: nat, accepted: ResolutionReason): Resolution {
    var item := ItemOf(family, value);
    if Acceptable(environment, item) then Resolution(OutcomeAdmitted, accepted, 1, Some(item), [item])
    else
      var reason := if item.mapped then MappedAddressUnsupported
                    else if environment == Local then LocalAddressNotExact
                    else AddressPolicyDenied;
      Resolution(OutcomeDenied, Refused(reason), 1, None, [])
  }

  lemma DenotedAlone(environment: Environment, text: string, family: Family, value: nat, less: Order, accepted: ResolutionReason)
    requires value < Space(family) && DenotesOne(Record(text, FamilyNumber(family)), family, value)
    ensures FromAdmission(Admit(environment, [Record(text, FamilyNumber(family))], less), accepted) == Alone(environment, family, value, accepted)
  {
    hide CheckAnswer;
    hide Acceptable;
    hide Admit;
    hide ItemOf;
    hide ParseAddress;
    AcceptedItem(Record(text, FamilyNumber(family)), ItemOf(family, value));
    OneAnswer(environment, Record(text, FamilyNumber(family)), ItemOf(family, value), less);
  }

  /** An address literal is resolved to itself, whatever the resolver would say. */
  lemma LiteralResolved(hostname: string, environment: Environment, settled: Settled, less: Order)
    requires ParseAddress(hostname, None).Some?
    ensures var p := ParseAddress(hostname, None).value;
            ResolveAndAdmit(hostname, environment, settled, less) == Alone(environment, p.family, p.value, LiteralAddress)
  {
    hide ResolveAndAdmit;
    hide Alone;
    hide ParseAddress;
    hide Admit;
    LiteralAgreesWithResolver(hostname, environment, settled, less);
    var p := ParseAddress(hostname, None).value;
    ParsedFacts(hostname, None);
    RequiredFamily(hostname);
    DenotedAlone(environment, hostname, p.family, p.value, less, LiteralAddress);
  }

  lemma LocalhostIsNoAddress(hostname: string)
    requires InAnyCase(hostname, "localhost", "LOCALHOST")
    ensures ParseAddress(hostname, None).None? && Classify(Lower(hostname), None).None?
  {
    assert forall c :: c in hostname ==> c != ':' && c != '.' && c != '[';
    SplitFirst(hostname, "", '.');
    LowerAlike(hostname);
    AlikeAddress(Lower(hostname), hostname, None);
  }

  /** `localhost`, in any letter case, is 127.0.0.1: selected alone in `local`, denied elsewhere, and never looked up. */
  lemma LocalhostResolved(hostname: string, environment: Environment, settled: Settled, less: Order)
    requires InAnyCase(hostname, "localhost", "LOCALHOST")
    ensures var item := ItemOf(V4, 0x7f00_0001);
            && item.address == "127.0.0.1" && item.family == V4
            && ResolveAndAdmit(hostname, environment, settled, less) ==
               if environment == Local then Resolution(OutcomeAdmitted, LocalhostCanonicalized, 1, Some(item), [item])
               else Resolution(OutcomeDenied, Refused(AddressPolicyDenied), 1, None, [])
  {
    hide Alone;
    hide Admit;
    hide Classify;
    LocalhostIsNoAddress(hostname);
    LowerExactly(hostname, "localhost", "LOCALHOST");
    LoopbackAlone(environment, less);
  }

  lemma LoopbackAlone(environment: Environment, less: Order)
    ensures var item := ItemOf(V4, 0x7f00_0001);
            && item.address == "127.0.0.1" && item.family == V4
            && FromAdmission(Admit(environment, [Record("127.0.0.1", 4)], less), LocalhostCanonicalized) ==
               if environment == Local then Resolution(OutcomeAdmitted, LocalhostCanonicalized, 1, Some(item), [item])
               else Resolution(OutcomeDenied, Refused(AddressPolicyDenied), 1, None, [])
  {
    hide ItemOf;
    hide Acceptable;
    hide Canonical;
    hide Admit;
    hide CheckAnswer;
    hide ParseAddress;
    LoopbackTexts();
    ItemAddress(V4, LOOPBACK_V4);
    CanonicalRoundTrip(V4, LOOPBACK_V4, Some(V4));
    DenotedAlone(environment, "127.0.0.1", V4, LOOPBACK_V4, less, LocalhostCanonicalized);
    MappedExactly(V4, LOOPBACK_V4);
    LoopbackAccepted(environment);
  }

  lemma LoopbackAccepted(environment: Environment)
    ensures Acceptable(environment, ItemOf(V4, LOOPBACK_V4)) <==> environment == Local
  {
    hide ItemOf;
    hide Acceptable;
    AcceptableLocally(V4, LOOPBACK_V4);
    if environment != Local {
      AcceptableRemotely(environment, V4, LOOPBACK_V4);
      assert Within(LOOPBACK_V4, IPV4_BLOCKS[1]);
    }
  }

  /** Any other name is looked up, and nothing is selected unless every answer is acceptable. */
  lemma NameResolved(hostname: string, environment: Environment, settled: Settled, less: Order)
    requires ParseAddress(hostname, None).None? && !InAnyCase(hostname, "localhost", "LOCALHOST")
    ensures var r := ResolveAndAdmit(hostname, environment, settled, less);
            match settled
            case TimedOut => r == Resolution(OutcomeFailed, ResolutionTimeout, 0, None, [])
            case LookupFailed => r == Resolution(OutcomeFailed, ResolverError, 0, None, [])
            case Answers(answers) =>
              && r.answerCount == |answers|
              && (AllAcceptable(environment, answers) ==>
                    && r.outcome == OutcomeAdmitted && r.reason == AddressSetAccepted
                    && r.selected.Some? && r.addresses != [] && r.selected.value == r.addresses[0]
                    && (r.selected.value.family == V6 ==> forall item :: HasItem(answers, item) ==> item.family == V6)
                    && forall item :: item in r.addresses <==> HasItem(answers, item))
              && (!AllAcceptable(environment, answers) ==>
                    && r.selected.None? && r.addresses == []
                    && !Admit(environment, answers, less).Admitted? && r.reason == Refused(Admit(environment, answers, less).reason)
                    && (r.outcome == OutcomeDenied <==> 1 <= |answers| <= 8 && AllWellFormed(answers))
                    && (r.outcome == OutcomeFailed <==> !(1 <= |answers| <= 8 && AllWellFormed(answers))))
  {
    LowerExactly(hostname, "localhost", "LOCALHOST");
    LowerAlike(hostname);
    AlikeAddress(Lower(hostname), hostname, None);
    hide ParseAddress;
    hide Admit;
    hide CheckAnswer;
    hide ItemOf;
    if settled.Answers? {
      AdmittedExactly(environment, settled.answers, less);
      DeniedExactly(environment, settled.answers, less);
      if AllAcceptable(environment, settled.answers) { SelectedFirst(environment, settled.answers, less); }
    }
    hide HasItem;
    hide AllAcceptable;
  }

  lemma DeniedExactly(environment: Environment, answers: seq<Answer>, less: Order)
    ensures var r := Admit(environment, answers, less);
            r.answerCount == |answers| && (r.Failed? <==> !(1 <= |answers| <= 8 && AllWellFormed(answers)))
  {
    RefusedExactly(environment, answers, less);
    hide Admit;
    hide CheckAnswer;
    hide WellFormedCase;
  }
}
