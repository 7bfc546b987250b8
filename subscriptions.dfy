/** Subscription plans and the customer subscription ledger, with the behaviour
    the commerce tests assert: plans are listed in creation order; plan
    create, edit and delete are for administrators; a plan that customers
    hold cannot be deleted; a customer holds at most one subscription, and
    can only unsubscribe from one they hold.

    Prices are integer cents (5.0 is 500, 7.5 is 750, 99.99 is 9999). */
module Subscriptions {
  import opened Wrappers
  import opened Access
  import opened Decimal
  import opened Seqs
  import opened Http

  datatype Plan = Plan(id: nat, name: string, booksPerMonth: int, pricePerMonth: int)

  /** A create body: the id is assigned by the table. */
  datatype PlanInput = PlanInput(name: string, booksPerMonth: int, pricePerMonth: int)

  /** A PATCH body: None leaves a field alone. */
  datatype PlanPatch = PlanPatch(name: Option<string>, booksPerMonth: Option<int>, pricePerMonth: Option<int>)

  /** A row of the user_subscription table. */
  datatype Entry = Entry(userId: nat, subscriptionPlanId: nat, subscribedAt: int, expiresAt: int)

  datatype Error =
    | Denied(reason: Denial)
    | PlanNotFound
    | ValidationFailed
    | PlanInUse(subscribers: nat)
    | AlreadySubscribed
    | NotSubscribed

  /** The status a refused request answers with: the guard's 401 or 403, 404
      for an unknown plan, 422 (unprocessable entity) for the rest. */
  function Status(e: Error): (s: nat)
    ensures e.Denied? ==> s == DenialStatus(e.reason)
    ensures s == NotFoundStatus <==> e == PlanNotFound
    ensures s == UnprocessableStatus <==> !e.Denied? && e != PlanNotFound
  {
    match e
    case Denied(d) => DenialStatus(d)
    case PlanNotFound => NotFoundStatus
    case _ => UnprocessableStatus
  }

  /** The user-facing message, for the errors whose text is fixed. */
  function Message(e: Error): (m: Option<string>)
    ensures m.Some? <==> e.PlanInUse? || e == NotSubscribed
    ensures e == NotSubscribed ==> m == Some("You are not subscribed to a plan.")
  {
    match e
    case PlanInUse(n) =>
      Some("Cannot delete plan since there are " + NatToString(n) + " users who are subscribed to it.")
    case NotSubscribed => Some("You are not subscribed to a plan.")
    case _ => None
  }

  /** The deletion message names the number of subscribers: it can be read back. */
  lemma PlanInUseMessageCarriesCount(m: nat, n: nat)
    ensures Message(PlanInUse(m)) == Message(PlanInUse(n)) ==> m == n
  {
    var prefix := "Cannot delete plan since there are ";
    var suffix := " users who are subscribed to it.";
    if Message(PlanInUse(m)) == Message(PlanInUse(n)) {
      var a := prefix + NatToString(m) + suffix;
      var b := prefix + NatToString(n) + suffix;
      assert a == b;
      assert |NatToString(m)| == |NatToString(n)|;
      assert NatToString(m) == a[|prefix|..|a| - |suffix|];
      assert NatToString(n) == b[|prefix|..|b| - |suffix|];
      NatToStringInjective(m, n);
    }
  }

  lemma OneSubscriberMessage()
    ensures Message(PlanInUse(1)) == Some("Cannot delete plan since there are " + "1" + " users who are subscribed to it.")
  {
    assert NatToString(1) == "1";
  }

  // ---- plans ----

  predicate HasPlan(plans: seq<Plan>, id: nat) {
    exists p :: p in plans && p.id == id
  }

  function PlanIndex(plans: seq<Plan>, id: nat): (r: Option<nat>)
    ensures r.Some? <==> HasPlan(plans, id)
    ensures r.Some? ==> r.value < |plans| && plans[r.value].id == id
  {
    LastIndexWhere(plans, (p: Plan) => p.id == id)
  }

  /** Does `p` break the plan table's constraints: a negative allotment or
      price, or a name another plan already has? */
  predicate Invalid(plans: seq<Plan>, p: Plan) {
    p.booksPerMonth < 0 || p.pricePerMonth < 0 ||
    exists q :: q in plans && q.id != p.id && q.name == p.name
  }

  function ApplyPatch(p: Plan, patch: PlanPatch): Plan {
    Plan(
      p.id,
      match patch.name case None => p.name case Some(n) => n,
      match patch.booksPerMonth case None => p.booksPerMonth case Some(b) => b,
      match patch.pricePerMonth case None => p.pricePerMonth case Some(c) => c)
  }

  /** Distinct ids and names, non-negative allotments and prices. */
  ghost predicate PlansWellFormed(plans: seq<Plan>) {
    && (forall i, j :: 0 <= i < j < |plans| ==> plans[i].id != plans[j].id && plans[i].name != plans[j].name)
    && (forall p :: p in plans ==> p.booksPerMonth >= 0 && p.pricePerMonth >= 0)
  }

  // ---- the ledger ----

  predicate IsSubscribed(ledger: seq<Entry>, userId: nat) {
    exists e :: e in ledger && e.userId == userId
  }

  function EntryIndex(ledger: seq<Entry>, userId: nat): (r: Option<nat>)
    ensures r.Some? <==> IsSubscribed(ledger, userId)
    ensures r.Some? ==> r.value < |ledger| && ledger[r.value].userId == userId
  {
    LastIndexWhere(ledger, (e: Entry) => e.userId == userId)
  }

  /** How many rows of the ledger reference plan `planId`. */
  function SubscriberCount(ledger: seq<Entry>, planId: nat): (n: nat)
    ensures n <= |ledger|
    ensures n == 0 <==> forall e :: e in ledger ==> e.subscriptionPlanId != planId
  {
    if ledger == [] then 0
    else
      var init := ledger[..|ledger| - 1];
      var last := ledger[|ledger| - 1];
      assert forall e :: e in ledger <==> e in init || e == last;
      SubscriberCount(init, planId) + if last.subscriptionPlanId == planId then 1 else 0
  }

  /** The customers holding plan `planId`. */
  ghost function Holders(ledger: seq<Entry>, planId: nat): set<nat> {
    set e | e in ledger && e.subscriptionPlanId == planId :: e.userId
  }

  /** The table's rule as the tests require it: one row per customer. */
  ghost predicate OnePerCustomer(ledger: seq<Entry>) {
    forall i, j :: 0 <= i < j < |ledger| ==> ledger[i].userId != ledger[j].userId
  }

  /** With one row per customer, counting rows counts customers: the number in
      the deletion message is the number of distinct subscribed users. */
  lemma {:induction false} SubscriberCountIsHolders(ledger: seq<Entry>, planId: nat)
    requires OnePerCustomer(ledger)
    ensures SubscriberCount(ledger, planId) == |Holders(ledger, planId)|
  {
    if ledger != [] {
      var init := ledger[..|ledger| - 1];
      var last := ledger[|ledger| - 1];
      SubscriberCountIsHolders(init, planId);
      assert forall e :: e in ledger <==> e in init || e == last;
      if last.subscriptionPlanId == planId {
        assert Holders(ledger, planId) == Holders(init, planId) + {last.userId};
        assert last.userId !in Holders(init, planId) by {
          forall e | e in init ensures e.userId != last.userId {
            var i :| 0 <= i < |init| && init[i] == e;
            assert ledger[i] == e;
          }
        }
      } else {
        assert Holders(ledger, planId) == Holders(init, planId);
      }
    }
  }

  // ---- the service ----

  class SubscriptionService {
    var plans: seq<Plan>
    var ledger: seq<Entry>
    var nextPlanId: nat

    /** The plan table's constraints, one row per customer, and no row
        referencing a plan that is not in the table. */
    ghost predicate Valid()
      reads this
    {
      && PlansWellFormed(plans)
      && (forall p :: p in plans ==> p.id < nextPlanId)
      && OnePerCustomer(ledger)
      && (forall e :: e in ledger ==> HasPlan(plans, e.subscriptionPlanId))
    }

    constructor()
      ensures Valid() && plans == [] && ledger == []
    {
      plans := [];
      ledger := [];
      nextPlanId := 1;
    }

    /** The customer's subscription, or null. */
    function SubscriptionOf(userId: nat): (s: Option<Entry>)
      reads this
      ensures s.None? <==> !IsSubscribed(ledger, userId)
      ensures s.Some? ==> s.value in ledger && s.value.userId == userId
    {
      match EntryIndex(ledger, userId)
      case None => None
      case Some(i) => Some(ledger[i])
    }

    /** GET: every plan, in creation order. */
    method ListPlans() returns (ps: seq<Plan>)
      ensures ps == plans
    {
      ps := plans;
    }

    /** POST: administrators only; a plan breaking the table's constraints
        fails validation; otherwise it is appended with a fresh id and echoed. */
    method CreatePlan(who: Identity, input: PlanInput) returns (r: Result<Plan, Error>)
      requires Valid()
      modifies this
      ensures Valid() && ledger == old(ledger)
      ensures RequireAdmin(who).Some? ==> r == Err(Denied(RequireAdmin(who).value))
      ensures var p := Plan(old(nextPlanId), input.name, input.booksPerMonth, input.pricePerMonth);
              RequireAdmin(who).None? ==>
                if Invalid(old(plans), p) then r == Err(ValidationFailed)
                else r == Ok(p) && plans == old(plans) + [p]
      ensures r.Err? ==> plans == old(plans)
      ensures nextPlanId == old(nextPlanId) + (if r.Ok? then 1 else 0)
    {
      var denied := RequireAdmin(who);
      if denied.Some? {
        return Err(Denied(denied.value));
      }
      var p := Plan(nextPlanId, input.name, input.booksPerMonth, input.pricePerMonth);
      if Invalid(plans, p) {
        return Err(ValidationFailed);
      }
      plans := plans + [p];
      nextPlanId := nextPlanId + 1;
      r := Ok(p);
      assert forall e :: e in ledger ==> HasPlan(old(plans), e.subscriptionPlanId);
    }

    /** PATCH: administrators only; unknown plans are not-found; the supplied
        fields overwrite the plan in place, unless that breaks the constraints. */
    method EditPlan(who: Identity, id: nat, patch: PlanPatch) returns (r: Result<Plan, Error>)
      requires Valid()
      modifies this
      ensures Valid() && ledger == old(ledger) && nextPlanId == old(nextPlanId)
      ensures RequireAdmin(who).Some? ==> r == Err(Denied(RequireAdmin(who).value))
      ensures RequireAdmin(who).None? && !HasPlan(old(plans), id) ==> r == Err(PlanNotFound)
      ensures RequireAdmin(who).None? && HasPlan(old(plans), id) ==>
                var k := PlanIndex(old(plans), id).value;
                var p := ApplyPatch(old(plans)[k], patch);
                if Invalid(old(plans), p) then r == Err(ValidationFailed)
                else r == Ok(p) && plans == old(plans)[k := p]
      ensures r.Err? ==> plans == old(plans)
    {
      var denied := RequireAdmin(who);
      if denied.Some? {
        return Err(Denied(denied.value));
      }
      var found := PlanIndex(plans, id);
      if found.None? {
        return Err(PlanNotFound);
      }
      var k := found.value;
      var p := ApplyPatch(plans[k], patch);
      if Invalid(plans, p) {
        return Err(ValidationFailed);
      }
      ReplacePlanKeepsTable(plans, ledger, k, p);
      plans := plans[k := p];
      r := Ok(p);
    }

    /** DELETE: administrators only; unknown plans are not-found; a plan that
        n > 0 customers hold is refused with a message carrying n; otherwise
        the plan is removed and nothing else changes. */
    method DeletePlan(who: Identity, id: nat) returns (r: Result<Plan, Error>)
      requires Valid()
      modifies this
      ensures Valid() && ledger == old(ledger) && nextPlanId == old(nextPlanId)
      ensures RequireAdmin(who).Some? ==> r == Err(Denied(RequireAdmin(who).value))
      ensures RequireAdmin(who).None? && !HasPlan(old(plans), id) ==> r == Err(PlanNotFound)
      ensures RequireAdmin(who).None? && HasPlan(old(plans), id) ==>
                var n := SubscriberCount(old(ledger), id);
                var k := PlanIndex(old(plans), id).value;
                if n > 0 then r == Err(PlanInUse(n)) && n == |Holders(old(ledger), id)|
                else r == Ok(old(plans)[k]) && plans == RemoveAt(old(plans), k)
      ensures r.Err? ==> plans == old(plans)
      ensures r.Ok? ==> !HasPlan(plans, id)
    {
      var denied := RequireAdmin(who);
      if denied.Some? {
        return Err(Denied(denied.value));
      }
      var found := PlanIndex(plans, id);
      if found.None? {
        return Err(PlanNotFound);
      }
      var n := SubscriberCount(ledger, id);
      if n > 0 {
        SubscriberCountIsHolders(ledger, id);
        return Err(PlanInUse(n));
      }
      var k := found.value;
      r := Ok(plans[k]);
      RemovePlanKeepsTable(plans, ledger, k);
      plans := RemoveAt(plans, k);
    }

    /** POST subscribe: signed-in users; the plan must exist; a customer who
        already holds any plan is refused; otherwise one row is added for
        this customer and no other customer's row changes. */
    method Subscribe(who: Identity, planId: nat, now: int, expiresAt: int) returns (r: Result<Entry, Error>)
      requires Valid()
      modifies this
      ensures Valid() && plans == old(plans) && nextPlanId == old(nextPlanId)
      ensures RequireSignedIn(who).Some? ==> r == Err(Denied(Unauthorized))
      ensures who.SignedIn? ==>
                if !HasPlan(plans, planId) then r == Err(PlanNotFound)
                else if IsSubscribed(old(ledger), who.userId) then r == Err(AlreadySubscribed)
                else r == Ok(Entry(who.userId, planId, now, expiresAt)) && ledger == old(ledger) + [r.value]
      ensures r.Err? ==> ledger == old(ledger)
      ensures r.Ok? ==> SubscriptionOf(who.userId) == Some(r.value)
    {
      var denied := RequireSignedIn(who);
      if denied.Some? {
        return Err(Denied(denied.value));
      }
      if PlanIndex(plans, planId).None? {
        return Err(PlanNotFound);
      }
      if EntryIndex(ledger, who.userId).Some? {
        return Err(AlreadySubscribed);
      }
      var e := Entry(who.userId, planId, now, expiresAt);
      ledger := ledger + [e];
      r := Ok(e);
      assert ledger[|ledger| - 1] == e;
    }

    /** POST unsubscribe: signed-in users; a customer without a subscription
        gets "You are not subscribed to a plan."; otherwise their one row is
        removed and returned. */
    method Unsubscribe(who: Identity) returns (r: Result<Entry, Error>)
      requires Valid()
      modifies this
      ensures Valid() && plans == old(plans) && nextPlanId == old(nextPlanId)
      ensures RequireSignedIn(who).Some? ==> r == Err(Denied(Unauthorized))
      ensures who.SignedIn? ==>
                if !IsSubscribed(old(ledger), who.userId) then r == Err(NotSubscribed)
                else var k := EntryIndex(old(ledger), who.userId).value;
                     r == Ok(old(ledger)[k]) && ledger == RemoveAt(old(ledger), k)
      ensures r.Err? ==> ledger == old(ledger)
      ensures r.Ok? ==> SubscriptionOf(who.userId) == None
    {
      var denied := RequireSignedIn(who);
      if denied.Some? {
        return Err(Denied(denied.value));
      }
      var found := EntryIndex(ledger, who.userId);
      if found.None? {
        return Err(NotSubscribed);
      }
      var k := found.value;
      r := Ok(ledger[k]);
      RemoveEntryKeepsTable(plans, ledger, k);
      ledger := RemoveAt(ledger, k);
    }
  }

  // ---- the invariant across plan and ledger changes ----

  lemma ReplacePlanKeepsTable(plans: seq<Plan>, ledger: seq<Entry>, k: nat, p: Plan)
    requires PlansWellFormed(plans) && k < |plans| && plans[k].id == p.id && !Invalid(plans, p)
    requires forall e :: e in ledger ==> HasPlan(plans, e.subscriptionPlanId)
    ensures PlansWellFormed(plans[k := p])
    ensures forall q :: q in plans[k := p] <==> (q in plans && q.id != p.id) || q == p
    ensures forall e :: e in ledger ==> HasPlan(plans[k := p], e.subscriptionPlanId)
  {
    var s := plans[k := p];
    forall i, j | 0 <= i < j < |s| ensures s[i].id != s[j].id && s[i].name != s[j].name {
      if i == k { assert s[j] in plans; } else if j == k { assert s[i] in plans; }
    }
    assert s[k] == p;
    forall q ensures q in s <==> (q in plans && q.id != p.id) || q == p {
      if q in plans && q.id != p.id {
        var i :| 0 <= i < |plans| && plans[i] == q;
        assert i != k && s[i] == q;
      }
      if q in s && q != p {
        var i :| 0 <= i < |s| && s[i] == q;
        assert i != k && plans[i] == q;
        assert q.id != plans[k].id;
      }
    }
    forall e | e in ledger ensures HasPlan(s, e.subscriptionPlanId) {
      var q :| q in plans && q.id == e.subscriptionPlanId;
      if q.id == p.id { assert p in s; } else { assert q in s; }
    }
  }

  lemma RemovePlanKeepsTable(plans: seq<Plan>, ledger: seq<Entry>, k: nat)
    requires PlansWellFormed(plans) && k < |plans|
    requires forall e :: e in ledger ==> HasPlan(plans, e.subscriptionPlanId)
    requires SubscriberCount(ledger, plans[k].id) == 0
    ensures PlansWellFormed(RemoveAt(plans, k))
    ensures !HasPlan(RemoveAt(plans, k), plans[k].id)
    ensures forall e :: e in ledger ==> HasPlan(RemoveAt(plans, k), e.subscriptionPlanId)
  {
    var s := RemoveAt(plans, k);
    RemoveAtMembers(plans, k);
    forall i, j | 0 <= i < j < |s| ensures s[i].id != s[j].id && s[i].name != s[j].name {
      var i', j' := if i < k then i else i + 1, if j < k then j else j + 1;
      assert s[i] == plans[i'] && s[j] == plans[j'];
    }
    forall q | q in s ensures q.id != plans[k].id {
      var i :| 0 <= i < |s| && s[i] == q;
      var i' := if i < k then i else i + 1;
      assert q == plans[i'];
    }
    forall e | e in ledger ensures HasPlan(s, e.subscriptionPlanId) {
      var i :| 0 <= i < |plans| && plans[i].id == e.subscriptionPlanId;
      assert i != k;
      assert plans[i] in s;
    }
  }

  lemma RemoveEntryKeepsTable(plans: seq<Plan>, ledger: seq<Entry>, k: nat)
    requires OnePerCustomer(ledger) && k < |ledger|
    requires forall e :: e in ledger ==> HasPlan(plans, e.subscriptionPlanId)
    ensures OnePerCustomer(RemoveAt(ledger, k))
    ensures !IsSubscribed(RemoveAt(ledger, k), ledger[k].userId)
    ensures forall e :: e in RemoveAt(ledger, k) ==> HasPlan(plans, e.subscriptionPlanId)
  {
    var s := RemoveAt(ledger, k);
    RemoveAtMembers(ledger, k);
    forall i, j | 0 <= i < j < |s| ensures s[i].userId != s[j].userId {
      var i', j' := if i < k then i else i + 1, if j < k then j else j + 1;
      assert s[i] == ledger[i'] && s[j] == ledger[j'];
    }
    forall e | e in s ensures e.userId != ledger[k].userId {
      var i :| 0 <= i < |s| && s[i] == e;
      var i' := if i < k then i else i + 1;
      assert e == ledger[i'];
    }
  }

  /** Listing returns the created plans in order; customers may not create plans. */
  method PlanListingScenario(adminId: nat, customerId: nat)
  {
    var service := new SubscriptionService();
    var admin, customer := SignedIn(adminId, Admin), SignedIn(customerId, Customer);
    var economic := service.CreatePlan(admin, PlanInput("Economic", 5, 500));
    assert economic.Ok? && service.plans == [economic.value];
    var premium := service.CreatePlan(admin, PlanInput("Premium", 10, 750));
    assert premium.Ok? && service.plans == [economic.value, premium.value];
    var byCustomer := service.CreatePlan(customer, PlanInput("Ultra", 15, 1000));
    assert byCustomer == Err(Denied(Forbidden));
    var listed := service.ListPlans();
    assert listed == [economic.value, premium.value];
  }

  /** A customer subscribes; a second subscription is refused. */
  method SubscribeTwiceScenario(customerId: nat, now: int, expiresAt: int)
  {
    var service := new SubscriptionService();
    var admin, customer := SignedIn(0, Admin), SignedIn(customerId, Customer);
    var economic := service.CreatePlan(admin, PlanInput("Economic", 5, 500));
    assert economic.Ok? && service.plans == [economic.value];
    var plan := economic.value;

    var anonymous := service.Subscribe(Anonymous, plan.id, now, expiresAt);
    assert anonymous == Err(Denied(Unauthorized));
    assert HasPlan(service.plans, plan.id) && service.ledger == [];
    var first := service.Subscribe(customer, plan.id, now, expiresAt);
    assert first.Ok? && service.ledger == [first.value];
    assert IsSubscribed(service.ledger, customerId);
    var second := service.Subscribe(customer, plan.id, now, expiresAt);
    assert second == Err(AlreadySubscribed) && Status(second.error) == 422;
  }

  /** From one plan held by one customer: deleting the plan is refused with a
      count of 1, the customer unsubscribes (the second time refused), and the
      plan can then be deleted. */
  method HeldPlanScenario(service: SubscriptionService, admin: Identity, customer: Identity, plan: Plan, entry: Entry)
    requires service.Valid() && service.plans == [plan] && service.ledger == [entry]
    requires admin.SignedIn? && admin.role == Admin && customer.SignedIn?
    requires entry.userId == customer.userId && entry.subscriptionPlanId == plan.id
    modifies service
  {
    var refused := service.DeletePlan(admin, plan.id);
    assert SubscriberCount([entry], plan.id) == 1;
    assert refused == Err(PlanInUse(1));
    OneSubscriberMessage();

    var left := service.Unsubscribe(customer);
    assert left.Ok? && service.ledger == [] && service.SubscriptionOf(customer.userId) == None;
    var again := service.Unsubscribe(customer);
    assert again == Err(NotSubscribed);

    var deleted := service.DeletePlan(admin, plan.id);
    assert deleted.Ok? && service.plans == [];
  }
}
