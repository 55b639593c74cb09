/** Day 11: monkeys pass items to each other. On its turn a monkey inspects
    each item it holds (its operation raises the worry level), calms down
    (worry divided by 3) unless it is restless, reduces the worry modulo the
    product of all the monkeys' divisors, and throws the item to the monkey its
    divisibility test picks. */
module Day11 {
  import opened Wrappers
  import opened Text

  datatype Operator = Mul | Add

  /** `parseOperator`: only `*` and `+` are operators. */
  function ParseOperator(str: string): (r: Result<Operator>)
    ensures r.Ok? <==> str == "*" || str == "+"
    ensures r.Ok? ==> (r.value == Mul <==> str == "*")
  {
    if str == "*" then Ok(Mul)
    else if str == "+" then Ok(Add)
    else Err("Invalid operator: " + str)
  }

  datatype Operand = Old | Num(n: nat)

  datatype Operation = Operation(operator: Operator, operand: Operand) {
    /** `Operation.apply`: the worry times, or plus, the operand, which is
        the worry itself for `old`. */
    function Apply(worry: nat): (r: nat)
    {
      var k := if operand.Old? then worry else operand.n;
      match operator
      case Mul => worry * k
      case Add => worry + k
    }
  }

  /** The `Operation` constructor: a numeral or `old` is an operand; anything
      else is refused. */
  function MakeOperation(operator: Operator, operand: string): (r: Result<Operation>)
    ensures r.Ok? <==> (operand != [] && AllDigits(operand)) || operand == "old"
    ensures r.Ok? && operand == "old" ==> r.value == Operation(operator, Old)
    ensures r.Ok? && operand != "old" ==> r.value == Operation(operator, Num(ParseNat(operand).value))
  {
    match ParseNat(operand)
    case Some(n) => Ok(Operation(operator, Num(n)))
    case None => if operand == "old" then Ok(Operation(operator, Old)) else Err("Unsupported operand: " + operand)
  }

  datatype TestResult = TestResult(passes: bool, index: nat)

  datatype Test = Test(divisor: nat, passIdx: nat, failIdx: nat) {
    /** `Test.apply`: the worry passes when the divisor divides it, and the
        item goes to `passIdx` or `failIdx` accordingly. A zero divisor never
        divides (the source compares NaN with 0). */
    function Apply(worry: nat): (r: TestResult)
    {
      var passes := divisor != 0 && worry % divisor == 0;
      TestResult(passes, if passes then passIdx else failIdx)
    }
  }

  /** `putDown`: relief that the item is undamaged divides the worry by three,
      rounding down. */
  function PutDown(worry: nat): (r: nat)
    ensures 3 * r <= worry < 3 * r + 3
  {
    worry / 3
  }

  /** What one monkey looks like at one moment: the source's `Monkey` fields. */
  datatype MonkeyState = MonkeyState(number: nat, items: seq<nat>, operation: Operation, test: Test,
                                     restless: bool, inspectedCount: nat)

  /** The monkey never throws to itself (otherwise its turn need not end). */
  predicate ThrowsToOthers(m: MonkeyState) {
    m.test.passIdx != m.number && m.test.failIdx != m.number
  }

  ghost predicate AllThrowToOthers(states: seq<MonkeyState>) {
    forall i :: 0 <= i < |states| ==> ThrowsToOthers(states[i])
  }

  /** Two snapshots of the same monkeys: only items and counts may differ. */
  ghost predicate SameMonkeys(a: seq<MonkeyState>, b: seq<MonkeyState>) {
    |a| == |b| &&
    forall i :: 0 <= i < |a| ==>
      a[i].number == b[i].number && a[i].operation == b[i].operation && a[i].test == b[i].test && a[i].restless == b[i].restless
  }

  /** The worry level an item leaves a monkey with. */
  function Process(m: MonkeyState, worry: nat, mod: nat): (r: nat)
    requires mod >= 1
    ensures r < mod
  {
    var inspected := m.operation.Apply(worry);
    var calmed := if m.restless then inspected else PutDown(inspected);
    calmed % mod
  }

  /** The first monkey with the given number (the source's `find`). */
  function FindNumber(states: seq<MonkeyState>, number: nat): (r: Option<nat>)
    ensures r.Some? ==> r.value < |states| && states[r.value].number == number
    ensures r.Some? ==> forall k :: 0 <= k < r.value ==> states[k].number != number
    ensures r.None? ==> forall k :: 0 <= k < |states| ==> states[k].number != number
  {
    if states == [] then None
    else if states[0].number == number then Some(0)
    else match FindNumber(states[1..], number)
      case None => None
      case Some(k) => Some(k + 1)
  }

  lemma FindNumberSame(a: seq<MonkeyState>, b: seq<MonkeyState>, number: nat)
    requires SameMonkeys(a, b)
    ensures FindNumber(a, number) == FindNumber(b, number)
  {
  }

  /** One iteration of `playTurn`: the first item is taken, inspected (counted),
      calmed unless restless, reduced, and appended to the target's items. */
  function ThrowFirst(states: seq<MonkeyState>, me: nat, mod: nat): (r: Result<seq<MonkeyState>>)
    requires mod >= 1 && me < |states| && states[me].items != [] && ThrowsToOthers(states[me])
    ensures r.Ok? ==> SameMonkeys(states, r.value)
    ensures r.Ok? ==> r.value[me].items == states[me].items[1..]
    ensures r.Ok? ==> r.value[me].inspectedCount == states[me].inspectedCount + 1
  {
    var m := states[me];
    var worry := Process(m, m.items[0], mod);
    var idx := m.test.Apply(worry).index;
    var after := states[me := m.(items := m.items[1..], inspectedCount := m.inspectedCount + 1)];
    match FindNumber(after, idx)
    case None => Err("Missing Monkey " + ShowNat(idx))
    case Some(j) => Ok(after[j := after[j].(items := after[j].items + [worry])])
  }

  /** `playTurn`: throw items until the monkey holds none. */
  function Turn(states: seq<MonkeyState>, me: nat, mod: nat): (r: Result<seq<MonkeyState>>)
    requires mod >= 1 && me < |states| && ThrowsToOthers(states[me])
    ensures r.Ok? ==> SameMonkeys(states, r.value)
    decreases |states[me].items|
  {
    if states[me].items == [] then Ok(states)
    else match ThrowFirst(states, me, mod)
      case Err(e) => Err(e)
      case Ok(next) => Turn(next, me, mod)
  }

  /** The turns of monkeys i, i + 1, ... of one round. */
  function RoundFrom(states: seq<MonkeyState>, mod: nat, i: nat): (r: Result<seq<MonkeyState>>)
    requires mod >= 1 && i <= |states| && AllThrowToOthers(states)
    ensures r.Ok? ==> SameMonkeys(states, r.value)
    decreases |states| - i
  {
    if i == |states| then Ok(states)
    else match Turn(states, i, mod)
      case Err(e) => Err(e)
      case Ok(next) => RoundFrom(next, mod, i + 1)
  }

  /** `n` rounds. */
  function Rounds(states: seq<MonkeyState>, mod: nat, n: nat): (r: Result<seq<MonkeyState>>)
    requires mod >= 1 && AllThrowToOthers(states)
    ensures r.Ok? ==> SameMonkeys(states, r.value)
  {
    if n == 0 then Ok(states)
    else match Rounds(states, mod, n - 1)
      case Err(e) => Err(e)
      case Ok(before) => RoundFrom(before, mod, 0)
  }

  /** The monkey number an item with the given worry is thrown to. */
  function Target(m: MonkeyState, worry: nat, mod: nat): nat
    requires mod >= 1
  {
    m.test.Apply(Process(m, worry, mod)).index
  }

  /** Monkeys that behave alike: the same operation, test and restlessness. */
  predicate Alike(a: MonkeyState, b: MonkeyState) {
    a.operation == b.operation && a.test == b.test && a.restless == b.restless
  }

  /** The worries, in order, that monkey `m` throws to monkey j while working
      through `worries`. */
  function Delivered(states: seq<MonkeyState>, m: MonkeyState, mod: nat, worries: seq<nat>, j: nat): (r: seq<nat>)
    requires mod >= 1
    ensures forall k :: 0 <= k < |r| ==> r[k] < mod
  {
    if worries == [] then []
    else
      (if FindNumber(states, Target(m, worries[0], mod)) == Some(j) then [Process(m, worries[0], mod)] else []) +
      Delivered(states, m, mod, worries[1..], j)
  }

  lemma {:induction false} DeliveredAlike(a: seq<MonkeyState>, b: seq<MonkeyState>, ma: MonkeyState, mb: MonkeyState,
                                          mod: nat, worries: seq<nat>, j: nat)
    requires mod >= 1 && SameMonkeys(a, b) && Alike(ma, mb)
    ensures Delivered(a, ma, mod, worries, j) == Delivered(b, mb, mod, worries, j)
  {
    if worries != [] {
      FindNumberSame(a, b, Target(ma, worries[0], mod));
      DeliveredAlike(a, b, ma, mb, mod, worries[1..], j);
    }
  }

  /** Every item's target exists. */
  ghost predicate TargetsExist(states: seq<MonkeyState>, m: MonkeyState, mod: nat, worries: seq<nat>)
    requires mod >= 1
  {
    forall k :: 0 <= k < |worries| ==> FindNumber(states, Target(m, worries[k], mod)).Some?
  }

  /** Monkey `me` has taken (and inspected) its first item. */
  function Taken(states: seq<MonkeyState>, me: nat): (r: seq<MonkeyState>)
    requires me < |states| && states[me].items != []
  {
    states[me := states[me].(items := states[me].items[1..], inspectedCount := states[me].inspectedCount + 1)]
  }

  /** Monkey t has received an item with the given worry. */
  function Received(states: seq<MonkeyState>, t: nat, worry: nat): (r: seq<MonkeyState>)
    requires t < |states|
  {
    states[t := states[t].(items := states[t].items + [worry])]
  }

  /** The snapshot after the first item of monkey `me` reaches monkey t. */
  function Thrown(states: seq<MonkeyState>, me: nat, mod: nat, t: nat): (r: seq<MonkeyState>)
    requires mod >= 1 && me < |states| && states[me].items != [] && t < |states|
  {
    var m := states[me];
    var after := states[me := m.(items := m.items[1..], inspectedCount := m.inspectedCount + 1)];
    after[t := after[t].(items := after[t].items + [Process(m, m.items[0], mod)])]
  }

  /** How the first throw goes: it fails when the target is missing, and
      otherwise reaches the first monkey with the target number. */
  lemma ThrowFirstOutcome(states: seq<MonkeyState>, me: nat, mod: nat)
    requires mod >= 1 && me < |states| && states[me].items != [] && ThrowsToOthers(states[me])
    ensures var idx := Target(states[me], states[me].items[0], mod);
      match FindNumber(states, idx)
      case None => ThrowFirst(states, me, mod).Err?
      case Some(t) => t != me && ThrowFirst(states, me, mod) == Ok(Thrown(states, me, mod, t))
  {
    var m := states[me];
    var after := states[me := m.(items := m.items[1..], inspectedCount := m.inspectedCount + 1)];
    FindNumberSame(states, after, Target(m, m.items[0], mod));
  }

  /** Within a turn, the remaining items go where they would have gone at its start. */
  lemma ThrownAlike(states: seq<MonkeyState>, me: nat, mod: nat, t: nat)
    requires mod >= 1 && me < |states| && states[me].items != [] && t < |states| && t != me
    ensures SameMonkeys(states, Thrown(states, me, mod, t)) && Alike(states[me], Thrown(states, me, mod, t)[me])
    ensures Thrown(states, me, mod, t)[me].items == states[me].items[1..]
    ensures forall j :: 0 <= j < |states| ==>
      Delivered(Thrown(states, me, mod, t), Thrown(states, me, mod, t)[me], mod, states[me].items[1..], j) ==
      Delivered(states, states[me], mod, states[me].items[1..], j)
    ensures forall w :: (FindNumber(Thrown(states, me, mod, t), Target(Thrown(states, me, mod, t)[me], w, mod)) ==
      FindNumber(states, Target(states[me], w, mod)))
  {
    var next := Thrown(states, me, mod, t);
    forall j | 0 <= j < |states|
      ensures Delivered(next, next[me], mod, states[me].items[1..], j) == Delivered(states, states[me], mod, states[me].items[1..], j)
    {
      DeliveredAlike(next, states, next[me], states[me], mod, states[me].items[1..], j);
    }
    forall w
      ensures FindNumber(next, Target(next[me], w, mod)) == FindNumber(states, Target(states[me], w, mod))
    {
      FindNumberSame(states, next, Target(states[me], w, mod));
    }
  }

  /** A turn fails exactly when some item's target monkey is missing. */
  lemma {:induction false} TurnFails(states: seq<MonkeyState>, me: nat, mod: nat)
    requires mod >= 1 && me < |states| && ThrowsToOthers(states[me])
    ensures Turn(states, me, mod).Ok? <==> TargetsExist(states, states[me], mod, states[me].items)
    decreases |states[me].items|
  {
    var m := states[me];
    if m.items != [] {
      ThrowFirstOutcome(states, me, mod);
      var rest := m.items[1..];
      assert forall k :: 1 <= k < |m.items| ==> m.items[k] == rest[k - 1];
      var idx := Target(m, m.items[0], mod);
      if FindNumber(states, idx).Some? {
        var t := FindNumber(states, idx).value;
        var next := Thrown(states, me, mod, t);
        ThrownAlike(states, me, mod, t);
        TurnFails(next, me, mod);
      }
    }
  }

  /** After a turn the monkey holds nothing and has inspected each of its
      items once more. */
  lemma {:induction false} TurnEmpties(states: seq<MonkeyState>, me: nat, mod: nat)
    requires mod >= 1 && me < |states| && ThrowsToOthers(states[me])
    requires Turn(states, me, mod).Ok?
    ensures Turn(states, me, mod).value[me].items == []
    ensures Turn(states, me, mod).value[me].inspectedCount == states[me].inspectedCount + |states[me].items|
    decreases |states[me].items|
  {
    var m := states[me];
    if m.items != [] {
      ThrowFirstOutcome(states, me, mod);
      var t := FindNumber(states, Target(m, m.items[0], mod)).value;
      var next := Thrown(states, me, mod, t);
      ThrownAlike(states, me, mod, t);
      TurnEmpties(next, me, mod);
    }
  }

  /** A turn that throws its first item to monkey t continues from there. */
  lemma TurnStep(states: seq<MonkeyState>, me: nat, mod: nat, t: nat)
    requires mod >= 1 && me < |states| && ThrowsToOthers(states[me]) && states[me].items != []
    requires FindNumber(states, Target(states[me], states[me].items[0], mod)) == Some(t)
    ensures t != me && SameMonkeys(states, Thrown(states, me, mod, t))
    ensures Thrown(states, me, mod, t)[me].items == states[me].items[1..] && ThrowsToOthers(Thrown(states, me, mod, t)[me])
    ensures Turn(states, me, mod) == Turn(Thrown(states, me, mod, t), me, mod)
    ensures forall j :: 0 <= j < |states| ==>
      Delivered(states, states[me], mod, states[me].items, j) ==
      (if t == j then [Process(states[me], states[me].items[0], mod)] else []) +
      Delivered(Thrown(states, me, mod, t), Thrown(states, me, mod, t)[me], mod, states[me].items[1..], j)
    ensures forall j :: 0 <= j < |states| && j != me ==>
      Thrown(states, me, mod, t)[j].items == states[j].items + (if t == j then [Process(states[me], states[me].items[0], mod)] else []) &&
      Thrown(states, me, mod, t)[j].inspectedCount == states[j].inspectedCount
  {
    ThrowFirstOutcome(states, me, mod);
    ThrownAlike(states, me, mod, t);
  }

  /** After monkey `me`'s turn every other monkey holds what it held followed
      by the items thrown to it, in the order they were thrown, and has
      inspected no more items. */
  lemma {:induction false} TurnDelivers(states: seq<MonkeyState>, me: nat, mod: nat, j: nat)
    requires mod >= 1 && me < |states| && ThrowsToOthers(states[me])
    requires Turn(states, me, mod).Ok? && j < |states| && j != me
    ensures Turn(states, me, mod).value[j].items == states[j].items + Delivered(states, states[me], mod, states[me].items, j)
    ensures Turn(states, me, mod).value[j].inspectedCount == states[j].inspectedCount
    decreases |states[me].items|
  {
    var m := states[me];
    if m.items != [] {
      ThrowFirstOutcome(states, me, mod);
      var t := FindNumber(states, Target(m, m.items[0], mod)).value;
      TurnStep(states, me, mod, t);
      var next := Thrown(states, me, mod, t);
      var head := if t == j then [Process(m, m.items[0], mod)] else [];
      var rest := Delivered(next, next[me], mod, m.items[1..], j);
      assert next[j].items == states[j].items + head;
      assert Delivered(states, m, mod, m.items, j) == head + rest;
      TurnDelivers(next, me, mod, j);
      assert Turn(states, me, mod).value[j].items == (states[j].items + head) + rest;
    }
  }

  /** The number of items all the monkeys hold together. */
  function TotalItems(states: seq<MonkeyState>): nat {
    if states == [] then 0 else |states[0].items| + TotalItems(states[1..])
  }

  lemma {:induction false} TotalItemsUpdate(states: seq<MonkeyState>, i: nat, m: MonkeyState)
    requires i < |states|
    ensures TotalItems(states[i := m]) + |states[i].items| == TotalItems(states) + |m.items|
  {
    if i > 0 {
      assert states[i := m][1..] == states[1..][i - 1 := m];
      TotalItemsUpdate(states[1..], i - 1, m);
    } else {
      assert states[i := m][1..] == states[1..];
    }
  }

  /** Items are neither created nor destroyed by a turn. */
  lemma {:induction false} TurnConserves(states: seq<MonkeyState>, me: nat, mod: nat)
    requires mod >= 1 && me < |states| && ThrowsToOthers(states[me])
    requires Turn(states, me, mod).Ok?
    ensures TotalItems(Turn(states, me, mod).value) == TotalItems(states)
    decreases |states[me].items|
  {
    var m := states[me];
    if m.items != [] {
      ThrowFirstOutcome(states, me, mod);
      var t := FindNumber(states, Target(m, m.items[0], mod)).value;
      var after := Taken(states, me);
      var next := Thrown(states, me, mod, t);
      assert next == Received(after, t, Process(m, m.items[0], mod));
      TotalItemsUpdate(states, me, after[me]);
      TotalItemsUpdate(after, t, next[t]);
      ThrownAlike(states, me, mod, t);
      TurnConserves(next, me, mod);
    }
  }

  /** Every worry level a monkey holds is below `mod`. */
  ghost predicate Reduced(m: MonkeyState, mod: nat) {
    forall k :: 0 <= k < |m.items| ==> m.items[k] < mod
  }

  /** After a full round every stored worry level is below `mod`: each monkey
      has thrown away all it held and received only reduced worries since. */
  lemma {:induction false} RoundReduces(states: seq<MonkeyState>, mod: nat, i: nat)
    requires mod >= 1 && i <= |states| && AllThrowToOthers(states)
    requires forall k :: 0 <= k < i ==> Reduced(states[k], mod)
    requires RoundFrom(states, mod, i).Ok?
    ensures forall k :: 0 <= k < |states| ==> Reduced(RoundFrom(states, mod, i).value[k], mod)
    decreases |states| - i
  {
    if i < |states| {
      TurnEmpties(states, i, mod);
      var next := Turn(states, i, mod).value;
      assert AllThrowToOthers(next);
      forall k | 0 <= k < i + 1
        ensures Reduced(next[k], mod)
      {
        if k != i {
          TurnDelivers(states, i, mod, k);
          var extra := Delivered(states, states[i], mod, states[i].items, k);
          assert next[k].items == states[k].items + extra;
        }
      }
      RoundReduces(next, mod, i + 1);
    }
  }

  /** The product of the divisors, multiplied in order (`playRounds`' `mod`). */
  function Product(ds: seq<nat>): nat {
    if ds == [] then 1 else Product(ds[..|ds| - 1]) * ds[|ds| - 1]
  }

  function Divisors(states: seq<MonkeyState>): (r: seq<nat>)
    ensures |r| == |states| && forall i :: 0 <= i < |states| ==> r[i] == states[i].test.divisor
  {
    seq(|states|, i requires 0 <= i < |states| => states[i].test.divisor)
  }

  lemma {:induction false} ProductPositive(ds: seq<nat>)
    requires forall i :: 0 <= i < |ds| ==> ds[i] >= 1
    ensures Product(ds) >= 1
  {
    if ds != [] {
      ProductPositive(ds[..|ds| - 1]);
    }
  }

  /** Each divisor divides the product. */
  lemma {:induction false} ProductMultiple(ds: seq<nat>, i: nat) returns (k: nat)
    requires i < |ds|
    ensures Product(ds) == ds[i] * k
  {
    var prefix := ds[..|ds| - 1];
    if i == |ds| - 1 {
      k := Product(prefix);
    } else {
      var k' := ProductMultiple(prefix, i);
      assert prefix[i] == ds[i];
      k := k' * ds[|ds| - 1];
      calc {
        Product(ds);
        Product(prefix) * ds[|ds| - 1];
        (ds[i] * k') * ds[|ds| - 1];
        { MulAssociates(ds[i], k', ds[|ds| - 1]); }
        ds[i] * k;
      }
    }
  }

  lemma MulAssociates(a: nat, b: nat, c: nat)
    ensures (a * b) * c == a * (b * c)
  {
  }

  lemma {:induction false} MulAtLeast(d: nat, k: nat)
    requires k >= 1
    ensures d * k >= d
  {
    if k > 1 {
      MulAtLeast(d, k - 1);
      assert d * k == d * (k - 1) + d;
    }
  }

  /** Quotient and remainder are unique. */
  lemma ModUnique(n: nat, d: nat, q: nat, r: nat)
    requires d >= 1 && r < d && n == d * q + r
    ensures n % d == r
  {
    var q', r' := n / d, n % d;
    assert n == d * q' + r';
    if q > q' {
      MulAtLeast(d, q - q');
    } else if q < q' {
      MulAtLeast(d, q' - q);
    }
  }

  /** Adding a multiple of d does not change the remainder modulo d. */
  lemma ModAddMultiple(a: nat, d: nat, x: nat)
    requires d >= 1
    ensures (d * x + a) % d == a % d
  {
    var q := a / d;
    assert a == d * q + a % d;
    assert d * x + a == d * (x + q) + a % d;
    ModUnique(d * x + a, d, x + q, a % d);
  }

  /** Reducing modulo a multiple of d keeps the remainder modulo d. */
  lemma ModOfMultiple(w: nat, d: nat, k: nat)
    requires d >= 1 && k >= 1
    ensures (w % (d * k)) % d == w % d
  {
    var m := d * k;
    var q := w / m;
    assert w == m * q + w % m;
    MulAssociates(d, k, q);
    ModAddMultiple(w % m, d, k * q);
  }

  /** `playRounds`' modulus: the product of every monkey's divisor. */
  function Modulus(states: seq<MonkeyState>): (r: nat)
    requires forall k :: 0 <= k < |states| ==> states[k].test.divisor >= 1
    ensures r >= 1
  {
    ProductPositive(Divisors(states));
    Product(Divisors(states))
  }

  /** Reducing a worry modulo the product of all divisors changes no monkey's
      test outcome. */
  lemma ReductionKeepsTests(states: seq<MonkeyState>, worry: nat, i: nat)
    requires forall k :: 0 <= k < |states| ==> states[k].test.divisor >= 1
    requires i < |states|
    ensures states[i].test.Apply(worry % Modulus(states)) == states[i].test.Apply(worry)
  {
    var ds := Divisors(states);
    ProductPositive(ds);
    var k := ProductMultiple(ds, i);
    ModOfMultiple(worry, ds[i], k);
  }

  /** Without the calming division an operation respects congruence modulo
      `mod`, so reducing between inspections is harmless for restless monkeys. */
  lemma OperationRespectsCongruence(operation: Operation, a: nat, b: nat, mod: nat)
    requires mod >= 1 && a % mod == b % mod
    ensures operation.Apply(a) % mod == operation.Apply(b) % mod
  {
    var r := a % mod;
    var qa, qb := a / mod, b / mod;
    assert a == mod * qa + r && b == mod * qb + r;
    var k := if operation.operand.Old? then 0 else operation.operand.n;
    match operation.operator
    case Add =>
      if operation.operand.Old? {
        SumMod(a, a, mod, qa, r);
        SumMod(a, r, mod, qa, r);
        SumMod(b, b, mod, qb, r);
        SumMod(b, r, mod, qb, r);
      } else {
        SumMod(a, k, mod, qa, r);
        SumMod(b, k, mod, qb, r);
      }
    case Mul =>
      if operation.operand.Old? {
        SquareMod(a, mod, qa, r);
        SquareMod(b, mod, qb, r);
      } else {
        ProductMod(a, k, mod, qa, r);
        ProductMod(b, k, mod, qb, r);
      }
  }

  lemma SumMod(a: nat, k: nat, mod: nat, q: nat, r: nat)
    requires mod >= 1 && a == mod * q + r
    ensures (a + k) % mod == (r + k) % mod
  {
    ModAddMultiple(r + k, mod, q);
  }

  lemma ProductMod(a: nat, k: nat, mod: nat, q: nat, r: nat)
    requires mod >= 1 && a == mod * q + r
    ensures (a * k) % mod == (r * k) % mod
  {
    assert a * k == mod * (q * k) + r * k by {
      MulAssociates(mod, q, k);
    }
    ModAddMultiple(r * k, mod, q * k);
  }

  lemma SquareMod(a: nat, mod: nat, q: nat, r: nat)
    requires mod >= 1 && a == mod * q + r
    ensures (a * a) % mod == (r * r) % mod
  {
    var x := q * (mod * q + r) + r * q;
    assert a * a == mod * x + r * r;
    ModAddMultiple(r * r, mod, x);
  }

  /** With the calming division the congruence is lost: two worries alike
      modulo 2 can be told apart by a divisor-2 test after dividing by three.
      Part 1 reduces after the division, so its later tests need not agree
      with the unreduced game once a worry exceeds `mod`. */
  lemma PutDownBreaksCongruence()
    ensures 3 % 2 == 1 % 2 && PutDown(3) % 2 != PutDown(1) % 2
  {
  }

  /** Pairwise different monkey objects. */
  predicate Distinct(all: seq<Monkey>) {
    forall i, j :: 0 <= i < j < |all| ==> all[i] != all[j]
  }

  /** A snapshot of every monkey. */
  function States(all: seq<Monkey>): (r: seq<MonkeyState>)
    reads all
    ensures |r| == |all| && forall k :: 0 <= k < |all| ==> r[k] == all[k].State()
  {
    seq(|all|, k requires 0 <= k < |all| reads all => all[k].State())
  }

  /** `Monkey`: number, operation, test and restlessness are fixed; the items
      held and the inspection count change. */
  class Monkey {
    const number: nat
    var items: seq<nat>
    const operation: Operation
    const test: Test
    var inspectedCount: nat
    const restless: bool

    constructor(number: nat, startingItems: seq<nat>, operation: Operation, test: Test, restless: bool)
      ensures State() == MonkeyState(number, startingItems, operation, test, restless, 0)
    {
      this.number := number;
      this.items := startingItems;
      this.operation := operation;
      this.test := test;
      this.inspectedCount := 0;
      this.restless := restless;
    }

    function State(): MonkeyState
      reads this
    {
      MonkeyState(number, items, operation, test, restless, inspectedCount)
    }

    /** `inspect`: one more inspection, and the operation raises the worry. */
    method Inspect(worry: nat) returns (r: nat)
      modifies this
      ensures r == operation.Apply(worry)
      ensures inspectedCount == old(inspectedCount) + 1 && items == old(items)
    {
      inspectedCount := inspectedCount + 1;
      r := operation.Apply(worry);
    }

    /** `pass`: the number of the monkey the test sends the item to. */
    function Pass(worry: nat): (r: nat)
    {
      test.Apply(worry).index
    }

    /** One iteration of `playTurn`'s loop: the first item is inspected,
        calmed unless the monkey is restless, reduced and thrown. */
    method ThrowFirstItem(mod: nat, all: seq<Monkey>, ghost me: nat) returns (ok: bool)
      requires mod >= 1 && me < |all| && all[me] == this && Distinct(all)
      requires ThrowsToOthers(State()) && items != []
      modifies all
      ensures ok <==> ThrowFirst(old(States(all)), me, mod).Ok?
      ensures ok ==> States(all) == ThrowFirst(old(States(all)), me, mod).value
    {
      ghost var before := States(all);
      var worry := InspectFirst(all, me);
      if !restless {
        worry := PutDown(worry);
      }
      worry := worry % mod;
      var idx := Pass(worry);
      ghost var taken := Taken(before, me);
      ThrowFirstOutcome(before, me, mod);
      FindNumberSame(before, taken, idx);
      var target := FindNumber(States(all), idx);
      if target.None? {
        return false;
      }
      all[target.value].Catch(worry, all, target.value);
      assert States(all) == Thrown(before, me, mod, target.value);
      ok := true;
    }

    /** `items.shift()` followed by `inspect`: the first item leaves the
        monkey, which counts one more inspection of it. */
    method InspectFirst(all: seq<Monkey>, ghost me: nat) returns (worry: nat)
      requires me < |all| && all[me] == this && Distinct(all) && items != []
      modifies this
      ensures worry == operation.Apply(old(items[0]))
      ensures States(all) == Taken(old(States(all)), me)
    {
      ghost var before := States(all);
      worry := items[0];
      items := items[1..];
      worry := Inspect(worry);
      forall k | 0 <= k < |all|
        ensures all[k].State() == Taken(before, me)[k]
      {
        if k != me {
          assert all[k] != this;
        }
      }
    }

    /** `toMonkey.items.push(worry)`: the item joins the end of this monkey's items. */
    method Catch(worry: nat, all: seq<Monkey>, ghost t: nat)
      requires t < |all| && all[t] == this && Distinct(all)
      modifies this
      ensures States(all) == Received(old(States(all)), t, worry)
    {
      ghost var before := States(all);
      items := items + [worry];
      forall k | 0 <= k < |all|
        ensures all[k].State() == Received(before, t, worry)[k]
      {
        if k != t {
          assert all[k] != this;
        }
      }
    }

    /** `playTurn`: inspect, calm, reduce and throw every item, first to last.
        It fails (the source throws) when a target monkey is missing. */
    method PlayTurn(mod: nat, all: seq<Monkey>, ghost me: nat) returns (ok: bool)
      requires mod >= 1 && me < |all| && all[me] == this && Distinct(all)
      requires ThrowsToOthers(State())
      modifies all
      ensures ok <==> Turn(old(States(all)), me, mod).Ok?
      ensures ok ==> States(all) == Turn(old(States(all)), me, mod).value
    {
      ghost var start := States(all);
      while items != []
        invariant ThrowsToOthers(State())
        invariant Turn(States(all), me, mod) == Turn(start, me, mod)
        decreases |items|
      {
        var thrown := ThrowFirstItem(mod, all, me);
        if !thrown {
          return false;
        }
      }
      ok := true;
    }
  }

  /** Failure is final: later rounds cannot recover from it. */
  lemma {:induction false} RoundsFailureSticks(states: seq<MonkeyState>, mod: nat, n: nat, m: nat)
    requires mod >= 1 && AllThrowToOthers(states) && n <= m
    requires Rounds(states, mod, n).Err?
    ensures Rounds(states, mod, m).Err?
  {
    if n < m {
      RoundsFailureSticks(states, mod, n, m - 1);
    }
  }

  /** The product of every monkey's divisor, which every round reduces by. */
  method ProductOfDivisors(monkeys: seq<Monkey>) returns (mod: nat)
    requires forall k :: 0 <= k < |monkeys| ==> monkeys[k].test.divisor >= 1
    ensures mod == Modulus(States(monkeys))
  {
    ghost var ds := Divisors(States(monkeys));
    mod := 1;
    for i := 0 to |monkeys|
      invariant mod == Product(ds[..i])
    {
      assert ds[..i + 1][..i] == ds[..i];
      mod := mod * monkeys[i].test.divisor;
    }
    assert ds[..|monkeys|] == ds;
  }

  /** `playRounds`: the modulus, then `count` rounds in which every monkey
      takes its turn in order. */
  method PlayRounds(count: nat, monkeys: seq<Monkey>) returns (ok: bool)
    requires Distinct(monkeys) && AllThrowToOthers(States(monkeys))
    requires forall k :: 0 <= k < |monkeys| ==> monkeys[k].test.divisor >= 1
    modifies monkeys
    ensures ok <==> Rounds(old(States(monkeys)), Modulus(old(States(monkeys))), count).Ok?
    ensures ok ==> States(monkeys) == Rounds(old(States(monkeys)), Modulus(old(States(monkeys))), count).value
  {
    ghost var start := States(monkeys);
    var mod := ProductOfDivisors(monkeys);
    for r := 0 to count
      invariant AllThrowToOthers(States(monkeys))
      invariant Rounds(start, mod, r) == Ok(States(monkeys))
    {
      RoundsNext(start, mod, r);
      ok := PlayRound(mod, monkeys);
      if !ok {
        RoundsFailureSticks(start, mod, r + 1, count);
        return;
      }
    }
    ok := true;
  }

  /** Round r + 1 plays one more round from where r rounds left the monkeys. */
  lemma RoundsNext(states: seq<MonkeyState>, mod: nat, r: nat)
    requires mod >= 1 && AllThrowToOthers(states) && Rounds(states, mod, r).Ok?
    ensures AllThrowToOthers(Rounds(states, mod, r).value)
    ensures Rounds(states, mod, r + 1) == RoundFrom(Rounds(states, mod, r).value, mod, 0)
  {
  }


  /** One pass of `playRounds`' outer loop: every monkey, in order, takes its turn. */
  method PlayRound(mod: nat, monkeys: seq<Monkey>) returns (ok: bool)
    requires mod >= 1 && Distinct(monkeys) && AllThrowToOthers(States(monkeys))
    modifies monkeys
    ensures ok <==> RoundFrom(old(States(monkeys)), mod, 0).Ok?
    ensures ok ==> States(monkeys) == RoundFrom(old(States(monkeys)), mod, 0).value
  {
    ghost var roundStart := States(monkeys);
    for j := 0 to |monkeys|
      invariant AllThrowToOthers(States(monkeys))
      invariant RoundFrom(States(monkeys), mod, j) == RoundFrom(roundStart, mod, 0)
    {
      RoundFromTurn(States(monkeys), mod, j);
      ok := monkeys[j].PlayTurn(mod, monkeys, j);
      if !ok {
        return;
      }
    }
    ok := true;
  }

  /** Monkey j's turn opens the rest of the round from j. */
  lemma RoundFromTurn(states: seq<MonkeyState>, mod: nat, j: nat)
    requires mod >= 1 && j < |states| && AllThrowToOthers(states)
    ensures ThrowsToOthers(states[j])
    ensures Turn(states, j, mod).Err? ==> RoundFrom(states, mod, j).Err?
    ensures Turn(states, j, mod).Ok? ==>
      AllThrowToOthers(Turn(states, j, mod).value) &&
      RoundFrom(states, mod, j) == RoundFrom(Turn(states, j, mod).value, mod, j + 1)
  {
  }

  /** What `Monkey.fromDescription` reads from a block of notes. */
  datatype Description = Description(number: nat, startingItems: seq<nat>, operation: Operation, test: Test)

  /** The monkeys as the notes describe them, before any round. */
  function Initial(notes: seq<Description>, restless: bool): (r: seq<MonkeyState>)
  {
    seq(|notes|, k requires 0 <= k < |notes| =>
      MonkeyState(notes[k].number, notes[k].startingItems, notes[k].operation, notes[k].test, restless, 0))
  }

  /** The notes describe no monkey that throws to itself, and no zero divisor. */
  predicate Playable(notes: seq<Description>) {
    forall k :: 0 <= k < |notes| ==>
      notes[k].test.divisor >= 1 && notes[k].test.passIdx != notes[k].number && notes[k].test.failIdx != notes[k].number
  }

  function Counts(states: seq<MonkeyState>): (r: seq<nat>)
  {
    seq(|states|, k requires 0 <= k < |states| => states[k].inspectedCount)
  }

  /** Positions a and b hold the largest count and the largest of the rest:
      the first two entries of a descending sort. */
  predicate IsTopTwo(counts: seq<nat>, a: nat, b: nat) {
    a < |counts| && b < |counts| && a != b &&
    forall k :: 0 <= k < |counts| ==> counts[k] <= counts[a] && (k != a ==> counts[k] <= counts[b])
  }

  /** The monkey business level: the product of the two largest counts. */
  ghost predicate IsBusiness(counts: seq<nat>, level: nat) {
    exists a: nat, b: nat :: IsTopTwo(counts, a, b) && level == counts[a] * counts[b]
  }

  function Product2(x: nat, y: nat): nat {
    x * y
  }

  /** However ties are broken, the two largest counts have one product. */
  lemma TopTwoProductUnique(counts: seq<nat>, a: nat, b: nat, a': nat, b': nat)
    requires IsTopTwo(counts, a, b) && IsTopTwo(counts, a', b')
    ensures counts[a] * counts[b] == counts[a'] * counts[b']
  {
    assert counts[a] == counts[a'];
    if a == a' {
      assert counts[b] == counts[b'];
    } else {
      assert counts[b] == counts[a] && counts[b'] == counts[a'];
    }
  }

  /** The two leading positions of the descending sort, found in one pass. */
  method TopTwo(counts: seq<nat>) returns (a: nat, b: nat)
    requires |counts| >= 2
    ensures IsTopTwo(counts, a, b)
  {
    if counts[0] >= counts[1] {
      a, b := 0, 1;
    } else {
      a, b := 1, 0;
    }
    for i := 2 to |counts|
      invariant IsTopTwo(counts[..i], a, b)
    {
      if counts[i] > counts[a] {
        a, b := i, a;
      } else if counts[i] > counts[b] {
        b := i;
      }
    }
    assert counts[..|counts|] == counts;
  }

  /** A fresh monkey for each block of notes, in order. */
  method Build(notes: seq<Description>, restless: bool) returns (monkeys: seq<Monkey>)
    ensures Distinct(monkeys) && States(monkeys) == Initial(notes, restless)
    ensures forall k :: 0 <= k < |monkeys| ==> fresh(monkeys[k])
  {
    monkeys := [];
    for i := 0 to |notes|
      invariant Distinct(monkeys) && States(monkeys) == Initial(notes[..i], restless)
      invariant forall k :: 0 <= k < |monkeys| ==> fresh(monkeys[k])
    {
      var d := notes[i];
      var monkey := new Monkey(d.number, d.startingItems, d.operation, d.test, restless);
      monkeys := monkeys + [monkey];
    }
    assert notes[..|notes|] == notes;
  }

  /** Both parts: build the monkeys, play the rounds and multiply the two
      largest inspection counts. Fewer than two monkeys leave no second
      count (the source fails reading it). */
  method Solve(notes: seq<Description>, restless: bool, rounds: nat) returns (r: Result<nat>)
    requires Playable(notes)
    ensures var states := Initial(notes, restless);
      r.Ok? <==> Rounds(states, Modulus(states), rounds).Ok? && |notes| >= 2
    ensures var states := Initial(notes, restless);
      r.Ok? ==> IsBusiness(Counts(Rounds(states, Modulus(states), rounds).value), r.value)
  {
    var monkeys := Build(notes, restless);
    ghost var states := Initial(notes, restless);
    assert AllThrowToOthers(states);
    assert forall k :: 0 <= k < |monkeys| ==> monkeys[k].test.divisor == states[k].test.divisor >= 1;
    ghost var outcome := Rounds(states, Modulus(states), rounds);
    var ok := PlayRounds(rounds, monkeys);
    if !ok {
      return Err("Missing Monkey");
    }
    if |monkeys| < 2 {
      return Err("Fewer than two monkeys");
    }
    var counts := Counts(States(monkeys));
    assert counts == Counts(outcome.value);
    var a, b := TopTwo(counts);
    r := Ok(Product2(counts[a], counts[b]));
  }

  /** Part 1: twenty rounds, calming down after each inspection. */
  method Part1Solution(notes: seq<Description>) returns (r: Result<nat>)
    requires Playable(notes)
    ensures var states := Initial(notes, false);
      r.Ok? <==> Rounds(states, Modulus(states), 20).Ok? && |notes| >= 2
    ensures var states := Initial(notes, false);
      r.Ok? ==> IsBusiness(Counts(Rounds(states, Modulus(states), 20).value), r.value)
  {
    r := Solve(notes, false, 20);
  }

  /** Part 2: ten thousand rounds of restless monkeys. */
  method Part2Solution(notes: seq<Description>) returns (r: Result<nat>)
    requires Playable(notes)
    ensures var states := Initial(notes, true);
      r.Ok? <==> Rounds(states, Modulus(states), 10000).Ok? && |notes| >= 2
    ensures var states := Initial(notes, true);
      r.Ok? ==> IsBusiness(Counts(Rounds(states, Modulus(states), 10000).value), r.value)
  {
    r := Solve(notes, true, 10000);
  }
}
