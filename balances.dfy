/**
 Shared-expense balances (calculateBalances in src/utils.js).

 Each expense names who paid, how much, and the people it is split between.
 The payer is owed the whole amount, and each listed person owes an equal
 share, the payer included when listed. A balance is positive when the
 person is owed money and negative when they owe it.
 */
module Balances {

  type Person = string

  datatype Expense = Expense(paidBy: Person, amount: real, splitBetween: seq<Person>)

  /** Every expense is split between at least one person. */
  predicate AllSplit(es: seq<Expense>) {
    forall i :: 0 <= i < |es| ==> |es[i].splitBetween| > 0
  }

  /**
   What each person listed in `e` owes for it. With nobody listed the
   division has no real value; 0 stands in for it, and no balance ever
   receives it, because an empty list debits no one.
   */
  function Share(e: Expense): real {
    if |e.splitBetween| == 0 then 0.0 else e.amount / (|e.splitBetween| as real)
  }

  /** The balance of `p`, where an absent person stands at 0. */
  function Get(b: map<Person, real>, p: Person): real {
    if p in b then b[p] else 0.0
  }

  /** Adds `x` to the balance of `p`, starting it at 0 if `p` has none. */
  function Credit(b: map<Person, real>, p: Person, x: real): map<Person, real> {
    b[p := Get(b, p) + x]
  }

  /** Subtracts `share` from the balance of each entry of `ps`, in order. */
  function DebitAll(b: map<Person, real>, ps: seq<Person>, share: real): map<Person, real> {
    if ps == [] then b
    else
      var rest := DebitAll(b, ps[..|ps| - 1], share);
      Credit(rest, ps[|ps| - 1], -share)
  }

  /** The balances after one more expense. */
  function ApplyExpense(b: map<Person, real>, e: Expense): map<Person, real>
  {
    DebitAll(Credit(b, e.paidBy, e.amount), e.splitBetween, Share(e))
  }

  /** The balances after all of `es`, applied in list order from an empty map. */
  function BalancesOf(es: seq<Expense>): map<Person, real>
  {
    if es == [] then map[]
    else ApplyExpense(BalancesOf(es[..|es| - 1]), es[|es| - 1])
  }

  /** Computes every person's balance by updating one map in place. */
  method CalculateBalances(expenses: seq<Expense>) returns (balances: map<Person, real>)
    ensures balances == BalancesOf(expenses)
  {
    balances := map[];
    var i := 0;
    while i < |expenses|
      invariant 0 <= i <= |expenses|
      invariant balances == BalancesOf(expenses[..i])
    {
      var exp := expenses[i];
      var perPerson := Share(exp);
      if exp.paidBy !in balances || balances[exp.paidBy] == 0.0 {
        balances := balances[exp.paidBy := 0.0];
      }
      balances := balances[exp.paidBy := balances[exp.paidBy] + exp.amount];
      ghost var credited := balances;
      assert credited == Credit(BalancesOf(expenses[..i]), exp.paidBy, exp.amount);
      var j := 0;
      while j < |exp.splitBetween|
        invariant 0 <= j <= |exp.splitBetween|
        invariant balances == DebitAll(credited, exp.splitBetween[..j], perPerson)
      {
        var person := exp.splitBetween[j];
        ghost var before := balances;
        if person !in balances || balances[person] == 0.0 {
          balances := balances[person := 0.0];
        }
        balances := balances[person := balances[person] - perPerson];
        assert balances == Credit(before, person, -perPerson);
        assert exp.splitBetween[..j + 1][..j] == exp.splitBetween[..j];
        j := j + 1;
      }
      assert exp.splitBetween[..j] == exp.splitBetween;
      assert expenses[..i + 1][..i] == expenses[..i];
      assert balances == ApplyExpense(BalancesOf(expenses[..i]), exp);
      i := i + 1;
    }
    assert expenses[..i] == expenses;
  }

  // ---------------------------------------------------------------------
  // What one expense does

  /** The amount one expense adds to the balance of `p`. */
  function Delta(e: Expense, p: Person): real
  {
    (if p == e.paidBy then e.amount else 0.0) - Owed(e.splitBetween, p, Share(e))
  }

  /** Debiting a list of people adds each of them as a key. */
  lemma {:induction false} DebitAllKeys(b: map<Person, real>, ps: seq<Person>, share: real)
    ensures DebitAll(b, ps, share).Keys == b.Keys + (set p | p in ps)
  {
    if ps != [] {
      var init, last := ps[..|ps| - 1], ps[|ps| - 1];
      assert ps == init + [last];
      DebitAllKeys(b, init, share);
      assert (set p | p in ps) == (set p | p in init) + {last};
    }
  }

  /** What the entries of `ps` equal to `q` owe at `share` each. */
  function Owed(ps: seq<Person>, q: Person, share: real): real {
    if ps == [] then 0.0
    else Owed(ps[..|ps| - 1], q, share) + (if ps[|ps| - 1] == q then share else 0.0)
  }

  /** The number of entries of `ps` equal to `q`, as a real. */
  function Occurrences(ps: seq<Person>, q: Person): real {
    if ps == [] then 0.0
    else Occurrences(ps[..|ps| - 1], q) + (if ps[|ps| - 1] == q then 1.0 else 0.0)
  }

  lemma {:induction false} OccurrencesCount(ps: seq<Person>, q: Person)
    ensures Occurrences(ps, q) == multiset(ps)[q] as real
  {
    if ps != [] {
      var init, last := ps[..|ps| - 1], ps[|ps| - 1];
      assert ps == init + [last];
      assert multiset(ps) == multiset(init) + multiset{last};
      OccurrencesCount(init, q);
    }
  }

  /** A person listed k times owes k shares. */
  lemma {:induction false} OwedCount(ps: seq<Person>, q: Person, share: real)
    ensures Owed(ps, q, share) == (multiset(ps)[q] as real) * share
  {
    OwedOccurrences(ps, q, share);
    OccurrencesCount(ps, q);
  }

  lemma {:induction false} OwedOccurrences(ps: seq<Person>, q: Person, share: real)
    ensures Owed(ps, q, share) == Occurrences(ps, q) * share
  {
    if ps != [] {
      OwedOccurrences(ps[..|ps| - 1], q, share);
    }
  }

  /** Debiting a list of people takes `share` from `q` once per occurrence of `q`. */
  lemma {:induction false} DebitAllAt(b: map<Person, real>, ps: seq<Person>, share: real, q: Person)
    ensures Get(DebitAll(b, ps, share), q) == Get(b, q) - Owed(ps, q, share)
  {
    if ps != [] {
      DebitAllAt(b, ps[..|ps| - 1], share, q);
    }
  }

  /**
   One expense credits the payer with the amount and debits every listed
   person their share once per listing. Its payer and listed people become
   keys, and every other person keeps their balance.
   */
  lemma ExpenseEffect(b: map<Person, real>, e: Expense)
    ensures ApplyExpense(b, e).Keys == b.Keys + {e.paidBy} + (set p | p in e.splitBetween)
    ensures forall q :: Get(ApplyExpense(b, e), q) == Get(b, q) + Delta(e, q)
    ensures forall q :: q in b && q != e.paidBy && q !in e.splitBetween ==> ApplyExpense(b, e)[q] == b[q]
  {
    var credited := Credit(b, e.paidBy, e.amount);
    DebitAllKeys(credited, e.splitBetween, Share(e));
    forall q
      ensures Get(ApplyExpense(b, e), q) == Get(b, q) + Delta(e, q)
    {
      DebitAllAt(credited, e.splitBetween, Share(e), q);
    }
    forall q | q != e.paidBy && q !in e.splitBetween
      ensures Delta(e, q) == 0.0
    {
      OwedCount(e.splitBetween, q, Share(e));
      assert multiset(e.splitBetween)[q] == 0;
    }
  }

  /**
   An expense split between nobody credits the payer with the whole amount
   and debits no one.
   */
  lemma EmptySplitCreditsPayer(b: map<Person, real>, e: Expense)
    requires e.splitBetween == []
    ensures ApplyExpense(b, e).Keys == b.Keys + {e.paidBy}
    ensures Get(ApplyExpense(b, e), e.paidBy) == Get(b, e.paidBy) + e.amount
    ensures forall q :: q in b && q != e.paidBy ==> ApplyExpense(b, e)[q] == b[q]
  {
  }

  // ---------------------------------------------------------------------
  // Keys and values of the result

  /** Everyone who paid for or shares in some expense of `es`. */
  function Participants(es: seq<Expense>): set<Person> {
    set e, p | e in es && p in [e.paidBy] + e.splitBetween :: p
  }

  lemma ParticipantsSnoc(init: seq<Expense>, last: Expense)
    ensures Participants(init + [last]) == Participants(init) + {last.paidBy} + (set p | p in last.splitBetween)
  {
    var es := init + [last];
    forall p | p in Participants(es)
      ensures p in Participants(init) || p == last.paidBy || p in last.splitBetween
    {
      var e :| e in es && p in [e.paidBy] + e.splitBetween;
      if e != last {
        assert e in init;
      }
    }
    forall p | p in Participants(init)
      ensures p in Participants(es)
    {
      var e :| e in init && p in [e.paidBy] + e.splitBetween;
      assert e in es;
    }
    forall p | p == last.paidBy || p in last.splitBetween
      ensures p in Participants(es)
    {
      assert last in es && p in [last.paidBy] + last.splitBetween;
    }
  }

  /** The sum of what the expenses of `es` add to the balance of `p`. */
  function Net(es: seq<Expense>, p: Person): real
  {
    if es == [] then 0.0 else Net(es[..|es| - 1], p) + Delta(es[|es| - 1], p)
  }

  /**
   The result has a key for exactly the payers and listed people, and each
   one's balance is the sum of what the expenses add to it.
   */
  lemma {:induction false} BalancesContent(es: seq<Expense>)
    ensures BalancesOf(es).Keys == Participants(es)
    ensures forall p :: Get(BalancesOf(es), p) == Net(es, p)
  {
    if es != [] {
      var init, last := es[..|es| - 1], es[|es| - 1];
      assert es == init + [last];
      BalancesContent(init);
      ExpenseEffect(BalancesOf(init), last);
      ParticipantsSnoc(init, last);
    }
  }

  // ---------------------------------------------------------------------
  // Conservation: the balances sum to zero

  /** The sum of the balances of the people in `ks`. */
  ghost function SumOver(m: map<Person, real>, ks: set<Person>): real
    requires ks <= m.Keys
    decreases ks
  {
    if ks == {} then 0.0
    else
      var k :| k in ks;
      m[k] + SumOver(m, ks - {k})
  }

  /** The sum of all balances. */
  ghost function Total(m: map<Person, real>): real {
    SumOver(m, m.Keys)
  }

  lemma {:induction false} SumOverRemove(m: map<Person, real>, ks: set<Person>, p: Person)
    requires ks <= m.Keys && p in ks
    ensures SumOver(m, ks) == m[p] + SumOver(m, ks - {p})
    decreases ks
  {
    var k :| k in ks && SumOver(m, ks) == m[k] + SumOver(m, ks - {k});
    if k != p {
      SumOverRemove(m, ks - {k}, p);
      SumOverRemove(m, ks - {p}, k);
      assert ks - {k} - {p} == ks - {p} - {k};
    }
  }

  lemma {:induction false} SumOverAgree(m: map<Person, real>, n: map<Person, real>, ks: set<Person>)
    requires ks <= m.Keys && ks <= n.Keys
    requires forall k :: k in ks ==> m[k] == n[k]
    ensures SumOver(m, ks) == SumOver(n, ks)
    decreases ks
  {
    if ks != {} {
      var k :| k in ks && SumOver(m, ks) == m[k] + SumOver(m, ks - {k});
      SumOverRemove(n, ks, k);
      SumOverAgree(m, n, ks - {k});
    }
  }

  /** Setting one balance changes the sum by the difference. */
  lemma TotalUpdate(m: map<Person, real>, p: Person, v: real)
    ensures Total(m[p := v]) == Total(m) - Get(m, p) + v
  {
    var n := m[p := v];
    if p in m {
      assert n.Keys == m.Keys;
      SumOverRemove(n, m.Keys, p);
      SumOverRemove(m, m.Keys, p);
      SumOverAgree(m, n, m.Keys - {p});
    } else {
      assert n.Keys - {p} == m.Keys;
      SumOverRemove(n, n.Keys, p);
      SumOverAgree(m, n, m.Keys);
    }
  }

  lemma {:induction false} DebitAllTotal(b: map<Person, real>, ps: seq<Person>, share: real)
    ensures Total(DebitAll(b, ps, share)) == Total(b) - (|ps| as real) * share
  {
    if ps != [] {
      var init := ps[..|ps| - 1];
      var rest := DebitAll(b, init, share);
      DebitAllTotal(b, init, share);
      TotalUpdate(rest, ps[|ps| - 1], Get(rest, ps[|ps| - 1]) - share);
      assert (|ps| as real) * share == (|init| as real) * share + share;
    }
  }

  /** One expense leaves the sum of the balances unchanged. */
  lemma ExpenseConserves(b: map<Person, real>, e: Expense)
    requires |e.splitBetween| > 0
    ensures Total(ApplyExpense(b, e)) == Total(b)
  {
    var credited := Credit(b, e.paidBy, e.amount);
    TotalUpdate(b, e.paidBy, Get(b, e.paidBy) + e.amount);
    assert Total(credited) == Total(b) + e.amount;
    DebitAllTotal(credited, e.splitBetween, Share(e));
    var n := |e.splitBetween| as real;
    assert n * Share(e) == e.amount;
  }

  /** When every expense is split between someone, the balances sum to zero. */
  lemma {:induction false} BalancesSumToZero(es: seq<Expense>)
    requires AllSplit(es)
    ensures Total(BalancesOf(es)) == 0.0
  {
    if es != [] {
      BalancesSumToZero(es[..|es| - 1]);
      ExpenseConserves(BalancesOf(es[..|es| - 1]), es[|es| - 1]);
    }
  }

  // ---------------------------------------------------------------------
  // Order independence

  lemma {:induction false} NetAppend(a: seq<Expense>, b: seq<Expense>, p: Person)
    ensures Net(a + b, p) == Net(a, p) + Net(b, p)
    decreases |b|
  {
    if b != [] {
      assert (a + b)[..|a + b| - 1] == a + b[..|b| - 1];
      NetAppend(a, b[..|b| - 1], p);
    } else {
      assert a + b == a;
    }
  }

  /** Removing the expense at `i` removes exactly its contribution. */
  lemma NetRemoveAt(b: seq<Expense>, i: nat, p: Person)
    requires i < |b|
    ensures Net(b, p) == Net(b[..i] + b[i + 1..], p) + Delta(b[i], p)
  {
    var pre, post := b[..i], b[i + 1..];
    assert b == pre + ([b[i]] + post);
    NetAppend(pre, [b[i]] + post, p);
    NetAppend([b[i]], post, p);
    assert [b[i]][..0] == [];
    NetAppend(pre, post, p);
  }

  lemma {:induction false} NetPermutation(a: seq<Expense>, b: seq<Expense>, p: Person)
    requires multiset(a) == multiset(b)
    ensures Net(a, p) == Net(b, p)
    decreases |a|
  {
    if a != [] {
      var last := a[|a| - 1];
      assert last in multiset(b);
      var i :| 0 <= i < |b| && b[i] == last;
      NetRemoveAt(b, i, p);
      RemoveLastAndAt(a, b, i);
      NetPermutation(a[..|a| - 1], b[..i] + b[i + 1..], p);
    } else {
      assert |b| == |multiset(b)| == 0;
    }
  }

  /** Taking the last element from one side and an equal element from the other keeps two permutations permutations. */
  lemma RemoveLastAndAt<T>(a: seq<T>, b: seq<T>, i: nat)
    requires multiset(a) == multiset(b)
    requires a != [] && i < |b| && b[i] == a[|a| - 1]
    ensures multiset(a[..|a| - 1]) == multiset(b[..i] + b[i + 1..])
  {
    assert a == a[..|a| - 1] + [a[|a| - 1]];
    assert b == b[..i] + [b[i]] + b[i + 1..];
    assert multiset(a[..|a| - 1]) == multiset(a) - multiset{b[i]};
    assert multiset(b[..i] + b[i + 1..]) == multiset(b) - multiset{b[i]};
  }

  /** The balances do not depend on the order in which the expenses are listed. */
  lemma BalancesOrderIndependent(a: seq<Expense>, b: seq<Expense>)
    requires multiset(a) == multiset(b)
    ensures BalancesOf(a) == BalancesOf(b)
  {
    BalancesContent(a);
    BalancesContent(b);
    forall e
      ensures e in a <==> e in b
    {
      assert e in a <==> e in multiset(a);
      assert e in b <==> e in multiset(b);
    }
    assert Participants(a) == Participants(b);
    forall p | p in BalancesOf(a)
      ensures BalancesOf(a)[p] == BalancesOf(b)[p]
    {
      NetPermutation(a, b, p);
    }
  }

  // ---------------------------------------------------------------------
  // Worked examples

  lemma SimpleSplit()
    ensures var r := BalancesOf([Expense("Alice", 100.0, ["Alice", "Bob"])]);
      Get(r, "Alice") == 50.0 && Get(r, "Bob") == -50.0
  {
    var e := Expense("Alice", 100.0, ["Alice", "Bob"]);
    assert [e][..0] == [];
    ExpenseEffect(map[], e);
    OwedCount(e.splitBetween, "Alice", 50.0);
    OwedCount(e.splitBetween, "Bob", 50.0);
    assert multiset(e.splitBetween)["Alice"] == 1 && multiset(e.splitBetween)["Bob"] == 1;
  }

  lemma TwoExpensesNet()
    ensures var r := BalancesOf([Expense("Alice", 100.0, ["Alice", "Bob"]),
                               Expense("Bob", 40.0, ["Alice", "Bob"])]);
      Get(r, "Alice") == 30.0 && Get(r, "Bob") == -30.0
  {
    var e1, e2 := Expense("Alice", 100.0, ["Alice", "Bob"]), Expense("Bob", 40.0, ["Alice", "Bob"]);
    assert [e1, e2][..1] == [e1] && [e1][..0] == [];
    assert Share(e1) == 50.0 && Share(e2) == 20.0;
    OwedCount(e1.splitBetween, "Alice", 50.0);
    OwedCount(e1.splitBetween, "Bob", 50.0);
    OwedCount(e2.splitBetween, "Alice", 20.0);
    OwedCount(e2.splitBetween, "Bob", 20.0);
    assert multiset(e1.splitBetween)["Alice"] == 1 && multiset(e1.splitBetween)["Bob"] == 1;
    ExpenseEffect(map[], e1);
    var empty: seq<Expense> := [];
    assert BalancesOf(empty) == map[];
    var first := BalancesOf([e1]);
    assert first == ApplyExpense(BalancesOf(empty), e1);
    assert Get(first, "Alice") == 50.0 && Get(first, "Bob") == -50.0;
    ExpenseEffect(first, e2);
  }
}
