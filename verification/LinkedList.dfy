/** list.c: a singly linked list with head, tail and count, over explicitly allocated and freed nodes. */
module LinkedList {
  import opened Basics

  class Node<T> {
    const value: T
    var next: Node?<T>

    constructor (value: T)
      ensures this.value == value && next == null
    {
      this.value := value;
      next := null;
    }
  }

  /** The allocator: everything it ever issued, and everything freed so far in order. */
  class Memory {
    ghost var issued: set<object>
    ghost var freed: seq<object>

    /** Only live objects may be touched, or freed. */
    ghost predicate Live(o: object)
      reads this
    {
      o in issued && o !in freed
    }

    ghost function LiveObjects(): set<object>
      reads this
    {
      set o | o in issued && o !in freed
    }

    constructor ()
      ensures issued == {} && freed == []
    {
      issued, freed := {}, [];
    }

    ghost method Adopt(o: object)
      modifies this`issued
      ensures issued == old(issued) + {o}
    {
      issued := issued + {o};
    }

    /** `free`: each object at most once. */
    method Free(o: object)
      requires Live(o)
      modifies this`freed
      ensures freed == old(freed) + [o]
    {
      freed := freed + [o];
    }

    /** `node->next`, of a node not yet freed. */
    method Next<T>(n: Node<T>) returns (r: Node?<T>)
      requires Live(n)
      ensures r == n.next
    {
      r := n.next;
    }
  }

  // ---- Chains of nodes ----

  function First<T>(ns: seq<Node<T>>): (r: Node?<T>)
    ensures r == null <==> ns == []
  {
    if ns == [] then null else ns[0]
  }

  function Last<T>(ns: seq<Node<T>>): (r: Node?<T>)
    ensures r == null <==> ns == []
  {
    if ns == [] then null else ns[|ns| - 1]
  }

  ghost predicate Distinct<A>(s: seq<A>) {
    forall i, j :: 0 <= i < j < |s| ==> s[i] != s[j]
  }

  ghost predicate AllLive<T>(mem: Memory, ns: seq<Node<T>>)
    reads mem
  {
    forall i :: 0 <= i < |ns| ==> mem.Live(ns[i])
  }

  function Values<T>(ns: seq<Node<T>>): seq<T> {
    seq(|ns|, i requires 0 <= i < |ns| => ns[i].value)
  }

  // ---- The filter of list_remove_if on plain sequences ----

  /** What one call of the match function answers: remove the node? go on afterwards? */
  datatype Answer = Answer(matched: bool, goOn: bool)

  /** The elements left when the k-th call of the match function answers `a[k]`. */
  function Kept<A>(s: seq<A>, a: seq<Answer>): seq<A>
    requires |s| <= |a|
  {
    if s == [] then []
    else
      var rest := if a[0].goOn then Kept(s[1..], a[1..]) else s[1..];
      if a[0].matched then rest else [s[0]] + rest
  }

  function Removed<A>(s: seq<A>, a: seq<Answer>): seq<A>
    requires |s| <= |a|
  {
    if s == [] then []
    else
      var rest := if a[0].goOn then Removed(s[1..], a[1..]) else [];
      if a[0].matched then [s[0]] + rest else rest
  }

  /** How many elements are looked at before the match function says to stop. */
  function Visited<A>(s: seq<A>, a: seq<Answer>): (n: nat)
    requires |s| <= |a|
    ensures n <= |s|
  {
    if s == [] then 0 else if a[0].goOn then 1 + Visited(s[1..], a[1..]) else 1
  }

  /** The elements whose call answered "no match", in order. */
  function Unmatched<A>(s: seq<A>, a: seq<Answer>): seq<A>
    requires |s| <= |a|
  {
    if s == [] then [] else (if a[0].matched then [] else [s[0]]) + Unmatched(s[1..], a[1..])
  }

  lemma OneMore<A>(x: A, kept: seq<A>, removed: seq<A>, s: seq<A>)
    requires multiset(kept) + multiset(removed) == multiset(s)
    ensures multiset([x] + kept) + multiset(removed) == multiset([x] + s)
    ensures multiset(kept) + multiset([x] + removed) == multiset([x] + s)
  {}

  /** Nothing is lost or duplicated: every element is either kept or removed. */
  lemma {:induction false} KeptAndRemoved<A>(s: seq<A>, a: seq<Answer>)
    requires |s| <= |a|
    ensures multiset(Kept(s, a)) + multiset(Removed(s, a)) == multiset(s)
    ensures |Kept(s, a)| + |Removed(s, a)| == |s|
  {
    if s != [] {
      var first, rest := s[0], s[1..];
      var kept := if a[0].goOn then Kept(rest, a[1..]) else rest;
      var removed := if a[0].goOn then Removed(rest, a[1..]) else [];
      if a[0].goOn {
        KeptAndRemoved(rest, a[1..]);
      }
      assert s == [first] + rest;
      OneMore(first, kept, removed, rest);
    }
  }

  /** The result is the unmatched part of the visited prefix followed by the untouched suffix. */
  lemma {:induction false} KeptIsFilteredPrefix<A>(s: seq<A>, a: seq<Answer>)
    requires |s| <= |a|
    ensures var n := Visited(s, a); Kept(s, a) == Unmatched(s[..n], a[..n]) + s[n..]
  {
    if s != [] {
      var n := Visited(s, a);
      assert s[..n][1..] == s[1..][..n - 1] && a[..n][1..] == a[1..][..n - 1] && s[n..] == s[1..][n - 1..];
      var first := if a[0].matched then [] else [s[0]];
      if a[0].goOn {
        KeptIsFilteredPrefix(s[1..], a[1..]);
        ConcatAssociates(first, Unmatched(s[1..][..n - 1], a[1..][..n - 1]), s[n..]);
      }
    }
  }

  lemma {:induction false} KeptOfValues<T>(ns: seq<Node<T>>, a: seq<Answer>)
    requires |ns| <= |a|
    ensures Values(Kept(ns, a)) == Kept(Values(ns), a)
  {
    if ns != [] {
      assert Values(ns)[1..] == Values(ns[1..]);
      KeptOfValues(ns[1..], a[1..]);
    }
  }

  lemma {:induction false} VisitedOfValues<T>(ns: seq<Node<T>>, a: seq<Answer>)
    requires |ns| <= |a|
    ensures Visited(Values(ns), a) == Visited(ns, a)
  {
    if ns != [] {
      assert Values(ns)[1..] == Values(ns[1..]);
      VisitedOfValues(ns[1..], a[1..]);
    }
  }

  /** The last element is not reached, or it is reached and not matched. */
  predicate LastIsKept<A>(s: seq<A>, a: seq<Answer>)
    requires |s| <= |a|
  {
    s != [] ==> Visited(s, a) < |s| || !a[|s| - 1].matched
  }

  lemma {:induction false} LastKeptShows<A>(s: seq<A>, a: seq<Answer>)
    requires |s| <= |a| && s != []
    ensures forall x :: x in Kept(s, a) ==> x in s
    ensures LastIsKept(s, a) ==> Kept(s, a) != [] && Kept(s, a)[|Kept(s, a)| - 1] == s[|s| - 1]
    ensures !LastIsKept(s, a) ==> forall x :: x in Kept(s, a) ==> x in s[..|s| - 1]
  {
    if |s| > 1 {
      LastKeptShows(s[1..], a[1..]);
      assert s[1..][..|s| - 2] == s[..|s| - 1][1..];
    }
  }

  /** After the filter the old last node is still the last one exactly when it was kept. */
  lemma TailAfterFilter<T>(ns: seq<Node<T>>, a: seq<Answer>)
    requires |ns| <= |a| && Distinct(ns)
    ensures Last(Kept(ns, a)) == Last(ns) <==> LastIsKept(ns, a)
  {
    if ns != [] {
      LastKeptShows(ns, a);
      var kept := Kept(ns, a);
      assert kept != [] ==> kept[|kept| - 1] in kept;
      assert ns[|ns| - 1] !in ns[..|ns| - 1];
    }
  }

  lemma LastIsFreed<T>(ns: seq<Node<T>>, a: seq<Answer>)
    requires |ns| <= |a| && Distinct(ns) && !LastIsKept(ns, a)
    ensures ns[|ns| - 1] in Removed(ns, a)
  {
    var last := ns[|ns| - 1];
    assert last !in Kept(ns, a) by {
      LastKeptShows(ns, a);
      assert last !in ns[..|ns| - 1];
    }
    KeptAndRemoved(ns, a);
    assert last in multiset(ns);
  }

  // ---- The same filter, call by call ----

  /** What the first `k` calls kept, and removed. */
  function KeptBy<A>(s: seq<A>, a: seq<Answer>, k: nat): seq<A>
    requires k <= |s| <= |a|
  {
    if k == 0 then [] else KeptBy(s, a, k - 1) + if a[k - 1].matched then [] else [s[k - 1]]
  }

  function RemovedBy<A>(s: seq<A>, a: seq<Answer>, k: nat): seq<A>
    requires k <= |s| <= |a|
  {
    if k == 0 then [] else RemovedBy(s, a, k - 1) + if a[k - 1].matched then [s[k - 1]] else []
  }

  /** The loop makes call number `k`. */
  predicate Reaches(a: seq<Answer>, k: nat)
    requires k <= |a|
  {
    forall j :: 0 <= j < k ==> a[j].goOn
  }

  lemma FilterStep<A>(s: seq<A>, a: seq<Answer>, k: nat)
    requires k < |s| <= |a|
    ensures Kept(s[k..], a[k..])
         == (if a[k].matched then [] else [s[k]]) + (if a[k].goOn then Kept(s[k + 1..], a[k + 1..]) else s[k + 1..])
    ensures Removed(s[k..], a[k..])
         == (if a[k].matched then [s[k]] else []) + (if a[k].goOn then Removed(s[k + 1..], a[k + 1..]) else [])
  {
    assert s[k..][0] == s[k] && s[k..][1..] == s[k + 1..];
    assert a[k..][0] == a[k] && a[k..][1..] == a[k + 1..];
  }

  /** A part moves from the front of what is to come to the end of what is done. */
  lemma MoveOver<A>(done: seq<A>, part: seq<A>, rest: seq<A>, now: seq<A>, next: seq<A>, whole: seq<A>)
    requires now == part + rest && next == done + part && done + now == whole
    ensures next + rest == whole
  {
    ConcatAssociates(done, part, rest);
  }

  /** While the loop goes on, what the calls so far kept is completed by what is still to come. */
  lemma {:induction false} PartlyKept<A>(s: seq<A>, a: seq<Answer>, k: nat)
    requires k <= |s| <= |a| && Reaches(a, k)
    ensures KeptBy(s, a, k) + Kept(s[k..], a[k..]) == Kept(s, a)
  {
    if k > 0 {
      var part := if a[k - 1].matched then [] else [s[k - 1]];
      PartlyKept(s, a, k - 1);
      FilterStep(s, a, k - 1);
      MoveOver(KeptBy(s, a, k - 1), part, Kept(s[k..], a[k..]),
               Kept(s[k - 1..], a[k - 1..]), KeptBy(s, a, k), Kept(s, a));
    } else {
      assert s[k..] == s && a[k..] == a && [] + Kept(s, a) == Kept(s, a);
    }
  }

  lemma {:induction false} PartlyRemoved<A>(s: seq<A>, a: seq<Answer>, k: nat)
    requires k <= |s| <= |a| && Reaches(a, k)
    ensures RemovedBy(s, a, k) + Removed(s[k..], a[k..]) == Removed(s, a)
  {
    if k > 0 {
      var part := if a[k - 1].matched then [s[k - 1]] else [];
      PartlyRemoved(s, a, k - 1);
      FilterStep(s, a, k - 1);
      MoveOver(RemovedBy(s, a, k - 1), part, Removed(s[k..], a[k..]),
               Removed(s[k - 1..], a[k - 1..]), RemovedBy(s, a, k), Removed(s, a));
    } else {
      assert s[k..] == s && a[k..] == a && [] + Removed(s, a) == Removed(s, a);
    }
  }

  /** The loop ends after call `k`: the list is used up, or the last call said to stop. */
  predicate EndsAt<A>(s: seq<A>, a: seq<Answer>, k: nat)
    requires k <= |s| <= |a|
  {
    if k == 0 then s == [] else Reaches(a, k - 1) && (k == |s| || !a[k - 1].goOn)
  }

  /** The loop's result, whether it stopped early or ran to the end. */
  lemma KeptAtExit<A>(s: seq<A>, a: seq<Answer>, k: nat)
    requires k <= |s| <= |a| && EndsAt(s, a, k)
    ensures After(s, a, k) == Kept(s, a)
  {
    if k > 0 {
      var part := if a[k - 1].matched then [] else [s[k - 1]];
      PartlyKept(s, a, k - 1);
      FilterStep(s, a, k - 1);
      assert k == |s| ==> s[k..] == [] && Kept(s[k..], a[k..]) == [];
      MoveOver(KeptBy(s, a, k - 1), part, s[k..], Kept(s[k - 1..], a[k - 1..]), KeptBy(s, a, k), Kept(s, a));
    }
  }

  lemma RemovedAtExit<A>(s: seq<A>, a: seq<Answer>, k: nat)
    requires k <= |s| <= |a| && EndsAt(s, a, k)
    ensures RemovedBy(s, a, k) == Removed(s, a)
  {
    if k > 0 {
      var part := if a[k - 1].matched then [s[k - 1]] else [];
      PartlyRemoved(s, a, k - 1);
      FilterStep(s, a, k - 1);
      assert k == |s| ==> Removed(s[k..], a[k..]) == [];
      MoveOver(RemovedBy(s, a, k - 1), part, [], Removed(s[k - 1..], a[k - 1..]), RemovedBy(s, a, k), Removed(s, a));
    }
  }

  lemma KeptAtEnd<A>(s: seq<A>, a: seq<Answer>)
    requires |s| <= |a|
    ensures After(s, a, |s|) == KeptBy(s, a, |s|)
  {
    assert s[|s|..] == [];
  }

  lemma LastOfAfter<T>(ns: seq<Node<T>>, a: seq<Answer>, k: nat)
    requires k < |ns| <= |a|
    ensures Last(After(ns, a, k)) == Last(ns)
  {
    var kept := After(ns, a, k);
    assert kept[|kept| - 1] == ns[k..][|ns| - k - 1];
  }

  /** What the two cursors say when the loop ends. */
  lemma CursorsAtExit<T>(ns: seq<Node<T>>, a: seq<Answer>, k: nat, previous: Node?<T>)
    requires k <= |ns| <= |a| && previous == Last(KeptBy(ns, a, k))
    ensures k == |ns| ==> previous == Last(After(ns, a, k))
    ensures k < |ns| ==> Last(After(ns, a, k)) == Last(ns)
  {
    if k == |ns| {
      KeptAtEnd(ns, a);
    } else {
      LastOfAfter(ns, a, k);
    }
  }

  /** The list after `k` calls: what was kept, then what is still to be looked at. */
  function After<A>(s: seq<A>, a: seq<Answer>, k: nat): seq<A>
    requires k <= |s| <= |a|
  {
    KeptBy(s, a, k) + s[k..]
  }

  /** Where the current element stands before call number `k`, and what comes next. */
  lemma AtCall<T>(ns: seq<Node<T>>, a: seq<Answer>, k: nat)
    requires k < |ns| <= |a|
    ensures var now, i := After(ns, a, k), |KeptBy(ns, a, k)|;
            && i < |now| && now[i] == ns[k] && First(ns[k..]) == ns[k]
            && Last(KeptBy(ns, a, k)) == (if i == 0 then null else now[i - 1])
            && First(ns[k + 1..]) == (if i + 1 < |now| then now[i + 1] else null)
  {}

  /** Before call number `k` the two cursors stand after what was kept and at what is next to look at. */
  ghost predicate Cursors<T>(ns: seq<Node<T>>, a: seq<Answer>, k: nat,
                             previous: Node?<T>, current: Node?<T>, goOn: bool)
    requires k <= |ns| <= |a|
  {
    && previous == Last(KeptBy(ns, a, k)) && current == First(ns[k..]) && (current == null <==> k == |ns|)
    && if k > 0 then Reaches(a, k - 1) && goOn == a[k - 1].goOn else goOn
  }

  lemma CursorsStep<T>(ns: seq<Node<T>>, a: seq<Answer>, k: nat, previous: Node?<T>, current: Node<T>)
    requires k < |ns| <= |a| && Cursors(ns, a, k, previous, current, true)
    ensures Cursors(ns, a, k + 1, if a[k].matched then previous else current, First(ns[k + 1..]), a[k].goOn)
  {
    if a[k].matched {
      CutStep(ns, a, k);
    } else {
      KeepStep(ns, a, k);
    }
  }

  lemma CutAt<A>(s: seq<A>, i: nat, j: nat)
    requires i < |s| && j < |s| - 1
    ensures (s[..i] + s[i + 1..])[j] == s[if j < i then j else j + 1]
  {}

  lemma CutStep<A>(s: seq<A>, a: seq<Answer>, k: nat)
    requires k < |s| <= |a| && a[k].matched
    ensures var now, i := After(s, a, k), |KeptBy(s, a, k)|;
            && i < |now| && After(s, a, k + 1) == now[..i] + now[i + 1..]
            && KeptBy(s, a, k + 1) == KeptBy(s, a, k)
            && RemovedBy(s, a, k + 1) == RemovedBy(s, a, k) + [s[k]]
  {
    var now, i := After(s, a, k), |KeptBy(s, a, k)|;
    assert now[..i] == KeptBy(s, a, k) && now[i + 1..] == s[k + 1..];
  }

  lemma KeepStep<T>(ns: seq<Node<T>>, a: seq<Answer>, k: nat)
    requires k < |ns| <= |a| && !a[k].matched
    ensures After(ns, a, k + 1) == After(ns, a, k)
    ensures Last(KeptBy(ns, a, k + 1)) == ns[k]
    ensures RemovedBy(ns, a, k + 1) == RemovedBy(ns, a, k)
  {
    assert ns[k..] == [ns[k]] + ns[k + 1..];
  }

  /** The position of the first true among the first `n`, or `n`. */
  function FirstTrue(a: seq<bool>, n: nat): (k: nat)
    requires n <= |a|
    ensures k <= n && (k < n ==> a[k]) && forall j :: 0 <= j < k ==> !a[j]
  {
    if n == 0 then 0
    else
      var k := FirstTrue(a, n - 1);
      if k < n - 1 || a[n - 1] then k else n
  }

  // ---- The list ----

  class List<T> {
    var count: nat
    var head: Node?<T>
    var tail: Node?<T>
    ghost var nodes: seq<Node<T>>
    ghost var repr: set<Node<T>>

    /** Following `next` from the head visits exactly `nodes` and then ends. */
    ghost predicate Chain()
      reads this, repr
    {
      && (forall i :: 0 <= i < |nodes| ==> nodes[i] in repr)
      && head == First(nodes)
      && (forall i {:trigger nodes[i].next} :: 0 <= i < |nodes| - 1 ==> nodes[i].next == nodes[i + 1])
      && (nodes != [] ==> nodes[|nodes| - 1].next == null)
    }

    /** Head chain and count are right, and nothing reachable has been freed. */
    ghost predicate Linked(mem: Memory)
      reads this, repr, mem
    {
      Chain() && count == |nodes| && mem.Live(this) && AllLive(mem, nodes)
    }

    /** A chain that ends cannot visit a node twice. */
    lemma ChainIsAcyclic()
      requires Chain()
      ensures Distinct(nodes)
    {
      forall i, j | 0 <= i < j < |nodes|
        ensures nodes[i] != nodes[j]
      {
        NoRepeat(i, j);
      }
    }

    lemma {:induction false} NoRepeat(i: nat, j: nat)
      requires Chain() && i < j < |nodes|
      ensures nodes[i] != nodes[j]
      decreases |nodes| - j
    {
      if nodes[i] == nodes[j] {
        assert nodes[i].next == nodes[i + 1];
        if j + 1 < |nodes| {
          assert nodes[j].next == nodes[j + 1];
          NoRepeat(i + 1, j + 1);
        }
      }
    }

    lemma NotElsewhere(i: nat)
      requires Chain() && i < |nodes|
      ensures forall j :: 0 <= j < |nodes| && j != i ==> nodes[j] != nodes[i]
    {
      ChainIsAcyclic();
    }

    /** The full invariant: the tail is the last node, or null when there is none. */
    ghost predicate Valid(mem: Memory)
      reads this, repr, mem
    {
      Linked(mem) && tail == Last(nodes)
    }

    /** What `list_remove_if` can leave behind: everything else is right, but the tail is a freed node. */
    ghost predicate Stale(mem: Memory)
      reads this, repr, mem
    {
      Linked(mem) && tail != null && tail in mem.freed
    }

    /** `list_create`. */
    constructor (mem: Memory)
      modifies mem`issued
      ensures Valid(mem) && nodes == [] && repr == {} && mem.issued == old(mem.issued) + {this}
    {
      count, head, tail, nodes, repr := 0, null, null, [], {};
      new;
      mem.Adopt(this);
    }

    /** `list_add`; `hasMemory` says whether malloc succeeds. Only then must the tail be right, since it is used. */
    method Add(mem: Memory, value: T, hasMemory: bool) returns (r: Node?<T>)
      requires Linked(mem) && (hasMemory ==> Valid(mem))
      modifies this, mem`issued, repr
      ensures Linked(mem) && (hasMemory ==> Valid(mem))
      ensures !hasMemory ==> r == null && nodes == old(nodes) && mem.issued == old(mem.issued)
      ensures !hasMemory ==> tail == old(tail) && repr == old(repr)
      ensures hasMemory ==> r != null && fresh(r) && r.value == value && nodes == old(nodes) + [r]
      ensures hasMemory ==> mem.issued == old(mem.issued) + {r} && repr == old(repr) + {r}
    {
      if !hasMemory {
        return null;
      }
      var result := new Node(value);
      mem.Adopt(result);
      if tail != null {
        tail.next := result;
      } else {
        head := result;
      }
      tail := result;
      count := count + 1;
      nodes, repr := nodes + [result], repr + {result};
      r := result;
    }

    /** Take the node after `previous` (the first one when null) out of the chain; `i` is its position. */
    method Relink(previous: Node?<T>, next: Node?<T>, ghost i: nat)
      requires Chain() && count == |nodes| && i < |nodes|
      requires previous == (if i == 0 then null else nodes[i - 1])
      requires next == if i + 1 < |nodes| then nodes[i + 1] else null
      modifies this, if previous == null then {} else {previous}
      ensures tail == old(tail) && repr == old(repr) && Chain() && count == |nodes|
      ensures nodes == old(nodes[..i] + nodes[i + 1..])
    {
      NotElsewhere(if i == 0 then 0 else i - 1);
      ghost var was := nodes;
      if previous == null {
        head := next;
      } else {
        previous.next := next;
      }
      count := count - 1;
      nodes := was[..i] + was[i + 1..];
      forall j | 0 <= j < |nodes|
        ensures nodes[j].next == if j + 1 < |nodes| then nodes[j + 1] else null
      {
        CutAt(was, i, j);
        if j + 1 < |nodes| {
          CutAt(was, i, j + 1);
          assert old(nodes[if j < i then j else j + 1].next) == was[if j < i then j + 1 else j + 2];
        }
      }
    }

    /** Unlink the node after `previous` (the head when null) and free it; `i` is its position. */
    method Unlink(mem: Memory, previous: Node?<T>, current: Node<T>, ghost i: nat)
      requires Linked(mem) && i < |nodes| && nodes[i] == current
      requires previous == (if i == 0 then null else nodes[i - 1])
      modifies this, mem`freed, if previous == null then {} else {previous}
      ensures tail == old(tail) && repr == old(repr)
      ensures Linked(mem) && nodes == old(nodes[..i] + nodes[i + 1..])
      ensures mem.freed == old(mem.freed) + [current]
    {
      NotElsewhere(i);
      var next := mem.Next(current);
      Relink(previous, next, i);
      mem.Free(current);
    }

    /**
      `list_remove` with the two things it lacks: the cursor advances, and the tail follows when the last node goes.
      `i` is where the node was found.
     */
    method Remove(mem: Memory, node: Node?<T>) returns (ok: bool, ghost i: nat)
      requires Valid(mem)
      modifies this, mem`freed, repr
      ensures Valid(mem) && repr == old(repr)
      ensures ok <==> node != null && node in old(nodes)
      ensures ok ==> i < |old(nodes)| && old(nodes)[i] == node && nodes == old(nodes)[..i] + old(nodes)[i + 1..]
      ensures ok ==> mem.freed == old(mem.freed) + [node as object]
      ensures !ok ==> nodes == old(nodes) && mem.freed == old(mem.freed)
    {
      i := 0;
      if node == null {
        return false, i;
      }
      var previous: Node?<T>, current := null, head;
      while current != null
        invariant Valid(mem) && nodes == old(nodes) && repr == old(repr) && mem.freed == old(mem.freed)
        invariant i <= |nodes| && current == (if i < |nodes| then nodes[i] else null)
        invariant previous == if i == 0 then null else nodes[i - 1]
        invariant forall j :: 0 <= j < i ==> nodes[j] != node
        decreases |nodes| - i
      {
        if current == node {
          assert nodes[i] in nodes;
          var wasTail := tail == current;
          NotElsewhere(i);
          Unlink(mem, previous, current, i);
          if wasTail {
            tail := previous;
          }
          return true, i;
        }
        previous := current;
        current := mem.Next(current);
        i := i + 1;
      }
      ok := false;
    }

    /**
      One pass of `list_remove`'s loop as written, which never leaves the head: on another node nothing changes. The
      tail is reset when it is the node removed, so this keeps a right tail right and a stale one stale.
     */
    method RemovePassAsWritten(mem: Memory, node: Node<T>, previous: Node?<T>, current: Node<T>)
      returns (done: bool)
      requires Linked(mem) && current == head && previous == null
      modifies this, mem`freed
      ensures Linked(mem) && repr == old(repr)
      ensures old(Valid(mem)) ==> Valid(mem)
      ensures done <==> current == node
      ensures done ==> nodes == old(nodes)[1..] && mem.freed == old(mem.freed) + [node]
      ensures tail == if done && old(tail) == node then null else old(tail)
      ensures !done ==> nodes == old(nodes) && mem.freed == old(mem.freed) && head == old(head)
    {
      if current == node {
        var wasTail := tail == current;
        NotElsewhere(0);
        Unlink(mem, previous, current, 0);
        if wasTail {
          tail := null;
        }
        return true;
      }
      done := false;
    }

    /**
      `list_remove` as written, cut off after `budget` passes. Its cursor never advances, so it settles only on an
      empty list or when the node is the head; otherwise no budget is enough and nothing is removed.
     */
    method RemoveAsWritten(mem: Memory, node: Node?<T>, budget: nat) returns (settled: bool, ok: bool)
      requires Linked(mem)
      modifies this, mem`freed
      ensures Linked(mem) && repr == old(repr)
      ensures old(Valid(mem)) ==> Valid(mem)
      ensures settled <==> node == null || old(nodes) == [] || (budget > 0 && old(nodes)[0] == node)
      ensures ok <==> node != null && old(nodes) != [] && budget > 0 && old(nodes)[0] == node
      ensures ok ==> nodes == old(nodes)[1..] && mem.freed == old(mem.freed) + [node as object]
      ensures tail == if ok && old(tail) == node then null else old(tail)
      ensures !ok ==> nodes == old(nodes) && mem.freed == old(mem.freed)
    {
      if node == null {
        return true, false;
      }
      var current, passes := head, 0;
      while current != null && passes < budget
        invariant Linked(mem) && repr == old(repr) && nodes == old(nodes) && mem.freed == old(mem.freed)
        invariant tail == old(tail) && current == head && (passes > 0 ==> current != node)
        decreases budget - passes
      {
        var done := RemovePassAsWritten(mem, node, null, current);
        if done {
          return true, true;
        }
        passes := passes + 1;
      }
      settled, ok := current == null, false;
    }

    /** `list_find` with the cursor advanced: the first node whose call of the match function answers true. */
    method Find(mem: Memory, answers: seq<bool>) returns (r: Node?<T>)
      requires Linked(mem) && |nodes| <= |answers|
      ensures var k := FirstTrue(answers, |nodes|); r == if k < |nodes| then nodes[k] else null
    {
      var k := 0;
      r := head;
      while r != null
        invariant k <= |nodes| && r == (if k < |nodes| then nodes[k] else null)
        invariant forall j :: 0 <= j < k ==> !answers[j]
        decreases |nodes| - k
      {
        if answers[k] {
          break;
        }
        r := mem.Next(r);
        k := k + 1;
      }
    }

    /** `list_find` as written: every call is about the head, and only a true answer or an empty list settles it. */
    method FindAsWritten(answers: seq<bool>) returns (settled: bool, r: Node?<T>)
      ensures r == head
      ensures settled <==> head == null || FirstTrue(answers, |answers|) < |answers|
    {
      r := head;
      for calls := 0 to |answers|
        invariant forall j :: 0 <= j < calls ==> !answers[j]
      {
        if r == null || answers[calls] {
          return true, r;
        }
      }
      settled := r == null;
    }

    /** `list_foreach` with the cursor advanced; `seen` are the values the action was called on. */
    method ForEach(mem: Memory, stops: seq<bool>) returns (seen: seq<T>)
      requires Linked(mem) && |nodes| <= |stops|
      ensures var k := FirstTrue(stops, |nodes|); seen == Values(nodes)[..if k < |nodes| then k + 1 else k]
    {
      var current := head;
      seen := [];
      while current != null
        invariant |seen| <= |nodes| && current == (if |seen| < |nodes| then nodes[|seen|] else null)
        invariant seen == Values(nodes)[..|seen|]
        invariant forall j :: 0 <= j < |seen| ==> !stops[j]
        decreases |nodes| - |seen|
      {
        var k := |seen|;
        seen := seen + [current.value];
        if stops[k] {
          break;
        }
        current := mem.Next(current);
      }
    }

    /** `list_foreach` as written: the action sees the head's value again and again until it says stop. */
    method ForEachAsWritten(stops: seq<bool>) returns (settled: bool, seen: seq<T>)
      ensures settled <==> head == null || FirstTrue(stops, |stops|) < |stops|
      ensures head == null ==> seen == []
      ensures head != null ==> forall v :: v in seen ==> v == head.value
      ensures head != null ==> |seen| == if settled then FirstTrue(stops, |stops|) + 1 else |stops|
    {
      seen := [];
      var current := head;
      for calls := 0 to |stops|
        invariant head != null ==> |seen| == calls && forall v :: v in seen ==> v == head.value
        invariant head == null ==> seen == []
        invariant forall j :: 0 <= j < calls && head != null ==> !stops[j]
      {
        if current == null {
          return true, seen;
        }
        seen := seen + [current.value];
        if stops[calls] {
          return true, seen;
        }
      }
      settled := current == null;
    }

    /** After `k` calls the list, the memory and the loop's variables are what they should be. */
    ghost predicate InLoop(mem: Memory, was: seq<Node<T>>, before: seq<object>, a: seq<Answer>, k: nat,
                           previous: Node?<T>, current: Node?<T>, goOn: bool)
      requires k <= |was| <= |a|
      reads this, repr, mem
    {
      && Linked(mem) && nodes == After(was, a, k) && mem.freed == before + RemovedBy(was, a, k)
      && (previous != null ==> previous in repr) && Cursors(was, a, k, previous, current, goOn)
    }

    lemma LoopStarts(mem: Memory, a: seq<Answer>)
      requires Linked(mem) && |nodes| <= |a|
      ensures InLoop(mem, nodes, mem.freed, a, 0, null, head, true)
    {
      assert nodes == After(nodes, a, 0) && nodes[0..] == nodes;
    }

    /** The current node has not been freed, and what follows it is what is to be looked at next. */
    lemma CurrentIsLive(mem: Memory, was: seq<Node<T>>, before: seq<object>, a: seq<Answer>, k: nat,
                        previous: Node?<T>, current: Node<T>)
      requires k < |was| <= |a| && InLoop(mem, was, before, a, k, previous, current, true)
      ensures mem.Live(current) && current.next == First(was[k + 1..])
    {
      AtCall(was, a, k);
      assert nodes[|KeptBy(was, a, k)|] == current;
    }

    lemma PassOver(mem: Memory, was: seq<Node<T>>, before: seq<object>, a: seq<Answer>, k: nat,
                   previous: Node?<T>, current: Node<T>)
      requires k < |was| <= |a| && InLoop(mem, was, before, a, k, previous, current, true) && !a[k].matched
      ensures InLoop(mem, was, before, a, k + 1, current, First(was[k + 1..]), a[k].goOn)
    {
      AtCall(was, a, k);
      assert nodes[|KeptBy(was, a, k)|] == current;
      CursorsStep(was, a, k, previous, current);
      KeepStep(was, a, k);
    }

    method CutOut(mem: Memory, ghost was: seq<Node<T>>, ghost before: seq<object>, a: seq<Answer>, ghost k: nat,
                  previous: Node?<T>, current: Node<T>)
      requires k < |was| <= |a| && InLoop(mem, was, before, a, k, previous, current, true) && a[k].matched
      modifies this, mem`freed, if previous == null then {} else {previous}
      ensures tail == old(tail) && repr == old(repr)
      ensures InLoop(mem, was, before, a, k + 1, previous, First(was[k + 1..]), a[k].goOn)
    {
      AtCall(was, a, k);
      CursorsStep(was, a, k, previous, current);
      CutStep(was, a, k);
      ConcatAssociates<object>(before, RemovedBy(was, a, k), [current]);
      Unlink(mem, previous, current, |KeptBy(was, a, k)|);
    }

    /** The loop body: call the match function on the current node and act on its answer. */
    method Pass(mem: Memory, ghost was: seq<Node<T>>, ghost before: seq<object>, a: seq<Answer>, k: nat,
                previous: Node?<T>, current: Node<T>)
      returns (previous': Node?<T>, next: Node?<T>, goOn: bool)
      requires k < |was| <= |a| && InLoop(mem, was, before, a, k, previous, current, true)
      modifies this, mem`freed, if previous == null then {} else {previous}
      ensures tail == old(tail) && repr == old(repr)
      ensures InLoop(mem, was, before, a, k + 1, previous', next, goOn)
    {
      CurrentIsLive(mem, was, before, a, k, previous, current);
      next := mem.Next(current);
      goOn := a[k].goOn;
      if a[k].matched {
        CutOut(mem, was, before, a, k, previous, current);
        previous' := previous;
      } else {
        PassOver(mem, was, before, a, k, previous, current);
        previous' := current;
      }
    }

    lemma LoopEnds(mem: Memory, was: seq<Node<T>>, before: seq<object>, a: seq<Answer>, k: nat,
                   previous: Node?<T>, current: Node?<T>, goOn: bool)
      requires k <= |was| <= |a| && InLoop(mem, was, before, a, k, previous, current, goOn)
      requires current == null || !goOn
      ensures nodes == Kept(was, a) && mem.freed == before + Removed(was, a)
      ensures current == null ==> previous == Last(nodes)
      ensures current != null ==> Last(nodes) == Last(was)
    {
      KeptAtExit(was, a, k);
      RemovedAtExit(was, a, k);
      CursorsAtExit(was, a, k, previous);
    }

    /** The loop of `list_remove_if`, with the two cursors it ends on. */
    method FilterLoop(mem: Memory, a: seq<Answer>) returns (previous: Node?<T>, current: Node?<T>)
      requires Linked(mem) && |nodes| <= |a|
      modifies this, mem`freed, repr
      ensures tail == old(tail) && repr == old(repr)
      ensures Linked(mem) && nodes == Kept(old(nodes), a)
      ensures mem.freed == old(mem.freed) + Removed(old(nodes), a)
      ensures current == null ==> previous == Last(nodes)
      ensures current != null ==> Last(nodes) == Last(old(nodes))
    {
      ghost var was, before := nodes, mem.freed;
      LoopStarts(mem, a);
      previous, current := null, head;
      var goOn, k := true, 0;
      while current != null && goOn
        invariant tail == old(tail) && repr == old(repr) && k <= |was|
        invariant InLoop(mem, was, before, a, k, previous, current, goOn)
        decreases |was| - k
      {
        previous, current, goOn := Pass(mem, was, before, a, k, previous, current);
        k := k + 1;
      }
      LoopEnds(mem, was, before, a, k, previous, current, goOn);
    }

    /** `list_remove_if` as written: the head chain and the count are exact, the tail is never updated. */
    method RemoveIf(mem: Memory, a: seq<Answer>)
      requires Linked(mem) && |nodes| <= |a|
      modifies this, mem`freed, repr
      ensures tail == old(tail) && repr == old(repr)
      ensures Linked(mem) && nodes == Kept(old(nodes), a)
      ensures mem.freed == old(mem.freed) + Removed(old(nodes), a)
      ensures old(Valid(mem)) ==> if LastIsKept(old(nodes), a) then Valid(mem) else Stale(mem)
      ensures old(Stale(mem)) ==> Stale(mem)
    {
      ChainIsAcyclic();
      TailAfterFilter(nodes, a);
      if !LastIsKept(nodes, a) {
        LastIsFreed(nodes, a);
      }
      var previous, current := FilterLoop(mem, a);
    }

    /** `list_remove_if` with the tail reset it lacks: the last node kept, when the walk reached the end. */
    method RemoveIfWithTail(mem: Memory, a: seq<Answer>)
      requires Valid(mem) && |nodes| <= |a|
      modifies this, mem`freed, repr
      ensures Valid(mem) && repr == old(repr) && nodes == Kept(old(nodes), a)
      ensures mem.freed == old(mem.freed) + Removed(old(nodes), a)
    {
      var previous, current := FilterLoop(mem, a);
      if current == null {
        tail := previous;
      }
    }

    /** `list_destroy`: every node and then the list itself is freed, once, and nothing else. */
    method Destroy(mem: Memory)
      requires Linked(mem)
      modifies mem`freed
      ensures mem.freed == old(mem.freed) + nodes + [this as object]
    {
      ChainIsAcyclic();
      var current := head;
      ghost var i := 0;
      while current != null
        invariant 0 <= i <= |nodes|
        invariant current == First(nodes[i..])
        invariant mem.freed == old(mem.freed) + nodes[..i]
        decreases |nodes| - i
      {
        var temp := current;
        assert temp == nodes[i] && nodes[..i + 1] == nodes[..i] + [nodes[i]];
        current := mem.Next(temp);
        mem.Free(temp);
        i := i + 1;
      }
      assert nodes[..i] == nodes;
      mem.Free(this);
    }

    /** Walking from the head with list_get_head_node and list_get_next_node, as the list tests do. */
    method NodeAt(mem: Memory, k: nat) returns (r: Node<T>)
      requires Linked(mem) && k < |nodes|
      ensures r == nodes[k]
    {
      var current := head;
      var i := 0;
      while i < k
        invariant i <= k && current == nodes[i]
      {
        current := mem.Next(current);
        i := i + 1;
      }
      r := current;
    }
  }

  // ---- Whole runs ----

  /** One operation on a list; a RemoveAt beyond the end asks for a node that is not in the list. */
  datatype Op<T> = AddValue(value: T, hasMemory: bool) | RemoveAt(k: nat, other: T) | RemoveMatching(a: seq<Answer>)

  /** The answers extended with "keep and go on" to at least `n` calls. */
  function Padded(a: seq<Answer>, n: nat): (p: seq<Answer>)
    ensures |p| >= n && |p| >= |a| && p[..|a|] == a
    ensures forall k :: |a| <= k < |p| ==> p[k] == Answer(false, true)
  {
    if |a| >= n then a else a + seq(n - |a|, _ => Answer(false, true))
  }

  /** What an operation does to the plain sequence of values. */
  function Apply<T>(s: seq<T>, op: Op<T>): seq<T> {
    match op
    case AddValue(v, hasMemory) => if hasMemory then s + [v] else s
    case RemoveAt(k, _) => if k < |s| then s[..k] + s[k + 1..] else s
    case RemoveMatching(a) => Kept(s, Padded(a, |s|))
  }

  function ApplyAll<T>(s: seq<T>, ops: seq<Op<T>>): seq<T> {
    if ops == [] then s else Apply(ApplyAll(s, ops[..|ops| - 1]), ops[|ops| - 1])
  }

  // Accounting: what is live besides the nodes of a list, and that nothing is freed twice.

  ghost function Others(issued: set<object>, freed: seq<object>, nodes: seq<object>): set<object> {
    set o | o in issued && o !in freed && o !in nodes
  }

  lemma OthersAfterAdd(issued: set<object>, freed: seq<object>, nodes: seq<object>, r: object)
    requires r !in issued
    ensures Others(issued + {r}, freed, nodes + [r]) == Others(issued, freed, nodes)
  {}

  lemma OthersAfterCut(issued: set<object>, freed: seq<object>, nodes: seq<object>, i: nat)
    requires i < |nodes|
    ensures Others(issued, freed + [nodes[i]], nodes[..i] + nodes[i + 1..]) == Others(issued, freed, nodes)
  {
    assert nodes == nodes[..i] + [nodes[i]] + nodes[i + 1..];
  }

  lemma OthersAfterFilter<T>(issued: set<object>, freed: seq<object>, nodes: seq<Node<T>>, a: seq<Answer>)
    requires |nodes| <= |a|
    ensures Others(issued, freed + Removed(nodes, a), Kept(nodes, a)) == Others(issued, freed, nodes)
  {
    KeptAndRemoved(nodes, a);
    forall n: Node<T>
      ensures n in nodes <==> n in Kept(nodes, a) || n in Removed(nodes, a)
    {
      assert n in nodes <==> n in multiset(nodes);
    }
  }

  lemma {:induction false} RemovedDistinct<A>(s: seq<A>, a: seq<Answer>)
    requires |s| <= |a| && Distinct(s)
    ensures Distinct(Removed(s, a)) && forall x :: x in Removed(s, a) ==> x in s
  {
    if s != [] {
      assert s[0] !in s[1..];
      RemovedDistinct(s[1..], a[1..]);
    }
  }

  /** No object occurs twice. */
  ghost predicate Once(xs: seq<object>) {
    xs == [] || (xs[|xs| - 1] !in xs[..|xs| - 1] && Once(xs[..|xs| - 1]))
  }

  lemma OnceMore(xs: seq<object>, x: object)
    requires Once(xs) && x !in xs
    ensures Once(xs + [x])
  {
    assert (xs + [x])[..|xs|] == xs;
  }

  lemma {:induction false} OnceAll<T>(freed: seq<object>, nodes: seq<Node<T>>)
    requires Once(freed) && Distinct(nodes) && forall i :: 0 <= i < |nodes| ==> nodes[i] !in freed
    ensures Once(freed + nodes)
  {
    if nodes == [] {
      assert freed + nodes == freed;
    } else {
      var init, last := nodes[..|nodes| - 1], nodes[|nodes| - 1];
      OnceAll(freed, init);
      assert last !in init;
      OnceMore(freed + init, last);
      assert freed + nodes == freed + init + [last];
    }
  }

  lemma RemovedOnce<T>(freed: seq<object>, nodes: seq<Node<T>>, a: seq<Answer>)
    requires |nodes| <= |a| && Once(freed) && Distinct(nodes) && forall i :: 0 <= i < |nodes| ==> nodes[i] !in freed
    ensures Once(freed + Removed(nodes, a))
  {
    RemovedDistinct(nodes, a);
    var removed := Removed(nodes, a);
    forall i | 0 <= i < |removed|
      ensures removed[i] !in freed
    {
      assert removed[i] in nodes;
    }
    OnceAll(freed, removed);
  }

  /** Add on a list whose tail is right, when there is memory. */
  method PerformAdd<T>(mem: Memory, list: List<T>, v: T)
    requires list.Valid(mem)
    modifies list, mem`issued, list.repr
    ensures list.Valid(mem) && fresh(list.repr - old(list.repr))
    ensures Values(list.nodes) == old(Values(list.nodes)) + [v]
    ensures old(mem.issued) <= mem.issued
    ensures Others(mem.issued, mem.freed, list.nodes) == old(Others(mem.issued, mem.freed, list.nodes))
  {
    var r := list.Add(mem, v, true);
    OthersAfterAdd(old(mem.issued), mem.freed, old(list.nodes), r);
  }

  /** Remove, with the advance and the tail reset, by position. */
  method PerformRemove<T>(mem: Memory, list: List<T>, k: nat, other: T)
    requires list.Valid(mem)
    modifies list, mem`freed, list.repr
    ensures list.Valid(mem) && list.repr == old(list.repr)
    ensures Values(list.nodes) == Apply(old(Values(list.nodes)), RemoveAt(k, other))
    ensures old(mem.freed) <= mem.freed && (old(Once(mem.freed)) ==> Once(mem.freed))
    ensures Others(mem.issued, mem.freed, list.nodes) == old(Others(mem.issued, mem.freed, list.nodes))
  {
    if k < list.count {
      var node := list.NodeAt(mem, k);
      ghost var was := list.nodes;
      list.ChainIsAcyclic();
      OthersAfterCut(mem.issued, mem.freed, was, k);
      if Once(mem.freed) {
        OnceMore(mem.freed, node);
      }
      assert node in was;
      var ok, i := list.Remove(mem, node);
      SamePlace(was, i, k);
    } else {
      var foreign := new Node(other);
      var ok, i := list.Remove(mem, foreign);
    }
  }

  lemma SamePlace<T>(ns: seq<Node<T>>, i: nat, k: nat)
    requires Distinct(ns) && i < |ns| && k < |ns| && ns[i] == ns[k]
    ensures i == k && Values(ns[..k] + ns[k + 1..]) == Values(ns)[..k] + Values(ns)[k + 1..]
  {}

  /** One operation on the heap list is that operation on the sequence of values, and no object is lost sight of. */
  method Perform<T>(mem: Memory, list: List<T>, op: Op<T>)
    requires list.Valid(mem)
    modifies list, mem, list.repr
    ensures list.Valid(mem) && fresh(list.repr - old(list.repr))
    ensures Values(list.nodes) == Apply(old(Values(list.nodes)), op)
    ensures old(mem.issued) <= mem.issued
    ensures old(mem.freed) <= mem.freed && (old(Once(mem.freed)) ==> Once(mem.freed))
    ensures Others(mem.issued, mem.freed, list.nodes) == old(Others(mem.issued, mem.freed, list.nodes))
  {
    match op
    case AddValue(v, hasMemory) =>
      if hasMemory {
        PerformAdd(mem, list, v);
      } else {
        var r := list.Add(mem, v, false);
      }
    case RemoveAt(k, other) =>
      PerformRemove(mem, list, k, other);
    case RemoveMatching(a) =>
      var answers := Padded(a, list.count);
      FilterAccounts(mem, list, answers);
      list.RemoveIfWithTail(mem, answers);
  }

  /** What a filter means for the values and for the accounting. */
  lemma FilterAccounts<T>(mem: Memory, list: List<T>, a: seq<Answer>)
    requires list.Linked(mem) && |list.nodes| <= |a|
    ensures Values(Kept(list.nodes, a)) == Kept(Values(list.nodes), a)
    ensures Once(mem.freed) ==> Once(mem.freed + Removed(list.nodes, a))
    ensures Others(mem.issued, mem.freed + Removed(list.nodes, a), Kept(list.nodes, a))
         == Others(mem.issued, mem.freed, list.nodes)
  {
    var nodes, freed := list.nodes, mem.freed;
    list.ChainIsAcyclic();
    KeptOfValues(nodes, a);
    OthersAfterFilter(mem.issued, freed, nodes, a);
    if Once(freed) {
      RemovedOnce(freed, nodes, a);
    }
  }

  /**
    Every run of operations on a new list refines the same run on a plain sequence, and the list stays valid. Besides
    its nodes, the list itself is all that is live now and was not before.
   */
  method PerformAll<T>(mem: Memory, ops: seq<Op<T>>) returns (list: List<T>)
    modifies mem
    ensures fresh(list) && fresh(list.repr) && list.Valid(mem) && Values(list.nodes) == ApplyAll([], ops)
    ensures old(mem.issued) + {list} <= mem.issued
    ensures old(mem.freed) <= mem.freed && (old(Once(mem.freed)) ==> Once(mem.freed))
    ensures Others(mem.issued, mem.freed, list.nodes) == old(mem.LiveObjects()) + {list}
  {
    list := new List(mem);
    var i := 0;
    assert ops[..0] == [];
    assert list !in mem.freed;
    while i < |ops|
      invariant i <= |ops| && fresh(list) && fresh(list.repr) && list.Valid(mem)
      invariant Values(list.nodes) == ApplyAll([], ops[..i])
      invariant old(mem.issued) + {list} <= mem.issued
      invariant old(mem.freed) <= mem.freed && (old(Once(mem.freed)) ==> Once(mem.freed))
      invariant Others(mem.issued, mem.freed, list.nodes) == old(mem.LiveObjects()) + {list}
    {
      Perform(mem, list, ops[i]);
      assert ops[..i + 1][..i] == ops[..i];
      i := i + 1;
    }
    assert ops[..i] == ops;
  }

  /**
    No leak and no double free over a list's whole life, from list_create to list_destroy: what is live afterwards is
    what was live before, so everything issued in between has been freed, and freed once if nothing had been freed
    twice before.
   */
  method Lifetime<T>(mem: Memory, ops: seq<Op<T>>)
    modifies mem
    ensures old(mem.issued) <= mem.issued && old(mem.freed) <= mem.freed
    ensures mem.LiveObjects() == old(mem.LiveObjects())
    ensures forall o :: o in mem.issued - old(mem.issued) ==> o in mem.freed
    ensures old(Once(mem.freed)) ==> Once(mem.freed)
  {
    var list := PerformAll(mem, ops);
    DestroyAccounts(mem, list, old(mem.LiveObjects()));
    list.Destroy(mem);
    forall o | o in mem.issued - old(mem.issued)
      ensures o in mem.freed
    {
      assert o !in old(mem.LiveObjects());
    }
  }

  lemma DestroyAccounts<T>(mem: Memory, list: List<T>, before: set<object>)
    requires list.Linked(mem) && list !in before
    requires Others(mem.issued, mem.freed, list.nodes) == before + {list}
    ensures (set o | o in mem.issued && o !in mem.freed + list.nodes + [list as object]) == before
    ensures Once(mem.freed) ==> Once(mem.freed + list.nodes + [list as object])
  {
    list.ChainIsAcyclic();
    if Once(mem.freed) {
      OnceAll(mem.freed, list.nodes);
      OnceMore(mem.freed + list.nodes, list);
    }
  }

  // ---- Whole runs of the functions as written ----

  /** As written, `list_remove` does not return unless the list is empty or the node is the head. */
  predicate Hangs<T>(s: seq<T>, op: Op<T>) { op.RemoveAt? && op.k > 0 && s != [] }

  /** As written, `list_remove_if` leaves a freed tail behind when it removes the last node. */
  predicate LosesTail<T>(s: seq<T>, op: Op<T>) { op.RemoveMatching? && !LastIsKept(s, Padded(op.a, |s|)) }

  /** `list_add` writes through the tail of a list that has one. */
  predicate UsesTail<T>(op: Op<T>) { op.AddValue? && op.hasMemory }

  /** One operation as written, where it returns and does not touch a freed tail. */
  method PerformAsWritten<T>(mem: Memory, list: List<T>, op: Op<T>)
    requires list.Valid(mem) || list.Stale(mem)
    requires !Hangs(Values(list.nodes), op) && (UsesTail(op) ==> list.Valid(mem))
    modifies list, mem, list.repr
    ensures fresh(list.repr - old(list.repr))
    ensures if old(list.Valid(mem)) && !LosesTail(old(Values(list.nodes)), op) then list.Valid(mem) else list.Stale(mem)
    ensures Values(list.nodes) == Apply(old(Values(list.nodes)), op)
    ensures old(mem.issued) <= mem.issued
    ensures old(mem.freed) <= mem.freed && (old(Once(mem.freed)) ==> Once(mem.freed))
    ensures Others(mem.issued, mem.freed, list.nodes) == old(Others(mem.issued, mem.freed, list.nodes))
  {
    match op
    case AddValue(v, hasMemory) =>
      if hasMemory {
        PerformAdd(mem, list, v);
      } else {
        var r := list.Add(mem, v, false);
      }
    case RemoveAt(k, other) =>
      RemoveHeadAsWritten(mem, list, other);
    case RemoveMatching(a) =>
      FilterAsWritten(mem, list, a);
  }

  method FilterAsWritten<T>(mem: Memory, list: List<T>, a: seq<Answer>)
    requires list.Valid(mem) || list.Stale(mem)
    modifies list, mem`freed, list.repr
    ensures list.repr == old(list.repr)
    ensures if old(list.Valid(mem)) && !LosesTail(old(Values(list.nodes)), RemoveMatching(a))
            then list.Valid(mem) else list.Stale(mem)
    ensures Values(list.nodes) == Apply(old(Values(list.nodes)), RemoveMatching(a))
    ensures old(mem.freed) <= mem.freed && (old(Once(mem.freed)) ==> Once(mem.freed))
    ensures Others(mem.issued, mem.freed, list.nodes) == old(Others(mem.issued, mem.freed, list.nodes))
  {
    var answers := Padded(a, list.count);
    FilterAccounts(mem, list, answers);
    VisitedOfValues(list.nodes, answers);
    list.RemoveIf(mem, answers);
  }

  method RemoveHeadAsWritten<T>(mem: Memory, list: List<T>, other: T)
    requires list.Valid(mem) || list.Stale(mem)
    modifies list, mem`freed
    ensures list.repr == old(list.repr)
    ensures if old(list.Valid(mem)) then list.Valid(mem) else list.Stale(mem)
    ensures var s := old(Values(list.nodes)); Values(list.nodes) == if s == [] then s else s[1..]
    ensures old(mem.freed) <= mem.freed && (old(Once(mem.freed)) ==> Once(mem.freed))
    ensures Others(mem.issued, mem.freed, list.nodes) == old(Others(mem.issued, mem.freed, list.nodes))
  {
    if list.head == null {
      var foreign := new Node(other);
      var settled, ok := list.RemoveAsWritten(mem, foreign, 1);
    } else {
      OthersAfterCut(mem.issued, mem.freed, list.nodes, 0);
      if Once(mem.freed) {
        OnceMore(mem.freed, list.head);
      }
      var settled, ok := list.RemoveAsWritten(mem, list.head, 1);
    }
  }

  /** `list_remove` as written for the node at a position: where Hangs says so, no number of passes settles it. */
  method RemoveAtAsWritten<T>(mem: Memory, list: List<T>, k: nat, other: T, budget: nat) returns (settled: bool)
    requires list.Linked(mem)
    modifies list, mem`freed
    ensures list.Linked(mem)
    ensures old(Hangs(Values(list.nodes), RemoveAt(k, other))) ==> !settled && list.nodes == old(list.nodes)
    ensures old(!Hangs(Values(list.nodes), RemoveAt(k, other))) && budget > 0 ==> settled
  {
    var ok;
    if k < list.count {
      var node := list.NodeAt(mem, k);
      list.NotElsewhere(k);
      settled, ok := list.RemoveAsWritten(mem, node, budget);
    } else {
      var foreign := new Node(other);
      settled, ok := list.RemoveAsWritten(mem, foreign, budget);
    }
  }

  /** Some operation before number `k` has lost the tail. */
  predicate TailLost<T>(ops: seq<Op<T>>, k: nat)
    requires k <= |ops|
  {
    exists i :: 0 <= i < k && LosesTail(ApplyAll([], ops[..i]), ops[i])
  }

  /** Operation number `k` does not return, or is an addition that writes to a node freed before. */
  predicate Breaks<T>(ops: seq<Op<T>>, k: nat)
    requires k < |ops|
  {
    Hangs(ApplyAll([], ops[..k]), ops[k]) || (UsesTail(ops[k]) && TailLost(ops, k))
  }

  /** After `n` operations the list is right, but for a stale tail when one of them has lost it. */
  ghost predicate AsExpected<T>(mem: Memory, list: List<T>, ops: seq<Op<T>>, n: nat)
    requires n <= |ops|
    reads mem, list, list.repr
  {
    && Values(list.nodes) == ApplyAll([], ops[..n])
    && if TailLost(ops, n) then list.Stale(mem) else list.Valid(mem)
  }

  method AdvanceAsWritten<T>(mem: Memory, list: List<T>, ops: seq<Op<T>>, n: nat)
    requires n < |ops| && AsExpected(mem, list, ops, n) && !Breaks(ops, n)
    modifies list, mem, list.repr
    ensures AsExpected(mem, list, ops, n + 1) && fresh(list.repr - old(list.repr))
    ensures old(mem.issued) <= mem.issued
    ensures old(mem.freed) <= mem.freed && (old(Once(mem.freed)) ==> Once(mem.freed))
    ensures Others(mem.issued, mem.freed, list.nodes) == old(Others(mem.issued, mem.freed, list.nodes))
  {
    TailLostStep(ops, n);
    PerformAsWritten(mem, list, ops[n]);
    assert ops[..n + 1][..n] == ops[..n];
  }

  /**
    A run of the functions as written is right up to the first operation that does not return or writes through a
    freed tail; its number is fixed by the operations alone. Where an addition would, the tail is indeed a freed node.
   */
  method PerformAllAsWritten<T>(mem: Memory, ops: seq<Op<T>>) returns (list: List<T>, n: nat)
    modifies mem
    ensures fresh(list) && n <= |ops| && AsExpected(mem, list, ops, n)
    ensures forall k :: 0 <= k < n ==> !Breaks(ops, k)
    ensures n < |ops| ==> Breaks(ops, n)
    ensures n < |ops| && !Hangs(Values(list.nodes), ops[n]) ==>
              ops[n].AddValue? && ops[n].hasMemory && list.tail != null && list.tail in mem.freed
    ensures old(mem.issued) + {list} <= mem.issued
    ensures old(mem.freed) <= mem.freed && (old(Once(mem.freed)) ==> Once(mem.freed))
    ensures Others(mem.issued, mem.freed, list.nodes) == old(mem.LiveObjects()) + {list}
  {
    list := new List(mem);
    n := 0;
    assert list !in mem.freed && ops[..0] == [];
    while n < |ops| && !Breaks(ops, n)
      invariant n <= |ops| && fresh(list) && fresh(list.repr) && AsExpected(mem, list, ops, n)
      invariant forall k :: 0 <= k < n ==> !Breaks(ops, k)
      invariant old(mem.issued) + {list} <= mem.issued
      invariant old(mem.freed) <= mem.freed && (old(Once(mem.freed)) ==> Once(mem.freed))
      invariant Others(mem.issued, mem.freed, list.nodes) == old(mem.LiveObjects()) + {list}
    {
      AdvanceAsWritten(mem, list, ops, n);
      n := n + 1;
    }
  }

  lemma TailLostStep<T>(ops: seq<Op<T>>, k: nat)
    requires k < |ops|
    ensures TailLost(ops, k + 1) <==> TailLost(ops, k) || LosesTail(ApplyAll([], ops[..k]), ops[k])
  {}
}
