/**
 * The eviction policy: a recency list and an index into it, kept in step. Scores are exact reals; the rounding of
 * `double` is not modelled.
 */
module LruPolicy {
  import opened Posix

  const SENTINEL: nat := 0xFFFF_FFFF_FFFF_FFFF
  const DBL_MAX: real := 179769313486231570814527423731704356798070567525844996598917476803157260780028538760589558632766878171540458953514382464234321326889464182768467546703537516986049910576551282076245490090389328944075868508455133942304583236903222948165808559332123348274797826204144723168738177180919299881250404026184124858368.0

  datatype Node = Node(id: nat, bytes: nat, hotness: real)

  function Score(n: Node): real { n.bytes as real * (1.0 - n.hotness) }

  // ---- The policy on values ----

  /** The victim among the first `i` nodes as the scan from the front sees it: `None` while no score beat -DBL_MAX. */
  function Scan(o: seq<Node>, i: nat): (k: Option<nat>)
    requires i <= |o|
    ensures k.Some? ==> k.value < i
  {
    if i == 0 then None
    else
      var best := Scan(o, i - 1);
      if Score(o[i - 1]) > WorstScore(o, best) then Some(i - 1) else best
  }

  function WorstScore(o: seq<Node>, best: Option<nat>): real
    requires best.Some? ==> best.value < |o|
  {
    if best.Some? then Score(o[best.value]) else -DBL_MAX
  }

  function Victim(o: seq<Node>): Option<nat> { Scan(o, |o|) }

  function Without(o: seq<Node>, k: nat): seq<Node>
    requires k < |o|
  {
    o[..k] + o[k + 1..]
  }

  function Evicted(o: seq<Node>): seq<Node> {
    if Victim(o).Some? then Without(o, Victim(o).value) else o
  }

  function VictimId(o: seq<Node>): nat {
    if Victim(o).Some? then o[Victim(o).value].id else SENTINEL
  }

  function Removed(o: seq<Node>, id: nat): seq<Node> {
    if o == [] then [] else if o[0].id == id then o[1..] else [o[0]] + Removed(o[1..], id)
  }

  function Touched(o: seq<Node>, capacity: nat, n: Node): seq<Node> {
    var others := Removed(o, n.id);
    [n] + if |others| >= capacity then Evicted(others) else others
  }

  ghost predicate Distinct(o: seq<Node>) { forall i, j :: 0 <= i < j < |o| ==> o[i].id != o[j].id }

  /** Every score takes part in the scan. */
  ghost predicate Scored(o: seq<Node>) { forall i :: 0 <= i < |o| ==> Score(o[i]) > -DBL_MAX }

  /** Position `k` has the largest score, and it is the first, most recently touched, position that has it. */
  ghost predicate FirstWorst(o: seq<Node>, i: nat, k: nat) {
    && k < i <= |o|
    && (forall j :: 0 <= j < i ==> Score(o[j]) <= Score(o[k]))
    && (forall j :: 0 <= j < k ==> Score(o[j]) < Score(o[k]))
  }

  lemma {:induction false} ScanFindsFirstWorst(o: seq<Node>, i: nat)
    requires i <= |o|
    ensures Scan(o, i).Some? ==> FirstWorst(o, i, Scan(o, i).value) && Score(o[Scan(o, i).value]) > -DBL_MAX
    ensures Scan(o, i).None? <==> forall j :: 0 <= j < i ==> Score(o[j]) <= -DBL_MAX
  {
    if i > 0 { ScanFindsFirstWorst(o, i - 1); }
  }

  lemma WithoutTail(o: seq<Node>, k: nat)
    requires 0 < k < |o|
    ensures Without(o, k) == [o[0]] + Without(o[1..], k - 1)
  {
    assert o[..k] == [o[0]] + o[1..][..k - 1] && o[k + 1..] == o[1..][k..];
  }

  lemma {:induction false} RemovedAt(o: seq<Node>, id: nat, k: nat)
    requires Distinct(o) && k < |o| && o[k].id == id
    ensures Removed(o, id) == Without(o, k) && |Without(o, k)| == |o| - 1
  {
    if k == 0 {
      assert Without(o, 0) == o[1..];
    } else {
      hide Without;
      RemovedAt(o[1..], id, k - 1);
      WithoutTail(o, k);
    }
  }

  lemma {:induction false} RemovedNothing(o: seq<Node>, id: nat)
    requires forall i :: 0 <= i < |o| ==> o[i].id != id
    ensures Removed(o, id) == o
  {
    if o != [] {
      RemovedNothing(o[1..], id);
      assert [o[0]] + o[1..] == o;
    }
  }

  // ---- The policy as a list with an index ----

  /** A list cell; its identity is what the index holds. */
  class Cell {
    const node: Node
    constructor (n: Node)
      ensures node == n
    {
      node := n;
    }
  }

  function Nodes(cs: seq<Cell>): (o: seq<Node>)
    ensures |o| == |cs| && forall i :: 0 <= i < |cs| ==> o[i] == cs[i].node
  {
    seq(|cs|, i requires 0 <= i < |cs| => cs[i].node)
  }

  /** The ids in the list are distinct and the index leads to exactly its cells. */
  ghost predicate Indexed(cs: seq<Cell>, index: map<nat, Cell>) {
    && Distinct(Nodes(cs))
    && (forall i :: 0 <= i < |cs| ==> cs[i].node.id in index && index[cs[i].node.id] == cs[i])
    && (forall id :: id in index ==> index[id] in cs && index[id].node.id == id)
  }

  /** Position by position: what is left without node `k`. */
  lemma WithoutAt(o: seq<Node>, k: nat, i: nat)
    requires k < |o| && i < |o| - 1
    ensures |Without(o, k)| == |o| - 1 && Without(o, k)[i] == o[if i < k then i else i + 1]
  {
  }

  /** Exactly one node goes. */
  lemma WithoutMembers(o: seq<Node>, k: nat)
    requires k < |o|
    ensures forall n :: n in Without(o, k) ==> n in o
    ensures forall n :: n in o ==> n == o[k] || n in Without(o, k)
  {
    hide Without;
    var r := Without(o, k);
    forall i | 0 <= i < |o| && i != k ensures o[i] in r {
      WithoutAt(o, k, if i < k then i else i - 1);
      assert r[if i < k then i else i - 1] == o[i];
    }
    if |o| > 1 { WithoutAt(o, k, 0); } else { OnlyOne(o); }
    forall i | 0 <= i < |r| ensures r[i] in o { WithoutAt(o, k, i); }
  }

  lemma OnlyOne(o: seq<Node>)
    requires |o| == 1
    ensures Without(o, 0) == []
  {
  }

  lemma WithoutDistinct(o: seq<Node>, k: nat)
    requires Distinct(o) && k < |o|
    ensures Distinct(Without(o, k)) && o[k] !in Without(o, k)
  {
    hide Without;
    var r := Without(o, k);
    if |o| > 1 { WithoutAt(o, k, 0); } else { OnlyOne(o); }
    forall i, j | 0 <= i < j < |r| ensures r[i].id != r[j].id {
      WithoutAt(o, k, i);
      WithoutAt(o, k, j);
    }
    forall i | 0 <= i < |r| ensures r[i] != o[k] { WithoutAt(o, k, i); }
  }

  lemma IndexedDistinct(cs: seq<Cell>, index: map<nat, Cell>)
    requires Indexed(cs, index)
    ensures Distinct(Nodes(cs))
  {
  }

  lemma UnlinkKeepsIndex(cs: seq<Cell>, index: map<nat, Cell>, k: nat)
    requires Indexed(cs, index) && k < |cs|
    ensures Indexed(cs[..k] + cs[k + 1..], index - {cs[k].node.id})
    ensures Nodes(cs[..k] + cs[k + 1..]) == Removed(Nodes(cs), cs[k].node.id) == Without(Nodes(cs), k)
  {
    hide Removed, Distinct;
    var cs' := cs[..k] + cs[k + 1..];
    UnlinkNodes(cs, k);
    forall id | id in index && id != cs[k].node.id ensures index[id] in cs' {
      var i :| 0 <= i < |cs| && cs[i] == index[id];
      assert cs[i] == cs'[if i < k then i else i - 1];
    }
    forall i | 0 <= i < |cs'| ensures cs'[i].node.id != cs[k].node.id && cs'[i] in cs {
      UnlinkedDiffers(cs, k, i);
    }
  }

  lemma UnlinkNodes(cs: seq<Cell>, k: nat)
    requires Distinct(Nodes(cs)) && k < |cs|
    ensures Nodes(cs[..k] + cs[k + 1..]) == Removed(Nodes(cs), cs[k].node.id) == Without(Nodes(cs), k)
    ensures Distinct(Nodes(cs[..k] + cs[k + 1..]))
  {
    RemovedAt(Nodes(cs), cs[k].node.id, k);
    assert Nodes(cs[..k] + cs[k + 1..]) == Without(Nodes(cs), k);
  }

  lemma UnlinkedDiffers(cs: seq<Cell>, k: nat, i: nat)
    requires Distinct(Nodes(cs)) && k < |cs| && i < |cs| - 1
    ensures (cs[..k] + cs[k + 1..])[i].node.id != cs[k].node.id && (cs[..k] + cs[k + 1..])[i] in cs
  {
    var j := if i < k then i else i + 1;
    assert (cs[..k] + cs[k + 1..])[i] == cs[j] && Nodes(cs)[j].id != Nodes(cs)[k].id;
  }

  lemma PushKeepsIndex(cs: seq<Cell>, index: map<nat, Cell>, c: Cell)
    requires Indexed(cs, index) && c.node.id !in index
    ensures Indexed([c] + cs, index[c.node.id := c])
    ensures Nodes([c] + cs) == [c.node] + Nodes(cs)
  {
  }

  class Policy {
    const capacity: nat
    var order: seq<Cell>
    var index: map<nat, Cell>

    ghost predicate Valid()
      reads this
    {
      Indexed(order, index)
    }

    function Contents(): (o: seq<Node>)
      reads this
    {
      Nodes(order)
    }

    constructor (capacity: nat)
      ensures Valid() && Contents() == [] && this.capacity == capacity
    {
      this.capacity := capacity;
      order, index := [], map[];
    }

    /** Unlinks the cell an iterator points to, together with its index entry. */
    method Erase(cell: Cell)
      requires Valid() && cell in order
      modifies this
      ensures Valid() && Contents() == Removed(old(Contents()), cell.node.id)
      ensures index == old(index) - {cell.node.id}
    {
      hide Indexed, Removed;
      var k := 0;
      while order[k] != cell
        invariant 0 <= k < |order| && cell !in order[..k]
        decreases |order| - k
      {
        k := k + 1;
      }
      UnlinkKeepsIndex(order, index, k);
      order := order[..k] + order[k + 1..];
      index := index - {cell.node.id};
    }

    method Remove(id: nat)
      requires Valid()
      modifies this
      ensures Valid() && Contents() == Removed(old(Contents()), id) && index == old(index) - {id}
    {
      hide Removed;
      if id in index {
        Erase(index[id]);
      } else {
        RemovedNothing(Contents(), id);
      }
    }

    /** Scans from the front for a strictly larger score and unlinks the node found. */
    method Evict() returns (id: nat)
      requires Valid()
      modifies this
      ensures Valid() && Contents() == Evicted(old(Contents())) && id == VictimId(old(Contents()))
      ensures forall x :: x in index ==> x in old(index)
    {
      hide Indexed, Score, Removed, Nodes;
      if order == [] { return SENTINEL; }
      ghost var o := Contents();
      var victim: Option<nat> := None;
      var worst := -DBL_MAX;
      var i := 0;
      while i < |order|
        invariant 0 <= i <= |order|
        invariant victim == Scan(o, i) && worst == WorstScore(o, victim)
      {
        var s := Score(order[i].node);
        if s > worst {
          worst, victim := s, Some(i);
        }
        i := i + 1;
      }
      if victim.None? { return SENTINEL; }
      var cell := order[victim.value];
      UnlinkKeepsIndex(order, index, victim.value);
      Erase(cell);
      id := cell.node.id;
    }

    method Touch(id: nat, bytes: nat, hotness: real)
      requires Valid()
      modifies this
      ensures Valid() && Contents() == Touched(old(Contents()), capacity, Node(id, bytes, hotness))
    {
      hide Indexed, Removed, Evicted, Nodes;
      Remove(id);
      if |order| >= capacity {
        var _ := Evict();
      }
      var cell := new Cell(Node(id, bytes, hotness));
      PushKeepsIndex(order, index, cell);
      order := [cell] + order;
      index := index[id := cell];
    }
  }

  // ---- Runs ----

  datatype Op = Touch(node: Node) | Remove(id: nat) | Evict

  function Apply(o: seq<Node>, capacity: nat, op: Op): seq<Node> {
    match op
    case Touch(n) => Touched(o, capacity, n)
    case Remove(id) => Removed(o, id)
    case Evict => Evicted(o)
  }

  function Run(capacity: nat, ops: seq<Op>): seq<Node> {
    if ops == [] then [] else Apply(Run(capacity, ops[..|ops| - 1]), capacity, ops[|ops| - 1])
  }

  /** When `id` was touched last, or -1. */
  function LastTouch(ops: seq<Op>, id: nat): (t: int)
    ensures -1 <= t < |ops|
  {
    if ops == [] then -1
    else if ops[|ops| - 1].Touch? && ops[|ops| - 1].node.id == id then |ops| - 1
    else LastTouch(ops[..|ops| - 1], id)
  }

  /** Node `n` is what its key's last touch in the run put there. */
  ghost predicate Current(ops: seq<Op>, n: Node) {
    LastTouch(ops, n.id) >= 0 && ops[LastTouch(ops, n.id)] == Touch(n)
  }

  /** The list is in reverse order of last touch. */
  ghost predicate ByRecency(ops: seq<Op>, o: seq<Node>) {
    && (forall i :: 0 <= i < |o| ==> Current(ops, o[i]))
    && (forall i, j :: 0 <= i < j < |o| ==> LastTouch(ops, o[i].id) > LastTouch(ops, o[j].id))
  }

  lemma RecencyDistinct(ops: seq<Op>, o: seq<Node>)
    requires ByRecency(ops, o)
    ensures Distinct(o)
  {
  }

  lemma WithoutByRecency(ops: seq<Op>, o: seq<Node>, k: nat)
    requires ByRecency(ops, o) && k < |o|
    ensures ByRecency(ops, Without(o, k)) && |Without(o, k)| == |o| - 1
  {
    hide Current, LastTouch;
    var w := Without(o, k);
    forall i | 0 <= i < |w| ensures w[i] == o[if i < k then i else i + 1] {
    }
  }

  lemma RemovedByRecency(ops: seq<Op>, o: seq<Node>, id: nat)
    requires ByRecency(ops, o)
    ensures ByRecency(ops, Removed(o, id)) && |Removed(o, id)| <= |o|
    ensures forall i :: 0 <= i < |Removed(o, id)| ==> Removed(o, id)[i].id != id
  {
    hide Removed, Without, ByRecency, Distinct;
    RecencyDistinct(ops, o);
    AbsentAfterRemove(o, id);
    if k :| 0 <= k < |o| && o[k].id == id {
      RemovedAt(o, id, k);
      WithoutByRecency(ops, o, k);
    } else {
      RemovedNothing(o, id);
    }
  }

  lemma {:induction false} AbsentAfterRemove(o: seq<Node>, id: nat)
    requires Distinct(o)
    ensures forall i :: 0 <= i < |Removed(o, id)| ==> Removed(o, id)[i].id != id
  {
    if o != [] && o[0].id != id {
      AbsentAfterRemove(o[1..], id);
    }
  }

  lemma EvictedByRecency(ops: seq<Op>, o: seq<Node>)
    requires ByRecency(ops, o)
    ensures ByRecency(ops, Evicted(o))
    ensures |Evicted(o)| <= |o|
    ensures o != [] && Scored(o) ==> |Evicted(o)| == |o| - 1
    ensures forall i :: 0 <= i < |Evicted(o)| ==> Evicted(o)[i] in o
  {
    hide ByRecency, Score;
    ScanFindsFirstWorst(o, |o|);
    if o != [] && Scored(o) {
      assert Score(o[0]) > -DBL_MAX;
    }
    if Victim(o).Some? {
      WithoutByRecency(ops, o, Victim(o).value);
    }
  }

  /** A further operation that does not touch a key leaves its last touch alone. */
  lemma LastTouchStep(ops: seq<Op>, op: Op, n: Node)
    requires op.Touch? ==> op.node.id != n.id
    ensures LastTouch(ops + [op], n.id) == LastTouch(ops, n.id)
    ensures Current(ops, n) ==> Current(ops + [op], n)
  {
    assert (ops + [op])[..|ops|] == ops;
  }

  lemma ByRecencyStep(ops: seq<Op>, op: Op, o: seq<Node>)
    requires ByRecency(ops, o) && (op.Touch? ==> forall i :: 0 <= i < |o| ==> o[i].id != op.node.id)
    ensures ByRecency(ops + [op], o)
  {
    hide Current, LastTouch;
    forall i | 0 <= i < |o|
      ensures Current(ops + [op], o[i]) && LastTouch(ops + [op], o[i].id) == LastTouch(ops, o[i].id)
    {
      LastTouchStep(ops, op, o[i]);
    }
  }

  lemma PushByRecency(ops: seq<Op>, n: Node, o: seq<Node>)
    requires ByRecency(ops, o) && forall i :: 0 <= i < |o| ==> o[i].id != n.id
    ensures ByRecency(ops + [Touch(n)], [n] + o)
  {
    ByRecencyStep(ops, Touch(n), o);
    assert LastTouch(ops + [Touch(n)], n.id) == |ops|;
    forall i | 0 <= i < |o| ensures LastTouch(ops + [Touch(n)], o[i].id) < |ops| {
      LastTouchStep(ops, Touch(n), o[i]);
    }
  }

  /** What a run keeps: recency order, the size bound, and scores that take part in the scan. */
  ghost predicate RunInv(capacity: nat, ops: seq<Op>, o: seq<Node>) {
    ByRecency(ops, o) && |o| <= Max(capacity, 1) && Scored(o)
  }

  lemma StepKeepsRunInv(capacity: nat, ops: seq<Op>, o: seq<Node>, op: Op)
    requires RunInv(capacity, ops, o) && (op.Touch? ==> Score(op.node) > -DBL_MAX)
    ensures RunInv(capacity, ops + [op], Apply(o, capacity, op))
  {
    hide ByRecency, Score, Removed, Evicted;
    match op {
      case Touch(n) =>
        var others := Removed(o, n.id);
        RemovedByRecency(ops, o, n.id);
        RemovedInside(o, n.id);
        EvictedByRecency(ops, others);
        PushByRecency(ops, n, if |others| >= capacity then Evicted(others) else others);
      case Remove(id) =>
        RemovedByRecency(ops, o, id);
        RemovedInside(o, id);
        ByRecencyStep(ops, op, Removed(o, id));
      case Evict =>
        EvictedByRecency(ops, o);
        ByRecencyStep(ops, op, Evicted(o));
    }
  }

  lemma {:induction false} RemovedInside(o: seq<Node>, id: nat)
    ensures forall i :: 0 <= i < |Removed(o, id)| ==> Removed(o, id)[i] in o
    ensures |Removed(o, id)| < |o| || Removed(o, id) == o
  {
    if o != [] { RemovedInside(o[1..], id); }
  }

  /**
   * Over every run whose touches score above -DBL_MAX, the list is in reverse last-touch order (so its ids are
   * distinct), every node is what the last touch of its key put there, and the size stays within max(capacity, 1).
   */
  lemma {:induction false} RunByRecency(capacity: nat, ops: seq<Op>)
    requires forall i :: 0 <= i < |ops| && ops[i].Touch? ==> Score(ops[i].node) > -DBL_MAX
    ensures RunInv(capacity, ops, Run(capacity, ops))
  {
    hide Apply, Score;
    if ops != [] {
      var front, op := ops[..|ops| - 1], ops[|ops| - 1];
      RunByRecency(capacity, front);
      StepKeepsRunInv(capacity, front, Run(capacity, front), op);
      assert front + [op] == ops;
    }
  }

  /**
   * A touched key goes to the front and is never its own victim. Another key leaves only when the others already
   * fill the capacity, and it is the first of the worst; so touching a resident key again evicts nothing.
   */
  lemma TouchEvictsWorstWhenFull(capacity: nat, o: seq<Node>, n: Node)
    requires Distinct(o) && Scored(o)
    ensures var others := Removed(o, n.id);
            var rest := Touched(o, capacity, n)[1..];
            && Touched(o, capacity, n)[0] == n
            && (|others| < capacity || others == [] ==> rest == others)
            && (|others| >= capacity && others != [] ==>
                  exists k :: FirstWorst(others, |others|, k) && rest == Without(others, k))
    ensures |o| <= capacity && (exists i :: 0 <= i < |o| && o[i].id == n.id) ==>
            |Touched(o, capacity, n)| == |o| && Touched(o, capacity, n)[1..] == Removed(o, n.id)
  {
    hide Score, FirstWorst, Distinct, Removed, Without, Scan;
    var others := Removed(o, n.id);
    RemovedInside(o, n.id);
    ScanFindsFirstWorst(others, |others|);
    if others != [] { assert Score(others[0]) > -DBL_MAX by { assert others[0] in o; } }
    if i :| 0 <= i < |o| && o[i].id == n.id {
      RemovedAt(o, n.id, i);
    }
  }

  // ---- Draining ----

  /** Repeated `evict` until it finds no victim. */
  function Drain(o: seq<Node>): seq<Node>
    decreases |o|
  {
    if Victim(o).None? then [] else [o[Victim(o).value]] + Drain(Without(o, Victim(o).value))
  }

  /** The reference: stable insertion sort by descending score. */
  function Insert(n: Node, o: seq<Node>): seq<Node> {
    if o == [] || Score(n) >= Score(o[0]) then [n] + o else [o[0]] + Insert(n, o[1..])
  }

  function Sorted(o: seq<Node>): seq<Node> {
    if o == [] then [] else Insert(o[0], Sorted(o[1..]))
  }

  /** The nodes of one score, in list order. */
  function WithScore(o: seq<Node>, s: real): seq<Node> {
    if o == [] then [] else (if Score(o[0]) == s then [o[0]] else []) + WithScore(o[1..], s)
  }

  ghost predicate Descending(o: seq<Node>) { forall i, j :: 0 <= i <= j < |o| ==> Score(o[i]) >= Score(o[j]) }

  lemma {:induction false} InsertSorts(n: Node, o: seq<Node>)
    requires Descending(o)
    ensures Descending(Insert(n, o)) && multiset(Insert(n, o)) == multiset{n} + multiset(o)
  {
    hide Score;
    if o != [] && Score(n) < Score(o[0]) {
      var r := Insert(n, o[1..]);
      InsertSorts(n, o[1..]);
      assert o == [o[0]] + o[1..];
      forall i | 0 <= i < |r| ensures Score(o[0]) >= Score(r[i]) {
        assert r[i] in multiset(r);
        assert r[i] == n || r[i] in o[1..];
      }
    }
  }

  lemma {:induction false} InsertStable(n: Node, o: seq<Node>, s: real)
    requires Descending(o)
    ensures WithScore(Insert(n, o), s) == (if Score(n) == s then [n] else []) + WithScore(o, s)
  {
    hide Score;
    if o != [] && Score(n) < Score(o[0]) {
      var r := Insert(n, o[1..]);
      InsertStable(n, o[1..], s);
      assert ([o[0]] + r)[1..] == r;
      if Score(n) == s {
        assert Score(o[0]) != s;
      }
    } else {
      assert ([n] + o)[1..] == o;
    }
  }

  /** The reference is a stable sort: a descending permutation in which equal scores keep their order. */
  lemma {:induction false} SortedIsStableSort(o: seq<Node>)
    ensures Descending(Sorted(o)) && multiset(Sorted(o)) == multiset(o)
    ensures forall s :: WithScore(Sorted(o), s) == WithScore(o, s)
  {
    hide Score, Insert, Descending;
    if o != [] {
      var r := Sorted(o[1..]);
      SortedIsStableSort(o[1..]);
      InsertSorts(o[0], r);
      assert o == [o[0]] + o[1..];
      forall s ensures WithScore(Sorted(o), s) == WithScore(o, s) {
        InsertStable(o[0], r, s);
      }
    } else {
      EmptySorted();
    }
  }

  lemma EmptySorted()
    ensures Sorted([]) == [] && Descending([])
  {
  }

  lemma SortedInside(o: seq<Node>)
    ensures forall i :: 0 <= i < |Sorted(o)| ==> Sorted(o)[i] in o
  {
    hide Sorted, Descending, WithScore;
    SortedIsStableSort(o);
    forall i | 0 <= i < |Sorted(o)| ensures Sorted(o)[i] in o {
      assert Sorted(o)[i] in multiset(Sorted(o));
    }
  }

  lemma SortedCons(n: Node, o: seq<Node>)
    ensures Sorted([n] + o) == Insert(n, Sorted(o))
  {
    assert ([n] + o)[1..] == o;
  }

  lemma {:induction false} SortedStartsWithFirstWorst(o: seq<Node>, k: nat)
    requires FirstWorst(o, |o|, k)
    ensures Sorted(o) == [o[k]] + Sorted(Without(o, k))
  {
    hide Score;
    if k == 0 {
      assert Without(o, 0) == o[1..];
      var r := Sorted(o[1..]);
      SortedInside(o[1..]);
      if r != [] {
        assert r[0] in o[1..];
      }
    } else {
      SortedStartsWithFirstWorst(o[1..], k - 1);
      WithoutTail(o, k);
      SortedCons(o[0], Without(o[1..], k - 1));
    }
  }

  /** Draining the policy yields the stable sort of the recency list by descending score. */
  lemma {:induction false} DrainIsStableSort(o: seq<Node>)
    requires Scored(o)
    ensures Drain(o) == Sorted(o)
    decreases |o|
  {
    hide Score, Sorted, Scan;
    ScanFindsFirstWorst(o, |o|);
    if o == [] {
      EmptySorted();
    } else {
      assert Score(o[0]) > -DBL_MAX;
      var k := Victim(o).value;
      assert Scored(Without(o, k));
      DrainIsStableSort(Without(o, k));
      SortedStartsWithFirstWorst(o, k);
    }
  }

  /** What the order of leaving is: by size times coldness, largest first. */
  lemma DrainByColdness(o: seq<Node>, i: nat, j: nat)
    requires Scored(o) && i <= j < |Drain(o)|
    ensures Drain(o)[i].bytes as real * (1.0 - Drain(o)[i].hotness) >= Drain(o)[j].bytes as real * (1.0 - Drain(o)[j].hotness)
  {
    DrainIsStableSort(o);
    SortedIsStableSort(o);
    assert Score(Drain(o)[i]) >= Score(Drain(o)[j]);
  }

  /** A key touched at hotness 1 never leaves before a key of the same size touched at hotness 1/4. */
  lemma HotLeavesLast(o: seq<Node>, i: nat, j: nat)
    requires Scored(o) && i < |Drain(o)| && j < |Drain(o)|
    requires Drain(o)[i].bytes == Drain(o)[j].bytes > 0
    requires Drain(o)[i].hotness == 1.0 && Drain(o)[j].hotness == 0.25
    ensures j < i
  {
    DrainIsStableSort(o);
    SortedIsStableSort(o);
    assert Score(Drain(o)[i]) == 0.0 && Score(Drain(o)[j]) > 0.0;
  }
}
