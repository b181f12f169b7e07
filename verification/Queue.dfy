/**
 * The reference-counted linked queue.
 *
 * Every list cell and the header carry a ghost flag `live`. The accessors of a cell demand it and
 * `Free` clears it, so a method that verifies reads no released memory and releases nothing twice.
 */
module Queues {
  import opened Common

  /** A `void *`; pointers are only ever compared. */
  type Address = int
  const NULL: Address := 0

  // ---------- What each operation means on the sequence of queued pointers ----------

  /** The position of the first element that satisfies `p`, or the length when there is none. */
  ghost function FirstIf(s: seq<Address>, p: Address -> bool): (k: nat)
    ensures k <= |s|
    ensures forall i :: 0 <= i < k ==> !p(s[i])
    ensures k < |s| ==> p(s[k])
  {
    if s == [] then 0
    else if p(s[0]) then 0
    else
      var r := FirstIf(s[1..], p);
      assert forall i :: 0 < i < |s| ==> s[i] == s[1..][i - 1];
      1 + r
  }

  /** `direct_match` against a given pointer */
  function Is(a: Address): Address -> bool {
    x => x == a
  }

  /** `x` placed right behind position `k`; unchanged when there is no such position. */
  ghost function PlacedAfter<T>(s: seq<T>, k: nat, x: T): seq<T> {
    if k < |s| then s[..k + 1] + [x] + s[k + 1..] else s
  }

  lemma PlacedAfterAt<T>(s: seq<T>, k: nat, x: T)
    requires k < |s|
    ensures |PlacedAfter(s, k, x)| == |s| + 1
    ensures forall i :: 0 <= i <= k ==> PlacedAfter(s, k, x)[i] == s[i]
    ensures PlacedAfter(s, k, x)[k + 1] == x
    ensures forall i :: k + 1 < i <= |s| ==> PlacedAfter(s, k, x)[i] == s[i - 1]
    ensures Distinct(s) && x !in s ==> Distinct(PlacedAfter(s, k, x))
  {
  }

  ghost function RemoveFirst(s: seq<Address>, p: Address -> bool): seq<Address> {
    Without(s, FirstIf(s, p))
  }

  /** Taking out one element takes it out of the filtered sequence too, if it was there. */
  lemma FilterWithout(s: seq<Address>, k: nat, p: Address -> bool, b: bool)
    requires k < |s|
    ensures var front, back := Filter(s[..k], p, b), Filter(s[k + 1..], p, b);
      && Filter(Without(s, k), p, b) == front + back
      && Filter(s, p, b) == if p(s[k]) == b then front + ([s[k]] + back) else front + back
  {
    var back := Filter(s[k + 1..], p, b);
    assert Filter(s[k..], p, b) == if p(s[k]) == b then [s[k]] + back else back by {
      assert s[k..][1..] == s[k + 1..];
      assert [] + back == back;
    }
    hide Filter;
    assert s == s[..k] + s[k..];
    FilterConcat(s[..k], s[k..], p, b);
    FilterConcat(s[..k], s[k + 1..], p, b);
  }

  /** What one removal takes out is the head of the one-pass filter, and nothing else. */
  lemma RemoveFirstSplitsFilter(s: seq<Address>, p: Address -> bool)
    ensures FirstIf(s, p) == |s| ==> Filter(s, p, true) == []
    ensures FirstIf(s, p) == |s| ==> Filter(s, p, false) == s
    ensures FirstIf(s, p) < |s| ==> Filter(s, p, true) == [s[FirstIf(s, p)]] + Filter(RemoveFirst(s, p), p, true)
    ensures FirstIf(s, p) < |s| ==> Filter(s, p, false) == Filter(RemoveFirst(s, p), p, false)
  {
    hide Filter, FirstIf, Without;
    var k := FirstIf(s, p);
    if k == |s| {
      FilterAllOrNone(s, p, true);
      FilterAllOrNone(s, p, false);
    } else {
      FilterAllOrNone(s[..k], p, true);
      FilterWithout(s, k, p, true);
      FilterWithout(s, k, p, false);
      var back := Filter(s[k + 1..], p, true);
      NothingInFront(back);
      NothingInFront([s[k]] + back);
    }
  }

  // ---------- What a callback may do to the queue it is called from ----------

  /** A queue operation inside the callback of `queue_foreach`; `RemoveVisited` names the data being visited. */
  datatype Op =
    | OpPushHead(data: Address)
    | OpPushTail(data: Address)
    | OpPushAfter(entry: Address, data: Address)
    | OpRemove(data: Address)
    | RemoveVisited

  /** One call of the callback: some operations, then possibly `queue_destroy`. */
  datatype Script = Script(ops: seq<Op>, destroys: bool)

  /** Nothing is removed but the data being visited, and that at most once. */
  ghost predicate VisitedOnly(ops: seq<Op>) {
    && (forall i :: 0 <= i < |ops| ==> !ops[i].OpRemove?)
    && (forall i, j :: 0 <= i < j < |ops| ==> !(ops[i].RemoveVisited? && ops[j].RemoveVisited?))
  }

  ghost predicate NoPush(ops: seq<Op>) {
    forall i :: 0 <= i < |ops| ==> ops[i].RemoveVisited? || ops[i].OpRemove?
  }

  /** No call pushes anything. */
  ghost predicate Quiet(scripts: seq<Script>) {
    forall k {:trigger scripts[k]} :: 0 <= k < |scripts| ==> NoPush(scripts[k].ops)
  }

  /** What the `k`-th call does; calls past the end of the list do nothing. */
  ghost function ScriptAt(scripts: seq<Script>, k: nat): Script {
    if k < |scripts| then scripts[k] else Script([], false)
  }

  ghost function RunOp(s: seq<Address>, op: Op, visited: Address): seq<Address> {
    match op
    case OpPushHead(d) => [d] + s
    case OpPushTail(d) => s + [d]
    case OpPushAfter(e, d) => PlacedAfter(s, FirstIf(s, Is(e)), d)
    case OpRemove(d) => RemoveFirst(s, Is(d))
    case RemoveVisited => RemoveFirst(s, Is(visited))
  }

  ghost function RunOps(s: seq<Address>, ops: seq<Op>, visited: Address): seq<Address> {
    if ops == [] then s else RunOp(RunOps(s, ops[..|ops| - 1], visited), ops[|ops| - 1], visited)
  }

  ghost function RunVisits(s: seq<Address>, visited: seq<Address>, scripts: seq<Script>): seq<Address> {
    if visited == [] then s
    else
      var k := |visited| - 1;
      RunOps(RunVisits(s, visited[..k], scripts), ScriptAt(scripts, k).ops, visited[k])
  }

  // ---------- Which calls are safe ----------

  /**
   * The queue in the course of a call: `m` is the position of the entry that the walk has saved as the
   * next one, or the length if there is none; `lost` says that it was removed, and `ahead` that it or
   * an entry behind it was.
   */
  datatype Place = Place(s: seq<Address>, m: nat, lost: bool, ahead: bool) {
    function Inserted(q: nat): Place {
      if lost || q > m then this else this.(m := m + 1)
    }

    function Removed(k: nat): Place {
      if lost || k >= |s| then this
      else if k < m then this.(m := m - 1)
      else if k == m then this.(m := 0, lost := true, ahead := true)
      else this.(ahead := true)
    }
  }

  ghost function MoveOp(a: Place, op: Op, visited: Address): Place {
    var moved := match op
      case OpPushHead(_) => a.Inserted(0)
      case OpPushTail(_) => a.Inserted(|a.s|)
      case OpPushAfter(e, _) => var k := FirstIf(a.s, Is(e)); if k < |a.s| then a.Inserted(k + 1) else a
      case OpRemove(d) => a.Removed(FirstIf(a.s, Is(d)))
      case RemoveVisited => a.Removed(FirstIf(a.s, Is(visited)));
    moved.(s := RunOp(a.s, op, visited))
  }

  ghost function MoveOps(a: Place, ops: seq<Op>, visited: Address): Place {
    if ops == [] then a else MoveOp(MoveOps(a, ops[..|ops| - 1], visited), ops[|ops| - 1], visited)
  }

  /** The call on the entry at position `m`, from which the walk has saved the next one. */
  ghost function AfterCall(s: seq<Address>, m: nat, ops: seq<Op>): Place
    requires m < |s|
  {
    MoveOps(Place(s, m + 1, false, false), ops, s[m])
  }

  /** The walk does not go on, or the entry that it has saved is still queued. */
  ghost predicate CallIsSafe(a: Place, destroys: bool) {
    destroys || a.s == [] || !a.lost
  }

  /** Every call of the walk from position `m` on is safe; or, when `spare`, none removes an entry still to come. */
  ghost predicate Walks(s: seq<Address>, m: nat, scripts: seq<Script>, spare: bool)
    decreases |scripts|
  {
    scripts == [] || m >= |s| ||
    var a := AfterCall(s, m, scripts[0].ops);
    && (if spare then !a.ahead else CallIsSafe(a, scripts[0].destroys))
    && (scripts[0].destroys || a.s == [] || Walks(a.s, a.m, scripts[1..], spare))
  }

  lemma FirstIfAtMost(s: seq<Address>, p: Address -> bool, c: nat)
    requires c < |s| && p(s[c])
    ensures FirstIf(s, p) <= c
  {
  }

  lemma {:induction false} MoveOpsRuns(a: Place, ops: seq<Op>, visited: Address)
    ensures MoveOps(a, ops, visited).s == RunOps(a.s, ops, visited)
    ensures MoveOps(a, ops, visited).lost ==> a.lost || MoveOps(a, ops, visited).ahead
    ensures a.ahead ==> MoveOps(a, ops, visited).ahead
  {
    hide RunOp;
    if ops != [] {
      MoveOpsRuns(a, ops[..|ops| - 1], visited);
    }
  }

  /** Data in front of a position stays in front of it when something is placed anywhere. */
  lemma PlacedKeepsFirst(s: seq<Address>, t: seq<Address>, q: nat, v: Address, m: nat)
    requires FirstIf(s, Is(v)) < m <= |s| && q <= |s| == |t| - 1
    requires forall i :: 0 <= i < |s| ==> t[if i < q then i else i + 1] == s[i]
    ensures FirstIf(t, Is(v)) < if q <= m then m + 1 else m
  {
    hide FirstIf;
    var c := FirstIf(s, Is(v));
    assert t[if c < q then c else c + 1] == v;
    FirstIfAtMost(t, Is(v), if c < q then c else c + 1);
  }

  /** A push keeps the visited data in front of the saved entry. */
  lemma PushKeepsVisited(a: Place, op: Op, visited: Address)
    requires !a.lost && !op.OpRemove? && !op.RemoveVisited? && FirstIf(a.s, Is(visited)) < a.m <= |a.s|
    ensures FirstIf(MoveOp(a, op, visited).s, Is(visited)) < MoveOp(a, op, visited).m
  {
    hide FirstIf, PlacedAfter;
    match op {
      case OpPushHead(d) => PlacedKeepsFirst(a.s, [d] + a.s, 0, visited, a.m);
      case OpPushTail(d) => PlacedKeepsFirst(a.s, a.s + [d], |a.s|, visited, a.m);
      case OpPushAfter(e, d) =>
        var k := FirstIf(a.s, Is(e));
        if k < |a.s| {
          PlacedAfterIndex(a.s, k, d);
          PlacedKeepsFirst(a.s, PlacedAfter(a.s, k, d), k + 1, visited, a.m);
        } else {
          assert PlacedAfter(a.s, k, d) == a.s by { PlacedNowhere(a.s, k, d); }
        }
    }
  }

  lemma PlacedAfterIndex(s: seq<Address>, k: nat, x: Address)
    requires k < |s|
    ensures |PlacedAfter(s, k, x)| == |s| + 1
    ensures forall i :: 0 <= i < |s| ==> PlacedAfter(s, k, x)[if i < k + 1 then i else i + 1] == s[i]
  {
  }

  lemma PlacedNowhere(s: seq<Address>, k: nat, x: Address)
    requires k >= |s|
    ensures PlacedAfter(s, k, x) == s
  {
  }

  lemma PushMoves(a: Place, op: Op, visited: Address)
    requires !a.lost && a.m <= |a.s| && !op.OpRemove? && !op.RemoveVisited?
    ensures var b := MoveOp(a, op, visited); !b.lost && b.ahead == a.ahead && b.m <= |b.s|
  {
  }

  lemma {:induction false} VisitedOnlySpares(s: seq<Address>, m: nat, ops: seq<Op>)
    requires m < |s| && VisitedOnly(ops)
    ensures var a := AfterCall(s, m, ops);
      && !a.ahead && !a.lost && a.m <= |a.s|
      && ((forall i :: 0 <= i < |ops| ==> !ops[i].RemoveVisited?) ==> FirstIf(a.s, Is(s[m])) < a.m)
  {
    hide RunOp;
    if ops == [] {
      FirstIfAtMost(s, Is(s[m]), m);
    } else {
      var front, op := ops[..|ops| - 1], ops[|ops| - 1];
      VisitedOnlySpares(s, m, front);
      var a := AfterCall(s, m, front);
      if op.RemoveVisited? {
        assert forall i :: 0 <= i < |front| ==> !front[i].RemoveVisited?;
        RemovedShrinks(a, s[m]);
      } else {
        PushMoves(a, op, s[m]);
        if FirstIf(a.s, Is(s[m])) < a.m {
          PushKeepsVisited(a, op, s[m]);
        }
      }
    }
  }

  lemma RemovedShrinks(a: Place, visited: Address)
    requires !a.lost && FirstIf(a.s, Is(visited)) < a.m <= |a.s|
    ensures var b := MoveOp(a, RemoveVisited, visited); !b.lost && b.ahead == a.ahead && b.m <= |b.s|
  {
  }

  /** Calls that remove no more than the entry they visit are safe, and remove none that is still to come. */
  lemma {:induction false} VisitedOnlyWalks(s: seq<Address>, m: nat, scripts: seq<Script>)
    requires forall k {:trigger scripts[k]} :: 0 <= k < |scripts| ==> VisitedOnly(scripts[k].ops)
    ensures Walks(s, m, scripts, true)
    decreases |scripts|
  {
    hide AfterCall;
    if scripts != [] && m < |s| {
      VisitedOnlySpares(s, m, scripts[0].ops);
      var a := AfterCall(s, m, scripts[0].ops);
      VisitedOnlyWalks(a.s, a.m, scripts[1..]);
    }
  }

  /** Sparing the entries to come is safe. */
  lemma {:induction false} SpareIsSafe(s: seq<Address>, m: nat, scripts: seq<Script>)
    requires Walks(s, m, scripts, true)
    ensures Walks(s, m, scripts, false)
    decreases |scripts|
  {
    hide MoveOps;
    if scripts != [] && m < |s| {
      MoveOpsRuns(Place(s, m + 1, false, false), scripts[0].ops, s[m]);
      var a := AfterCall(s, m, scripts[0].ops);
      if !scripts[0].destroys && a.s != [] {
        SpareIsSafe(a.s, a.m, scripts[1..]);
      }
    }
  }

  // ---------- The heap ----------

  class Entry {
    const data: Address
    var next: Entry?
    ghost var live: bool

    constructor (data: Address)
      ensures this.data == data && next == null && live
    {
      this.data, this.next, this.live := data, null, true;
    }

    function Data(): Address
      reads this
      requires live
    {
      data
    }

    function Next(): Entry?
      reads this
      requires live
    {
      next
    }
  }

  /**
   * Where an iteration stands: the position `m` of the cell `next` to visit, unless that is `lost`, the
   * original cells, and those of them from there on.
   */
  datatype Cursor = Cursor(m: nat, lost: bool, next: Entry?, original: set<Entry>, rest: seq<Entry>) {
    /** The cursor after a cell was placed at position `q`. */
    function AfterInsert(q: nat): Cursor {
      if lost || q > m then this else this.(m := m + 1)
    }
  }

  class Queue {
    var refCount: int
    var head: Entry?
    var tail: Entry?
    var entries: nat
    ghost var live: bool
    ghost var nodes: seq<Entry>
    ghost var contents: seq<Address>

    /** The cells are live, hold `data`, and each links to the one behind it, the last to nothing. */
    static ghost predicate Chain(cells: seq<Entry>, data: seq<Address>)
      requires |cells| == |data|
      reads cells
    {
      && (forall i {:trigger cells[i].live} :: 0 <= i < |cells| ==> cells[i].live)
      && (forall i {:trigger cells[i].data} {:trigger data[i]} :: 0 <= i < |cells| ==> cells[i].data == data[i])
      && (forall i {:trigger cells[i].next} :: 0 <= i < |cells| ==>
            cells[i].next == if i + 1 < |cells| then cells[i + 1] else null)
    }

    /** The cells from `head` form an acyclic chain of `entries` live cells that ends in `tail`. */
    ghost predicate Valid()
      reads this, nodes
    {
      && live
      && refCount >= 1
      && entries == |nodes| == |contents|
      && Distinct(nodes)
      && head == (if nodes == [] then null else nodes[0])
      && tail == (if nodes == [] then null else nodes[|nodes| - 1])
      && Chain(nodes, contents)
    }

    ghost function Cells(): set<Entry>
      reads this
    {
      set n | n in nodes
    }

    /** `queue_new` */
    constructor ()
      ensures Valid() && contents == [] && nodes == [] && refCount == 1
    {
      head, tail, entries := null, null, 0;
      refCount := 1;
      live, nodes, contents := true, [], [];
    }

    function Head(): Entry?
      reads this
      requires live
    {
      head
    }

    function RefCount(): int
      reads this
      requires live
    {
      refCount
    }

    /** `queue_ref` */
    method Ref()
      requires live
      modifies this`refCount
      ensures refCount == old(refCount) + 1
    {
      refCount := refCount + 1;
    }

    /** `queue_unref`: the header goes with the last reference. */
    method Unref()
      requires live && refCount >= 1
      modifies this`refCount, this`live
      ensures refCount == old(refCount) - 1
      ensures live <==> refCount > 0
    {
      refCount := refCount - 1;
      if refCount != 0 {
        return;
      }
      live := false;
    }

    method PushTail(data: Address)
      requires Valid()
      modifies this, nodes
      ensures Valid() && refCount == old(refCount)
      ensures contents == old(contents) + [data]
      ensures tail != null && fresh(tail) && nodes == old(nodes) + [tail]
      ensures Cells() == old(Cells()) + {tail}
    {
      var entry := new Entry(data);
      if tail != null {
        assert tail.live;
        tail.next := entry;
      }
      tail := entry;
      if head == null {
        head := entry;
      }
      entries := entries + 1;
      nodes, contents := nodes + [entry], contents + [data];
    }

    method PushHead(data: Address)
      requires Valid()
      modifies this, nodes
      ensures Valid() && refCount == old(refCount)
      ensures contents == [data] + old(contents)
      ensures head != null && fresh(head) && nodes == [head] + old(nodes)
      ensures Cells() == old(Cells()) + {head}
    {
      var entry := new Entry(data);
      assert entry.live;
      entry.next := head;
      head := entry;
      if tail == null {
        tail := entry;
      }
      entries := entries + 1;
      nodes, contents := [entry] + nodes, [data] + contents;
    }

    /** Walks to the first cell that satisfies `p`, as every search loop of the queue does. */
    method Seek(p: Address -> bool) returns (prev: Entry?, entry: Entry?)
      requires Valid()
      ensures var k := FirstIf(contents, p);
        && entry == (if k < |nodes| then nodes[k] else null)
        && prev == (if k == 0 then null else nodes[k - 1])
    {
      prev, entry := null, head;
      ghost var i := 0;
      while entry != null && !p(entry.Data())
        invariant i <= |nodes|
        invariant entry == (if i < |nodes| then nodes[i] else null)
        invariant prev == (if i == 0 then null else nodes[i - 1])
        invariant forall j :: 0 <= j < i ==> !p(contents[j])
        decreases |nodes| - i
      {
        prev, entry := entry, entry.Next();
        i := i + 1;
      }
    }

    method PushAfter(entry: Address, data: Address) returns (ok: bool)
      requires Valid()
      modifies this, nodes
      ensures Valid() && refCount == old(refCount)
      ensures ok <==> entry in old(contents)
      ensures var k := FirstIf(old(contents), Is(entry));
        && contents == PlacedAfter(old(contents), k, data)
        && |nodes| == |contents|
        && (if ok then fresh(nodes[k + 1]) && nodes == PlacedAfter(old(nodes), k, nodes[k + 1])
            else nodes == old(nodes))
      ensures old(Cells()) <= Cells() && fresh(Cells() - old(Cells()))
    {
      ghost var k := FirstIf(contents, Is(entry));
      var _, qentry := Seek(Is(entry));
      if qentry == null {
        return false;
      }
      var newEntry := new Entry(data);
      LinkBehind(k, qentry, newEntry);
      assert newEntry.data == data;
      return true;
    }

    /** Links the new cell behind `qentry`. */
    method LinkBehind(ghost k: nat, qentry: Entry, newEntry: Entry)
      requires Valid()
      requires k < |nodes| && qentry == nodes[k]
      requires newEntry.live && newEntry !in nodes
      modifies this, nodes, newEntry`next
      ensures Valid() && refCount == old(refCount)
      ensures nodes == PlacedAfter(old(nodes), k, newEntry)
      ensures contents == PlacedAfter(old(contents), k, newEntry.data)
    {
      PlacedAfterAt(nodes, k, newEntry);
      PlacedAfterAt(contents, k, newEntry.data);
      DistinctFrom(nodes, k);
      hide PlacedAfter, Distinct;
      assert newEntry.live;
      newEntry.next := qentry.Next();
      if qentry.Next() == null {
        tail := newEntry;
      }
      assert qentry.live;
      qentry.next := newEntry;
      entries := entries + 1;
      nodes, contents := PlacedAfter(nodes, k, newEntry), PlacedAfter(contents, k, newEntry.data);
    }

    method PopHead() returns (data: Address)
      requires Valid()
      modifies this, nodes
      ensures Valid() && refCount == old(refCount)
      ensures old(contents) == [] ==> data == NULL && contents == [] && nodes == []
      ensures old(contents) != [] ==>
                && [data] + contents == old(contents)
                && nodes == old(nodes)[1..]
                && !old(nodes)[0].live
    {
      if head == null {
        return NULL;
      }
      var entry := head;
      if head.Next() == null {
        head, tail := null, null;
      } else {
        head := head.Next();
      }
      data := entry.Data();
      assert entry.live;
      entry.live := false;
      entries := entries - 1;
      nodes, contents := nodes[1..], contents[1..];
    }

    method PeekHead() returns (data: Address)
      requires Valid()
      ensures data == if contents == [] then NULL else contents[0]
    {
      data := if head == null then NULL else head.Data();
    }

    method PeekTail() returns (data: Address)
      requires Valid()
      ensures data == if contents == [] then NULL else contents[|contents| - 1]
    {
      data := if tail == null then NULL else tail.Data();
    }

    method Find(p: Address -> bool) returns (data: Address)
      requires Valid()
      ensures var k := FirstIf(contents, p); data == if k < |contents| then contents[k] else NULL
    {
      var _, entry := Seek(p);
      data := if entry == null then NULL else entry.Data();
    }

    /** Bypassing the cell at `k` leaves a chain of the others. */
    static lemma ChainWithout(cells: seq<Entry>, data: seq<Address>, k: nat)
      requires k < |cells| == |data|
      requires forall i {:trigger cells[i].live} :: 0 <= i < |cells| && i != k ==> cells[i].live
      requires forall i {:trigger cells[i].data} :: 0 <= i < |cells| ==> cells[i].data == data[i]
      requires forall i {:trigger cells[i].next} :: 0 <= i < |cells| && i != k && i != k - 1 ==>
                 cells[i].next == if i + 1 < |cells| then cells[i + 1] else null
      requires k > 0 ==> cells[k - 1].next == if k + 1 < |cells| then cells[k + 1] else null
      ensures Chain(Without(cells, k), Without(data, k))
    {
      hide Without;
      var c, d := Without(cells, k), Without(data, k);
      assert |c| == |d| == |cells| - 1 by { WithoutLengths(cells, data, k); }
      forall i {:trigger c[i].live} {:trigger c[i].data} {:trigger d[i]} {:trigger c[i].next} | 0 <= i < |c|
        ensures c[i].live && c[i].data == d[i] && c[i].next == if i + 1 < |c| then c[i + 1] else null
      {
        WithoutIndex(cells, k, i);
        WithoutIndex(data, k, i);
        if i + 1 < |c| {
          WithoutIndex(cells, k, i + 1);
        }
      }
    }

    static lemma WithoutLengths(cells: seq<Entry>, data: seq<Address>, k: nat)
      requires k < |cells| == |data|
      ensures |Without(cells, k)| == |Without(data, k)| == |cells| - 1
    {
    }

    /** Unlinks and releases `entry`, whose predecessor is `prev`. */
    method Unlink(ghost k: nat, prev: Entry?, entry: Entry)
      requires Valid()
      requires k < |nodes| && entry == nodes[k]
      requires prev == (if k == 0 then null else nodes[k - 1])
      modifies this, nodes
      ensures Valid() && refCount == old(refCount)
      ensures nodes == Without(old(nodes), k)
      ensures contents == Without(old(contents), k)
      ensures !entry.live
    {
      WithoutAt(nodes, k);
      WithoutAt(contents, k);
      DistinctFrom(nodes, k);
      if prev != null {
        DistinctFrom(nodes, k - 1);
      }
      hide Without, Distinct;
      if prev != null {
        assert prev.live;
        prev.next := entry.Next();
      } else {
        head := entry.Next();
      }
      if entry.Next() == null {
        tail := prev;
      }
      assert entry.live;
      entry.live := false;
      entries := entries - 1;
      ChainWithout(nodes, contents, k);
      nodes, contents := Without(nodes, k), Without(contents, k);
    }

    method Remove(data: Address) returns (found: bool)
      requires Valid()
      modifies this, nodes
      ensures Valid() && refCount == old(refCount)
      ensures found <==> data in old(contents)
      ensures var k := FirstIf(old(contents), Is(data));
        && contents == Without(old(contents), k)
        && nodes == Without(old(nodes), k)
        && (found ==> !old(nodes)[k].live)
      ensures Cells() <= old(Cells())
      ensures forall n :: n in old(Cells()) - Cells() ==> !n.live
    {
      ghost var k := FirstIf(contents, Is(data));
      var prev, entry := Seek(Is(data));
      if entry == null {
        return false;
      }
      Unlink(k, prev, entry);
      return true;
    }

    method RemoveIf(p: Address -> bool) returns (data: Address)
      requires Valid()
      modifies this, nodes
      ensures Valid() && refCount == old(refCount)
      ensures var k := FirstIf(old(contents), p);
        && contents == RemoveFirst(old(contents), p)
        && nodes == Without(old(nodes), k)
        && data == (if k < |old(contents)| then old(contents)[k] else NULL)
        && (k < |old(contents)| ==> !old(nodes)[k].live)
      ensures Cells() <= old(Cells())
      ensures forall n :: n in old(Cells()) - Cells() ==> !n.live
    {
      ghost var k := FirstIf(contents, p);
      var prev, entry := Seek(p);
      if entry == null {
        return NULL;
      }
      data := entry.Data();
      Unlink(k, prev, entry);
    }

    /** One turn of the loop of `queue_remove_all`: an unchanged count says that nothing matched. */
    method RemoveNext(p: Address -> bool) returns (found: bool, data: Address)
      requires Valid()
      modifies this, Cells()
      ensures Valid() && refCount == old(refCount)
      ensures found ==> |contents| < |old(contents)|
      ensures found ==> Filter(old(contents), p, true) == [data] + Filter(contents, p, true)
      ensures found ==> Filter(old(contents), p, false) == Filter(contents, p, false)
      ensures !found ==> contents == old(contents) == Filter(contents, p, false) && Filter(contents, p, true) == []
      ensures Cells() <= old(Cells())
      ensures forall n :: n in old(Cells()) - Cells() ==> !n.live
    {
      var before := entries;
      RemoveFirstSplitsFilter(contents, p);
      data := RemoveIf(p);
      found := before != entries;
    }

    /** `queue_remove_all` with a matcher: repeated removal is a one-pass filter. */
    method RemoveAllIf(p: Address -> bool) returns (count: nat, destroyed: seq<Address>)
      requires Valid()
      modifies this, Cells()
      ensures Valid() && refCount == old(refCount)
      ensures destroyed == Filter(old(contents), p, true) && count == |destroyed|
      ensures contents == Filter(old(contents), p, false)
      ensures Cells() <= old(Cells())
      ensures forall n :: n in old(Cells()) - Cells() ==> !n.live
    {
      count, destroyed := 0, [];
      var entry := head;
      if entry == null {
        return;
      }
      while true
        invariant Valid() && refCount == old(refCount)
        invariant count == |destroyed|
        invariant destroyed + Filter(contents, p, true) == Filter(old(contents), p, true)
        invariant Filter(contents, p, false) == Filter(old(contents), p, false)
        invariant Cells() <= old(Cells())
        invariant forall n :: n in old(Cells()) - Cells() ==> !n.live
        decreases |contents|
      {
        var found, data := RemoveNext(p);
        if !found {
          break;
        }
        assert (destroyed + [data]) + Filter(contents, p, true) == destroyed + ([data] + Filter(contents, p, true));
        destroyed := destroyed + [data];
        count := count + 1;
      }
    }

    /** `queue_remove_all` without a matcher: detaches the chain, then hands over and releases each cell. */
    method RemoveAll() returns (count: nat, destroyed: seq<Address>)
      requires Valid()
      modifies this, nodes
      ensures Valid() && refCount == old(refCount)
      ensures contents == [] && nodes == []
      ensures destroyed == old(contents) && count == |destroyed|
      ensures forall n :: n in old(nodes) ==> !n.live
    {
      var entry := head;
      head, tail, entries := null, null, 0;
      ghost var chain, data := nodes, contents;
      nodes, contents := [], [];
      count, destroyed := 0, [];
      while entry != null
        invariant count <= |chain| && destroyed == data[..count]
        invariant entry == (if count < |chain| then chain[count] else null)
        invariant forall i {:trigger chain[i].live} :: 0 <= i < count ==> !chain[i].live
        invariant Chain(chain[count..], data[count..])
        invariant Valid() && nodes == [] && refCount == old(refCount)
        decreases |chain| - count
      {
        var tmp := entry;
        entry := entry.Next();
        destroyed := destroyed + [tmp.Data()];
        assert tmp.live;
        tmp.live := false;
        count := count + 1;
      }
    }

    /** `queue_destroy` */
    method Destroy() returns (destroyed: seq<Address>)
      requires Valid()
      modifies this, nodes
      ensures destroyed == old(contents)
      ensures nodes == [] && contents == [] && head == null
      ensures forall n :: n in old(nodes) ==> !n.live
      ensures refCount == old(refCount) - 1
      ensures live <==> refCount > 0
      ensures live ==> Valid()
    {
      var _, d := RemoveAll();
      destroyed := d;
      Unref();
    }

    // ---------- Iteration ----------

    /** The cells of `s` that belong to `those`, in their order. */
    static ghost function Restrict(s: seq<Entry>, those: set<Entry>): seq<Entry> {
      Filter(s, (n: Entry) => n in those, true)
    }

    static lemma RestrictAll(s: seq<Entry>, those: set<Entry>)
      ensures (forall i :: 0 <= i < |s| ==> s[i] in those) ==> Restrict(s, those) == s
    {
      FilterAllOrNone(s, (n: Entry) => n in those, true);
    }

    static lemma RestrictFrom(s: seq<Entry>, m: nat, those: set<Entry>)
      requires m < |s|
      ensures var rest := Restrict(s[m + 1..], those);
        Restrict(s[m..], those) == if s[m] in those then [s[m]] + rest else rest
    {
      assert s[m..][1..] == s[m + 1..];
      assert [] + Restrict(s[m + 1..], those) == Restrict(s[m + 1..], those);
    }

    static lemma RestrictSplit(s: seq<Entry>, x: Entry, those: set<Entry>)
      ensures Restrict(s + [x], those) == if x in those then Restrict(s, those) + [x] else Restrict(s, those)
    {
      RestrictConcat(s, [x], those);
      RestrictFrom([x], 0, those);
    }

    static lemma RestrictConcat(s: seq<Entry>, t: seq<Entry>, those: set<Entry>)
      ensures Restrict(s + t, those) == Restrict(s, those) + Restrict(t, those)
    {
      FilterConcat(s, t, (n: Entry) => n in those, true);
    }

    static lemma RestrictSame(s: seq<Entry>, those: set<Entry>, these: set<Entry>)
      requires forall n :: n in s ==> (n in those <==> n in these)
      ensures Restrict(s, those) == Restrict(s, these)
    {
      FilterAlike(s, (n: Entry) => n in those, (n: Entry) => n in these);
    }

    static lemma RestrictTwice(s: seq<Entry>, those: set<Entry>, these: set<Entry>)
      ensures Restrict(Restrict(s, those), these) == Restrict(s, those * these)
    {
      FilterTwice(s, (n: Entry) => n in those, (n: Entry) => n in these, (n: Entry) => n in those * these);
    }

    static lemma RestrictMember(s: seq<Entry>, those: set<Entry>, n: Entry)
      ensures n in Restrict(s, those) <==> n in s && n in those
    {
      FilterMember(s, (n: Entry) => n in those, true, n);
    }

    /** The cursor stands at position `m`, and the original cells from there on are still to come. */
    static ghost predicate Ahead(cells: seq<Entry>, u: Cursor) {
      && u.m <= |cells|
      && u.next == (if u.m < |cells| then cells[u.m] else null)
      && Restrict(cells[u.m..], u.original) == u.rest
    }

    /** A cell placed in front of `next` moves it up; one placed behind it is not an original cell. */
    static lemma AheadAfterInsert(cells: seq<Entry>, q: nat, x: Entry, u: Cursor)
      requires Ahead(cells, u) && !u.lost
      requires q <= |cells| && x !in u.original
      ensures Ahead(cells[..q] + [x] + cells[q..], u.AfterInsert(q))
    {
      var after, m := cells[..q] + [x] + cells[q..], u.m;
      if q <= m {
        assert after[m + 1..] == cells[m..];
      } else {
        assert after[m..] == cells[m..q] + ([x] + cells[q..]);
        assert cells[m..] == cells[m..q] + cells[q..];
        RestrictConcat(cells[m..q], [x] + cells[q..], u.original);
        RestrictConcat(cells[m..q], cells[q..], u.original);
        RestrictConcat([x], cells[q..], u.original);
        assert Restrict([x], u.original) == [];
      }
    }

    /** The cells from `m` on, without the one at `q`. */
    static lemma TailWithout(cells: seq<Entry>, q: nat, m: nat, kept: set<Entry>)
      requires Distinct(cells) && q < |cells| && q != m <= |cells|
      requires forall n :: n in kept <==> n in Without(cells, q)
      ensures Without(cells, q)[if q < m then m - 1 else m..] == Restrict(cells[m..], kept)
    {
      hide Restrict;
      WithoutMembers(cells, q);
      DistinctFrom(cells, q);
      hide Without, Distinct;
      if q < m {
        TailBehind(cells, q, m);
        RestrictAll(cells[m..], kept);
      } else {
        TailSplit(cells, q, m);
        RestrictOne(cells[m..q], cells[q], cells[q + 1..], kept);
      }
    }

    static lemma TailBehind(cells: seq<Entry>, q: nat, m: nat)
      requires q < m <= |cells|
      ensures |Without(cells, q)| == |cells| - 1 && Without(cells, q)[m - 1..] == cells[m..]
    {
    }

    static lemma TailSplit(cells: seq<Entry>, q: nat, m: nat)
      requires m <= q < |cells|
      ensures |Without(cells, q)| == |cells| - 1
      ensures cells[m..] == cells[m..q] + ([cells[q]] + cells[q + 1..])
      ensures Without(cells, q)[m..] == cells[m..q] + cells[q + 1..]
    {
    }

    static lemma RestrictOne(a: seq<Entry>, x: Entry, b: seq<Entry>, kept: set<Entry>)
      requires x !in kept
      requires (forall i :: 0 <= i < |a| ==> a[i] in kept) && (forall i :: 0 <= i < |b| ==> b[i] in kept)
      ensures Restrict(a + ([x] + b), kept) == a + b
    {
      RestrictConcat(a, [x] + b, kept);
      RestrictConcat([x], b, kept);
      RestrictFrom([x], 0, kept);
      RestrictAll(a, kept);
      RestrictAll(b, kept);
      hide Restrict;
      assert [x][0..] == [x] && [x][1..] == [];
      NoneRestricted(kept);
      assert [] + b == b;
    }

    static lemma NoneRestricted(kept: set<Entry>)
      ensures Restrict([], kept) == []
    {
    }

    /** Taking out a cell other than `next` leaves the same original cells to come, without that one. */
    static lemma AheadAfterRemove(cells: seq<Entry>, q: nat, u: Cursor, kept: set<Entry>)
      requires Ahead(cells, u) && Distinct(cells) && q < |cells| && q != u.m
      requires forall n :: n in kept <==> n in Without(cells, q)
      ensures Ahead(Without(cells, q), u.(m := if q < u.m then u.m - 1 else u.m, rest := Restrict(u.rest, kept)))
      ensures q < u.m ==> Restrict(u.rest, kept) == u.rest
    {
      hide Restrict, Without, Distinct;
      var tail := cells[u.m..];
      TailWithout(cells, q, u.m, kept);
      RestrictTwice(tail, kept, u.original);
      RestrictTwice(tail, u.original, kept);
      assert kept * u.original == u.original * kept;
      NextWithout(cells, q, u.m);
      if q < u.m {
        BehindKept(cells, q, u.m, kept);
        forall n | n in u.rest
          ensures n in kept
        {
          RestrictMember(tail, u.original, n);
        }
        RestrictAll(u.rest, kept);
      }
    }

    static lemma NextWithout(cells: seq<Entry>, q: nat, m: nat)
      requires q < |cells| && q != m <= |cells|
      ensures var d, m' := Without(cells, q), if q < m then m - 1 else m;
        m' <= |d| && (m' < |d| <==> m < |cells|) && (m < |cells| ==> d[m'] == cells[m])
    {
    }

    static lemma BehindKept(cells: seq<Entry>, q: nat, m: nat, kept: set<Entry>)
      requires Distinct(cells) && q < m <= |cells| && forall n :: n in kept <==> n in Without(cells, q)
      ensures forall n :: n in cells[m..] ==> n in kept
    {
      TailBehind(cells, q, m);
    }

    /** The cursor is in step with the queue, or has lost its cell. */
    ghost predicate Tracks(u: Cursor): (b: bool)
      reads this, nodes
      ensures b ==> Valid() && (!u.lost ==> u.m <= |nodes| && (u.next != null ==> u.next in Cells()))
    {
      && Valid()
      && if u.lost then u.next != null && u.next !in nodes else Ahead(nodes, u)
    }

    method VisitPushHead(data: Address, ghost u: Cursor) returns (ghost u': Cursor)
      requires Tracks(u) && (forall n :: n in u.original ==> allocated(n)) && (u.next != null ==> allocated(u.next))
      modifies this, Cells()
      ensures Tracks(u') && u' == u.AfterInsert(0) && refCount == old(refCount)
      ensures contents == [data] + old(contents)
      ensures old(Cells()) <= Cells() && fresh(Cells() - old(Cells()))
    {
      hide Restrict;
      PushHead(data);
      if !u.lost {
        AheadAfterInsert(old(nodes), 0, head, u);
      }
      assert nodes == old(nodes)[..0] + [head] + old(nodes)[0..];
      u' := u.AfterInsert(0);
    }

    method VisitPushTail(data: Address, ghost u: Cursor) returns (ghost u': Cursor)
      requires Tracks(u) && (forall n :: n in u.original ==> allocated(n)) && (u.next != null ==> allocated(u.next))
      modifies this, Cells()
      ensures Tracks(u') && u' == u.AfterInsert(|old(contents)|) && refCount == old(refCount)
      ensures contents == old(contents) + [data]
      ensures old(Cells()) <= Cells() && fresh(Cells() - old(Cells()))
    {
      hide Restrict;
      PushTail(data);
      if !u.lost {
        AheadAfterInsert(old(nodes), |old(nodes)|, tail, u);
      }
      assert nodes == old(nodes)[..|old(nodes)|] + [tail] + old(nodes)[|old(nodes)|..];
      u' := u.AfterInsert(|old(nodes)|);
    }

    method VisitPushAfter(entry: Address, data: Address, ghost u: Cursor) returns (ghost u': Cursor)
      requires Tracks(u) && (forall n :: n in u.original ==> allocated(n)) && (u.next != null ==> allocated(u.next))
      modifies this, Cells()
      ensures Tracks(u') && refCount == old(refCount)
      ensures var k := FirstIf(old(contents), Is(entry));
        && u' == (if k < |old(contents)| then u.AfterInsert(k + 1) else u)
        && contents == PlacedAfter(old(contents), k, data)
      ensures old(Cells()) <= Cells() && fresh(Cells() - old(Cells()))
    {
      hide Restrict, FirstIf, Chain, Distinct;
      ghost var k := FirstIf(contents, Is(entry));
      var ok := PushAfter(entry, data);
      u' := u;
      if ok {
        if !u.lost {
          AheadAfterInsert(old(nodes), k + 1, nodes[k + 1], u);
        }
        u' := u.AfterInsert(k + 1);
      }
    }

    /**
     * A removal inside a callback. The link that the walk has saved can be read afterwards if and only
     * if the removal did not take out the saved cell; then the same original cells are still to come,
     * without the removed one.
     */
    method VisitRemove(data: Address, ghost u: Cursor) returns (ghost u': Cursor)
      requires Tracks(u)
      modifies this, Cells()
      ensures Tracks(u') && refCount == old(refCount) && contents == RemoveFirst(old(contents), Is(data))
      ensures u'.next == u.next && u'.original == u.original
      ensures var a := Place(old(contents), u.m, u.lost, false).Removed(FirstIf(old(contents), Is(data)));
        && u'.m == a.m && u'.lost == a.lost
        && (!a.lost ==> u'.rest == Restrict(u.rest, Cells()))
        && (!a.lost && !a.ahead ==> u'.rest == u.rest)
      ensures !u.lost && u.next != null ==> (u.next.live <==> !u'.lost)
      ensures Cells() <= old(Cells())
      ensures forall n :: n in old(Cells()) - Cells() ==> !n.live
    {
      hide Restrict, Ahead, Without, Distinct;
      ghost var cells, k := nodes, FirstIf(contents, Is(data));
      if !u.lost {
        RestQueued(u);
        AheadNext(cells, u);
      }
      if k < |cells| {
        WithoutDistinct(cells, k);
      } else {
        WithoutNothing(cells, k);
      }
      var _ := Remove(data);
      ghost var a := Place(old(contents), u.m, u.lost, false).Removed(k);
      u' := u.(m := a.m, lost := a.lost);
      if !u.lost {
        if k == |cells| {
          RestrictAll(u.rest, Cells());
        } else if k != u.m {
          AheadAfterRemove(cells, k, u, Cells());
          u' := u'.(rest := Restrict(u.rest, Cells()));
        }
      }
    }

    static lemma AheadNext(cells: seq<Entry>, u: Cursor)
      requires Ahead(cells, u)
      ensures u.m <= |cells| && u.next == (if u.m < |cells| then cells[u.m] else null)
    {
    }

    static lemma WithoutNothing(cells: seq<Entry>, k: nat)
      requires k >= |cells|
      ensures Without(cells, k) == cells
    {
    }

    /** One operation of the callback. */
    method VisitOp(op: Op, visited: Address, ghost u: Cursor) returns (ghost u': Cursor)
      requires Tracks(u) && (forall n :: n in u.original ==> allocated(n)) && (u.next != null ==> allocated(u.next))
      modifies this, Cells()
      ensures Tracks(u') && refCount == old(refCount) && u'.next == u.next && u'.original == u.original
      ensures var a := MoveOp(Place(old(contents), u.m, u.lost, false), op, visited);
        && contents == a.s && u'.m == a.m && u'.lost == a.lost
        && (!a.lost ==> u'.rest == Restrict(u.rest, Cells()))
        && (!a.lost && !a.ahead ==> u'.rest == u.rest)
      ensures fresh(Cells() - old(Cells()))
      ensures forall n :: n in old(Cells()) - Cells() ==> !n.live
      ensures op.OpRemove? || op.RemoveVisited? ==> Cells() <= old(Cells())
    {
      hide Restrict, Valid, FirstIf, Without, PlacedAfter;
      if !u.lost {
        RestQueued(u);
      }
      match op {
        case OpPushHead(d) => u' := VisitPushHead(d, u);
        case OpPushTail(d) => u' := VisitPushTail(d, u);
        case OpPushAfter(e, d) => u' := VisitPushAfter(e, d, u);
        case OpRemove(d) => u' := VisitRemove(d, u);
        case RemoveVisited => u' := VisitRemove(visited, u);
      }
      RestrictAll(u.rest, Cells());
    }

    lemma RestQueued(u: Cursor)
      requires Tracks(u) && !u.lost
      ensures forall n :: n in u.rest ==> n in Cells()
    {
      forall n | n in u.rest
        ensures n in nodes
      {
        RestrictMember(nodes[u.m..], u.original, n);
      }
    }

    /** The original cells still queued, one operation later. */
    static lemma RestComposes(rest: seq<Entry>, before: set<Entry>, after: set<Entry>)
      requires forall n :: n in rest && n in after ==> n in before
      ensures Restrict(Restrict(rest, before), after) == Restrict(rest, after)
    {
      RestrictTwice(rest, before, after);
      RestrictSame(rest, before * after, after);
    }

    /**
     * The operations of one call of the callback, in order. The saved cell is lost exactly when one of
     * them removes it; the original cells to come are those still queued.
     */
    method RunCallback(ops: seq<Op>, visited: Address, ghost u: Cursor) returns (ghost u': Cursor)
      requires Tracks(u) && !u.lost
      requires (forall n :: n in u.original ==> allocated(n)) && (u.next != null ==> allocated(u.next))
      requires forall n :: n in u.rest ==> n in u.original
      modifies this, Cells()
      ensures Tracks(u') && refCount == old(refCount) && u'.next == u.next && u'.original == u.original
      ensures var a := MoveOps(Place(old(contents), u.m, false, false), ops, visited);
        && contents == a.s && u'.m == a.m && u'.lost == a.lost
        && (!a.lost ==> u'.rest == Restrict(u.rest, Cells()))
        && (!a.lost && !a.ahead ==> u'.rest == u.rest)
      ensures fresh(Cells() - old(Cells()))
      ensures forall n :: n in old(Cells()) - Cells() ==> !n.live
      ensures NoPush(ops) ==> Cells() <= old(Cells())
      ensures ops == [] ==> nodes == old(nodes) && u' == u
    {
      hide Tracks, Valid, MoveOp, Restrict;
      RestQueued(u);
      RestrictAll(u.rest, Cells());
      u' := u;
      var i := 0;
      ghost var start := Place(contents, u.m, false, false);
      while i < |ops|
        invariant i <= |ops|
        invariant Tracks(u') && refCount == old(refCount) && u'.next == u.next && u'.original == u.original
        invariant InStep(u, u', contents, MoveOps(start, ops[..i], visited), Cells())
        invariant fresh(Cells() - old(Cells()))
        invariant forall n :: n in old(Cells()) - Cells() ==> !n.live
        invariant NoPush(ops) ==> Cells() <= old(Cells())
        invariant i == 0 ==> nodes == old(nodes) && u' == u
        decreases |ops| - i
      {
        assert ops[..i + 1][..i] == ops[..i];
        ghost var a, before, v := MoveOps(start, ops[..i], visited), Cells(), u';
        u' := VisitOp(ops[i], visited, u');
        InStepNext(u, v, u', a, ops[i], visited, before, Cells(), contents);
        i := i + 1;
      }
      assert ops[..|ops|] == ops;
    }

    /** The cursor after some operations, as the positions among the data say. */
    static ghost predicate InStep(u: Cursor, v: Cursor, s: seq<Address>, a: Place, cells: set<Entry>) {
      && s == a.s && v.m == a.m && v.lost == a.lost
      && (!a.lost ==> v.rest == Restrict(u.rest, cells))
      && (!a.lost && !a.ahead ==> v.rest == u.rest)
    }

    /** What `ahead` says of the operations before makes no difference to an operation. */
    static lemma AheadSticks(a: Place, op: Op, visited: Address)
      ensures var b, c := MoveOp(a, op, visited), MoveOp(a.(ahead := false), op, visited);
        b.s == c.s && b.m == c.m && b.lost == c.lost && (b.ahead <==> a.ahead || c.ahead) && (a.lost ==> b.lost)
    {
      hide RunOp, FirstIf;
    }

    static lemma InStepNext(u: Cursor, v: Cursor, v': Cursor, a: Place, op: Op, visited: Address,
                            before: set<Entry>, after: set<Entry>, s: seq<Address>)
      requires InStep(u, v, a.s, a, before)
      requires forall n :: n in u.rest && n in after ==> n in before
      requires var b := MoveOp(Place(a.s, v.m, v.lost, false), op, visited);
        && s == b.s && v'.m == b.m && v'.lost == b.lost
        && (!b.lost ==> v'.rest == Restrict(v.rest, after))
        && (!b.lost && !b.ahead ==> v'.rest == v.rest)
      ensures InStep(u, v', s, MoveOp(a, op, visited), after)
    {
      hide MoveOp, Restrict;
      AheadSticks(a, op, visited);
      RestComposes(u.rest, before, after);
    }

    /** The original cells to come behind the one visited. */
    static ghost function Tail(rest: seq<Entry>, entry: Entry, original: set<Entry>): seq<Entry> {
      if entry in original && rest != [] then rest[1..] else rest
    }

    /** The cursor once the link of the visited cell has been read. */
    lemma LinkRead(entry: Entry, next: Entry?, u: Cursor) returns (v: Cursor)
      requires Tracks(u) && !u.lost && u.next == entry && next == entry.next
      ensures v == Cursor(u.m + 1, false, next, u.original, Tail(u.rest, entry, u.original)) && Tracks(v)
      ensures u.m < |contents| && contents[u.m] == entry.data
      ensures u.rest == if entry in u.original then [entry] + v.rest else v.rest
      ensures forall n :: n in v.rest ==> n in u.original
    {
      RestrictFrom(nodes, u.m, u.original);
      v := Cursor(u.m + 1, false, next, u.original, Restrict(nodes[u.m + 1..], u.original));
      forall n | n in v.rest
        ensures n in u.original
      {
        RestrictMember(nodes[u.m + 1..], u.original, n);
      }
    }

    /**
     * One turn of `queue_foreach`: reads the link of the cell and calls the callback, which may destroy
     * the queue. The walk can go on, or stops without reading a cell, exactly when the call is safe.
     */
    method VisitCell(entry: Entry, script: Script, ghost u: Cursor)
      returns (next: Entry?, data: Address, ghost u': Cursor)
      requires Tracks(u) && !u.lost && u.next == entry
      requires forall n :: n in u.original ==> allocated(n)
      modifies this, Cells()
      ensures u.m < |old(contents)| && data == entry.data == old(contents)[u.m]
      ensures u'.next == next && u'.original == u.original
      ensures var a, tail := AfterCall(old(contents), u.m, script.ops), Tail(u.rest, entry, u.original);
        && u.rest == (if entry in u.original then [entry] + tail else tail)
        && (forall n :: n in tail ==> n in u.original)
        && (CallIsSafe(a, script.destroys) <==> head == null || next == null || next.live)
        && (if script.destroys then u'.rest == tail
            else
              && contents == a.s && u'.m == a.m && u'.lost == a.lost
              && u'.rest == Restrict(tail, Cells()) && (!a.ahead ==> u'.rest == tail))
      ensures !script.destroys ==> Tracks(u') && refCount == old(refCount)
      ensures forall n :: n in old(Cells()) - Cells() ==> !n.live
      ensures fresh(Cells() - old(Cells()))
      ensures NoPush(script.ops) ==> Cells() <= old(Cells())
      ensures script.destroys ==>
                && nodes == [] && head == null && refCount == old(refCount) - 1
                && (live <==> refCount > 0) && (live ==> Valid())
      ensures script == Script([], false) ==> |nodes| - u'.m < |old(nodes)| - u.m
    {
      hide Restrict, MoveOps, Tail;
      next := entry.Next();
      data := entry.Data();
      ghost var v := LinkRead(entry, next, u);
      MoveOpsRuns(Place(contents, v.m, false, false), script.ops, data);
      hide Tracks, Chain, Distinct;
      u' := RunCallback(script.ops, data, v);
      if script.destroys {
        ghost var left := Cells();
        var _ := Destroy();
        assert forall n :: n in left ==> !n.live;
        u' := u'.(rest := v.rest);
      } else if u'.lost {
        u' := u'.(rest := Restrict(v.rest, Cells()));
      }
    }

    /** The first visit whose call destroys the queue is the last one. */
    ghost static predicate StopsAtDestroy(visits: nat, scripts: seq<Script>, destroyed: bool) {
      && (forall k :: 0 <= k < visits - 1 ==> !ScriptAt(scripts, k).destroys)
      && (destroyed <==> visits > 0 && ScriptAt(scripts, visits - 1).destroys)
    }

    /**
     * The visits so far: they agree with the data of the cells, stop at the first destroying call, and
     * show the original cells in order, but for the ones `gone` before their turn, `rest` being the
     * ones still to come.
     */
    static ghost predicate Logged(cells: seq<Entry>, visited: seq<Address>, scripts: seq<Script>, destroyed: bool,
                                  start: seq<Entry>, those: set<Entry>, gone: set<Entry>, rest: seq<Entry>)
    {
      && |cells| == |visited|
      && (forall k {:trigger cells[k]} :: 0 <= k < |cells| ==> visited[k] == cells[k].data)
      && StopsAtDestroy(|visited|, scripts, destroyed)
      && Restrict(cells, those) + rest == Restrict(start, those - gone)
    }

    static lemma LoggedNext(cells: seq<Entry>, visited: seq<Address>, scripts: seq<Script>, start: seq<Entry>,
                            those: set<Entry>, gone: set<Entry>, rest: seq<Entry>, entry: Entry, rest': seq<Entry>)
      requires Logged(cells, visited, scripts, false, start, those, gone, rest)
      requires rest == if entry in those then [entry] + rest' else rest'
      ensures Logged(cells + [entry], visited + [entry.data], scripts, ScriptAt(scripts, |visited|).destroys,
                     start, those, gone, rest')
    {
      RestrictSplit(cells, entry, those);
      assert (Restrict(cells, those) + [entry]) + rest' == Restrict(cells, those) + ([entry] + rest');
    }

    static lemma {:induction false} RestrictDistinct(s: seq<Entry>, those: set<Entry>)
      requires Distinct(s)
      ensures Distinct(Restrict(s, those))
    {
      if s != [] {
        RestrictDistinct(s[1..], those);
        assert s[1..] == s[1..][0..];
        RestrictFrom(s, 0, those);
        assert s[0..] == s;
        RestrictMember(s[1..], those, s[0]);
      }
    }

    /** Of the cells to come only those still queued will be visited. */
    static lemma LoggedKept(cells: seq<Entry>, visited: seq<Address>, scripts: seq<Script>, start: seq<Entry>,
                            those: set<Entry>, gone: set<Entry>, rest: seq<Entry>, kept: set<Entry>)
      requires Logged(cells, visited, scripts, false, start, those, gone, rest) && Distinct(start)
      ensures Logged(cells, visited, scripts, false, start, those, gone + Dropped(rest, kept), Restrict(rest, kept))
    {
      var left, now := those - gone, those - (gone + Dropped(rest, kept));
      var shown := Restrict(cells, those);
      RestrictDistinct(start, left);
      RestrictTwice(start, left, now);
      assert left * now == now;
      forall n | n in shown + rest
        ensures n in left
      {
        RestrictMember(start, left, n);
      }
      RestrictConcat(shown, rest, now);
      ShownIsKept(shown, rest, left, now);
      assert forall n :: n in rest ==> n in shown + rest;
      RestrictSame(rest, now, kept);
    }

    static ghost function Dropped(rest: seq<Entry>, kept: set<Entry>): set<Entry> {
      set n | n in rest && n !in kept
    }

    static lemma ShownIsKept(shown: seq<Entry>, rest: seq<Entry>, left: set<Entry>, now: set<Entry>)
      requires Distinct(shown + rest)
      requires forall n :: n in shown ==> n in left
      requires forall n :: n in left && n !in rest ==> n in now
      ensures Restrict(shown, now) == shown
    {
      forall i | 0 <= i < |shown|
        ensures shown[i] in now
      {
        forall j | 0 <= j < |rest|
          ensures rest[j] != shown[i]
        {
          assert (shown + rest)[|shown| + j] != (shown + rest)[i];
        }
      }
      RestrictAll(shown, now);
    }

    lemma WalkStart(scripts: seq<Script>) returns (u: Cursor)
      requires Valid()
      ensures Tracks(u) && u == Cursor(0, false, head, Cells(), nodes)
      ensures Logged([], [], scripts, false, nodes, Cells(), {}, u.rest)
    {
      hide Restrict, Chain, Distinct;
      u := Cursor(0, false, head, Cells(), nodes);
      RestrictAll(nodes, Cells());
      assert nodes[0..] == nodes && Cells() - {} == Cells();
      RestrictAll([], Cells());
      assert [] + nodes == nodes;
    }

    static lemma NothingQueued(rest: seq<Entry>)
      ensures Restrict(rest, {}) == []
    {
      var none: set<Entry> := {};
      FilterAllOrNone(rest, (n: Entry) => n in none, true);
    }

    static lemma WalksNext(s: seq<Address>, m: nat, scripts: seq<Script>, k: nat, spare: bool)
      requires m < |s| && Walks(s, m, Remaining(scripts, k), spare)
      ensures var a, script := AfterCall(s, m, ScriptAt(scripts, k).ops), ScriptAt(scripts, k);
        && (if spare then !a.ahead else CallIsSafe(a, script.destroys))
        && (script.destroys || a.s == [] || Walks(a.s, a.m, Remaining(scripts, k + 1), spare))
    {
      if k < |scripts| {
        assert Remaining(scripts, k)[1..] == Remaining(scripts, k + 1);
      }
    }

    static ghost function Remaining(scripts: seq<Script>, k: nat): seq<Script> {
      if k <= |scripts| then scripts[k..] else []
    }

    /** Before call number `k`: the queue is empty, or the cursor is in step and the calls from there on are safe. */
    ghost predicate GoesOn(u: Cursor, scripts: seq<Script>, k: nat, spare: bool): (b: bool)
      reads this, nodes
      ensures b ==> Valid() && (head != null ==> Tracks(u) && !u.lost)
    {
      && Valid()
      && if head == null then u.rest == []
         else
           && Tracks(u) && !u.lost && Walks(contents, u.m, Remaining(scripts, k), false)
           && (spare ==> Walks(contents, u.m, Remaining(scripts, k), true))
    }

    /** One turn of the loop in a safe walk; `tail` are the original cells to come when the call is made. */
    method Turn(entry: Entry, scripts: seq<Script>, k: nat, ghost spare: bool, ghost u: Cursor)
      returns (next: Entry?, data: Address, destroyed: bool, ghost tail: seq<Entry>, ghost u': Cursor)
      requires GoesOn(u, scripts, k, spare) && head != null && u.next == entry
      requires forall n :: n in u.original ==> allocated(n)
      modifies this, Cells()
      ensures data == entry.data && destroyed == ScriptAt(scripts, k).destroys
      ensures u'.next == next && u'.original == u.original
      ensures u.rest == (if entry in u.original then [entry] + tail else tail)
      ensures destroyed ==> u'.rest == tail
      ensures !destroyed ==>
                && GoesOn(u', scripts, k + 1, spare) && refCount == old(refCount)
                && contents == RunOps(old(contents), ScriptAt(scripts, k).ops, data)
                && u'.rest == Restrict(tail, Cells()) && Dropped(tail, Cells()) <= u.original - Cells()
                && (spare ==> Dropped(tail, Cells()) == {})
      ensures forall n :: n in old(Cells()) - Cells() ==> !n.live
      ensures fresh(Cells() - old(Cells()))
      ensures Quiet(scripts) ==> Cells() <= old(Cells())
      ensures destroyed ==>
                && nodes == [] && head == null && refCount == old(refCount) - 1
                && (live <==> refCount > 0) && (live ==> Valid())
      ensures k >= |scripts| ==> !destroyed && |nodes| - u'.m < |old(nodes)| - u.m
    {
      hide Tracks, Restrict, RunOps, Chain, Distinct, Walks, AfterCall, Tail, Remaining;
      var script := if k < |scripts| then scripts[k] else Script([], false);
      tail := Tail(u.rest, entry, u.original);
      next, data, u' := VisitCell(entry, script, u);
      WalksNext(old(contents), u.m, scripts, k, false);
      if spare {
        WalksNext(old(contents), u.m, scripts, k, true);
      }
      CallRuns(old(contents), u.m, script.ops);
      destroyed := script.destroys;
      if !destroyed {
        DroppedNone(tail, Cells());
        NothingQueued(tail);
        assert head == null ==> Cells() == {};
      }
    }

    static ghost predicate Within(cells: seq<Entry>, those: set<Entry>) {
      forall i :: 0 <= i < |cells| ==> cells[i] in those
    }

    static lemma WithinNext(cells: seq<Entry>, those: set<Entry>, entry: Entry)
      ensures Within(cells, those) && entry in those ==> Within(cells + [entry], those)
      ensures Within([], those)
    {
    }

    /** The loop of `queue_foreach`, which runs while a second reference keeps the header. */
    method Walk(scripts: seq<Script>)
      returns (visited: seq<Address>, destroyed: bool, ghost cells: seq<Entry>, ghost gone: set<Entry>,
               ghost rest: seq<Entry>)
      requires Valid() && head != null && refCount > 1
      requires Walks(contents, 0, scripts, false)
      modifies this, Cells()
      ensures live
      ensures Logged(cells, visited, scripts, destroyed, old(nodes), old(Cells()), gone, rest)
      ensures gone <= old(Cells()) - Cells() && (Walks(old(contents), 0, scripts, true) ==> gone == {})
      ensures !destroyed ==> rest == []
      ensures !destroyed ==> Valid() && refCount == old(refCount)
      ensures !destroyed ==> contents == RunVisits(old(contents), visited, scripts)
      ensures destroyed ==> nodes == [] && Valid() && refCount == old(refCount) - 1
      ensures forall n :: n in old(Cells()) - Cells() ==> !n.live
      ensures Quiet(scripts) ==> Within(cells, old(Cells()))
    {
      hide GoesOn, Restrict, RunOps, Chain, Distinct, StopsAtDestroy, Logged, Walks, Dropped, Within, Quiet, Tracks;
      visited, destroyed, cells, gone := [], false, [], {};
      var entry := head;
      ghost var u := WalkStart(scripts);
      ghost var spare := Walks(contents, 0, scripts, true);
      WalkBegins(u, scripts, spare);
      WithinNext([], Cells(), head);
      while entry != null && Head() != null && RefCount() > 1
        invariant live && u.next == entry && u.original == old(Cells())
        invariant Logged(cells, visited, scripts, destroyed, old(nodes), old(Cells()), gone, u.rest)
        invariant !destroyed ==> GoesOn(u, scripts, |visited|, spare) && refCount == old(refCount)
        invariant !destroyed ==> contents == RunVisits(old(contents), visited, scripts)
        invariant destroyed ==> nodes == [] && head == null && refCount == old(refCount) - 1 && Valid()
        invariant Quiet(scripts) ==> Cells() <= old(Cells())
        invariant Quiet(scripts) ==> Within(cells, old(Cells()))
        invariant fresh(Cells() - old(Cells()))
        invariant forall n :: n in old(Cells()) - Cells() ==> !n.live
        invariant gone <= old(Cells()) - Cells() && (spare ==> gone == {})
        decreases !destroyed, if |visited| < |scripts| then |scripts| - |visited| else 0, |nodes| - u.m
      {
        rest := u.rest;
        var next, data;
        ghost var tail;
        next, data, destroyed, tail, u := Turn(entry, scripts, |visited|, spare, u);
        LoggedNext(cells, visited, scripts, old(nodes), old(Cells()), gone, rest, entry, tail);
        WithinNext(cells, old(Cells()), entry);
        cells, visited := cells + [entry], visited + [data];
        if !destroyed {
          LoggedKept(cells, visited, scripts, old(nodes), old(Cells()), gone, tail, Cells());
          gone := gone + Dropped(tail, Cells());
        }
        entry := next;
      }
      rest := u.rest;
      if !destroyed {
        WalkDone(u, scripts, |visited|, spare);
      }
    }

    lemma WalkBegins(u: Cursor, scripts: seq<Script>, spare: bool)
      requires Tracks(u) && !u.lost && u.m == 0 && head != null
      requires Walks(contents, 0, scripts, false) && (spare ==> Walks(contents, 0, scripts, true))
      ensures GoesOn(u, scripts, 0, spare)
    {
      RemainingAll(scripts);
    }

    lemma WalkDone(u: Cursor, scripts: seq<Script>, k: nat, spare: bool)
      requires GoesOn(u, scripts, k, spare) && (u.next == null || head == null)
      ensures u.rest == []
    {
    }

    static lemma RemainingAll(scripts: seq<Script>)
      ensures Remaining(scripts, 0) == scripts
    {
    }

    static lemma CallRuns(s: seq<Address>, m: nat, ops: seq<Op>)
      requires m < |s|
      ensures AfterCall(s, m, ops).s == RunOps(s, ops, s[m])
    {
      MoveOpsRuns(Place(s, m + 1, false, false), ops, s[m]);
    }

    static lemma DroppedNone(rest: seq<Entry>, kept: set<Entry>)
      ensures Restrict(rest, kept) == rest ==> Dropped(rest, kept) == {}
    {
      if Restrict(rest, kept) == rest {
        forall n | n in rest
          ensures n in kept
        {
          RestrictMember(rest, kept, n);
        }
      }
    }

    /**
     * `queue_foreach`, with a callback that pushes and removes what it likes, as long as the entry that
     * the walk has saved as the next one is still queued when the call returns, or nothing is. The cells
     * that were queued at the start are visited exactly once each and in order, but for those `gone`,
     * which calls before their turn have removed. When a call destroys the queue the loop stops, every
     * cell has been released, and the header goes with the last reference, behind the loop.
     */
    method Foreach(scripts: seq<Script>)
      returns (visited: seq<Address>, destroyed: bool, ghost cells: seq<Entry>, ghost gone: set<Entry>)
      requires Valid() && Walks(contents, 0, scripts, false)
      modifies this, Cells()
      ensures |cells| == |visited| && StopsAtDestroy(|visited|, scripts, destroyed)
      ensures forall k {:trigger cells[k]} :: 0 <= k < |cells| ==> visited[k] == cells[k].data
      ensures !destroyed ==> Restrict(cells, old(Cells())) == Restrict(old(nodes), old(Cells()) - gone)
      ensures destroyed ==> Restrict(cells, old(Cells())) <= Restrict(old(nodes), old(Cells()) - gone)
      ensures gone <= old(Cells()) && forall n :: n in gone ==> !n.live
      ensures Walks(old(contents), 0, scripts, true) ==>
                gone == {} && Restrict(old(nodes), old(Cells()) - gone) == old(nodes)
      ensures Quiet(scripts) && !destroyed ==> cells == Restrict(old(nodes), old(Cells()) - gone)
      ensures !destroyed ==> Valid() && refCount == old(refCount)
      ensures !destroyed ==> contents == RunVisits(old(contents), visited, scripts)
      ensures destroyed ==> nodes == [] && refCount == old(refCount) - 1 && (live <==> old(refCount) > 1)
      ensures forall n :: n in old(Cells()) - Cells() ==> !n.live
    {
      hide Walks, Restrict, Chain, Distinct, StopsAtDestroy;
      visited, destroyed, cells, gone := [], false, [], {};
      RestrictAll(nodes, Cells());
      assert Cells() - {} == Cells();
      if head == null {
        RestrictAll([], Cells());
        NothingVisited(scripts);
        return;
      }
      Ref();
      ghost var rest;
      visited, destroyed, cells, gone, rest := Walk(scripts);
      RestrictAll(cells, old(Cells()));
      Unref();
    }

    static lemma NothingVisited(scripts: seq<Script>)
      ensures StopsAtDestroy(0, scripts, false)
    {
    }
  }
}
