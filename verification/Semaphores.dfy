/**
  The kernel's semaphore table: an array of records whose free ones are linked through `next`.
 */
module Semaphores {

  const NULL: int := -1

  // ------------------------------------------------------------ the free list

  /** A table of `n` semaphores, of which those in `list` are free, first one next. */
  datatype Table = Table(n: nat, list: seq<nat>)

  predicate Distinct(s: seq<nat>) {
    forall i, j :: 0 <= i < j < |s| ==> s[i] != s[j]
  }

  predicate Inv(t: Table) {
    Distinct(t.list) && forall k :: 0 <= k < |t.list| ==> t.list[k] < t.n
  }

  predicate Live(t: Table, i: int) {
    0 <= i < t.n && i !in t.list
  }

  function Create(t: Table, initCount: int): (Table, int) {
    if initCount < 0 || t.list == [] then (t, NULL)
    else
      var handle: int := t.list[0];
      (t.(list := t.list[1..]), handle)
  }

  function Delete(t: Table, id: int): (Table, int) {
    if !Live(t, id) then (t, -1) else (t.(list := [id] + t.list), id)
  }

  /** A created handle was not live and is now, and no other handle changes. */
  lemma CreateFresh(t: Table, initCount: int)
    requires Inv(t)
    ensures var (u, r) := Create(t, initCount);
            && Inv(u)
            && (r == -1 <==> initCount < 0 || t.list == [])
            && (r != -1 ==> !Live(t, r) && Live(u, r) && forall i :: i != r ==> (Live(u, i) <==> Live(t, i)))
  {
    if initCount >= 0 && t.list != [] {
      var u := Create(t, initCount).0;
      assert t.list == [t.list[0]] + u.list;
      forall i | i != t.list[0] ensures Live(u, i) <==> Live(t, i) {}
      assert t.list[0] !in u.list;
    }
  }

  /** A deleted handle was live and is free afterwards; deleting it again is refused. */
  lemma DeleteFrees(t: Table, id: int)
    requires Inv(t)
    ensures var (u, r) := Delete(t, id);
            && Inv(u)
            && (r == id && id >= 0 <==> Live(t, id))
            && (Live(t, id) ==> !Live(u, id) && Delete(u, id) == (u, -1) && Create(u, 0) == (t, id))
            && (forall i :: i != id ==> (Live(u, i) <==> Live(t, i)))
  {
  }

  datatype Event = New(initCount: int) | Drop(id: int)

  function Step(t: Table, e: Event): (Table, int) {
    match e
    case New(c) => Create(t, c)
    case Drop(id) => Delete(t, id)
  }

  function Run(t: Table, es: seq<Event>): Table {
    if es == [] then t else Step(Run(t, es[..|es| - 1]), es[|es| - 1]).0
  }

  function Numbers(from: nat, to: nat): (s: seq<nat>)
    requires from <= to
    ensures |s| == to - from && forall i :: 0 <= i < |s| ==> s[i] == from + i
  {
    seq(to - from, i requires 0 <= i => from + i)
  }

  function Initial(n: nat): Table {
    Table(n, Numbers(0, n))
  }

  /** At first no handle is live. */
  lemma NothingLive(n: nat, i: int)
    ensures !Live(Initial(n), i)
  {
    if 0 <= i < n { assert Initial(n).list[i] == i; }
  }

  lemma {:induction false} RunInv(n: nat, es: seq<Event>)
    ensures Inv(Run(Initial(n), es)) && Run(Initial(n), es).n == n
  {
    if es != [] {
      var es' := es[..|es| - 1];
      RunInv(n, es');
      var t := Run(Initial(n), es');
      match es[|es| - 1]
      case New(c) => CreateFresh(t, c);
      case Drop(id) => DeleteFrees(t, id);
    }
  }

  function LiveSet(t: Table): set<nat> {
    set i | i in Range(t.n) && Live(t, i)
  }

  function Elements(s: seq<nat>): set<nat> {
    if s == [] then {} else Elements(s[..|s| - 1]) + {s[|s| - 1]}
  }

  lemma {:induction false} ElementsOf(s: seq<nat>)
    ensures forall x :: x in Elements(s) <==> x in s
  {
    if s != [] {
      var t, x := s[..|s| - 1], s[|s| - 1];
      ElementsOf(t);
      assert s == t + [x];
    }
  }

  lemma {:induction false} CountElements(s: seq<nat>)
    requires Distinct(s)
    ensures |Elements(s)| == |s|
  {
    if s != [] {
      var t := s[..|s| - 1];
      CountElements(t);
      ElementsOf(t);
    }
  }

  function Range(n: nat): (r: set<nat>)
    ensures |r| == n && forall i: nat :: i in r <==> i < n
  {
    if n == 0 then {} else Range(n - 1) + {n - 1}
  }

  /** Live plus listed is the size of the table. */
  lemma LivePlusFree(t: Table)
    requires Inv(t)
    ensures |LiveSet(t)| + |t.list| == t.n
  {
    ElementsOf(t.list);
    CountElements(t.list);
    assert Elements(t.list) <= Range(t.n);
    assert LiveSet(t) == Range(t.n) - Elements(t.list);
  }

  /** In every run of creates and deletes the free list has no repetition and, with the live
      handles, makes up the table. */
  lemma EveryRun(n: nat, es: seq<Event>)
    ensures var t := Run(Initial(n), es); Inv(t) && |LiveSet(t)| + |t.list| == n
  {
    RunInv(n, es);
    LivePlusFree(Run(Initial(n), es));
  }

  /** A handle, once issued, stays live and is not issued again until it is deleted. */
  lemma {:induction false} NotReissued(t: Table, h: int, es: seq<Event>, initCount: int)
    requires Inv(t) && Live(t, h) && Drop(h) !in es
    ensures var u := Run(t, es); Inv(u) && Live(u, h) && Create(u, initCount).1 != h
  {
    if es != [] {
      var es', e := es[..|es| - 1], es[|es| - 1];
      NotReissued(t, h, es', initCount);
      var u := Run(t, es');
      assert es == es' + [e];
      match e
      case New(c) => CreateFresh(u, c);
      case Drop(id) => DeleteFrees(u, id);
    }
    CreateFresh(Run(t, es), initCount);
  }

  // ------------------------------------------------------------------- the table

  /** One kernel_sema record; `next` is an index or NULL. */
  datatype Sema = Sema(count: int, maxCount: int, waitThreads: int, attr: nat, option: nat, next: int, index: nat, free: bool)

  /** The arguments of CreateSema. */
  datatype Args = Args(initCount: int, maxCount: int, waitThreads: int, attr: nat, option: nat)

  function NextOf(list: seq<nat>, k: nat): int
    requires k < |list|
  {
    if k + 1 < |list| then list[k + 1] else NULL
  }

  /** The records are linked as `list` says, and their flags mark its members. */
  ghost predicate Linked(s: seq<Sema>, head: int, list: seq<nat>) {
    && Inv(Table(|s|, list))
    && head == (if list == [] then NULL else list[0])
    && (forall k :: 0 <= k < |list| ==> s[list[k]].next == NextOf(list, k))
    && (forall i :: 0 <= i < |s| ==> s[i].index == i && (s[i].free <==> i in list))
  }

  lemma Unlink(s: seq<Sema>, list: seq<nat>, r: Sema)
    requires list != [] && Linked(s, list[0], list) && r.index == list[0] && !r.free
    ensures Linked(s[list[0] := r], s[list[0]].next, list[1..])
  {
    var h, t := list[0], list[1..];
    HeadApart(list, h, t);
    TailInv(s, list, t);
    UnlinkNexts(s, s[h := r], list, h, t);
    UnlinkFlags(s, s[h := r], list, h, t);
    assert s[list[0]].next == NextOf(list, 0);
  }

  lemma TailInv(s: seq<Sema>, list: seq<nat>, t: seq<nat>)
    requires list != [] && Inv(Table(|s|, list)) && t == list[1..]
    ensures Inv(Table(|s|, t))
  {
  }

  lemma UnlinkNexts(s: seq<Sema>, s': seq<Sema>, list: seq<nat>, h: nat, t: seq<nat>)
    requires Linked(s, h, list) && list != [] && h == list[0] && t == list[1..] && h !in t
    requires h < |s| == |s'| && s' == s[h := s'[h]]
    ensures forall k :: 0 <= k < |t| ==> s'[t[k]].next == NextOf(t, k)
  {
    forall k | 0 <= k < |t| ensures s'[t[k]].next == NextOf(t, k) {
      NextBehind(list, t, k);
      assert s[list[k + 1]].next == NextOf(list, k + 1);
    }
  }

  lemma UnlinkFlags(s: seq<Sema>, s': seq<Sema>, list: seq<nat>, h: nat, t: seq<nat>)
    requires Linked(s, h, list) && h < |s| == |s'| && s' == s[h := s'[h]] && s'[h].index == h && !s'[h].free
    requires h !in t && forall x :: x in list <==> x == h || x in t
    ensures forall i :: 0 <= i < |s'| ==> s'[i].index == i && (s'[i].free <==> i in t)
  {
  }

  lemma NextBehind(list: seq<nat>, t: seq<nat>, k: nat)
    requires list != [] && t == list[1..] && k < |t|
    ensures t[k] == list[k + 1] && NextOf(t, k) == NextOf(list, k + 1)
  {
  }

  lemma HeadApart(list: seq<nat>, h: nat, t: seq<nat>)
    requires Distinct(list) && list != [] && h == list[0] && t == list[1..]
    ensures h !in t && forall x :: x in list <==> x == h || x in t
  {
    assert list == [h] + t;
  }

  lemma Link(s: seq<Sema>, head: int, list: seq<nat>, id: nat, r: Sema)
    requires Linked(s, head, list) && id < |s| && id !in list && r.index == id && r.free && r.next == head
    ensures Linked(s[id := r], id, [id] + list)
  {
    var u := [id] + list;
    HeadInv(s, list, id);
    LinkNexts(s, s[id := r], head, list, id, u);
    LinkFlags(s, s[id := r], list, id, u);
  }

  lemma LinkNexts(s: seq<Sema>, s': seq<Sema>, head: int, list: seq<nat>, id: nat, u: seq<nat>)
    requires Linked(s, head, list) && id < |s| == |s'| && id !in list && u == [id] + list && u[1..] == list
    requires s' == s[id := s'[id]] && s'[id].next == head
    ensures forall k :: 0 <= k < |u| ==> u[k] < |s'| && s'[u[k]].next == NextOf(u, k)
  {
    forall k | 0 <= k < |u| ensures u[k] < |s'| && s'[u[k]].next == NextOf(u, k) {
      if k > 0 {
        NextBehind(u, list, k - 1);
        assert s[list[k - 1]].next == NextOf(list, k - 1);
      }
    }
  }

  lemma HeadInv(s: seq<Sema>, list: seq<nat>, id: nat)
    requires Inv(Table(|s|, list)) && id < |s| && id !in list
    ensures Inv(Table(|s|, [id] + list)) && ([id] + list)[1..] == list
  {
  }

  lemma LinkFlags(s: seq<Sema>, s': seq<Sema>, list: seq<nat>, id: nat, u: seq<nat>)
    requires id < |s| == |s'| && s' == s[id := s'[id]] && s'[id].index == id && s'[id].free && u == [id] + list
    requires forall i :: 0 <= i < |s| ==> s[i].index == i && (s[i].free <==> i in list)
    ensures forall i :: 0 <= i < |s'| ==> s'[i].index == i && (s'[i].free <==> i in u)
  {
  }

  lemma AllFree(s: seq<Sema>, n: nat)
    requires |s| == n > 0
    requires forall i :: 0 <= i < n ==> s[i].index == i && s[i].free && s[i].next == if i == n - 1 then NULL else i + 1
    ensures Linked(s, 0, Numbers(0, n))
  {
    var list := Numbers(0, n);
    forall i | 0 <= i < n ensures i in list { assert list[i] == i; }
  }

  class SemaTable {
    const semas: array<Sema>
    var head: int
    ghost var list: seq<nat>

    ghost predicate Valid()
      reads this, semas
    {
      Linked(semas[..], head, list)
    }

    ghost function View(): Table
      reads this
    {
      Table(semas.Length, list)
    }

    /** init_semaphores: all records, in array order. */
    constructor (n: nat)
      requires n > 0
      ensures Valid() && View() == Initial(n)
      ensures fresh(semas)
    {
      var a := new Sema[n](_ => Sema(0, 0, 0, 0, 0, NULL, 0, false));
      var i := 0;
      while i < n - 1
        invariant 0 <= i <= n - 1
        invariant forall k :: 0 <= k < i ==> a[k].next == k + 1 && a[k].index == k && a[k].free
        modifies a
      {
        a[i] := a[i].(next := i + 1, index := i, free := true);
        i := i + 1;
      }
      a[n - 1] := a[n - 1].(next := NULL, index := n - 1, free := true);
      semas := a;
      head := 0;
      list := Numbers(0, n);
      new;
      AllFree(semas[..], n);
    }

    /** syscallCreateSema */
    method CreateSema(args: Args) returns (r: int)
      requires Valid()
      modifies this, semas
      ensures Valid() && (View(), r) == Create(old(View()), args.initCount)
      ensures r != -1 ==> 0 <= r < semas.Length && semas[r].count == args.initCount && semas[r].maxCount == args.maxCount
                          && semas[r].waitThreads == args.waitThreads && semas[r].attr == args.attr
                          && semas[r].option == args.option
      ensures forall i :: 0 <= i < semas.Length && i != r ==> semas[i] == old(semas[i])
    {
      if args.initCount < 0 {
        return -1;
      }
      var s := head;
      if s == NULL {
        return -1;
      }
      ghost var before := semas[..];
      head := semas[s].next;
      semas[s] := semas[s].(count := args.initCount, maxCount := args.maxCount, waitThreads := args.waitThreads,
                            attr := args.attr, option := args.option, free := false, next := NULL);
      Unlink(before, list, semas[s]);
      assert semas[..] == before[s := semas[s]];
      list := list[1..];
      return semas[s].index;
    }

    /** iDeleteSema */
    method DeleteSema(id: int) returns (r: int)
      requires Valid()
      modifies this, semas
      ensures Valid() && (View(), r) == Delete(old(View()), id)
      ensures forall i :: 0 <= i < semas.Length && i != id ==> semas[i] == old(semas[i])
    {
      if id >= semas.Length {
        return -1;
      }
      if id < 0 {
        return -1;
      }
      if semas[id].free {
        return -1;
      }
      ghost var before := semas[..];
      semas[id] := semas[id].(next := head, free := true);
      Link(before, head, list, id, semas[id]);
      assert semas[..] == before[id := semas[id]];
      head := id;
      list := [id] + list;
      return id;
    }

    /** iWaitSema: takes a unit, or -2 if there is none; the free list is not looked at. */
    method WaitSema(id: nat) returns (r: int)
      requires Valid()
      modifies semas
      ensures Valid()
      ensures r == -1 <==> id >= semas.Length || old(semas[id].count) < 0
      ensures r == -2 <==> id < semas.Length && old(semas[id].count) == 0
      ensures r >= 0 ==> r == id && semas[id] == old(semas[id]).(count := old(semas[id].count) - 1)
      ensures forall i :: 0 <= i < semas.Length && (i != id || r < 0) ==> semas[i] == old(semas[i])
    {
      if id >= semas.Length || semas[id].count < 0 {
        return -1;
      }
      if semas[id].count > 0 {
        semas[id] := semas[id].(count := semas[id].count - 1);
        return id;
      }
      return -2;
    }

    /** iSignalSema for a non-negative id: adds a unit. */
    method SignalSema(id: nat) returns (r: int)
      requires Valid()
      modifies semas
      ensures Valid()
      ensures r == (if id >= semas.Length || old(semas[id].count) < 0 then -1 else 0)
      ensures r == 0 ==> semas[id] == old(semas[id]).(count := old(semas[id].count) + 1)
      ensures forall i :: 0 <= i < semas.Length && (i != id || r < 0) ==> semas[i] == old(semas[i])
    {
      if id >= semas.Length || semas[id].count < 0 {
        return -1;
      }
      semas[id] := semas[id].(count := semas[id].count + 1);
      return 0;
    }
  }
}
