/** The debugger's watchpoint pool: 32 records in a fixed array, threaded into an
    active list and a free list through their `next` links (an index, -1 for
    NULL). Records are taken from the free list onto the front of the active list,
    deleting pushes a record back onto the free list, and the check re-evaluates a
    watched expression and stops the simulator when its value changed. */
module Watchpoint {
  import opened CInt
  import opened Expr

  const NrWp: nat := 32
  /** The null link. */
  const Null: int := -1
  /** Capacity of a record's expression buffer, terminator included. */
  const ExprCap: nat := 32

  /** One `WP` record. */
  datatype Wp = Wp(no: int, next: int, expr: string, oldVal: int, val: int)

  /** The whole pool: the array, the `head` and `free_` links, and whether the
      simulator state was set to `NEMU_STOP`. */
  datatype Pool = Pool(wps: seq<Wp>, head: int, free: int, stopped: bool)

  /** A link is NULL or designates a record of the pool. */
  predicate IsLink(x: int) {
    Null <= x < NrWp
  }

  /** Every link in the pool is NULL or designates a record. */
  predicate Linked(s: Pool) {
    && |s.wps| == NrWp
    && IsLink(s.head) && IsLink(s.free)
    && forall i :: 0 <= i < NrWp ==> IsLink(s.wps[i].next)
  }

  /** The links are in range and every stored expression is a C string. */
  predicate Consistent(s: Pool) {
    Linked(s) && forall i :: 0 <= i < NrWp ==> IsCString(s.wps[i].expr)
  }

  /** What a watchpoint check ends with. */
  datatype Check =
    | NoWatch            // the active list is empty
    | Triggered(no: int) // this record's value changed; the simulator stops
    | Spins              // the value did not change: the loop re-evaluates the same record forever
    | Unchanged          // (corrected check) no active record changed

  /** A line of `watchpoints_display`. */
  datatype Row = Row(no: int, expr: string, val: int)

  // ================================================================ specification

  /** The zero-initialised static pool, before `init_wp_pool`. */
  function StaticPool(): (s: Pool)
    ensures Linked(s)
  {
    Pool(seq(NrWp, _ => Wp(0, Null, [], 0, 0)), Null, Null, false)
  }

  /** The link `init_wp_pool` gives record `i`. */
  function InitNext(i: nat): int {
    if i == NrWp - 1 then Null else i + 1
  }

  /** `init_wp_pool`: record `i` gets number `i` and a link to `i + 1`, the last
      one NULL; the active list is empty and the free list starts at record 0. */
  function InitSpec(s: Pool): (r: Pool)
    requires |s.wps| == NrWp
    ensures Linked(r)
  {
    Pool(seq(NrWp, i requires 0 <= i < NrWp => s.wps[i].(no := i, next := InitNext(i))), Null, 0, s.stopped)
  }

  /** `new_wp`: aborts on an empty free list, otherwise moves the first free
      record to the front of the active list and returns its index. */
  function NewWpSpec(s: Pool): (Outcome<nat>, Pool)
    requires Linked(s)
  {
    if s.free == Null then (Aborted, s)
    else
      var w := s.free;
      (Done(w), s.(wps := s.wps[w := s.wps[w].(next := s.head)], head := w, free := s.wps[w].next))
  }

  /** `free_wp(&wp_pool[n])`: record `n` is pushed onto the free list. */
  function FreeWpSpec(s: Pool, n: nat): Pool
    requires Linked(s) && n < NrWp
  {
    s.(wps := s.wps[n := s.wps[n].(next := s.free)], free := n)
  }

  /** The `int` that `expr` leaves in a record: its `long` result cut to `int`,
      or 0 when the text does not tokenize. */
  function Stored(reply: Reply): int {
    match reply
    case Evaluated(v) => ToInt32(v)
    case NoMatch => 0
  }

  /** `set_wp(args)`: NULL gives false; otherwise a record is allocated first,
      the text copied into it, and its value set from `expr`, whose success flag
      is returned. */
  function SetWpSpec(s: Pool, args: Option<string>, regs: Regs, mem: Mem): (Outcome<bool>, Pool)
    requires Linked(s)
  {
    match args
    case None => (Done(false), s)
    case Some(text) =>
      match NewWpSpec(s)
      case (Done(w), s1) =>
        if |text| >= ExprCap then (Undefined, s1)
        else
          var s2 := s1.(wps := s1.wps[w := s1.wps[w].(expr := text)]);
          (match ExprSpec(text, regs, mem)
           case Done(reply) =>
             (Done(reply.Evaluated?), s2.(wps := s2.wps[w := s2.wps[w].(val := Stored(reply))]))
           case Aborted => (Aborted, s2)
           case Undefined => (Undefined, s2))
      case (o, s1) => (if o.Aborted? then Aborted else Undefined, s1)
  }

  /** `watchpoint_check`: the head record is re-evaluated; a changed value is
      recorded (the previous one kept in `oldVal`) and stops the simulator. The
      loop never moves past the head, so an unchanged value spins. */
  function CheckSpec(s: Pool, regs: Regs, mem: Mem): (Outcome<Check>, Pool)
    requires Linked(s)
  {
    if s.head == Null then (Done(NoWatch), s)
    else
      var h := s.head;
      var wp := s.wps[h];
      match ExprSpec(wp.expr, regs, mem)
      case Aborted => (Aborted, s)
      case Undefined => (Undefined, s)
      case Done(reply) =>
        var v := Stored(reply);
        if wp.val != v then
          (Done(Triggered(wp.no)), s.(wps := s.wps[h := wp.(oldVal := wp.val, val := v)], stopped := true))
        else (Done(Spins), s)
  }

  /** The link expected after position `k` of list `xs`: the next entry, or NULL
      at the end. */
  function Succ(xs: seq<nat>, k: nat): int
    requires k < |xs|
  {
    if k + 1 < |xs| then xs[k + 1] else Null
  }

  /** `xs` lists the records reached from `start` by following the links, up to
      the NULL that ends the list; no record is reached twice. */
  ghost predicate IsList(wps: seq<Wp>, start: int, xs: seq<nat>) {
    && (forall k :: 0 <= k < |xs| ==> xs[k] < |wps|)
    && start == (if xs == [] then Null else xs[0])
    && (forall k {:trigger wps[xs[k]]} :: 0 <= k < |xs| ==> wps[xs[k]].next == Succ(xs, k))
    && (forall a, b :: 0 <= a < b < |xs| ==> xs[a] != xs[b])
  }

  /** `watchpoints_display`: one row per record of the active list `act`, from
      the head on. */
  function DisplaySpec(s: Pool, act: seq<nat>): (rows: seq<Row>)
    requires forall k :: 0 <= k < |act| ==> act[k] < |s.wps|
    ensures |rows| == |act|
  {
    seq(|act|, k requires 0 <= k < |act| => Row(s.wps[act[k]].no, s.wps[act[k]].expr, s.wps[act[k]].val))
  }

  /** The active list `act` and the free list `fr` partition the 32 records. */
  ghost predicate Partition(s: Pool, act: seq<nat>, fr: seq<nat>) {
    && Linked(s)
    && IsList(s.wps, s.head, act) && IsList(s.wps, s.free, fr)
    && forall i :: 0 <= i < NrWp ==> (i in act <==> i !in fr)
  }

  // ================================================================ corrected deletion and check

  /** The record whose link designates `n`, searched along the list from `cur`
      for at most `fuel` records. */
  function Pred(wps: seq<Wp>, cur: int, n: nat, fuel: nat): (r: Option<nat>)
    requires |wps| == NrWp && IsLink(cur) && forall i :: 0 <= i < NrWp ==> IsLink(wps[i].next)
    ensures r.Some? ==> r.value < NrWp && wps[r.value].next == n
    decreases fuel
  {
    if fuel == 0 || cur == Null then None
    else if wps[cur].next == n then Some(cur)
    else Pred(wps, wps[cur].next, n, fuel - 1)
  }

  /** Deletion as intended: record `n` is unlinked from the active list (from the
      head, or from the record before it) and then pushed onto the free list; a
      record that is not active is left alone. */
  function DelWpFixed(s: Pool, n: nat): (r: Pool)
    requires Linked(s) && n < NrWp
    ensures Linked(r) && r.stopped == s.stopped
    ensures forall i :: 0 <= i < NrWp ==> r.wps[i] == s.wps[i].(next := r.wps[i].next)
  {
    if s.head == n then FreeWpSpec(s.(head := s.wps[n].next), n)
    else
      match Pred(s.wps, s.head, n, NrWp)
      case Some(p) => FreeWpSpec(s.(wps := s.wps[p := s.wps[p].(next := s.wps[n].next)]), n)
      case None => s
  }

  /** The check as intended, from position `k` of the active list `act` on:
      every record is re-evaluated in turn, and the first whose value changed is
      recorded and stops the simulator. */
  function CheckAllSpec(s: Pool, act: seq<nat>, k: nat, regs: Regs, mem: Mem): (Outcome<Check>, Pool)
    requires Linked(s) && k <= |act| && forall j :: 0 <= j < |act| ==> act[j] < NrWp
    decreases |act| - k
  {
    if k == |act| then (Done(if act == [] then NoWatch else Unchanged), s)
    else
      var i := act[k];
      var wp := s.wps[i];
      match ExprSpec(wp.expr, regs, mem)
      case Aborted => (Aborted, s)
      case Undefined => (Undefined, s)
      case Done(reply) =>
        var v := Stored(reply);
        if wp.val != v then
          (Done(Triggered(wp.no)), s.(wps := s.wps[i := wp.(oldVal := wp.val, val := v)], stopped := true))
        else CheckAllSpec(s, act, k + 1, regs, mem)
  }

  // ================================================================ the pool

  class WatchpointPool {
    const wps: array<Wp>
    var head: int
    var free: int
    /** The one part of `nemu_state` the pool touches: set to `NEMU_STOP`. */
    var stopped: bool

    function State(): Pool
      reads this, wps
    {
      Pool(wps[..], head, free, stopped)
    }

    ghost predicate Valid()
      reads this, wps
    {
      Consistent(State())
    }

    /** The static pool: every record zero, both lists NULL. */
    constructor ()
      ensures Valid() && State() == StaticPool()
    {
      wps := new Wp[NrWp](_ => Wp(0, Null, [], 0, 0));
      head := Null;
      free := Null;
      stopped := false;
    }

    method InitWpPool()
      requires Valid()
      modifies this, wps
      ensures Valid() && State() == InitSpec(old(State()))
    {
      for i := 0 to NrWp
        invariant forall j :: 0 <= j < i ==> wps[j] == old(wps[j]).(no := j, next := InitNext(j))
        invariant forall j :: i <= j < NrWp ==> wps[j] == old(wps[j])
        invariant head == old(head) && free == old(free) && stopped == old(stopped)
      {
        wps[i] := wps[i].(no := i, next := if i == NrWp - 1 then Null else i + 1);
      }
      head := Null;
      free := 0;
    }

    method NewWp() returns (r: Outcome<nat>)
      requires Valid()
      modifies this, wps
      ensures Valid() && (r, State()) == NewWpSpec(old(State()))
    {
      if free == Null {
        return Aborted;
      }
      var w := free;
      free := wps[w].next;
      wps[w] := wps[w].(next := head);
      head := w;
      r := Done(w);
    }

    method FreeWp(n: nat)
      requires Valid() && n < NrWp
      modifies this, wps
      ensures Valid() && State() == FreeWpSpec(old(State()), n)
    {
      wps[n] := wps[n].(next := free);
      free := n;
    }

    /** `del_wp(n)`: frees record `n` by its index, without unlinking it. */
    method DelWp(n: nat)
      requires Valid() && n < NrWp
      modifies this, wps
      ensures Valid() && State() == FreeWpSpec(old(State()), n)
    {
      FreeWp(n);
    }

    method SetWp(args: Option<string>, regs: Regs, mem: Mem) returns (r: Outcome<bool>)
      requires Valid() && (args.Some? ==> IsCString(args.value))
      modifies this, wps
      ensures Valid() && (r, State()) == SetWpSpec(old(State()), args, regs, mem)
    {
      if args.None? {
        return Done(false);
      }
      var text := args.value;
      var o := NewWp();
      if !o.Done? {
        return if o.Aborted? then Aborted else Undefined;
      }
      var w := o.value;
      if |text| >= ExprCap {
        return Undefined;
      }
      wps[w] := wps[w].(expr := text);
      var reply := Expr.Expr(wps[w].expr, regs, mem);
      match reply {
        case Done(rep) =>
          wps[w] := wps[w].(val := Stored(rep));
          r := Done(rep.Evaluated?);
        case Aborted =>
          r := Aborted;
        case Undefined =>
          r := Undefined;
      }
    }

    method WatchpointCheck(regs: Regs, mem: Mem) returns (r: Outcome<Check>)
      requires Valid()
      modifies this, wps
      ensures Valid() && (r, State()) == CheckSpec(old(State()), regs, mem)
    {
      var curr := head;
      if curr == Null {
        return Done(NoWatch);
      }
      var e := Expr.Expr(wps[curr].expr, regs, mem);
      match e {
        case Aborted => return Aborted;
        case Undefined => return Undefined;
        case Done(reply) =>
          var newVal := Stored(reply);
          if wps[curr].val != newVal {
            wps[curr] := wps[curr].(oldVal := wps[curr].val, val := newVal);
            stopped := true;
            r := Done(Triggered(wps[curr].no));
          } else {
            r := Done(Spins);
          }
      }
    }

    /** `watchpoints_display`, over an active list that ends in NULL. */
    method WatchpointsDisplay(ghost act: seq<nat>) returns (rows: seq<Row>)
      requires Valid() && IsList(wps[..], head, act)
      ensures rows == DisplaySpec(State(), act)
    {
      rows := [];
      var curr := head;
      ghost var k := 0;
      while curr != Null
        invariant 0 <= k <= |act|
        invariant curr == if k < |act| then act[k] else Null
        invariant rows == DisplaySpec(State(), act[..k])
        decreases |act| - k
      {
        rows := rows + [Row(wps[curr].no, wps[curr].expr, wps[curr].val)];
        assert wps[..][act[k]] == wps[curr];
        assert wps[..][act[k]].next == Succ(act, k);
        curr := wps[curr].next;
        assert act[..k + 1] == act[..k] + [act[k]];
        k := k + 1;
      }
      assert act[..k] == act;
    }

    /** The check as intended: `curr` advances along the active list. */
    method WatchpointCheckAll(regs: Regs, mem: Mem, ghost act: seq<nat>) returns (r: Outcome<Check>)
      requires Valid() && IsList(wps[..], head, act)
      modifies this, wps
      ensures Valid() && (r, State()) == CheckAllSpec(old(State()), act, 0, regs, mem)
    {
      var curr := head;
      ghost var k := 0;
      while curr != Null
        invariant 0 <= k <= |act|
        invariant curr == if k < |act| then act[k] else Null
        invariant State() == old(State())
        invariant CheckAllSpec(State(), act, k, regs, mem) == CheckAllSpec(State(), act, 0, regs, mem)
        decreases |act| - k
      {
        var e := Expr.Expr(wps[curr].expr, regs, mem);
        match e {
          case Aborted => return Aborted;
          case Undefined => return Undefined;
          case Done(reply) =>
            var newVal := Stored(reply);
            if wps[curr].val != newVal {
              wps[curr] := wps[curr].(oldVal := wps[curr].val, val := newVal);
              stopped := true;
              return Done(Triggered(wps[curr].no));
            }
        }
        assert wps[..][act[k]].next == Succ(act, k);
        curr := wps[curr].next;
        k := k + 1;
      }
      r := Done(if head == Null then NoWatch else Unchanged);
    }
  }
}
