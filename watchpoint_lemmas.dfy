/** Properties of the watchpoint pool: the lists `init_wp_pool` builds, how
    allocation and `set_wp` move records between the lists, what `del_wp` does to
    them as written and what the corrected deletion and check do instead. */
module WatchpointLemmas {
  import opened CInt
  import opened Expr
  import opened Watchpoint

  /** The record indices in order. */
  function Iota(): (r: seq<nat>)
    ensures |r| == NrWp && forall i :: 0 <= i < NrWp ==> r[i] == i
  {
    seq(NrWp, i => i)
  }

  // ================================================================ lists

  /** The rest of a list after its first record is the list from that record's link. */
  lemma ListTail(wps: seq<Wp>, start: int, xs: seq<nat>)
    requires IsList(wps, start, xs) && xs != []
    ensures IsList(wps, wps[xs[0]].next, xs[1..])
  {
    var t := xs[1..];
    forall a, b | 0 <= a < b < |t|
      ensures t[a] != t[b]
    {
      assert t[a] == xs[a + 1] && t[b] == xs[b + 1];
    }
    forall k | 0 <= k < |t|
      ensures wps[t[k]].next == Succ(t, k)
    {
      assert t[k] == xs[k + 1] && wps[xs[k + 1]].next == Succ(xs, k + 1);
    }
  }

  /** The links determine the list: two lists from the same record are equal. */
  lemma {:induction false} ListUnique(wps: seq<Wp>, start: int, xs: seq<nat>, ys: seq<nat>)
    requires IsList(wps, start, xs) && IsList(wps, start, ys)
    ensures xs == ys
    decreases |xs|
  {
    if xs != [] {
      assert ys != [] && ys[0] == xs[0];
      ListTail(wps, start, xs);
      ListTail(wps, start, ys);
      ListUnique(wps, wps[xs[0]].next, xs[1..], ys[1..]);
      assert xs == [xs[0]] + xs[1..] && ys == [ys[0]] + ys[1..];
    }
  }

  /** A list survives any change that keeps the links of its records. */
  lemma ListFrame(wps: seq<Wp>, start: int, xs: seq<nat>, m: int, wps': seq<Wp>)
    requires IsList(wps, start, xs) && m !in xs && |wps'| == |wps|
    requires forall i :: 0 <= i < |wps| && i != m ==> wps'[i].next == wps[i].next
    ensures IsList(wps', start, xs)
  {
    forall k | 0 <= k < |xs|
      ensures wps'[xs[k]].next == Succ(xs, k)
    {
      assert xs[k] in xs;
    }
  }

  /** Relinking the record at position `k` of list `xs` to the start of a
      disjoint list `ys` makes one list: the first `k + 1` records of `xs`, then `ys`. */
  lemma Splice(wps: seq<Wp>, start: int, xs: seq<nat>, start2: int, ys: seq<nat>, k: nat, wps': seq<Wp>)
    requires IsList(wps, start, xs) && IsList(wps, start2, ys) && k < |xs| && |wps'| == |wps|
    requires forall i :: i in xs ==> i !in ys
    requires wps'[xs[k]].next == start2
    requires forall i :: 0 <= i < |wps| && i != xs[k] ==> wps'[i].next == wps[i].next
    ensures IsList(wps', start, xs[..k + 1] + ys)
  {
    var zs := xs[..k + 1] + ys;
    forall a, b | 0 <= a < b < |zs|
      ensures zs[a] != zs[b]
    {
      if b <= k {
        assert zs[a] == xs[a] && zs[b] == xs[b];
      } else if a <= k {
        assert zs[a] == xs[a] && zs[b] == ys[b - k - 1];
        assert xs[a] in xs;
      } else {
        assert zs[a] == ys[a - k - 1] && zs[b] == ys[b - k - 1];
      }
    }
    forall j | 0 <= j < |zs|
      ensures wps'[zs[j]].next == Succ(zs, j)
    {
      if j < k {
        assert zs[j] == xs[j] && zs[j + 1] == xs[j + 1] && xs[j] != xs[k];
      } else if j > k {
        assert zs[j] == ys[j - k - 1] && ys[j - k - 1] in ys;
        assert xs[k] in xs;
      }
    }
  }

  /** Relinking the record before position `j` of list `xs` past the record at
      `j` leaves `xs` without that record. */
  lemma Unlink(wps: seq<Wp>, start: int, xs: seq<nat>, j: nat, wps': seq<Wp>)
    requires IsList(wps, start, xs) && 0 < j < |xs| && |wps'| == |wps|
    requires wps'[xs[j - 1]].next == wps[xs[j]].next
    requires forall i :: 0 <= i < |wps| && i != xs[j - 1] ==> wps'[i].next == wps[i].next
    ensures IsList(wps', start, xs[..j] + xs[j + 1..])
  {
    var zs := xs[..j] + xs[j + 1..];
    forall a, b | 0 <= a < b < |zs|
      ensures zs[a] != zs[b]
    {
      if b < j {
        assert zs[a] == xs[a] && zs[b] == xs[b];
      } else if a < j {
        assert zs[a] == xs[a] && zs[b] == xs[b + 1];
      } else {
        assert zs[a] == xs[a + 1] && zs[b] == xs[b + 1];
      }
    }
    forall i | 0 <= i < |zs|
      ensures wps'[zs[i]].next == Succ(zs, i)
    {
      if i < j - 1 {
        assert zs[i] == xs[i] && zs[i + 1] == xs[i + 1] && xs[i] != xs[j - 1];
      } else if i == j - 1 {
        assert zs[i] == xs[j - 1] && wps[xs[j]].next == Succ(xs, j);
        assert j + 1 < |xs| ==> zs[i + 1] == xs[j + 1];
      } else {
        assert zs[i] == xs[i + 1] && xs[i + 1] != xs[j - 1];
        assert wps[xs[i + 1]].next == Succ(xs, i + 1);
        assert i + 1 < |zs| ==> zs[i + 1] == xs[i + 2];
      }
    }
  }

  /** Removing position `j` of a list without repetitions removes exactly the
      record there. */
  lemma RemovedMembers(xs: seq<nat>, j: nat)
    requires j < |xs| && forall a, b :: 0 <= a < b < |xs| ==> xs[a] != xs[b]
    ensures forall i :: i in xs[..j] + xs[j + 1..] <==> i in xs && i != xs[j]
  {
    var zs := xs[..j] + xs[j + 1..];
    forall i | i in zs
      ensures i in xs && i != xs[j]
    {
      var a :| 0 <= a < |zs| && zs[a] == i;
      if a < j {
        assert zs[a] == xs[a];
      } else {
        assert zs[a] == xs[a + 1];
      }
    }
    forall i | i in xs && i != xs[j]
      ensures i in zs
    {
      var a :| 0 <= a < |xs| && xs[a] == i;
      if a < j {
        assert zs[a] == i;
      } else {
        assert zs[a - 1] == i;
      }
    }
  }

  /** The records a list holds. */
  function Elems(xs: seq<nat>): set<nat> {
    set i | i in xs
  }

  /** A list holds at most the 32 records of the pool. */
  lemma {:induction false} ListLength(wps: seq<Wp>, start: int, xs: seq<nat>)
    requires IsList(wps, start, xs) && |wps| == NrWp
    ensures |xs| <= NrWp
  {
    var elems := Elems(xs);
    var all := Elems(Iota());
    DistinctSize(xs);
    DistinctSize(Iota());
    forall i | i in elems
      ensures i in all
    {
      var k :| 0 <= k < |xs| && xs[k] == i;
      assert Iota()[i] == i;
    }
    assert all == elems + (all - elems);
  }

  /** Distinct entries: as many elements as positions. */
  lemma {:induction false} DistinctSize(xs: seq<nat>)
    requires forall a, b :: 0 <= a < b < |xs| ==> xs[a] != xs[b]
    ensures |Elems(xs)| == |xs|
  {
    if xs != [] {
      var ys := xs[..|xs| - 1];
      var x := xs[|xs| - 1];
      DistinctSize(ys);
      assert xs == ys + [x];
      assert Elems(xs) == Elems(ys) + {x};
      assert x !in Elems(ys);
    }
  }

  // ================================================================ init_wp_pool

  /** After `init_wp_pool` record `i` has number `i`, the active list is empty,
      and the free list is 0, 1, ..., 31; the other fields are left as they were. */
  lemma InitLists(s: Pool)
    requires |s.wps| == NrWp
    ensures var r := InitSpec(s);
      && Partition(r, [], Iota())
      && forall i :: 0 <= i < NrWp ==>
           r.wps[i].no == i && r.wps[i] == s.wps[i].(no := i, next := r.wps[i].next)
  {
    var r := InitSpec(s);
    forall k | 0 <= k < NrWp
      ensures r.wps[Iota()[k]].next == Succ(Iota(), k)
    {
    }
    forall i | 0 <= i < NrWp
      ensures i in Iota()
    {
      assert Iota()[i] == i;
    }
  }

  // ================================================================ new_wp and set_wp

  /** Pushing record `w` onto the front of list `xs` by linking it to the old
      first record. */
  lemma PushFront(wps: seq<Wp>, start: int, xs: seq<nat>, w: nat, wps': seq<Wp>)
    requires IsList(wps, start, xs) && w < |wps| && w !in xs && |wps'| == |wps|
    requires wps'[w].next == start
    requires forall i :: 0 <= i < |wps| && i != w ==> wps'[i].next == wps[i].next
    ensures IsList(wps', w, [w] + xs)
  {
    var ys := [w] + xs;
    forall a, b | 0 <= a < b < |ys|
      ensures ys[a] != ys[b]
    {
      assert ys[b] == xs[b - 1];
      if a == 0 {
        assert xs[b - 1] in xs;
      } else {
        assert ys[a] == xs[a - 1];
      }
    }
    forall k | 0 <= k < |ys|
      ensures wps'[ys[k]].next == Succ(ys, k)
    {
      if k > 0 {
        assert ys[k] == xs[k - 1] && wps[xs[k - 1]].next == Succ(xs, k - 1);
        assert xs[k - 1] in xs;
      }
    }
  }

  /** Taking the first record off list `xs` leaves the list from its link, as long
      as the records after it keep their links. */
  lemma PopFront(wps: seq<Wp>, start: int, xs: seq<nat>, wps': seq<Wp>)
    requires IsList(wps, start, xs) && xs != [] && |wps'| == |wps|
    requires forall i :: 0 <= i < |wps| && i != xs[0] ==> wps'[i].next == wps[i].next
    ensures IsList(wps', wps[xs[0]].next, xs[1..])
  {
    ListTail(wps, start, xs);
    var t := xs[1..];
    forall k | 0 <= k < |t|
      ensures wps'[t[k]].next == Succ(t, k)
    {
      assert t[k] == xs[k + 1] && xs[k + 1] != xs[0];
    }
  }

  /** `new_wp` aborts, changing nothing, when the free list is empty; otherwise it
      returns the first free record, which becomes the first active one: the two
      lists still partition the pool, and only that record's link changed. */
  lemma NewWpMoves(s: Pool, act: seq<nat>, fr: seq<nat>)
    requires Partition(s, act, fr)
    ensures fr == [] ==> NewWpSpec(s) == (Aborted, s)
    ensures fr != [] ==>
      var (r, s') := NewWpSpec(s);
      && r == Done(fr[0])
      && Partition(s', [fr[0]] + act, fr[1..])
      && s'.stopped == s.stopped
      && forall i :: 0 <= i < NrWp ==> s'.wps[i] == s.wps[i].(next := s'.wps[i].next)
  {
    if fr != [] {
      var w := fr[0];
      var s' := NewWpSpec(s).1;
      assert w in fr;
      PushFront(s.wps, s.head, act, w, s'.wps);
      PopFront(s.wps, s.free, fr, s'.wps);
      forall i | 0 <= i < NrWp
        ensures i in [w] + act <==> i !in fr[1..]
      {
        assert fr == [w] + fr[1..];
        assert i in fr <==> i == w || i in fr[1..];
      }
    }
  }

  /** `set_wp(NULL)` answers false and changes nothing; otherwise the first free
      record becomes the first active one (aborting when there is none), the
      lists still partition the pool, and no other record changes. */
  lemma SetWpAllocates(s: Pool, act: seq<nat>, fr: seq<nat>, text: string, regs: Regs, mem: Mem)
    requires Partition(s, act, fr)
    ensures SetWpSpec(s, None, regs, mem) == (Done(false), s)
    ensures fr == [] ==> SetWpSpec(s, Some(text), regs, mem) == (Aborted, s)
    ensures fr != [] ==>
      var s' := SetWpSpec(s, Some(text), regs, mem).1;
      && Partition(s', [fr[0]] + act, fr[1..])
      && s'.stopped == s.stopped
      && forall i :: 0 <= i < NrWp && i != fr[0] ==> s'.wps[i] == s.wps[i]
  {
    NewWpMoves(s, act, fr);
    if fr != [] {
      var w := fr[0];
      var s1 := NewWpSpec(s).1;
      var s' := SetWpSpec(s, Some(text), regs, mem).1;
      assert forall i :: 0 <= i < NrWp ==> s'.wps[i].next == s1.wps[i].next;
      ListFrame(s1.wps, s1.head, [w] + act, Null, s'.wps);
      ListFrame(s1.wps, s1.free, fr[1..], Null, s'.wps);
    }
  }

  /** The new record takes the text and the value `expr` produced, 0 when the
      text did not tokenize, and `set_wp` returns whether it tokenized; the
      record stays active either way. Its number and previous value are kept.
      Text of 32 characters or more overflows the record's buffer. */
  lemma SetWpStores(s: Pool, act: seq<nat>, fr: seq<nat>, text: string, regs: Regs, mem: Mem)
    requires Partition(s, act, fr) && fr != []
    ensures
      var (r, s') := SetWpSpec(s, Some(text), regs, mem);
      var w := fr[0];
      && s'.wps[w].no == s.wps[w].no && s'.wps[w].oldVal == s.wps[w].oldVal
      && (|text| >= ExprCap ==> r == Undefined)
      && (|text| < ExprCap ==>
            && s'.wps[w].expr == text
            && (r.Done? <==> ExprSpec(text, regs, mem).Done?)
            && (r.Done? ==> r.value == ExprSpec(text, regs, mem).value.Evaluated?
                            && s'.wps[w].val == Stored(ExprSpec(text, regs, mem).value)))
  {
    assert s.free == fr[0];
  }

  /** Rows of a list whose records are unchanged, below a new first record. */
  lemma DisplayPush(s: Pool, s': Pool, act: seq<nat>, w: nat)
    requires |s.wps| == |s'.wps| == NrWp && w < NrWp && w !in act
    requires forall k :: 0 <= k < |act| ==> act[k] < NrWp
    requires forall i :: 0 <= i < NrWp && i != w ==> s'.wps[i] == s.wps[i]
    ensures DisplaySpec(s', [w] + act) == [Row(s'.wps[w].no, s'.wps[w].expr, s'.wps[w].val)] + DisplaySpec(s, act)
  {
    var rows := DisplaySpec(s', [w] + act);
    forall k | 0 <= k < |act|
      ensures rows[k + 1] == DisplaySpec(s, act)[k]
    {
      assert ([w] + act)[k + 1] == act[k] && act[k] in act;
    }
  }

  /** The new watchpoint is the first row of the display, above the rows there were. */
  lemma SetWpDisplay(s: Pool, act: seq<nat>, fr: seq<nat>, text: string, regs: Regs, mem: Mem)
    requires Partition(s, act, fr) && fr != [] && |text| < ExprCap
    ensures
      var s' := SetWpSpec(s, Some(text), regs, mem).1;
      var w := fr[0];
      DisplaySpec(s', [w] + act) == [Row(s.wps[w].no, text, s'.wps[w].val)] + DisplaySpec(s, act)
  {
    SetWpAllocates(s, act, fr, text, regs, mem);
    SetWpStores(s, act, fr, text, regs, mem);
    Disjoint(s, act, fr);
    assert fr[0] in fr;
    DisplayPush(s, SetWpSpec(s, Some(text), regs, mem).1, act, fr[0]);
  }

  // ================================================================ del_wp

  /** The records of two partitioning lists are distinct. */
  lemma Disjoint(s: Pool, act: seq<nat>, fr: seq<nat>)
    requires Partition(s, act, fr)
    ensures forall i :: i in act ==> i !in fr
  {
    forall i | i in act
      ensures i !in fr
    {
      var k :| 0 <= k < |act| && act[k] == i;
    }
  }

  /** `del_wp(act[k])` as written pushes the record onto the free list without
      unlinking it: the active list now runs through the deleted record into the
      whole free list, so the deleted watchpoint is still displayed and checked,
      and so is every free record. */
  lemma DelWpAsWritten(s: Pool, act: seq<nat>, fr: seq<nat>, k: nat)
    requires Partition(s, act, fr) && k < |act|
    ensures var s' := FreeWpSpec(s, act[k]);
      && s'.head == s.head
      && IsList(s'.wps, s'.free, [act[k]] + fr)
      && IsList(s'.wps, s'.head, act[..k + 1] + fr)
  {
    var n := act[k];
    var s' := FreeWpSpec(s, n);
    Disjoint(s, act, fr);
    assert n in act;
    PushFront(s.wps, s.free, fr, n, s'.wps);
    Splice(s.wps, s.head, act, s.free, fr, k, s'.wps);
  }

  /** Following the links from the head after `del_wp(act[k])` and `new_wp`: the
      reused record comes first, then the old active list up to the record itself. */
  lemma {:induction false} CycleWalk(s3: Pool, xs: seq<nat>, act: seq<nat>, k: nat, j: nat)
    requires IsList(s3.wps, s3.head, xs) && k < |act| && j <= k && |s3.wps| == NrWp
    requires forall i :: 0 <= i < |act| ==> act[i] < NrWp
    requires s3.head == act[k] && s3.wps[act[k]].next == act[0]
    requires forall i :: 0 <= i < k ==> s3.wps[act[i]].next == act[i + 1]
    ensures j + 1 < |xs| && xs[j + 1] == act[j]
    decreases j
  {
    if j == 0 {
      assert s3.wps[xs[0]].next == Succ(xs, 0);
    } else {
      CycleWalk(s3, xs, act, k, j - 1);
      assert xs[j] == act[j - 1] && s3.wps[act[j - 1]].next == act[j];
      assert s3.wps[xs[j]].next == Succ(xs, j);
    }
  }

  /** Deleting an active watchpoint and then setting a new one makes the active
      list circular: the reused record is both its head and reached again from
      it, so no NULL-terminated list starts at the head and the display and the
      check never reach NULL. */
  lemma DelThenNewCycles(s: Pool, act: seq<nat>, fr: seq<nat>, k: nat)
    requires Partition(s, act, fr) && k < |act|
    ensures var s3 := NewWpSpec(FreeWpSpec(s, act[k])).1;
      && s3.head == act[k]
      && forall xs :: !IsList(s3.wps, s3.head, xs)
  {
    var n := act[k];
    var s2 := FreeWpSpec(s, n);
    var s3 := NewWpSpec(s2).1;
    DelWpAsWritten(s, act, fr, k);
    forall i | 0 <= i < k
      ensures s3.wps[act[i]].next == act[i + 1]
    {
      assert s.wps[act[i]].next == Succ(act, i);
      assert act[i] != act[k];
    }
    assert s3.wps[n].next == act[0] by {
      assert s.head == act[0];
    }
    forall xs | IsList(s3.wps, s3.head, xs)
      ensures false
    {
      CycleWalk(s3, xs, act, k, k);
    }
  }

  // ================================================================ corrected deletion

  /** The search for the record linking to `xs[j]` finds the record before it. */
  lemma {:induction false} PredFound(wps: seq<Wp>, xs: seq<nat>, j: nat, fuel: nat)
    requires |wps| == NrWp && forall i :: 0 <= i < NrWp ==> IsLink(wps[i].next)
    requires xs != [] && IsList(wps, xs[0], xs) && 0 < j < |xs| && j <= fuel
    ensures Pred(wps, xs[0], xs[j], fuel) == Some(xs[j - 1])
    decreases j
  {
    assert wps[xs[0]].next == Succ(xs, 0);
    if j > 1 {
      assert xs[1] != xs[j];
      ListTail(wps, xs[0], xs);
      PredFound(wps, xs[1..], j - 1, fuel - 1);
    }
  }

  /** No record of list `xs` links to a record outside it. */
  lemma {:induction false} PredMissing(wps: seq<Wp>, start: int, xs: seq<nat>, n: nat, fuel: nat)
    requires |wps| == NrWp && forall i :: 0 <= i < NrWp ==> IsLink(wps[i].next)
    requires IsList(wps, start, xs) && IsLink(start) && n !in xs
    ensures Pred(wps, start, n, fuel) == None
    decreases fuel
  {
    if fuel > 0 && start != Null {
      assert wps[xs[0]].next == Succ(xs, 0);
      assert |xs| > 1 ==> xs[1] in xs;
      ListTail(wps, start, xs);
      PredMissing(wps, wps[start].next, xs[1..], n, fuel - 1);
    }
  }

  /** The corrected deletion of the first active record: the head moves on. */
  lemma DelFirstLists(s: Pool, act: seq<nat>, fr: seq<nat>)
    requires Partition(s, act, fr) && act != []
    ensures var s' := DelWpFixed(s, act[0]);
      IsList(s'.wps, s'.head, act[1..]) && IsList(s'.wps, s'.free, [act[0]] + fr)
  {
    var n := act[0];
    var s' := DelWpFixed(s, n);
    Disjoint(s, act, fr);
    assert n in act;
    PopFront(s.wps, s.head, act, s'.wps);
    PushFront(s.wps, s.free, fr, n, s'.wps);
  }

  /** The corrected deletion of a later active record: the record before it is
      relinked past it. */
  lemma DelLaterLists(s: Pool, act: seq<nat>, fr: seq<nat>, j: nat)
    requires Partition(s, act, fr) && 0 < j < |act|
    ensures var s' := DelWpFixed(s, act[j]);
      IsList(s'.wps, s'.head, act[..j] + act[j + 1..]) && IsList(s'.wps, s'.free, [act[j]] + fr)
  {
    var n := act[j];
    var act' := act[..j] + act[j + 1..];
    var s' := DelWpFixed(s, n);
    Disjoint(s, act, fr);
    RemovedMembers(act, j);
    ListLength(s.wps, s.head, act);
    PredFound(s.wps, act, j, NrWp);
    assert act[0] != n;
    var p := act[j - 1];
    var wps1 := s.wps[p := s.wps[p].(next := s.wps[n].next)];
    assert p in act && n in act;
    Unlink(s.wps, s.head, act, j, wps1);
    ListFrame(wps1, s.head, act', n, s'.wps);
    ListFrame(s.wps, s.free, fr, p, wps1);
    PushFront(wps1, s.free, fr, n, s'.wps);
  }

  /** The corrected deletion of active record `act[j]` unlinks it and pushes it
      onto the free list: the lists still partition the pool. */
  lemma DelWpFixedUnlinks(s: Pool, act: seq<nat>, fr: seq<nat>, j: nat)
    requires Partition(s, act, fr) && j < |act|
    ensures Partition(DelWpFixed(s, act[j]), act[..j] + act[j + 1..], [act[j]] + fr)
  {
    var n := act[j];
    var act' := act[..j] + act[j + 1..];
    if j == 0 {
      assert act' == act[1..];
      DelFirstLists(s, act, fr);
    } else {
      DelLaterLists(s, act, fr, j);
    }
    RemovedMembers(act, j);
    forall i | 0 <= i < NrWp
      ensures i in act' <==> i !in [n] + fr
    {
    }
  }

  /** Rows of a list with one entry removed, when only links changed. */
  lemma DisplayRemove(s: Pool, s': Pool, act: seq<nat>, j: nat)
    requires |s.wps| == |s'.wps| == NrWp && j < |act|
    requires forall k :: 0 <= k < |act| ==> act[k] < NrWp
    requires forall i :: 0 <= i < NrWp ==> s'.wps[i] == s.wps[i].(next := s'.wps[i].next)
    ensures DisplaySpec(s', act[..j] + act[j + 1..]) == DisplaySpec(s, act)[..j] + DisplaySpec(s, act)[j + 1..]
  {
    var act' := act[..j] + act[j + 1..];
    var rows := DisplaySpec(s, act);
    forall k | 0 <= k < |act'|
      ensures DisplaySpec(s', act')[k] == (rows[..j] + rows[j + 1..])[k]
    {
      if k < j {
        assert act'[k] == act[k];
      } else {
        assert act'[k] == act[k + 1];
      }
    }
  }

  /** After the corrected deletion of `act[j]` the display loses exactly that row. */
  lemma DelWpFixedDisplay(s: Pool, act: seq<nat>, fr: seq<nat>, j: nat)
    requires Partition(s, act, fr) && j < |act|
    ensures DisplaySpec(DelWpFixed(s, act[j]), act[..j] + act[j + 1..]) == DisplaySpec(s, act)[..j] + DisplaySpec(s, act)[j + 1..]
  {
    DisplayRemove(s, DelWpFixed(s, act[j]), act, j);
  }

  /** The corrected deletion leaves the pool alone when the record is not active. */
  lemma DelWpFixedIgnores(s: Pool, act: seq<nat>, fr: seq<nat>, n: nat)
    requires Partition(s, act, fr) && n < NrWp && n !in act
    ensures DelWpFixed(s, n) == s
  {
    PredMissing(s.wps, s.head, act, n, NrWp);
  }

  // ================================================================ watchpoint_check

  /** Re-evaluating record `i` gives the value it already holds. */
  ghost predicate Holds(s: Pool, i: nat, regs: Regs, mem: Mem)
    requires i < |s.wps|
  {
    var e := ExprSpec(s.wps[i].expr, regs, mem);
    e.Done? && Stored(e.value) == s.wps[i].val
  }

  /** Re-evaluating record `i` gives a value other than the one it holds. */
  ghost predicate Changes(s: Pool, i: nat, regs: Regs, mem: Mem)
    requires i < |s.wps|
  {
    var e := ExprSpec(s.wps[i].expr, regs, mem);
    e.Done? && Stored(e.value) != s.wps[i].val
  }

  /** The pool once record `i`'s new value is recorded: the value it held becomes
      the old value, and the simulator stops. */
  function Recorded(s: Pool, i: nat, regs: Regs, mem: Mem): (r: Pool)
    requires i < |s.wps| && ExprSpec(s.wps[i].expr, regs, mem).Done?
    ensures r.stopped && |r.wps| == |s.wps| && r.wps[i].oldVal == s.wps[i].val
  {
    var v := Stored(ExprSpec(s.wps[i].expr, regs, mem).value);
    s.(wps := s.wps[i := s.wps[i].(oldVal := s.wps[i].val, val := v)], stopped := true)
  }

  /** The outcome of the check at the first record from `k` on that does not
      hold its value: a changed value triggers and is recorded; an expression
      that aborts or is undefined ends the check the same way, the pool unchanged. */
  ghost predicate StopsAt(s: Pool, i: nat, regs: Regs, mem: Mem, res: (Outcome<Check>, Pool))
    requires i < |s.wps|
  {
    var e := ExprSpec(s.wps[i].expr, regs, mem);
    if Changes(s, i, regs, mem) then res == (Done(Triggered(s.wps[i].no)), Recorded(s, i, regs, mem))
    else if e.Aborted? then res == (Aborted, s)
    else e.Undefined? && res == (Undefined, s)
  }

  /** What a check from position `k` of `act` means: it never spins; it reports
      no change (NoWatch exactly for an empty list), leaving the pool alone,
      exactly when every record from `k` on holds its value; and a trigger names
      the first record from `k` on whose value changed and records that change. */
  ghost predicate CheckMeans(s: Pool, act: seq<nat>, k: nat, regs: Regs, mem: Mem, res: (Outcome<Check>, Pool))
    requires |s.wps| == NrWp && k <= |act| && forall j :: 0 <= j < |act| ==> act[j] < NrWp
  {
    var (r, s') := res;
    && r != Done(Spins)
    && ((r.Done? && !r.value.Triggered?) <==> forall j :: k <= j < |act| ==> Holds(s, act[j], regs, mem))
    && (r.Done? && !r.value.Triggered? ==> r.value == (if act == [] then NoWatch else Unchanged))
    && (!(r.Done? && r.value.Triggered?) ==> s' == s)
    && (r.Done? && r.value.Triggered? ==>
          exists j :: k <= j < |act|
            && (forall i :: k <= i < j ==> Holds(s, act[i], regs, mem))
            && Changes(s, act[j], regs, mem)
            && r.value.no == s.wps[act[j]].no
            && s' == Recorded(s, act[j], regs, mem))
  }

  /** Record `act[j]` is the first from `k` on that does not hold its value. */
  ghost predicate FirstMiss(s: Pool, act: seq<nat>, k: nat, j: nat, regs: Regs, mem: Mem)
    requires |s.wps| == NrWp && forall i :: 0 <= i < |act| ==> act[i] < NrWp
  {
    && k <= j < |act|
    && (forall i :: k <= i < j ==> Holds(s, act[i], regs, mem))
    && !Holds(s, act[j], regs, mem)
  }

  /** The corrected check never spins, and reports a trigger only for the first changed record. */
  lemma {:induction false} CheckAllTriggers(s: Pool, act: seq<nat>, k: nat, regs: Regs, mem: Mem)
    requires Linked(s) && k <= |act| && forall j :: 0 <= j < |act| ==> act[j] < NrWp
    ensures CheckMeans(s, act, k, regs, mem, CheckAllSpec(s, act, k, regs, mem))
    decreases |act| - k
  {
    if k < |act| {
      var i := act[k];
      var e := ExprSpec(s.wps[i].expr, regs, mem);
      if e.Done? && Stored(e.value) == s.wps[i].val {
        assert CheckAllSpec(s, act, k, regs, mem) == CheckAllSpec(s, act, k + 1, regs, mem);
        CheckAllTriggers(s, act, k + 1, regs, mem);
        var res := CheckAllSpec(s, act, k + 1, regs, mem);
        if res.0.Done? && res.0.value.Triggered? {
          var j :| k + 1 <= j < |act|
            && (forall i :: k + 1 <= i < j ==> Holds(s, act[i], regs, mem))
            && Changes(s, act[j], regs, mem)
            && res.0.value.no == s.wps[act[j]].no
            && res.1 == Recorded(s, act[j], regs, mem);
          assert forall i :: k <= i < j ==> Holds(s, act[i], regs, mem);
        }
      } else if e.Done? {
        assert Changes(s, act[k], regs, mem);
        assert !Holds(s, act[k], regs, mem);
      } else {
        assert !Holds(s, act[k], regs, mem);
      }
    }
  }

  /** The corrected check walks the active list until the first record that
      does not hold its value, and ends as that record says. */
  lemma {:induction false} CheckAllStops(s: Pool, act: seq<nat>, k: nat, j: nat, regs: Regs, mem: Mem)
    requires Linked(s) && k <= |act| && forall i :: 0 <= i < |act| ==> act[i] < NrWp
    requires FirstMiss(s, act, k, j, regs, mem)
    ensures StopsAt(s, act[j], regs, mem, CheckAllSpec(s, act, k, regs, mem))
    decreases |act| - k
  {
    if k < j {
      assert Holds(s, act[k], regs, mem);
      assert CheckAllSpec(s, act, k, regs, mem) == CheckAllSpec(s, act, k + 1, regs, mem);
      CheckAllStops(s, act, k + 1, j, regs, mem);
    }
  }

  /** The corrected check walks the whole active list: it never spins; it
      reports no change exactly when every record holds its value, leaving the
      pool alone; otherwise it ends at the first record that does not hold its
      value, triggering and recording there when that value changed, and
      aborting or undefined, the pool unchanged, when its expression is. */
  lemma CheckAllMeaning(s: Pool, act: seq<nat>, regs: Regs, mem: Mem)
    requires Linked(s) && forall j :: 0 <= j < |act| ==> act[j] < NrWp
    ensures CheckMeans(s, act, 0, regs, mem, CheckAllSpec(s, act, 0, regs, mem))
    ensures forall j: nat :: FirstMiss(s, act, 0, j, regs, mem) ==> StopsAt(s, act[j], regs, mem, CheckAllSpec(s, act, 0, regs, mem))
  {
    CheckAllTriggers(s, act, 0, regs, mem);
    forall j: nat | FirstMiss(s, act, 0, j, regs, mem)
      ensures StopsAt(s, act[j], regs, mem, CheckAllSpec(s, act, 0, regs, mem))
    {
      CheckAllStops(s, act, 0, j, regs, mem);
    }
  }

  /** The check as written only ever looks at the head: with two active
      watchpoints, the first unchanged and the second changed, it spins forever,
      where the corrected check reports the second. */
  lemma CheckMissesLater(s: Pool, act: seq<nat>, fr: seq<nat>, regs: Regs, mem: Mem)
    requires Partition(s, act, fr) && |act| >= 2
    requires Holds(s, act[0], regs, mem) && Changes(s, act[1], regs, mem)
    ensures CheckSpec(s, regs, mem) == (Done(Spins), s)
    ensures CheckAllSpec(s, act, 0, regs, mem) == (Done(Triggered(s.wps[act[1]].no)), Recorded(s, act[1], regs, mem))
  {
    assert CheckAllSpec(s, act, 0, regs, mem) == CheckAllSpec(s, act, 1, regs, mem);
  }
}
