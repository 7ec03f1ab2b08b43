/** The instruction trace ring buffer: `IRINGBUF_SIZE` entries and a cursor on
    the most recent one. Recording advances the cursor around the ring and
    overwrites the entry there; the display lists every slot, marking the
    current one. */
module Tracer {
  import opened CInt

  /** One `InstEntry`: the instruction's address and its encoding. */
  datatype InstEntry = InstEntry(addr: int, inst: int)

  /** The entry `init_iringbuf` leaves in every slot. */
  const Zero := InstEntry(0, 0)

  /** The buffer as a value: its slots and the cursor. */
  datatype Ring = Ring(buf: seq<InstEntry>, current: int)

  /** A line of `recent_inst_display`: whether it carries the `=> ` marker, and
      the slot's entry. */
  datatype Line = Line(marked: bool, entry: InstEntry)

  /** The cursor after one more record: `(current + 1) % IRINGBUF_SIZE`, with
      C's remainder. */
  function Advance(current: int, size: nat): int
    requires size > 0
  {
    CRem(current + 1, size)
  }

  /** The slot the `n`-th record (counting from 0) after `init_iringbuf` lands in. */
  function Slot(n: nat, size: nat): nat
    requires size > 0
  {
    n % size
  }

  /** A ring of `size` slots whose cursor is -1 or a slot. */
  predicate WellFormed(r: Ring, size: nat) {
    size > 0 && |r.buf| == size && -1 <= r.current < size
  }

  /** `init_iringbuf`: every slot zero, the cursor -1. */
  function InitSpec(size: nat): Ring {
    Ring(seq(size, _ => Zero), -1)
  }

  /** `record_inst(e)`: the cursor advances and `e` is stored in that slot. */
  function RecordSpec(r: Ring, e: InstEntry): Ring
    requires WellFormed(r, |r.buf|)
  {
    var c := Advance(r.current, |r.buf|);
    AdvanceInRange(r.current, |r.buf|);
    Ring(r.buf[c := e], c)
  }

  /** Recording the entries of `es` in order. */
  function RecordAll(r: Ring, es: seq<InstEntry>): (r': Ring)
    requires WellFormed(r, |r.buf|)
    ensures WellFormed(r', |r.buf|)
  {
    if es == [] then r
    else
      var r1 := RecordAll(r, es[..|es| - 1]);
      AdvanceInRange(r1.current, |r1.buf|);
      RecordSpec(r1, es[|es| - 1])
  }

  /** `recent_inst_display`: every slot in index order, the current one marked. */
  function DisplaySpec(r: Ring): (lines: seq<Line>)
    ensures |lines| == |r.buf|
  {
    seq(|r.buf|, i requires 0 <= i < |r.buf| => Line(i == r.current, r.buf[i]))
  }

  // ================================================================ properties

  /** From -1 or a slot, the cursor moves to the next slot, wrapping after the
      last; the first record after `init_iringbuf` lands in slot 0. */
  lemma AdvanceInRange(current: int, size: nat)
    requires size > 0 && -1 <= current < size
    ensures 0 <= Advance(current, size) < size
    ensures Advance(current, size) == if current + 1 == size then 0 else current + 1
    ensures Advance(-1, size) == 0
  {
    CDivAgreesOnNaturals(current + 1, size);
    CDivAgreesOnNaturals(0, size);
  }

  /** After `n` records from `init_iringbuf` the cursor is on slot `(n - 1) mod
      size`, and the last `size` entries recorded are all held, entry `j` in
      slot `j mod size`; the slots not yet reached still hold zero. */
  lemma {:induction false} RingKeepsRecent(size: nat, es: seq<InstEntry>)
    requires size > 0
    ensures var r := RecordAll(InitSpec(size), es);
      && r.current == (if es == [] then -1 else (|es| - 1) % size)
      && (forall j :: 0 <= j < |es| && |es| - size <= j ==> r.buf[j % size] == es[j])
      && (forall i :: |es| <= i < size ==> r.buf[i] == Zero)
    decreases |es|
  {
    if es != [] {
      var n := |es|;
      var init := es[..n - 1];
      RingKeepsRecent(size, init);
      var r1 := RecordAll(InitSpec(size), init);
      var r := RecordAll(InitSpec(size), es);
      AdvanceInRange(r1.current, size);
      if n == 1 {
        ModUnique(0, 0, 0, size);
      } else {
        ModStep(n - 2, size);
      }
      assert r.current == (n - 1) % size;
      forall j | 0 <= j < n && n - size <= j
        ensures r.buf[j % size] == es[j]
      {
        if j < n - 1 {
          ModDistinct(j, n - 1, size);
          assert init[j] == es[j];
        }
      }
      forall i | n <= i < size
        ensures r.buf[i] == Zero
      {
        ModUnique(n - 1, 0, n - 1, size);
      }
    }
  }

  /** A product with a non-zero factor is at least as far from zero as the
      other factor. */
  lemma {:induction false} MulBound(t: int, size: nat)
    requires size > 0
    ensures t >= 1 ==> t * size >= size
    ensures t <= -1 ==> t * size <= -(size as int)
    decreases if t >= 0 then t else -t
  {
    if t > 1 {
      MulBound(t - 1, size);
      assert t * size == (t - 1) * size + size;
    } else if t < -1 {
      MulBound(t + 1, size);
      assert t * size == (t + 1) * size - size;
    }
  }

  /** Division with remainder is unique. */
  lemma ModUnique(x: int, q: int, r: int, size: nat)
    requires size > 0 && x == q * size + r && 0 <= r < size
    ensures x % size == r && x / size == q
  {
    var t := q - x / size;
    assert t * size == x % size - r by {
      assert x == (x / size) * size + x % size;
      assert t * size == q * size - (x / size) * size;
    }
    MulBound(t, size);
  }

  /** One step further moves to the next slot, wrapping after the last. */
  lemma ModStep(j: nat, size: nat)
    requires size > 0
    ensures (j + 1) % size == if j % size + 1 == size then 0 else j % size + 1
  {
    var q := j / size;
    assert j == q * size + j % size;
    if j % size + 1 == size {
      ModUnique(j + 1, q + 1, 0, size);
    } else {
      ModUnique(j + 1, q, j % size + 1, size);
    }
  }

  /** Two numbers less than `size` apart fall in different slots. */
  lemma ModDistinct(a: nat, b: nat, size: nat)
    requires size > 0 && a < b < a + size
    ensures a % size != b % size
  {
    var q, r := a / size, a % size;
    assert a == q * size + r;
    if r + (b - a) < size {
      ModUnique(b, q, r + (b - a), size);
    } else {
      ModUnique(b, q + 1, r + (b - a) - size, size);
    }
  }

  /** After `size` more records the cursor is back on its slot: the entry there
      is overwritten by the newest one. */
  lemma FullTurn(size: nat, es: seq<InstEntry>)
    requires size > 0 && |es| > size
    ensures RecordAll(InitSpec(size), es).current == RecordAll(InitSpec(size), es[..|es| - size]).current
  {
    var short := es[..|es| - size];
    var m: nat := |short| - 1;
    assert m + size == |es| - 1;
    CursorAfter(size, es);
    CursorAfter(size, short);
    ModShift(m, size);
  }

  /** A whole turn further lands on the same slot. */
  lemma ModShift(m: nat, size: nat)
    requires size > 0
    ensures Slot(m + size, size) == Slot(m, size)
  {
    var q, r := m / size, m % size;
    assert m == q * size + r;
    assert (q + 1) * size == q * size + size;
    ModUnique(m + size, q + 1, r, size);
  }

  /** The cursor part of `RingKeepsRecent`. */
  lemma CursorAfter(size: nat, es: seq<InstEntry>)
    requires size > 0
    ensures RecordAll(InitSpec(size), es).current == if es == [] then -1 else Slot(|es| - 1, size)
  {
    RingKeepsRecent(size, es);
  }

  /** The display marks one line exactly when something has been recorded: the
      line of the most recent entry. */
  lemma DisplayMarksNewest(size: nat, es: seq<InstEntry>)
    requires size > 0
    ensures var lines := DisplaySpec(RecordAll(InitSpec(size), es));
      && (es == [] ==> forall i :: 0 <= i < |lines| ==> !lines[i].marked)
      && (es != [] ==> exists i :: 0 <= i < |lines| && lines[i] == Line(true, es[|es| - 1])
                                   && forall k :: 0 <= k < |lines| && lines[k].marked ==> k == i)
  {
    RingKeepsRecent(size, es);
    if es != [] {
      var r := RecordAll(InitSpec(size), es);
      var lines := DisplaySpec(r);
      assert lines[r.current] == Line(true, es[|es| - 1]);
    }
  }

  // ================================================================ the buffer

  class InstBuffer {
    /** `IRINGBUF_SIZE`. */
    const size: nat
    const buf: array<InstEntry>
    var current: int

    function State(): Ring
      reads this, buf
    {
      Ring(buf[..], current)
    }

    ghost predicate Valid()
      reads this, buf
    {
      buf.Length == size && WellFormed(State(), size)
    }

    /** The zero-initialised static buffer, before `init_iringbuf`. */
    constructor (size: nat)
      requires size > 0
      ensures Valid() && this.size == size && State() == Ring(seq(size, _ => Zero), 0)
    {
      this.size := size;
      buf := new InstEntry[size](_ => Zero);
      current := 0;
    }

    /** `init_iringbuf`: the cursor is set to -1 and each slot's address and
        encoding are zeroed in turn. */
    method InitIringbuf()
      requires Valid()
      modifies this, buf
      ensures Valid() && State() == InitSpec(size)
    {
      current := -1;
      for i := 0 to size
        invariant current == -1
        invariant forall k :: 0 <= k < i ==> buf[k] == Zero
      {
        buf[i] := buf[i].(addr := 0);
        buf[i] := buf[i].(inst := 0);
      }
    }

    /** `record_inst(e)`. */
    method RecordInst(e: InstEntry)
      requires Valid()
      modifies this, buf
      ensures Valid() && State() == RecordSpec(old(State()), e)
    {
      AdvanceInRange(current, size);
      current := (current + 1) % size;
      buf[current] := e;
    }

    /** `recent_inst_display`, its lines as values. */
    method RecentInstDisplay() returns (lines: seq<Line>)
      requires Valid()
      ensures lines == DisplaySpec(State())
    {
      lines := [];
      for i := 0 to size
        invariant lines == DisplaySpec(State())[..i]
      {
        var marked := i == current;
        lines := lines + [Line(marked, buf[i])];
      }
    }
  }
}
