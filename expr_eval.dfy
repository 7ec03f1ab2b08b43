/** Properties of the marking pass and of the evaluator of the expression engine:
    the marking rule token by token, the parenthesis check, the dominant-operator
    scan against an independent description of the operators outside every
    parenthesis pair, and how `eval` combines the values of the parts. */
module ExprEval {
  import opened CInt
  import opened Expr
  import opened ExprLemmas

  // ================================================================ marking pass

  /** Marking a prefix gives the prefix of the marked sequence. */
  lemma {:induction false} DisambiguatedPrefix(ts: seq<Token>, m: nat)
    requires m <= |ts|
    ensures Disambiguated(ts[..m]) == Disambiguated(ts)[..m]
    decreases |ts|
  {
    if m < |ts| {
      var init := ts[..|ts| - 1];
      assert ts[..m] == init[..m];
      DisambiguatedPrefix(init, m);
    } else {
      assert ts[..m] == ts;
    }
  }

  /** The last token of a marked sequence, from the marked sequence before it. */
  lemma DisambiguatedLast(u: seq<Token>)
    requires |u| > 0
    ensures Disambiguated(u)[..|u| - 1] == Disambiguated(u[..|u| - 1])
    ensures Disambiguated(u)[|u| - 1] ==
      Token(Reclassify(u[|u| - 1].kind, if |u| == 1 then None else Some(Disambiguated(u)[|u| - 2].kind)), u[|u| - 1].text)
  {
  }

  /** Token `k` after the marking pass: same text, and the kind `Reclassify` gives
      from its own kind and the already marked kind of the token before it. */
  lemma DisambiguatedAt(ts: seq<Token>, k: nat)
    requires k < |ts|
    ensures Disambiguated(ts)[k].text == ts[k].text
    ensures Disambiguated(ts)[k].kind ==
      Reclassify(ts[k].kind, if k == 0 then None else Some(Disambiguated(ts)[k - 1].kind))
  {
    var u := ts[..k + 1];
    DisambiguatedPrefix(ts, k + 1);
    DisambiguatedLast(u);
  }

  /** The marking rule of `expr`: a `-` becomes `Neg` and a `*` becomes `Deref`
      exactly when it is the first token or the token before it is, after its own
      marking, one of `+ - * / (`; every other token keeps its kind. */
  lemma MarkingRule(ts: seq<Token>, k: nat)
    requires k < |ts|
    ensures var r := Disambiguated(ts);
      var unary := k == 0 || RequireUnaryOp(r[k - 1].kind);
      && r[k].text == ts[k].text
      && (ts[k].kind == Minus ==> (r[k].kind == Neg <==> unary) && (r[k].kind == Minus <==> !unary))
      && (ts[k].kind == Star ==> (r[k].kind == Deref <==> unary) && (r[k].kind == Star <==> !unary))
      && (ts[k].kind != Minus && ts[k].kind != Star ==> r[k].kind == ts[k].kind)
  {
    DisambiguatedAt(ts, k);
  }

  /** In `--2` the first `-` is marked, so the second follows a `Neg`, which is not
      in the list, and stays a binary minus. */
  lemma DoubleMinusMarking()
    ensures var r := Disambiguated([Token(Minus, "-"), Token(Minus, "-"), Token(Decimal, "2")]);
      r == [Token(Neg, "-"), Token(Minus, "-"), Token(Decimal, "2")]
  {
    var ts := [Token(Minus, "-"), Token(Minus, "-"), Token(Decimal, "2")];
    DisambiguatedAt(ts, 0);
    DisambiguatedAt(ts, 1);
    DisambiguatedAt(ts, 2);
  }

  // ================================================================ dominant-operator scan

  /** Every token outside the parentheses of `p..q` is an operator or a literal. */
  ghost predicate NoStray(ts: seq<Token>, p: nat, q: int)
    requires q < |ts|
  {
    forall j :: p <= j <= q && AtTop(ts, p, j) ==> Level(ts[j].kind).Some? || IsLiteral(ts[j].kind)
  }

  /** Indices of the operators of level `l` among tokens `p..j` that lie outside
      every parenthesis pair, in order. */
  function TopOps(ts: seq<Token>, p: nat, j: int, l: nat): seq<nat>
    requires j < |ts|
    decreases j - p
  {
    if j < p then []
    else if AtTop(ts, p, j) && Level(ts[j].kind) == Some(l) then TopOps(ts, p, j - 1, l) + [j]
    else TopOps(ts, p, j - 1, l)
  }

  /** The members of `TopOps` are exactly the depth-0 operators of level `l`, and
      they are listed in increasing order. */
  lemma {:induction false} TopOpsMembers(ts: seq<Token>, p: nat, j: int, l: nat)
    requires j < |ts|
    ensures forall x :: x in TopOps(ts, p, j, l) <==> p <= x <= j && AtTop(ts, p, x) && Level(ts[x].kind) == Some(l)
    ensures forall a, b :: 0 <= a < b < |TopOps(ts, p, j, l)| ==> TopOps(ts, p, j, l)[a] < TopOps(ts, p, j, l)[b]
    decreases j - p
  {
    if j >= p {
      TopOpsMembers(ts, p, j - 1, l);
      var r := TopOps(ts, p, j - 1, l);
      assert forall a :: 0 <= a < |r| ==> r[a] in r;
    }
  }

  /** `AtTop` read off the running depth: the depth before token `i` is the balance
      of `p..i-1`. */
  lemma TopOpsStep(ts: seq<Token>, p: nat, i: nat, l: nat)
    requires p <= i < |ts|
    ensures TopOps(ts, p, i, l) ==
      if AtTop(ts, p, i) && Level(ts[i].kind) == Some(l) then TopOps(ts, p, i - 1, l) + [i]
      else TopOps(ts, p, i - 1, l)
  {
  }

  /** The state of the scan loop after tokens `p..i-1`: the running depth is their
      balance, the buckets are their `TopOps` lists, and none of them was stray. */
  ghost predicate ScanInv(ts: seq<Token>, p: nat, i: nat, depth: int, ops: seq<seq<nat>>)
    requires p <= i <= |ts|
  {
    && |ops| == NrPrior
    && depth == Balance(ts, p, i - 1)
    && (forall l :: 0 <= l < NrPrior ==> ops[l] == TopOps(ts, p, i - 1, l))
    && NoStray(ts, p, i - 1)
  }

  /** A token that the scan does not bucket: a parenthesis or a token inside one. */
  lemma ScanInvSkip(ts: seq<Token>, p: nat, i: nat, depth: int, ops: seq<seq<nat>>)
    requires p <= i < |ts| && ScanInv(ts, p, i, depth, ops)
    requires ts[i].kind == LParen || ts[i].kind == RParen || depth != 0
    ensures ScanInv(ts, p, i + 1, depth + ParenDelta(ts[i].kind), ops)
  {
    assert !AtTop(ts, p, i);
    forall l | 0 <= l < NrPrior
      ensures ops[l] == TopOps(ts, p, i, l)
    {
      TopOpsStep(ts, p, i, l);
    }
  }

  /** A depth-0 literal: nothing is bucketed. */
  lemma ScanInvLiteral(ts: seq<Token>, p: nat, i: nat, ops: seq<seq<nat>>)
    requires p <= i < |ts| && ScanInv(ts, p, i, 0, ops)
    requires IsLiteral(ts[i].kind)
    ensures ScanInv(ts, p, i + 1, 0, ops)
  {
    forall l | 0 <= l < NrPrior
      ensures ops[l] == TopOps(ts, p, i, l)
    {
      TopOpsStep(ts, p, i, l);
    }
  }

  /** A depth-0 operator of level `l` is appended to bucket `l`. */
  lemma ScanInvOperator(ts: seq<Token>, p: nat, i: nat, ops: seq<seq<nat>>, l: nat)
    requires p <= i < |ts| && ScanInv(ts, p, i, 0, ops)
    requires Level(ts[i].kind) == Some(l)
    ensures l < NrPrior && |TopOps(ts, p, i, l)| == |ops[l]| + 1
    ensures ScanInv(ts, p, i + 1, 0, ops[l := ops[l] + [i]])
  {
    forall m | 0 <= m < NrPrior
      ensures ops[l := ops[l] + [i]][m] == TopOps(ts, p, i, m)
    {
      TopOpsStep(ts, p, i, m);
    }
  }

  /** What a scan of `p..q` that ended with `r` says about the tokens: a success
      has the `TopOps` lists as buckets and no stray token, a stray token is a
      depth-0 token that is neither operator nor literal, and an overflow means
      some level has more than ten operators outside the parentheses. */
  ghost predicate ScanMeans(ts: seq<Token>, p: nat, q: int, r: Scan)
    requires q < |ts|
  {
    && (r.Buckets? ==> |r.ops| == NrPrior && NoStray(ts, p, q) && forall l :: 0 <= l < NrPrior ==> r.ops[l] == TopOps(ts, p, q, l))
    && (r.Stray? ==> p <= r.at <= q && AtTop(ts, p, r.at) && Level(ts[r.at].kind).None? && !IsLiteral(ts[r.at].kind))
    && (r.Overflow? ==> exists l :: 0 <= l < NrPrior && |TopOps(ts, p, q, l)| > LevelCap)
  }

  /** The scan loop from token `i` on, started in the state the loop has after
      `p..i-1`, ends in a result that `ScanMeans`. */
  lemma {:induction false} ScanFromSpec(ts: seq<Token>, p: nat, i: nat, q: int, depth: int, ops: seq<seq<nat>>)
    requires p <= i && i <= q + 1 && q < |ts|
    requires ScanInv(ts, p, i, depth, ops)
    ensures ScanMeans(ts, p, q, ScanFrom(ts, i, q, depth, ops))
    decreases q - i
  {
    if i <= q {
      var k := ts[i].kind;
      if k == LParen || k == RParen || depth != 0 {
        ScanInvSkip(ts, p, i, depth, ops);
        assert ScanFrom(ts, i, q, depth, ops) == ScanFrom(ts, i + 1, q, depth + ParenDelta(k), ops);
        ScanFromSpec(ts, p, i + 1, q, depth + ParenDelta(k), ops);
      } else if Level(k).Some? {
        var l := Level(k).value;
        ScanInvOperator(ts, p, i, ops, l);
        if |ops[l]| >= LevelCap {
          TopOpsGrow(ts, p, i, q, l);
          assert ScanFrom(ts, i, q, depth, ops) == Overflow;
        } else {
          assert ScanFrom(ts, i, q, depth, ops) == ScanFrom(ts, i + 1, q, depth, ops[l := ops[l] + [i]]);
          ScanFromSpec(ts, p, i + 1, q, depth, ops[l := ops[l] + [i]]);
        }
      } else if IsLiteral(k) {
        ScanInvLiteral(ts, p, i, ops);
        assert ScanFrom(ts, i, q, depth, ops) == ScanFrom(ts, i + 1, q, depth, ops);
        ScanFromSpec(ts, p, i + 1, q, depth, ops);
      } else {
        assert AtTop(ts, p, i);
        assert ScanFrom(ts, i, q, depth, ops) == Stray(i);
      }
    } else {
      assert ScanFrom(ts, i, q, depth, ops) == Buckets(ops);
    }
  }

  /** The operator lists only grow as the range is extended to the right. */
  lemma {:induction false} TopOpsGrow(ts: seq<Token>, p: nat, j: int, q: int, l: nat)
    requires j <= q < |ts|
    ensures |TopOps(ts, p, j, l)| <= |TopOps(ts, p, q, l)|
    decreases q - j
  {
    if j < q {
      TopOpsGrow(ts, p, j, q - 1, l);
    }
  }

  /** `ScanRange` against `TopOps`: the buckets are exactly the operators outside
      every parenthesis pair, level by level and in order; a stray token is a
      depth-0 token that is neither an operator nor a literal (a register name,
      say); and when there is no stray token and no level holds more than ten
      operators, the scan succeeds. */
  lemma ScanRangeSpec(ts: seq<Token>, p: nat, q: int)
    requires q < |ts| && p <= q + 1
    ensures ScanMeans(ts, p, q, ScanRange(ts, p, q))
    ensures NoStray(ts, p, q) && (forall l :: 0 <= l < NrPrior ==> |TopOps(ts, p, q, l)| <= LevelCap) ==>
      ScanRange(ts, p, q).Buckets?
  {
    ScanFromSpec(ts, p, p, q, 0, NoOps);
  }

  /** `MainOp` picks the highest non-empty level, its last entry on levels 1-4 and
      its first on level 0, and finds nothing only when every level is empty. */
  lemma {:induction false} MainOpSpec(ops: seq<seq<nat>>, l: nat)
    requires |ops| == NrPrior && l < NrPrior
    ensures MainOp(ops, l).None? <==> forall m :: 0 <= m <= l ==> ops[m] == []
    ensures MainOp(ops, l).Some? ==>
      var (m, x) := MainOp(ops, l).value;
      && m <= l && ops[m] != []
      && (forall j :: m < j <= l ==> ops[j] == [])
      && x == if m > 0 then ops[m][|ops[m]| - 1] else ops[m][0]
    decreases l
  {
    if ops[l] == [] && l > 0 {
      MainOpSpec(ops, l - 1);
    }
  }

  /** Token `op` of `p..q` is the operator `eval` splits at, described without the
      scan: it lies outside every parenthesis pair, no such operator has a higher
      level, and among those of its level it is the last (levels 1-4, left
      associative) or the first (level 0, the prefix operators). */
  ghost predicate Dominant(ts: seq<Token>, p: nat, q: int, l: nat, op: nat)
    requires q < |ts|
  {
    && p <= op <= q && AtTop(ts, p, op) && Level(ts[op].kind) == Some(l)
    && (forall x :: p <= x <= q && AtTop(ts, p, x) && Level(ts[x].kind).Some? ==> Level(ts[x].kind).value <= l)
    && (forall x :: p <= x <= q && AtTop(ts, p, x) && Level(ts[x].kind) == Some(l) ==> if l > 0 then x <= op else op <= x)
  }

  /** A depth-0 operator of `p..q` is in the bucket of its level. */
  lemma InBucket(ts: seq<Token>, p: nat, q: int, ops: seq<seq<nat>>, x: nat)
    requires q < |ts| && p <= q + 1 && ScanRange(ts, p, q) == Buckets(ops)
    requires p <= x <= q && AtTop(ts, p, x) && Level(ts[x].kind).Some?
    ensures Level(ts[x].kind).value < |ops| && x in ops[Level(ts[x].kind).value]
  {
    ScanRangeSpec(ts, p, q);
    TopOpsMembers(ts, p, q, Level(ts[x].kind).value);
  }

  /** Bucket `l` holds depth-0 operators of level `l` only, in increasing order. */
  lemma BucketMembers(ts: seq<Token>, p: nat, q: int, ops: seq<seq<nat>>, l: nat)
    requires q < |ts| && p <= q + 1 && ScanRange(ts, p, q) == Buckets(ops) && l < NrPrior
    ensures |ops| == NrPrior
    ensures forall x :: x in ops[l] ==> p <= x <= q && AtTop(ts, p, x) && Level(ts[x].kind) == Some(l)
    ensures forall a, b :: 0 <= a < b < |ops[l]| ==> ops[l][a] < ops[l][b]
  {
    ScanRangeSpec(ts, p, q);
    TopOpsMembers(ts, p, q, l);
  }

  /** The first and last entries of an increasing list are its least and greatest. */
  lemma SortedEnds(r: seq<nat>, x: nat)
    requires forall a, b :: 0 <= a < b < |r| ==> r[a] < r[b]
    requires x in r
    ensures r[0] <= x <= r[|r| - 1]
  {
  }

  /** The operator chosen from the buckets of a successful scan is the dominant one,
      and none is chosen only when there is no operator outside the parentheses. */
  lemma DominantOperator(ts: seq<Token>, p: nat, q: int, ops: seq<seq<nat>>)
    requires q < |ts| && p <= q + 1 && ScanRange(ts, p, q) == Buckets(ops)
    ensures MainOp(ops, NrPrior - 1).None? <==>
      forall x :: p <= x <= q && AtTop(ts, p, x) ==> Level(ts[x].kind).None?
    ensures MainOp(ops, NrPrior - 1).Some? ==>
      Dominant(ts, p, q, MainOp(ops, NrPrior - 1).value.0, MainOp(ops, NrPrior - 1).value.1)
  {
    BucketMembers(ts, p, q, ops, 0);
    MainOpSpec(ops, NrPrior - 1);
    forall x | p <= x <= q && AtTop(ts, p, x) && Level(ts[x].kind).Some?
      ensures ops[Level(ts[x].kind).value] != []
    {
      InBucket(ts, p, q, ops, x);
    }
    if MainOp(ops, NrPrior - 1).Some? {
      var (l, op) := MainOp(ops, NrPrior - 1).value;
      BucketMembers(ts, p, q, ops, l);
      forall x | p <= x <= q && AtTop(ts, p, x) && Level(ts[x].kind) == Some(l)
        ensures if l > 0 then x <= op else op <= x
      {
        InBucket(ts, p, q, ops, x);
        SortedEnds(ops[l], x);
      }
    } else {
      forall x | p <= x <= q && AtTop(ts, p, x)
        ensures Level(ts[x].kind).None?
      {
        if Level(ts[x].kind).Some? {
          InBucket(ts, p, q, ops, x);
        }
      }
    }
  }

  // ================================================================ eval

  /** A single-token range: anything but an operand (a decimal or hex numeral or
      a register name) aborts. A decimal numeral gives its `atoi` value, which is
      undefined beyond the `int` range; a hex numeral its `strtol` value; a
      register the oracle's value stored in an `int`, or 0 when the oracle does
      not know the name after the `$`. */
  lemma SingleToken(ts: seq<Token>, p: nat, regs: Regs, mem: Mem)
    requires p < |ts|
    ensures Eval(ts, p, p, regs, mem).Aborted? <==> ts[p].kind != Decimal && ts[p].kind != Hex && ts[p].kind != RegName
    ensures ts[p].kind == Decimal ==>
      Eval(ts, p, p, regs, mem) == if Atoi(ts[p].text) <= IntMax then Done(Atoi(ts[p].text)) else Undefined
    ensures ts[p].kind == Hex ==> Eval(ts, p, p, regs, mem) == Done(StrtolHex(ts[p].text))
    ensures ts[p].kind == RegName ==>
      Eval(ts, p, p, regs, mem) ==
        match regs(if ts[p].text == [] then [] else ts[p].text[1..])
        case Some(v) => Done(ToInt32(v))
        case None => Done(0)
  {
  }

  /** A decimal numeral evaluates to the number it spells, for every `int` value. */
  lemma EvalDecimal(n: nat, regs: Regs, mem: Mem)
    requires n <= IntMax
    ensures Eval([Token(Decimal, DecimalText(n))], 0, 0, regs, mem) == Done(n)
  {
    AtoiDecimalText(n);
  }

  /** Every `0x` numeral of a value within `long` evaluates to that value. */
  lemma EvalHex(n: nat, regs: Regs, mem: Mem)
    requires n <= LongMax
    ensures Eval([Token(Hex, "0x" + HexText(n))], 0, 0, regs, mem) == Done(n)
  {
    StrtolHexText(n);
  }

  /** A register name outside the parentheses of a range of several tokens that is
      not stripped as a whole leaves the range without a value: the scan treats it
      as a stray token (or stops earlier at an 11th operator). */
  lemma RegisterAtTop(ts: seq<Token>, p: nat, q: nat, j: nat, regs: Regs, mem: Mem)
    requires p < q < |ts| && CheckParentheses(ts, p, q) != Done(true)
    requires p <= j <= q && AtTop(ts, p, j) && ts[j].kind == RegName
    ensures !Eval(ts, p, q, regs, mem).Done?
  {
    ScanRangeSpec(ts, p, q);
  }

  /** Where a range of several tokens that is not stripped as a whole is split:
      at its dominant operator when the scan succeeds and finds one. */
  ghost predicate SplitsAt(ts: seq<Token>, p: nat, q: nat, l: nat, op: nat)
    requires p < q < |ts|
  {
    && CheckParentheses(ts, p, q) == Done(false)
    && ScanRange(ts, p, q).Buckets?
    && MainOp(ScanRange(ts, p, q).ops, NrPrior - 1) == Some((l, op))
  }

  /** A range of several tokens that is not stripped and whose scan finds an
      operator is split at it: a prefix operator applies to the tokens after it,
      a binary one to the tokens on either side. */
  lemma EvalSplit(ts: seq<Token>, p: nat, q: nat, l: nat, op: nat, regs: Regs, mem: Mem)
    requires p < q < |ts| && SplitsAt(ts, p, q, l, op)
    ensures op <= q
    ensures l == 0 ==> Eval(ts, p, q, regs, mem) == Unary(ts[op].kind, Eval(ts, op + 1, q, regs, mem), mem)
    ensures l > 0 ==> Eval(ts, p, q, regs, mem) == Binary(ts[op].kind, Eval(ts, p, op - 1, regs, mem), Eval(ts, op + 1, q, regs, mem))
  {
  }

  /** The operator a range is split at is its dominant operator. */
  lemma SplitIsDominant(ts: seq<Token>, p: nat, q: nat, l: nat, op: nat)
    requires p < q < |ts| && SplitsAt(ts, p, q, l, op)
    ensures Dominant(ts, p, q, l, op)
  {
    DominantOperator(ts, p, q, ScanRange(ts, p, q).ops);
  }

  /** A prefix operator has a value only when its operand has one: `Neg` negates
      it, `Deref` reads the 4-byte word at it as a 32-bit address; `Ref` (never
      produced by the marking pass) aborts. */
  lemma UnaryValue(k: Kind, o: Outcome<int>, mem: Mem)
    ensures Unary(k, o, mem).Done? ==> o.Done? && (k == Pos || k == Neg || k == Deref)
    ensures o.Done? && k == Neg && ToInt32(o.value) != IntMin ==> Unary(k, o, mem) == Done(-ToInt32(o.value))
    ensures o.Done? && k == Deref ==> Unary(k, o, mem) == Done(mem(ToUint32(ToInt32(o.value))))
    ensures Unary(k, o, mem).Done? ==> IsInt32(Unary(k, o, mem).value) || k == Deref
  {
  }

  /** A binary operator has a value only when BOTH operands have one (`0 && x`
      still evaluates `x`), and the value is the C `int` result of the operator on
      the operands' values: `==`, `!=`, `&&` and `||` give 0 or 1. Conversely,
      with both values at hand the comparisons and logical operators always give
      a value, arithmetic gives its result when it fits an `int` and is undefined
      otherwise, and division by zero is undefined; a missing left value ends
      the operation as that operand did, and then a missing right one. */
  lemma BinaryValue(k: Kind, a: Outcome<int>, b: Outcome<int>)
    ensures Binary(k, a, b).Done? ==>
      var v := Binary(k, a, b).value;
      var x := ToInt32(a.value);
      var y := ToInt32(b.value);
      && a.Done? && b.Done? && IsInt32(v)
      && (k == Plus ==> v == x + y)
      && (k == Minus ==> v == x - y)
      && (k == Star ==> v == x * y)
      && (k == Slash ==> y != 0 && v == CDiv(x, y))
      && (k == Eq ==> (v == 1 <==> x == y) && (v == 0 || v == 1))
      && (k == Neq ==> (v == 1 <==> x != y) && (v == 0 || v == 1))
      && (k == And ==> (v == 1 <==> x != 0 && y != 0) && (v == 0 || v == 1))
      && (k == Or ==> (v == 1 <==> x != 0 || y != 0) && (v == 0 || v == 1))
    ensures Binary(k, a, b).Done? ==> k in {Plus, Minus, Star, Slash, Eq, Neq, And, Or}
    ensures !a.Done? ==> Binary(k, a, b) == a
    ensures a.Done? && !b.Done? ==> Binary(k, a, b) == b
    ensures a.Done? && b.Done? ==>
      var x := ToInt32(a.value);
      var y := ToInt32(b.value);
      && (k in {Eq, Neq, And, Or} ==> Binary(k, a, b).Done?)
      && (k == Plus ==> Binary(k, a, b) == if IsInt32(x + y) then Done(x + y) else Undefined)
      && (k == Minus ==> Binary(k, a, b) == if IsInt32(x - y) then Done(x - y) else Undefined)
      && (k == Star ==> Binary(k, a, b) == if IsInt32(x * y) then Done(x * y) else Undefined)
      && (k == Slash && y == 0 ==> Binary(k, a, b) == Undefined)
      && (k == Slash && y != 0 ==> Binary(k, a, b) == if IsInt32(CDiv(x, y)) then Done(CDiv(x, y)) else Undefined)
  {
  }

  // ================================================================ worked examples

  /** `(1)+(2)`: the first and last tokens are parentheses and the count over the
      range is zero, so the check strips them although they do not enclose the
      whole range; what remains, `1)+(2`, has no operator at depth 0 and aborts. */
  lemma ParenthesesQuirk(regs: Regs, mem: Mem)
    ensures var ts := [Token(LParen, "("), Token(Decimal, "1"), Token(RParen, ")"), Token(Plus, "+"),
                       Token(LParen, "("), Token(Decimal, "2"), Token(RParen, ")")];
      && CheckParentheses(ts, 0, 6) == Done(true)
      && Eval(ts, 0, 6, regs, mem) == Aborted
  {
    var ts := [Token(LParen, "("), Token(Decimal, "1"), Token(RParen, ")"), Token(Plus, "+"),
               Token(LParen, "("), Token(Decimal, "2"), Token(RParen, ")")];
    assert ScanRange(ts, 1, 5) == Buckets(NoOps);
    assert Eval(ts, 1, 5, regs, mem) == Aborted;
  }

  /** `--2` after the marking pass is `Neg Minus 2`: the split is at the binary
      minus and its left operand, the lone `Neg`, aborts. */
  lemma DoubleMinus(regs: Regs, mem: Mem)
    ensures Eval(Disambiguated([Token(Minus, "-"), Token(Minus, "-"), Token(Decimal, "2")]), 0, 2, regs, mem) == Aborted
  {
    DoubleMinusMarking();
    var ts := [Token(Neg, "-"), Token(Minus, "-"), Token(Decimal, "2")];
    var o0 := NoOps[0 := NoOps[0] + [0]];
    var o1 := o0[2 := o0[2] + [1]];
    assert ScanFrom(ts, 2, 2, 0, o1) == Buckets(o1);
    assert ScanFrom(ts, 1, 2, 0, o0) == Buckets(o1);
    assert ScanRange(ts, 0, 2) == Buckets(o1);
    assert MainOp(o1, NrPrior - 1) == Some((2, 1));
    assert Eval(ts, 0, 0, regs, mem) == Aborted;
  }

  /** `0 && 1/0`: the left operand is 0, but the right one is still evaluated and
      its division by zero is undefined behaviour. */
  lemma NoShortCircuit(regs: Regs, mem: Mem)
    ensures var ts := [Token(Decimal, "0"), Token(And, "&&"), Token(Decimal, "1"), Token(Slash, "/"), Token(Decimal, "0")];
      && Eval(ts, 0, 0, regs, mem) == Done(0)
      && Eval(ts, 0, 4, regs, mem) == Undefined
  {
    var ts := [Token(Decimal, "0"), Token(And, "&&"), Token(Decimal, "1"), Token(Slash, "/"), Token(Decimal, "0")];
    NoShortCircuitRight(ts, regs, mem);
    NoShortCircuitSplit(ts);
    EvalSplit(ts, 0, 4, 4, 1, regs, mem);
  }

  /** The right operand of `0 && 1/0`. */
  lemma NoShortCircuitRight(ts: seq<Token>, regs: Regs, mem: Mem)
    requires ts == [Token(Decimal, "0"), Token(And, "&&"), Token(Decimal, "1"), Token(Slash, "/"), Token(Decimal, "0")]
    ensures Eval(ts, 2, 4, regs, mem) == Undefined
  {
    var r1 := NoOps[1 := NoOps[1] + [3]];
    assert ScanFrom(ts, 4, 4, 0, r1) == Buckets(r1);
    assert ScanRange(ts, 2, 4) == Buckets(r1);
    assert MainOp(r1, NrPrior - 1) == Some((1, 3));
    EvalSplit(ts, 2, 4, 1, 3, regs, mem);
  }

  /** Where `NoShortCircuit` splits its whole range. */
  lemma NoShortCircuitSplit(ts: seq<Token>)
    requires ts == [Token(Decimal, "0"), Token(And, "&&"), Token(Decimal, "1"), Token(Slash, "/"), Token(Decimal, "0")]
    ensures SplitsAt(ts, 0, 4, 4, 1)
  {
    var o4 := NoOps[4 := NoOps[4] + [1]];
    var o1 := o4[1 := o4[1] + [3]];
    assert ScanFrom(ts, 4, 4, 0, o1) == Buckets(o1);
    assert ScanFrom(ts, 2, 4, 0, o4) == Buckets(o1);
    assert ScanRange(ts, 0, 4) == Buckets(o1);
    assert MainOp(o1, NrPrior - 1) == Some((4, 1));
  }

  /** A character no rule matches makes `expr` report failure without evaluating. */
  lemma UnknownCharacter(regs: Regs, mem: Mem)
    ensures Lex("#") == Done(NoMatchAt(0))
    ensures ExprSpec("#", regs, mem) == Done(NoMatch)
  {
    assert "#"[0..] == "#";
    forall j | 0 <= j < RuleCount
      ensures Patterns()(j, "#") == 0
    {
      assert Patterns()(j, "#") == MatchLen(Rule(j), "#");
    }
    NoRuleNoMatch(Patterns(), "#", 0);
    LexFollowsFirstMatch(Patterns(), "#", 0, [], 0);
  }
}
