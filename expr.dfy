/** The debugger's expression engine: an ordered rule table and a tokenizer that
    fills a 32-slot token buffer, an in-place pass that marks unary `-` and `*`,
    and the recursive evaluator that strips enclosing parentheses or splits a
    token range at its dominant operator. Register and memory reads are oracle
    parameters. */
module Expr {
  import opened CInt

  // ================================================================ tokens

  datatype Kind =
    | Plus | Minus | Star | Slash | LParen | RParen  // '+' '-' '*' '/' '(' ')'
    | NoType                                        // a run of spaces, never emitted
    | Eq | Neq | And | Or                           // == != && ||
    | Hex | Decimal | RegName                       // operands
    | Pos | Neg | Ref | Deref                       // unary operators (Pos, Ref: never produced)

  datatype Token = Token(kind: Kind, text: string)

  /** Capacity of the token buffer and of each token's text buffer. */
  const MaxTokens: nat := 32
  const TextCap: nat := 32

  /** Register oracle: `isa_reg_str2val`, None when the name is unknown. */
  type Regs = string -> Option<int>
  /** Memory oracle: `vaddr_read(addr, 4)`. */
  type Mem = int -> int

  datatype Option<+T> = None | Some(value: T)

  // ================================================================ rule table

  /** Number of rules in the table. */
  const RuleCount: nat := 14

  /** The kind produced by rule `i`, in table order. */
  function Rule(i: nat): Kind
    requires i < RuleCount
  {
    if i == 0 then Plus else if i == 1 then Minus else if i == 2 then Star
    else if i == 3 then Slash else if i == 4 then LParen else if i == 5 then RParen
    else if i == 6 then NoType else if i == 7 then Eq else if i == 8 then Neq
    else if i == 9 then And else if i == 10 then Or else if i == 11 then Hex
    else if i == 12 then Decimal else RegName
  }

  predicate StartsWith(s: string, c: char) {
    |s| >= 1 && s[0] == c
  }

  predicate StartsWith2(s: string, c: char, d: char) {
    |s| >= 2 && s[0] == c && s[1] == d
  }

  /** Length of the run of spaces at the start of `s`. */
  function SpaceRun(s: string): (n: nat)
    ensures n <= |s|
    ensures forall i :: 0 <= i < n ==> s[i] == ' '
    ensures n < |s| ==> s[n] != ' '
  {
    if s != [] && s[0] == ' ' then 1 + SpaceRun(s[1..]) else 0
  }

  /** The two-character register names after `$` in the pattern
      `\$(\$0|ra|sp|gp|tp|t[0-6]|s[0-9]|s1[01]|a[0-7])`. */
  predicate ShortRegister(a: char, b: char) {
    (a == '$' && b == '0') || (a == 'r' && b == 'a') || (a == 's' && b == 'p') ||
    (a == 'g' && b == 'p') || (a == 't' && b == 'p') ||
    (a == 't' && '0' <= b <= '6') || (a == 's' && '0' <= b <= '9') || (a == 'a' && '0' <= b <= '7')
  }

  /** Longest match of the register pattern at the start of `s`: the POSIX
      leftmost-longest rule makes `$s10` match `s1[01]` rather than `s[0-9]`. */
  function RegisterLen(s: string): nat {
    if |s| >= 4 && s[0] == '$' && s[1] == 's' && s[2] == '1' && (s[3] == '0' || s[3] == '1') then 4
    else if |s| >= 3 && s[0] == '$' && ShortRegister(s[1], s[2]) then 3
    else 0
  }

  /** Length of the longest match of the pattern of rule `k` anchored at the start
      of `s`; 0 when it does not match there (no pattern matches the empty string). */
  function MatchLen(k: Kind, s: string): (n: nat)
    ensures n <= |s|
  {
    match k
    case Plus => if StartsWith(s, '+') then 1 else 0
    case Minus => if StartsWith(s, '-') then 1 else 0
    case Star => if StartsWith(s, '*') then 1 else 0
    case Slash => if StartsWith(s, '/') then 1 else 0
    case LParen => if StartsWith(s, '(') then 1 else 0
    case RParen => if StartsWith(s, ')') then 1 else 0
    case NoType => SpaceRun(s)
    case Eq => if StartsWith2(s, '=', '=') then 2 else 0
    case Neq => if StartsWith2(s, '!', '=') then 2 else 0
    case And => if StartsWith2(s, '&', '&') then 2 else 0
    case Or => if StartsWith2(s, '|', '|') then 2 else 0
    case Hex => if StartsWith2(s, '0', 'x') && HexRun(s[2..]) > 0 then 2 + HexRun(s[2..]) else 0
    case Decimal => DigitRun(s)
    case RegName => RegisterLen(s)
    case Pos => 0
    case Neg => 0
    case Ref => 0
    case Deref => 0
  }

  /** The compiled rule table `re[]`: `re(i, s)` is the length of the match of
      rule `i` that `regexec` reports at the very start of `s`, 0 when it reports
      none starting there. */
  type Matcher = (nat, string) -> nat

  /** A match never reaches past the text it is found in. */
  ghost predicate WellFormed(re: Matcher) {
    forall i, s :: re(i, s) <= |s|
  }

  /** The rule table compiled: rule `i` matched by its longest-match function. */
  function Patterns(): (re: Matcher)
    ensures WellFormed(re)
  {
    (i: nat, s: string) => if i < RuleCount then MatchLen(Rule(i), s) else 0
  }

  // ================================================================ tokenizer

  /** What `make_token` leaves behind: the tokens, or the position where no rule matched. */
  datatype Lexed = Tokens(toks: seq<Token>) | NoMatchAt(position: nat)

  /** A C string: no NUL before its terminator. */
  predicate IsCString(s: string) {
    forall i :: 0 <= i < |s| ==> s[i] != '\0'
  }

  /** Tokenizing `e` with the compiled rules `re` from `pos`, with `done` already in
      the buffer and the rules before index `i` already found not to match at `pos`. */
  function LexFrom(re: Matcher, e: string, pos: nat, done: seq<Token>, i: nat): Outcome<Lexed>
    requires WellFormed(re) && pos <= |e| && i <= RuleCount
    decreases |e| - pos, RuleCount - i
  {
    if pos == |e| then Done(Tokens(done))
    else if i == RuleCount then Done(NoMatchAt(pos))
    else
      var n := re(i, e[pos..]);
      if n == 0 then LexFrom(re, e, pos, done, i + 1)
      else if Rule(i) == NoType then LexFrom(re, e, pos + n, done, 0)
      else if |done| >= MaxTokens then Aborted      // assert(nr_token < 32)
      else if n >= TextCap then Undefined           // strncpy past the 32-byte text
      else LexFrom(re, e, pos + n, done + [Token(Rule(i), e[pos..pos + n])], 0)
  }

  /** The tokenization of `e` by the rule table. */
  function Lex(e: string): Outcome<Lexed> {
    LexFrom(Patterns(), e, 0, [], 0)
  }

  /** What `make_token` reports: true when every character was consumed. */
  function LexStatus(o: Outcome<Lexed>): Outcome<bool> {
    match o
    case Done(l) => Done(l.Tokens?)
    case Aborted => Aborted
    case Undefined => Undefined
  }

  /** The inner loop of `make_token`: the index of the first rule, in table order,
      whose match starts at `position`, or `RuleCount` when there is none. */
  method TryRules(re: Matcher, e: string, position: nat, ghost done: seq<Token>) returns (i: nat)
    requires WellFormed(re) && position < |e|
    ensures i <= RuleCount
    ensures i < RuleCount ==> re(i, e[position..]) > 0
    ensures forall j :: 0 <= j < i ==> re(j, e[position..]) == 0
    ensures LexFrom(re, e, position, done, i) == LexFrom(re, e, position, done, 0)
  {
    i := 0;
    while i < RuleCount && re(i, e[position..]) == 0
      invariant i <= RuleCount
      invariant forall j :: 0 <= j < i ==> re(j, e[position..]) == 0
      invariant LexFrom(re, e, position, done, i) == LexFrom(re, e, position, done, 0)
    {
      i := i + 1;
    }
  }

  /** `make_token`: scans `e` left to right with the compiled rules `re`, trying
      them in table order at each position, and fills `tokens[..n]`. */
  method MakeToken(re: Matcher, e: string, tokens: array<Token>) returns (r: Outcome<bool>, n: nat)
    requires WellFormed(re) && IsCString(e) && tokens.Length == MaxTokens
    modifies tokens
    ensures r == LexStatus(LexFrom(re, e, 0, [], 0))
    ensures r == Done(true) ==> n <= MaxTokens && tokens[..n] == LexFrom(re, e, 0, [], 0).value.toks
  {
    var position := 0;
    n := 0;
    ghost var done: seq<Token> := [];
    ghost var whole := LexFrom(re, e, 0, [], 0);
    while position < |e|
      invariant position <= |e| && n == |done| <= MaxTokens
      invariant tokens[..n] == done
      invariant LexFrom(re, e, position, done, 0) == whole
      decreases |e| - position
    {
      var i := TryRules(re, e, position, done);
      if i == RuleCount {
        return Done(false), n;
      }
      var len := re(i, e[position..]);
      if Rule(i) != NoType {
        if n >= MaxTokens {
          return Aborted, n;
        }
        if len >= TextCap {
          return Undefined, n;
        }
        var tok := Token(Rule(i), e[position..position + len]);
        tokens[n] := tok;
        done := done + [tok];
        n := n + 1;
      }
      position := position + len;
    }
    r := Done(true);
  }

  // ================================================================ unary marking

  /** `require_unary_op`: after these kinds a `-` or `*` is a prefix operator. */
  predicate RequireUnaryOp(k: Kind) {
    k == Plus || k == Minus || k == Star || k == Slash || k == LParen
  }

  /** The kind a token gets from the marking pass, given the (already marked) kind
      of the token before it, None for the first token. */
  function Reclassify(k: Kind, prev: Option<Kind>): Kind {
    if (k == Minus || k == Star) && (prev.None? || RequireUnaryOp(prev.value)) then
      if k == Minus then Neg else Deref
    else k
  }

  /** The token sequence after the marking pass in `expr`. */
  function Disambiguated(ts: seq<Token>): (r: seq<Token>)
    ensures |r| == |ts|
    decreases |ts|
  {
    if ts == [] then []
    else
      var r := Disambiguated(ts[..|ts| - 1]);
      var last := ts[|ts| - 1];
      r + [Token(Reclassify(last.kind, if r == [] then None else Some(r[|r| - 1].kind)), last.text)]
  }

  /** The marking loop of `expr`: rewrites the kinds of `tokens[..n]` in place. */
  method Disambiguate(tokens: array<Token>, n: nat)
    requires n <= tokens.Length
    modifies tokens
    ensures tokens[..n] == Disambiguated(old(tokens[..n]))
    ensures tokens[n..] == old(tokens[n..])
  {
    ghost var orig := tokens[..n];
    for i := 0 to n
      invariant tokens[..i] == Disambiguated(orig[..i])
      invariant tokens[i..] == old(tokens[i..])
    {
      assert orig[..i + 1][..i] == orig[..i];
      var prev := if i == 0 then None else Some(tokens[i - 1].kind);
      if tokens[i].kind == Minus && (i == 0 || RequireUnaryOp(tokens[i - 1].kind)) {
        tokens[i] := tokens[i].(kind := Neg);
      }
      if tokens[i].kind == Star && (i == 0 || RequireUnaryOp(tokens[i - 1].kind)) {
        tokens[i] := tokens[i].(kind := Deref);
      }
      assert tokens[i] == Token(Reclassify(orig[i].kind, prev), orig[i].text);
      assert tokens[..i + 1] == tokens[..i] + [tokens[i]];
    }
    assert orig[..n] == orig;
  }

  // ================================================================ evaluator

  function ParenDelta(k: Kind): int {
    if k == LParen then 1 else if k == RParen then -1 else 0
  }

  /** Net parenthesis count over tokens `p..q` (0 when the range is empty). */
  function Balance(ts: seq<Token>, p: int, q: int): int
    requires 0 <= p && q < |ts|
    decreases q - p
  {
    if p > q then 0 else Balance(ts, p, q - 1) + ParenDelta(ts[q].kind)
  }

  /** `check_parentheses(p, q)`: Done(true) to strip the outer pair, Aborted when
      the outer tokens are parentheses but the count over the range is not zero. */
  function CheckParentheses(ts: seq<Token>, p: nat, q: nat): Outcome<bool>
    requires p <= q < |ts|
  {
    if ts[p].kind != LParen || ts[q].kind != RParen then Done(false)
    else if Balance(ts, p, q) != 0 then Aborted
    else Done(true)
  }

  /** Number of precedence levels and the room for operators on each. */
  const NrPrior: nat := 5
  const LevelCap: nat := 10

  /** Precedence level of an operator: 0 unary, 1 `* /`, 2 `+ -`, 3 `== !=`, 4 `&& ||`. */
  function Level(k: Kind): Option<nat> {
    match k
    case Pos => Some(0)
    case Neg => Some(0)
    case Ref => Some(0)
    case Deref => Some(0)
    case Star => Some(1)
    case Slash => Some(1)
    case Plus => Some(2)
    case Minus => Some(2)
    case Eq => Some(3)
    case Neq => Some(3)
    case And => Some(4)
    case Or => Some(4)
    case _ => None
  }

  /** Token `j` of the range starting at `p` is outside every parenthesis pair
      and is not itself a parenthesis. */
  predicate AtTop(ts: seq<Token>, p: nat, j: nat)
    requires j < |ts|
  {
    ts[j].kind != LParen && ts[j].kind != RParen && Balance(ts, p, j - 1) == 0
  }

  /** How the dominant-operator scan ends: the buckets of operator indices per
      level, a stray depth-0 token (`assert(0)`), or an 11th operator on a level. */
  datatype Scan = Buckets(ops: seq<seq<nat>>) | Stray(at: nat) | Overflow

  predicate IsLiteral(k: Kind) {
    k == Decimal || k == Hex
  }

  /** The scan loop of `eval` from token `i` on, at paren depth `depth`, with the
      buckets filled so far. */
  function ScanFrom(ts: seq<Token>, i: nat, q: int, depth: int, ops: seq<seq<nat>>): (r: Scan)
    requires q < |ts| && |ops| == NrPrior
    ensures r.Buckets? ==> |r.ops| == NrPrior
    ensures r.Buckets? ==> forall l, x :: 0 <= l < NrPrior && x in r.ops[l] ==> x in ops[l] || i <= x <= q
    decreases q - i
  {
    if i > q then Buckets(ops)
    else
      var k := ts[i].kind;
      if k == LParen then ScanFrom(ts, i + 1, q, depth + 1, ops)
      else if k == RParen then ScanFrom(ts, i + 1, q, depth - 1, ops)
      else if depth != 0 then ScanFrom(ts, i + 1, q, depth, ops)
      else if Level(k).Some? then
        var l := Level(k).value;
        if |ops[l]| >= LevelCap then Overflow
        else ScanFrom(ts, i + 1, q, depth, ops[l := ops[l] + [i]])
      else if IsLiteral(k) then ScanFrom(ts, i + 1, q, depth, ops)
      else Stray(i)
  }

  const NoOps: seq<seq<nat>> := [[], [], [], [], []]

  function ScanRange(ts: seq<Token>, p: nat, q: int): (r: Scan)
    requires q < |ts|
    ensures r.Buckets? ==> |r.ops| == NrPrior
    ensures r.Buckets? ==> forall l, x :: 0 <= l < NrPrior && x in r.ops[l] ==> p <= x <= q
  {
    ScanFrom(ts, p, q, 0, NoOps)
  }

  /** The level and index of the main operator: the highest non-empty level at or
      below `l`, its last entry on levels 1-4 and its first on level 0. */
  function MainOp(ops: seq<seq<nat>>, l: nat): (r: Option<(nat, nat)>)
    requires |ops| == NrPrior && l < NrPrior
    ensures r.Some? ==> r.value.0 <= l && r.value.1 in ops[r.value.0]
    decreases l
  {
    if |ops[l]| > 0 then Some((l, if l > 0 then ops[l][|ops[l]| - 1] else ops[l][0]))
    else if l == 0 then None
    else MainOp(ops, l - 1)
  }

  /** A single-token range. */
  function Single(t: Token, regs: Regs): Outcome<int> {
    match t.kind
    case Decimal => var v := Atoi(t.text); if v <= IntMax then Done(v) else Undefined
    case Hex => Done(StrtolHex(t.text))
    case RegName =>
      (match regs(if t.text == [] then [] else t.text[1..])
       case Some(v) => Done(ToInt32(v))
       case None => Done(0))
    case _ => Aborted
  }

  /** A prefix operator applied to the `int` value of its operand. */
  function ApplyUnary(k: Kind, v: int, mem: Mem): Outcome<int>
    requires IsInt32(v)
  {
    match k
    case Pos => Done(v)
    case Neg => if v == IntMin then Undefined else Done(-v)
    case Deref => Done(mem(ToUint32(v)))
    case _ => Aborted
  }

  function Bool(b: bool): int {
    if b then 1 else 0
  }

  /** `int` arithmetic: a result outside the `int` range is undefined behaviour. */
  function Checked(x: int): Outcome<int> {
    if IsInt32(x) then Done(x) else Undefined
  }

  /** A binary operator applied to the `int` values of its operands. */
  function ApplyBinary(k: Kind, a: int, b: int): Outcome<int>
    requires IsInt32(a) && IsInt32(b)
  {
    match k
    case Plus => Checked(a + b)
    case Minus => Checked(a - b)
    case Star => Checked(a * b)
    case Slash => if b == 0 then Undefined else Checked(CDiv(a, b))
    case Eq => Done(Bool(a == b))
    case Neq => Done(Bool(a != b))
    case And => Done(Bool(a != 0 && b != 0))
    case Or => Done(Bool(a != 0 || b != 0))
    case _ => Aborted
  }

  /** A prefix operator applied to the outcome of evaluating its operand, which
      `eval` stores in an `int`. */
  function Unary(k: Kind, o: Outcome<int>, mem: Mem): Outcome<int> {
    match o
    case Done(v) => ApplyUnary(k, ToInt32(v), mem)
    case Aborted => Aborted
    case Undefined => Undefined
  }

  /** A binary operator applied to the outcomes of evaluating the left operand and
      then the right one, both stored in an `int`; nothing short-circuits. */
  function Binary(k: Kind, a: Outcome<int>, b: Outcome<int>): Outcome<int> {
    match a
    case Aborted => Aborted
    case Undefined => Undefined
    case Done(v1) =>
      match b
      case Aborted => Aborted
      case Undefined => Undefined
      case Done(v2) => ApplyBinary(k, ToInt32(v1), ToInt32(v2))
  }

  /** `eval(p, q)` over the token sequence `ts`; values are those of a C `long`. */
  function Eval(ts: seq<Token>, p: nat, q: int, regs: Regs, mem: Mem): Outcome<int>
    requires q < |ts|
    decreases q - p
  {
    if p > q then Aborted
    else if p == q then Single(ts[p], regs)
    else
      match CheckParentheses(ts, p, q)
      case Aborted => Aborted
      case Undefined => Undefined
      case Done(strip) =>
        if strip then Eval(ts, p + 1, q - 1, regs, mem)
        else
          match ScanRange(ts, p, q)
          case Stray(_) => Aborted
          case Overflow => Undefined
          case Buckets(ops) =>
            match MainOp(ops, NrPrior - 1)
            case None => Aborted
            case Some((l, op)) =>
              if l == 0 then Unary(ts[op].kind, Eval(ts, op + 1, q, regs, mem), mem)
              else Binary(ts[op].kind, Eval(ts, p, op - 1, regs, mem), Eval(ts, op + 1, q, regs, mem))
  }

  // ================================================================ expr

  /** What `expr` returns when it returns: the value of `eval`, or `NoMatch` when
      `make_token` failed (`*success` is then cleared and the value is 0). */
  datatype Reply = Evaluated(value: int) | NoMatch

  /** `expr(e, &success)`: tokenize, mark unary operators, evaluate all tokens. */
  function ExprSpec(e: string, regs: Regs, mem: Mem): Outcome<Reply> {
    match Lex(e)
    case Aborted => Aborted
    case Undefined => Undefined
    case Done(NoMatchAt(_)) => Done(NoMatch)
    case Done(Tokens(ts)) =>
      var d := Disambiguated(ts);
      match Eval(d, 0, |d| - 1, regs, mem)
      case Done(v) => Done(Evaluated(v))
      case Aborted => Aborted
      case Undefined => Undefined
  }

  /** `expr`, with a token buffer of its own. */
  method Expr(e: string, regs: Regs, mem: Mem) returns (r: Outcome<Reply>)
    requires IsCString(e)
    ensures r == ExprSpec(e, regs, mem)
  {
    var tokens := new Token[MaxTokens](_ => Token(NoType, []));
    var lexed, n := MakeToken(Patterns(), e, tokens);
    match lexed {
      case Aborted => return Aborted;
      case Undefined => return Undefined;
      case Done(ok) =>
        if !ok {
          return Done(NoMatch);
        }
    }
    Disambiguate(tokens, n);
    var v := Eval(tokens[..n], 0, n - 1, regs, mem);
    r := match v
      case Done(x) => Done(Evaluated(x))
      case Aborted => Aborted
      case Undefined => Undefined;
  }
}
