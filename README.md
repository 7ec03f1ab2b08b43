# NEMU debugger core, modelled in Dafny

This project models four parts of NEMU, a teaching instruction-set simulator.

- **Expression engine** of the simple debugger (`nemu/src/monitor/sdb/expr.c`).
  - A tokenizer tries an ordered table of 14 rules at each position of the input and fills a 32-slot token buffer.
  - An in-place pass marks a `-` or `*` as a prefix operator when it opens the expression or follows `+ - * / (`.
  - A recursive evaluator strips an enclosing pair of parentheses, or splits a token range at its dominant operator. The dominant operator is the last one of the lowest-binding level outside every parenthesis pair, or the first prefix operator.
  - Register and memory reads are oracle parameters.
- **Watchpoint pool** (`nemu/src/monitor/sdb/watchpoint.c`).
  - 32 records sit in a fixed array. Their `next` links thread them into an active list and a free list.
  - `new_wp`, `free_wp`, `set_wp`, `del_wp`, `watchpoint_check` and `watchpoints_display` operate on those lists.
- **Kernel library formatter** (`abstract-machine/klib/src/stdio.c`): `vsprintf` and `sprintf` with `%d`, `%s` and literal characters.
- **Instruction ring buffer** (`nemu/src/utils/tracer.c`): `IRINGBUF_SIZE` slots and a cursor on the most recent entry.

## How the model is built

Files and modules:

| file | module | contents |
|---|---|---|
| `cint.dfy` | `CInt` | C integer semantics: `int` range and wrap-around, truncating `/` and `%`; decimal and hex numerals with `atoi` and `strtol` |
| `expr.dfy` | `Expr` | tokens, rule table, tokenizer, marking pass and evaluator |
| `expr_lemmas.dfy` | `ExprLemmas` | what the tokenizer produces |
| `expr_eval.dfy` | `ExprEval` | the marking rule, the dominant-operator scan and the values of `eval` |
| `watchpoint.dfy` | `Watchpoint` | the pool as a value (`Pool`), a specification function per operation, and the class `WatchpointPool` |
| `watchpoint_lemmas.dfy` | `WatchpointLemmas` | list structure, what each operation does to the active and free lists, the deletion and check findings |
| `stdio.dfy` | `Stdio` | the format walk as a function, and `vsprintf`/`sprintf` as methods over an output array |
| `tracer.dfy` | `Tracer` | the ring as a value, and the class `InstBuffer` |

Ending outcomes (`CInt.Outcome`):

- `Done(v)`: the C code finishes with `v`.
- `Aborted`: the C code stops at a failed `assert` or a `panic`.
- `Undefined`: the C code reaches undefined behaviour:
  - division by zero;
  - signed overflow of `int`;
  - `atoi` of a numeral beyond the `int` range;
  - `strncpy` of a token text of 32 characters or more into its 32-byte buffer;
  - an 11th operator on one precedence level of `eval`'s fixed 5x10 table;
  - `va_arg` of a missing argument or one of the wrong type.

Two modelling choices:

- **Objects with state become classes.** The watchpoint pool and the ring buffer are classes.
  - Each method's `ensures` ties the new state to a specification function of the old state.
  - The lemmas are stated about those functions.
- **Lists are ghost sequences.** A list through the `next` links is described by a ghost sequence of record indices (`Watchpoint.IsList`).
  - Pointers become indices, and NULL becomes -1.

Three behaviours of the code a reader may not expect, which the model keeps:

- **Initial values after `set_wp`.** `set_wp` stores the first value in `val` only (`watchpoint.c:71`), so `oldVal` keeps what the record held before.
- **Parenthesis stripping.** `check_parentheses` (`expr.c:300-318`) looks only at the first and last tokens and the net count, so `(1)+(2)` is stripped to `1)+(2`. `ExprEval.ParenthesesQuirk` shows this.
- **The `$0` register.** The register pattern names `$0` as `\$\$0` (`expr.c:63`), so the input spelling is `$$0`. `Expr.ShortRegister` follows the pattern.

## Model

| member | source | states |
|---|---|---|
| CInt.ToInt32 | nemu/src/monitor/sdb/expr.c:191 | storing a wider value in an `int` gives an `int` congruent to it modulo 2^32, and leaves an `int` value unchanged |
| CInt.ToUint32 | nemu/src/monitor/sdb/expr.c:276 | the address passed to `vaddr_read` is a 32-bit unsigned value congruent to the `int` operand |
| CInt.CRem | abstract-machine/klib/src/stdio.c:22-23 | C's `%` with `/`: dividend = quotient * divisor + remainder, the remainder smaller than the divisor in magnitude and carrying the dividend's sign |
| CInt.CDivAgreesOnNaturals | nemu/src/utils/tracer.c:7 | on non-negative operands C's `/` and `%` agree with Euclidean division |
| CInt.DigitRun | nemu/src/monitor/sdb/expr.c:62 | the longest run of decimal digits at the start of the text: all digits, and the next character is not one |
| CInt.HexRun | nemu/src/monitor/sdb/expr.c:61 | the longest run of hex digits at the start of the text |
| CInt.DecimalText | abstract-machine/klib/src/stdio.c:21-27 | the decimal numeral of a natural: all digits, no leading zero |
| CInt.DecimalRoundTrip | nemu/src/monitor/sdb/expr.c:186 | the value of the numeral of `n` is `n` |
| CInt.AtoiDecimalText | nemu/src/monitor/sdb/expr.c:186 | `atoi` reads back every numeral `DecimalText` writes |
| CInt.StrtolHex | nemu/src/monitor/sdb/expr.c:188 | `strtol(s, NULL, 16)` gives the base-16 value of the hex digits after an optional `0x`/`0X` prefix when it fits a `long`, and `LONG_MAX` when it does not |
| CInt.HexText | nemu/src/monitor/sdb/expr.c:61 | the hex numeral of a natural, as the `0x` rule's digits: all hex digits, no leading zero |
| CInt.HexRoundTrip | nemu/src/monitor/sdb/expr.c:188 | the base-16 value of the numeral of `n` is `n` |
| CInt.StrtolHexText | nemu/src/monitor/sdb/expr.c:188 | `strtol(.., 16)` reads back `0x` followed by the numeral of every `n` up to `LONG_MAX` |
| Expr.SpaceRun | nemu/src/monitor/sdb/expr.c:56 | the match of the space rule is the maximal run of spaces |
| Expr.Patterns | nemu/src/monitor/sdb/expr.c:50-63 | the 14 rules, in table order, each matched leftmost-longest; no match reaches past the input |
| Expr.TryRules | nemu/src/monitor/sdb/expr.c:114-158 | the index of the first rule in table order that matches at the position: every rule before it fails there, and it matches (or it is 14 when none does); the tokenizer's outcome is unchanged by skipping the rules that fail |
| Expr.MatchLen | nemu/src/monitor/sdb/expr.c:50-63 | the length of the longest match of each rule's pattern at the start of the text, 0 when it does not match there; never past the text |
| Expr.LexFrom | nemu/src/monitor/sdb/expr.c:105-167 | the tokenizer as a function: at each position the rules are tried in table order; spaces are skipped; a 33rd token aborts; a token text of 32 characters or more is undefined; no matching rule stops with the position |
| Expr.Lex | nemu/src/monitor/sdb/expr.c:105-167 | tokenizing the whole input with the rule table, from an empty buffer |
| Expr.LexStatus | nemu/src/monitor/sdb/expr.c:160-166 | what `make_token` returns: true when every character was consumed, false at a position no rule matches |
| Expr.MakeToken | nemu/src/monitor/sdb/expr.c:105-167 | `make_token` returns the outcome of the tokenizer specification, with the tokens left in the buffer when it succeeds: false at a position no rule matches, an abort at a 33rd token, undefined behaviour for a token text of 32 characters or more |
| Expr.Disambiguated | nemu/src/monitor/sdb/expr.c:340-347 | the marking pass keeps the number of tokens |
| Expr.Disambiguate | nemu/src/monitor/sdb/expr.c:340-347 | the in-place loop leaves `tokens[..n]` equal to the marked sequence, and the rest of the buffer untouched |
| Expr.RequireUnaryOp | nemu/src/monitor/sdb/expr.c:321-332 | `require_unary_op`: after `+ - * / (` a `-` or `*` is a prefix operator |
| Expr.Reclassify | nemu/src/monitor/sdb/expr.c:341-346 | a `-` becomes negation and a `*` dereference when first or after a kind `require_unary_op` accepts |
| Expr.CheckParentheses | nemu/src/monitor/sdb/expr.c:300-318 | `check_parentheses`: false unless the range starts with `(` and ends with `)`; then an abort when the net count over the range is not zero, otherwise true |
| Expr.ScanFrom | nemu/src/monitor/sdb/expr.c:214-252 | the scan loop files only indices of the range into the level buckets, and keeps five buckets |
| Expr.ScanRange | nemu/src/monitor/sdb/expr.c:210-252 | every bucketed index lies in `p..q` |
| Expr.MainOp | nemu/src/monitor/sdb/expr.c:253-264 | the chosen operator comes from a bucket at or below the starting level |
| Expr.Single | nemu/src/monitor/sdb/expr.c:184-200 | the value of a one-token range: `atoi` of a decimal (undefined beyond `int`), `strtol` base 16 of a hex numeral, the register oracle cut to `int` or 0, an abort for any other token |
| Expr.ApplyUnary | nemu/src/monitor/sdb/expr.c:270-280 | a prefix operator on an `int`: `+` keeps it, negation of `INT_MIN` is undefined, dereference reads 4 bytes at the 32-bit address, anything else aborts |
| Expr.Unary | nemu/src/monitor/sdb/expr.c:269-280 | the operand's value is stored in an `int` before the prefix operator applies; a missing value is passed on |
| Expr.ApplyBinary | nemu/src/monitor/sdb/expr.c:286-296 | a binary operator on two `int`s: arithmetic overflow and division by zero are undefined, comparisons and logical operators give 0 or 1, anything else aborts |
| Expr.Binary | nemu/src/monitor/sdb/expr.c:283-296 | both operands are evaluated and stored in `int`s, left first, before the operator applies; no short-circuit |
| Expr.Eval | nemu/src/monitor/sdb/expr.c:171-298 | `eval(p, q)`: an empty range aborts; one token is `Single`; a stripped pair of parentheses recurses inside; otherwise the scan picks the main operator, a stray token aborts, an 11th operator on a level is undefined, no operator aborts, and the range is split there |
| Expr.Expr | nemu/src/monitor/sdb/expr.c:334-355 | `expr` with its own token buffer equals the specification: tokenize, mark, evaluate all tokens; a tokenizer failure reports `NoMatch` |
| Expr.ExprSpec | nemu/src/monitor/sdb/expr.c:334-355 | `expr`: a tokenizer failure reports `NoMatch`; otherwise the marked tokens are evaluated as one range |
| ExprLemmas.MatchSqueeze | nemu/src/monitor/sdb/expr.c:50-63 | only the space rule's match contains spaces, and it contains nothing else |
| ExprLemmas.PatternsSpacesOnlyByNoType | nemu/src/monitor/sdb/expr.c:50-63 | the rule table matches spaces only by the space rule |
| ExprLemmas.LexFromShape | nemu/src/monitor/sdb/expr.c:130-151 | tokens already in the buffer stay; each new one has an emitted kind and a text of 1 to 31 characters; at most 32 tokens |
| ExprLemmas.LexFromTexts | nemu/src/monitor/sdb/expr.c:112-166 | the texts of the new tokens spell the rest of the input without its spaces |
| ExprLemmas.LexTokens | nemu/src/monitor/sdb/expr.c:105-167 | a successful tokenization yields at most 32 tokens of emitted kinds, each 1 to 31 characters, whose texts spell the input without its spaces |
| ExprLemmas.LexFromNoMatch | nemu/src/monitor/sdb/expr.c:160-163 | the tokenizer stops only inside the input, at a position where no rule matches |
| ExprLemmas.LexNoMatch | nemu/src/monitor/sdb/expr.c:160-163 | `make_token` returns false exactly at a position where none of the 14 patterns matches |
| ExprLemmas.FirstRuleWins | nemu/src/monitor/sdb/expr.c:114-157 | the first matching rule in table order decides the kind and the length, whatever later rules would match |
| ExprLemmas.NoRuleNoMatch | nemu/src/monitor/sdb/expr.c:160 | there is no first match if and only if no rule matches |
| ExprLemmas.LexFollowsFirstMatch | nemu/src/monitor/sdb/expr.c:112-164 | at each position the tokenizer continues from the first matching rule's kind and length, or stops there when none matches |
| ExprEval.DisambiguatedPrefix | nemu/src/monitor/sdb/expr.c:340-347 | marking a prefix of the tokens gives the prefix of the marked sequence |
| ExprEval.DisambiguatedAt | nemu/src/monitor/sdb/expr.c:341-346 | each marked token keeps its text, and its kind follows from its own kind and the marked kind before it |
| ExprEval.MarkingRule | nemu/src/monitor/sdb/expr.c:321-347 | a `-` becomes negation and a `*` becomes dereference exactly when first or after a marked `+ - * / (`; every other kind is unchanged (both directions) |
| ExprEval.DoubleMinusMarking | nemu/src/monitor/sdb/expr.c:341-343 | in `--2` only the first `-` becomes negation, because negation is not in the list of `require_unary_op` |
| ExprEval.TopOpsMembers | nemu/src/monitor/sdb/expr.c:214-252 | the independent list of depth-0 operators of a level holds exactly those operators, in increasing order |
| ExprEval.ScanFromSpec | nemu/src/monitor/sdb/expr.c:214-252 | the scan loop ends in buckets equal to those lists, in a stray depth-0 token, or in an overflow of some level |
| ExprEval.TopOpsGrow | nemu/src/monitor/sdb/expr.c:214 | extending the range to the right never shortens an operator list |
| ExprEval.ScanRangeSpec | nemu/src/monitor/sdb/expr.c:210-252 | the scan succeeds when there is no stray token and no level holds more than ten operators, and then its buckets are the depth-0 operators per level in order |
| ExprEval.MainOpSpec | nemu/src/monitor/sdb/expr.c:253-264 | the highest non-empty level is chosen, its last entry (levels 1-4) or first (level 0); nothing is chosen if and only if every level is empty |
| ExprEval.InBucket | nemu/src/monitor/sdb/expr.c:221-244 | every depth-0 operator is in the bucket of its level |
| ExprEval.BucketMembers | nemu/src/monitor/sdb/expr.c:221-244 | a bucket holds depth-0 operators of its level only, in increasing order |
| ExprEval.DominantOperator | nemu/src/monitor/sdb/expr.c:214-266 | the operator chosen from the buckets is the dominant operator of the range; none is chosen if and only if no operator lies outside the parentheses |
| ExprEval.SingleToken | nemu/src/monitor/sdb/expr.c:184-200 | a one-token range aborts exactly when the token is not an operand; a decimal gives its `atoi` value, undefined beyond the `int` range; a hex numeral gives its `strtol` value; a register gives the oracle's value stored in an `int`, or 0 when the oracle does not know the name |
| ExprEval.EvalDecimal | nemu/src/monitor/sdb/expr.c:185-186 | a decimal numeral evaluates to the number it spells, for every non-negative `int` |
| ExprEval.EvalHex | nemu/src/monitor/sdb/expr.c:187-188 | a `0x` numeral evaluates to the number it spells, for every value up to `LONG_MAX` (`eval` returns a `long`) |
| ExprEval.RegisterAtTop | nemu/src/monitor/sdb/expr.c:245-249 | a register name outside the parentheses of a range of several tokens leaves the range without a value (the scan's `default: assert(0)`) |
| ExprEval.EvalSplit | nemu/src/monitor/sdb/expr.c:268-296 | a range split at a prefix operator applies it to the tokens after it, and one split at a binary operator applies it to both sides |
| ExprEval.SplitIsDominant | nemu/src/monitor/sdb/expr.c:253-284 | the split point is the dominant operator |
| ExprEval.UnaryValue | nemu/src/monitor/sdb/expr.c:268-281 | a prefix operator has a value only when its operand has one: negation negates it, dereference reads memory at it as a 32-bit address |
| ExprEval.BinaryValue | nemu/src/monitor/sdb/expr.c:283-296 | a binary operator has a value only when both operands have one, and it is the C `int` result; comparisons and logical operators give 0 or 1 (both directions). Conversely, with both values at hand the comparisons and logical operators always give a value, `+ - * /` give their result when it fits an `int` and are undefined otherwise, division by zero is undefined, and a missing operand value ends the operation as that operand did, the left one first |
| ExprEval.ParenthesesQuirk | nemu/src/monitor/sdb/expr.c:300-318 | `(1)+(2)` passes the parenthesis check, and the stripped range aborts |
| ExprEval.DoubleMinus | nemu/src/monitor/sdb/expr.c:268-284 | `--2` aborts: the split is at the binary minus and its left operand is a lone negation |
| ExprEval.NoShortCircuit | nemu/src/monitor/sdb/expr.c:283-293 | `0 && 1/0` is undefined behaviour: the right operand is evaluated although the left is 0 |
| ExprEval.NoShortCircuitSplit | nemu/src/monitor/sdb/expr.c:241-264 | `0 && 1/0` is split at `&&` |
| ExprEval.UnknownCharacter | nemu/src/monitor/sdb/expr.c:160-163 | a character no rule matches makes `expr` report failure without evaluating |
| Watchpoint.StaticPool | nemu/src/monitor/sdb/watchpoint.c:31-32 | the zero-initialised pool has valid links |
| Watchpoint.InitSpec | nemu/src/monitor/sdb/watchpoint.c:34-43 | `init_wp_pool` leaves valid links |
| Watchpoint.NewWpSpec | nemu/src/monitor/sdb/watchpoint.c:46-56 | `new_wp`: an empty free list aborts; otherwise the first free record is linked in front of the active list and returned |
| Watchpoint.FreeWpSpec | nemu/src/monitor/sdb/watchpoint.c:59-62 | `free_wp`: the record links to the free list and becomes its head; nothing else changes |
| Watchpoint.Stored | nemu/src/monitor/sdb/watchpoint.c:71 | what `expr` leaves in an `int` field: its `long` result cut to `int`, or 0 when tokenizing failed |
| Watchpoint.SetWpSpec | nemu/src/monitor/sdb/watchpoint.c:64-76 | `set_wp`: NULL gives false; otherwise a record is allocated, the text copied in (undefined when it does not fit 32 bytes), `val` set from `expr`, and its success flag returned |
| Watchpoint.CheckSpec | nemu/src/monitor/sdb/watchpoint.c:82-96 | `watchpoint_check` as written: the head is re-evaluated; a changed value is recorded and stops the simulator; an unchanged one spins |
| Watchpoint.CheckAllSpec | nemu/src/monitor/sdb/watchpoint.c:82-96 | the check with `curr` advancing: each active record is re-evaluated in turn until the first changed one, which is recorded and stops the simulator |
| Watchpoint.DelWpFixed | nemu/src/monitor/sdb/watchpoint.c:78-80 | the corrected deletion keeps valid links and changes only `next` links |
| Watchpoint.Pred | nemu/src/monitor/sdb/watchpoint.c:78-80 | a predecessor found for record `n` is a record whose link designates `n` |
| Watchpoint.DisplaySpec | nemu/src/monitor/sdb/watchpoint.c:98-105 | one row per record of the active list |
| Watchpoint.WatchpointPool.constructor | nemu/src/monitor/sdb/watchpoint.c:31-32 | the static pool: every record zero, both lists NULL |
| Watchpoint.WatchpointPool.InitWpPool | nemu/src/monitor/sdb/watchpoint.c:34-43 | the loop numbers and links the records as `InitSpec` says |
| Watchpoint.WatchpointPool.NewWp | nemu/src/monitor/sdb/watchpoint.c:46-56 | `new_wp` does what `NewWpSpec` says |
| Watchpoint.WatchpointPool.FreeWp | nemu/src/monitor/sdb/watchpoint.c:59-62 | `free_wp` pushes the record onto the free list |
| Watchpoint.WatchpointPool.DelWp | nemu/src/monitor/sdb/watchpoint.c:78-80 | `del_wp(n)` is `free_wp` of record `n`, with no unlinking |
| Watchpoint.WatchpointPool.SetWp | nemu/src/monitor/sdb/watchpoint.c:64-76 | `set_wp` does what `SetWpSpec` says |
| Watchpoint.WatchpointPool.WatchpointCheck | nemu/src/monitor/sdb/watchpoint.c:82-96 | `watchpoint_check` as written: the head only, spinning when its value is unchanged |
| Watchpoint.WatchpointPool.WatchpointsDisplay | nemu/src/monitor/sdb/watchpoint.c:98-105 | the loop yields one row per active record, from the head to NULL |
| Watchpoint.WatchpointPool.WatchpointCheckAll | nemu/src/monitor/sdb/watchpoint.c:82-96 | the corrected check, advancing along the active list, equals `CheckAllSpec` |
| WatchpointLemmas.Iota | nemu/src/monitor/sdb/watchpoint.c:36-39 | the free list after initialisation lists records 0 to 31 in order |
| WatchpointLemmas.ListTail | nemu/src/monitor/sdb/watchpoint.c:52 | following the first record's link gives the list of the remaining records |
| WatchpointLemmas.ListUnique | nemu/src/monitor/sdb/watchpoint.c:101-104 | the list reached from a link is unique |
| WatchpointLemmas.ListFrame | nemu/src/monitor/sdb/watchpoint.c:53 | changing the link of a record outside a list leaves the list intact |
| WatchpointLemmas.Splice | nemu/src/monitor/sdb/watchpoint.c:60 | relinking a list's record to the start of a disjoint list joins the two |
| WatchpointLemmas.Unlink | nemu/src/monitor/sdb/watchpoint.c:78-80 | relinking a record's predecessor past it removes exactly that record from the list |
| WatchpointLemmas.RemovedMembers | nemu/src/monitor/sdb/watchpoint.c:78-80 | the list without position `j` holds the other members and only them |
| WatchpointLemmas.ListLength | nemu/src/monitor/sdb/watchpoint.c:18 | a list through the pool has at most 32 records |
| WatchpointLemmas.DistinctSize | nemu/src/monitor/sdb/watchpoint.c:18 | a list without repetitions has as many distinct records as entries |
| WatchpointLemmas.InitLists | nemu/src/monitor/sdb/watchpoint.c:34-43 | after `init_wp_pool` the active list is empty, the free list is records 0 to 31 in order, and record `i` has number `i` |
| WatchpointLemmas.PushFront | nemu/src/monitor/sdb/watchpoint.c:53-54 | linking a record to the head makes it the first of the active list |
| WatchpointLemmas.PopFront | nemu/src/monitor/sdb/watchpoint.c:51-52 | advancing `free_` drops the first record of the free list |
| WatchpointLemmas.NewWpMoves | nemu/src/monitor/sdb/watchpoint.c:46-56 | an empty free list aborts with the pool unchanged; otherwise the first free record moves to the front of the active list, is returned, and only links change |
| WatchpointLemmas.SetWpAllocates | nemu/src/monitor/sdb/watchpoint.c:64-76 | NULL gives false with nothing changed; an empty free list aborts; otherwise a record moves to the front of the active list and the others are unchanged |
| WatchpointLemmas.SetWpStores | nemu/src/monitor/sdb/watchpoint.c:69-75 | the record keeps its number and old value; a text of 32 characters or more overflows its buffer; otherwise the text is stored, `val` is the stored result of `expr`, and true is returned exactly when `expr` succeeded |
| WatchpointLemmas.DisplayPush | nemu/src/monitor/sdb/watchpoint.c:98-105 | a record pushed at the head becomes the first row, above the old rows |
| WatchpointLemmas.SetWpDisplay | nemu/src/monitor/sdb/watchpoint.c:64-76 | after `set_wp` the new watchpoint is listed first by `watchpoints_display` |
| WatchpointLemmas.Disjoint | nemu/src/monitor/sdb/watchpoint.c:31-32 | no record is in both lists |
| WatchpointLemmas.DelWpAsWritten | nemu/src/monitor/sdb/watchpoint.c:78-80 | deleting active record `k` makes it the head of the free list while the active list still runs through it into the free list |
| WatchpointLemmas.CycleWalk | nemu/src/monitor/sdb/watchpoint.c:53 | in the pool after delete and re-create, walking from the head repeats the records before the deleted one |
| WatchpointLemmas.DelThenNewCycles | nemu/src/monitor/sdb/watchpoint.c:46-80 | deleting an active record and then creating a watchpoint makes the active list cyclic: no NULL-terminated list starts at the head |
| WatchpointLemmas.PredFound | nemu/src/monitor/sdb/watchpoint.c:78-80 | the search finds the record before position `j` of the active list |
| WatchpointLemmas.PredMissing | nemu/src/monitor/sdb/watchpoint.c:78-80 | the search finds nothing for a record not in the list |
| WatchpointLemmas.DelFirstLists | nemu/src/monitor/sdb/watchpoint.c:78-80 | corrected deletion of the head record: the active list loses it, and it heads the free list |
| WatchpointLemmas.DelLaterLists | nemu/src/monitor/sdb/watchpoint.c:78-80 | corrected deletion of a later record: its predecessor is relinked, and it heads the free list |
| WatchpointLemmas.DelWpFixedUnlinks | nemu/src/monitor/sdb/watchpoint.c:78-80 | corrected deletion keeps the partition: the active list without the record, and the free list with it in front |
| WatchpointLemmas.DisplayRemove | nemu/src/monitor/sdb/watchpoint.c:98-105 | removing a record from the active list removes exactly its row |
| WatchpointLemmas.DelWpFixedDisplay | nemu/src/monitor/sdb/watchpoint.c:78-105 | after corrected deletion the display shows the old rows without the deleted one |
| WatchpointLemmas.DelWpFixedIgnores | nemu/src/monitor/sdb/watchpoint.c:78-80 | corrected deletion of a record that is not active changes nothing |
| WatchpointLemmas.Recorded | nemu/src/monitor/sdb/watchpoint.c:90-92 | a trigger stops the simulator and moves the previous value into `oldVal` |
| WatchpointLemmas.CheckAllMeaning | nemu/src/monitor/sdb/watchpoint.c:82-96 | the corrected check never spins; it reports no change exactly when every active record holds its value (NoWatch exactly for an empty list), leaving the pool unchanged; otherwise it ends at the first record that does not hold its value: a changed value triggers there and is recorded, and an expression that aborts or is undefined ends the check the same way with the pool unchanged |
| WatchpointLemmas.CheckAllTriggers | nemu/src/monitor/sdb/watchpoint.c:82-96 | from any position of the active list the corrected check never spins, reports no change exactly when every record from there holds its value, and a trigger names and records the first changed record |
| WatchpointLemmas.CheckAllStops | nemu/src/monitor/sdb/watchpoint.c:82-96 | from any position, the corrected check ends as the first record that does not hold its value says: triggered and recorded when it changed, aborted or undefined with the pool unchanged when its expression is |
| WatchpointLemmas.CheckMissesLater | nemu/src/monitor/sdb/watchpoint.c:82-96 | with an unchanged head and a changed second record, the check as written spins while the corrected one triggers on the second |
| Stdio.DecText | abstract-machine/klib/src/stdio.c:18-27 | the `%d` text is non-empty and holds no terminator |
| Stdio.StrLen | abstract-machine/klib/src/stdio.c:46 | `strlen` counts up to the first terminator |
| Stdio.Render | abstract-machine/klib/src/stdio.c:12-47 | the format walk: literal characters are copied, `%d` writes the `int` argument's text, `%s` the string argument; the walk ends at the terminator, aborts at any other directive (a trailing `%` included), and is undefined at a missing or mistyped argument |
| Stdio.FillDigits | abstract-machine/klib/src/stdio.c:18-24 | the digit loop leaves `DecText(num)`, reversed, in a fresh 20-character buffer |
| Stdio.WriteDec | abstract-machine/klib/src/stdio.c:17-29 | `%d` appends `DecText(num)` to the output and leaves the rest of the buffer untouched |
| Stdio.WriteStr | abstract-machine/klib/src/stdio.c:30-36 | `%s` appends the argument's characters up to its terminator and leaves the rest of the buffer untouched |
| Stdio.Vsprintf | abstract-machine/klib/src/stdio.c:12-47 | the output holds the rendered text, then a terminator when the format ends; another directive panics; a missing or mistyped argument is undefined; the result is 0; the rest of the buffer is untouched |
| Stdio.Sprintf | abstract-machine/klib/src/stdio.c:49-55 | as `vsprintf`, but the result is the length of the rendered text |
| Stdio.FirstDigit | abstract-machine/klib/src/stdio.c:21-24 | the first round of the digit loop writes the last character of the `%d` text |
| Stdio.NextDigit | abstract-machine/klib/src/stdio.c:21-24 | each later round takes the last digit still pending |
| Stdio.DecTextShort | abstract-machine/klib/src/stdio.c:19 | an `int` gives at most ten characters, so the 20-character buffer suffices |
| Stdio.RenderNoNul | abstract-machine/klib/src/stdio.c:45-54 | the rendered text holds no terminator, so `strlen` of the whole output is its length |
| Stdio.RenderLiteral | abstract-machine/klib/src/stdio.c:41-42 | a format without `%` is copied unchanged and reads no argument |
| Stdio.DecTextRoundTrip | abstract-machine/klib/src/stdio.c:17-29 | `%d` of a non-negative number writes its decimal numeral, which `atoi` reads back; 0 gives "0" |
| Stdio.NegativeDecAsWritten | abstract-machine/klib/src/stdio.c:21-24 | `%d` of a negative number writes a single character, never its signed numeral; -5 gives "+" |
| Stdio.SignedText | abstract-machine/klib/src/stdio.c:17-29 | the corrected `%d` text is non-empty and holds no terminator |
| Stdio.SignedRoundTrip | abstract-machine/klib/src/stdio.c:17-29 | the corrected `%d` text is a signed numeral that reads back as the number, negative or not |
| Stdio.SignedAgrees | abstract-machine/klib/src/stdio.c:17-29 | the corrected and the original `%d` agree on every non-negative number |
| Tracer.RecordAll | nemu/src/utils/tracer.c:6-9 | any number of records keeps the cursor at -1 or on a slot |
| Tracer.Advance | nemu/src/utils/tracer.c:7 | the cursor after one more record: `current + 1` modulo `IRINGBUF_SIZE` with C's remainder |
| Tracer.InitSpec | nemu/src/utils/tracer.c:19-25 | `init_iringbuf`: every slot address 0 and encoding 0, cursor -1 |
| Tracer.RecordSpec | nemu/src/utils/tracer.c:6-9 | `record_inst`: the cursor advances and the entry is stored in that slot only |
| Tracer.DisplaySpec | nemu/src/utils/tracer.c:11-17 | one line per slot |
| Tracer.AdvanceInRange | nemu/src/utils/tracer.c:7 | from -1 or a slot, the cursor moves to the next slot and wraps after the last; the first record after initialisation lands in slot 0 |
| Tracer.RingKeepsRecent | nemu/src/utils/tracer.c:6-9 | after `n` records from initialisation, the cursor is on slot `(n-1) mod size`; each of the last `size` entries `j` is in slot `j mod size`; slots not yet reached are zero |
| Tracer.ModStep | nemu/src/utils/tracer.c:7 | one more record moves to the next slot, wrapping after the last |
| Tracer.ModDistinct | nemu/src/utils/tracer.c:7-8 | records fewer than `size` apart land in different slots, so none of the last `size` entries is overwritten |
| Tracer.ModShift | nemu/src/utils/tracer.c:7 | `size` records later the same slot comes round |
| Tracer.CursorAfter | nemu/src/utils/tracer.c:7 | after `n` records from initialisation the cursor is on slot `(n-1) mod size`, or -1 for none |
| Tracer.FullTurn | nemu/src/utils/tracer.c:7 | after `size` more records the cursor is back on the same slot |
| Tracer.DisplayMarksNewest | nemu/src/utils/tracer.c:13-15 | right after initialisation no line is marked; after any record exactly one line is marked, and it shows the most recent entry |
| Tracer.InstBuffer.constructor | nemu/src/utils/tracer.c:4 | the static buffer: every slot zero, cursor 0 |
| Tracer.InstBuffer.InitIringbuf | nemu/src/utils/tracer.c:19-25 | the cursor becomes -1 and every slot has address 0 and encoding 0 |
| Tracer.InstBuffer.RecordInst | nemu/src/utils/tracer.c:6-9 | the cursor advances as C's `%` gives and only the slot under the new cursor is written |
| Tracer.InstBuffer.RecentInstDisplay | nemu/src/utils/tracer.c:11-17 | the loop yields every slot in index order, marking the one the cursor is on |

## Left out

- The tokenizer's regular expressions are not compiled. `regcomp`/`regexec` are replaced by a `Matcher` parameter, and `Expr.Patterns` is the table's leftmost-longest match per rule, written out. `init_regex` and its `panic` on a compilation failure are not modelled because the patterns are fixed.
- Register values and memory reads are oracle parameters (`Expr.Regs`, `Expr.Mem`). `isa_reg_str2val` and `vaddr_read` are not part of this model.
- Output is not modelled:
  - `Log` and the `printf` calls in `make_token`, `watchpoint_check`, `watchpoints_display` and `recent_inst_display` print nothing in the model.
  - The two display functions return their lines as values instead of printing them.
- `display_mem_read` and `display_mem_write` only print, and are not modelled.
- `printf`, `snprintf` and `vsnprintf` in the kernel library are not modelled. Each only panics ("Not implemented").
- `strlen`, `strcpy` and `strncpy` are not part of this model. They appear only through what they compute.
- `watchpoint_check` as written loops forever when the head's value is unchanged. The model does not run that loop. It returns `Spins` (`Watchpoint.CheckSpec`).
- Watchpoint.WatchpointPool.DelWp: requires `n < 32`. The source indexes the array without a check, and an out-of-range `n` is undefined behaviour that the model does not cover.
- Watchpoint.WatchpointPool.SetWp: requires the argument to be a C string (no NUL inside). That is what a `char *` argument is.
- Stdio.Vsprintf: requires an output buffer large enough for the rendered text and its terminator. An overflow of the caller's buffer is not modelled.
- Stdio.Vsprintf: requires a format without a NUL inside, and arguments of the declared C types (an `int` that fits 32 bits, a string without NUL).
- Expr.Expr: requires the input to be a C string.
- Watchpoint.WatchpointPool.WatchpointsDisplay: requires the active list to end in NULL. After `del_wp` as written and then `new_wp` the list is cyclic (`WatchpointLemmas.DelThenNewCycles`), and `watchpoints_display` then prints forever; the model does not cover that state.
- Watchpoint.WatchpointPool.WatchpointCheckAll: requires the active list to end in NULL. On the cyclic list that `del_wp` as written and then `new_wp` leave behind, a check that advances would walk forever when no record changes; the model does not cover that state.
- `IRINGBUF_SIZE` is defined outside these files. It is the constructor parameter `size` of `Tracer.InstBuffer`, any positive number.
- `InstEntry` is defined outside these files. The model keeps the two fields `tracer.c` touches, the address and the encoding.
- Precedence and associativity are stated in general (`ExprEval.DominantOperator`, `ExprEval.EvalSplit`), not as evaluated example expressions.
- C `long` is taken as 64 bits, as on an LP64 host (`CInt.LongMax`). That width sets where `strtol` saturates and what `eval` can return.
- Pointers are array indices and NULL is -1. The model does not capture aliasing outside the pool's array.

## Findings

| source | as written | input that shows it | evidently intended | confidence | as-written member | corrected member |
|---|---|---|---|---|---|---|
| nemu/src/monitor/sdb/watchpoint.c:78-80 | `del_wp` pushes the record onto the free list without unlinking it from the active list | delete any active watchpoint, then create one: the active list becomes cyclic | unlink the record from the active list, then free it | high (not executed) | WatchpointLemmas.DelThenNewCycles | WatchpointLemmas.DelWpFixedUnlinks |
| nemu/src/monitor/sdb/watchpoint.c:82-96 | the loop never advances `curr` | two watchpoints, the head unchanged and the second changed: the check spins forever and never reports the second | walk the whole active list and trigger on the first changed record | high (not executed) | WatchpointLemmas.CheckMissesLater | WatchpointLemmas.CheckAllMeaning |
| abstract-machine/klib/src/stdio.c:21-24 | `%d` of a negative number runs one round of the digit loop and writes `'0' + num % 10` | `sprintf(buf, "%d", -5)` writes "+" | a minus sign followed by the digits of the magnitude | high (not executed) | Stdio.NegativeDecAsWritten | Stdio.SignedRoundTrip |
