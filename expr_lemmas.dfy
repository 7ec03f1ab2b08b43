/** Properties of the tokenizer of the expression engine: which rule wins at a
    position, what tokens and positions it produces, and how it fails. */
module ExprLemmas {
  import opened CInt
  import opened Expr

  // ================================================================ tokenizer

  /** The kinds `make_token` can put into the buffer. */
  predicate Emitted(k: Kind) {
    k != NoType && k != Pos && k != Neg && k != Ref && k != Deref
  }

  /** The concatenated texts of `ts`. */
  function Texts(ts: seq<Token>): string {
    if ts == [] then [] else Texts(ts[..|ts| - 1]) + ts[|ts| - 1].text
  }

  /** `s` with its spaces removed. */
  function Squeeze(s: string): (r: string)
    ensures |r| <= |s|
  {
    if s == [] then [] else (if s[0] == ' ' then [] else [s[0]]) + Squeeze(s[1..])
  }

  lemma {:induction false} SqueezeAppend(a: string, b: string)
    ensures Squeeze(a + b) == Squeeze(a) + Squeeze(b)
    decreases |a|
  {
    if a != [] {
      var h := if a[0] == ' ' then [] else [a[0]];
      assert (a + b)[0] == a[0];
      assert (a + b)[1..] == a[1..] + b;
      SqueezeAppend(a[1..], b);
      calc {
        Squeeze(a + b);
        h + Squeeze(a[1..] + b);
        h + (Squeeze(a[1..]) + Squeeze(b));
        (h + Squeeze(a[1..])) + Squeeze(b);
        Squeeze(a) + Squeeze(b);
      }
    } else {
      assert a + b == b;
    }
  }

  lemma SqueezeSplit(s: string, n: nat)
    requires n <= |s|
    ensures Squeeze(s) == Squeeze(s[..n]) + Squeeze(s[n..])
  {
    assert s == s[..n] + s[n..];
    SqueezeAppend(s[..n], s[n..]);
  }

  lemma TextsSnoc(done: seq<Token>, t: Token, rest: string, ts: seq<Token>)
    requires Texts(ts) == Texts(done + [t]) + rest
    ensures Texts(ts) == Texts(done) + (t.text + rest)
  {
    assert (done + [t])[..|done|] == done;
  }

  lemma {:induction false} SqueezeSpaces(s: string)
    requires forall j :: 0 <= j < |s| ==> s[j] == ' '
    ensures Squeeze(s) == []
    decreases |s|
  {
    if s != [] {
      SqueezeSpaces(s[1..]);
    }
  }

  lemma {:induction false} SqueezeNoSpaces(s: string)
    requires forall j :: 0 <= j < |s| ==> s[j] != ' '
    ensures Squeeze(s) == s
    decreases |s|
  {
    if s != [] {
      SqueezeNoSpaces(s[1..]);
    }
  }

  /** Only the space rule matches spaces: its match squeezes to nothing, and every
      other rule's match is free of them. */
  lemma MatchSqueeze(k: Kind, s: string)
    ensures k == NoType ==> Squeeze(s[..MatchLen(k, s)]) == []
    ensures k != NoType ==> Squeeze(s[..MatchLen(k, s)]) == s[..MatchLen(k, s)]
  {
    var n := MatchLen(k, s);
    if k == NoType {
      SqueezeSpaces(s[..n]);
    } else {
      forall j | 0 <= j < n
        ensures s[..n][j] != ' '
      {
        if k == Hex && j >= 2 {
          assert s[2..][j - 2] == s[j];
        }
      }
      SqueezeNoSpaces(s[..n]);
    }
  }

  /** A compiled table that matches spaces only by the space rule: such a match
      squeezes to nothing, every other match is free of spaces. */
  ghost predicate SpacesOnlyByNoType(re: Matcher)
    requires WellFormed(re)
  {
    forall i: nat, s: string {:trigger Squeeze(s[..re(i, s)])} :: i < RuleCount ==>
      Squeeze(s[..re(i, s)]) == if Rule(i) == NoType then [] else s[..re(i, s)]
  }

  /** The rule table has that shape. */
  lemma PatternsSpacesOnlyByNoType()
    ensures SpacesOnlyByNoType(Patterns())
  {
    forall i: nat, s: string | i < RuleCount
      ensures Squeeze(s[..Patterns()(i, s)]) == if Rule(i) == NoType then [] else s[..Patterns()(i, s)]
    {
      MatchSqueeze(Rule(i), s);
    }
  }

  /** The tokenizer from `pos` on: the tokens already in the buffer stay, each
      new token has an emitted kind and a text of 1 to 31 characters, and no more
      than 32 tokens are produced. */
  lemma {:induction false} LexFromShape(re: Matcher, e: string, pos: nat, done: seq<Token>, i: nat, ts: seq<Token>)
    requires WellFormed(re) && pos <= |e| && i <= RuleCount && |done| <= MaxTokens
    requires LexFrom(re, e, pos, done, i) == Done(Tokens(ts))
    ensures |done| <= |ts| <= MaxTokens && ts[..|done|] == done
    ensures forall k :: |done| <= k < |ts| ==> Emitted(ts[k].kind) && 0 < |ts[k].text| < TextCap
    decreases |e| - pos, RuleCount - i
  {
    if pos == |e| {
      assert ts == done;
    } else {
      assert i < RuleCount;
      var n := re(i, e[pos..]);
      if n == 0 {
        LexFromShape(re, e, pos, done, i + 1, ts);
      } else if Rule(i) == NoType {
        LexFromShape(re, e, pos + n, done, 0, ts);
      } else {
        var t := Token(Rule(i), e[pos..pos + n]);
        assert |done| < MaxTokens && n < TextCap;
        LexFromShape(re, e, pos + n, done + [t], 0, ts);
        assert ts[|done|] == t by {
          assert ts[..|done| + 1] == done + [t];
        }
        assert Emitted(t.kind);
        assert (done + [t])[..|done|] == done;
      }
    }
  }

  /** The tokenizer from `pos` on, with a table that matches spaces only by the
      space rule: the new texts spell the rest of the input without its spaces. */
  lemma {:induction false} LexFromTexts(re: Matcher, e: string, pos: nat, done: seq<Token>, i: nat, ts: seq<Token>)
    requires WellFormed(re) && SpacesOnlyByNoType(re)
    requires pos <= |e| && i <= RuleCount
    requires LexFrom(re, e, pos, done, i) == Done(Tokens(ts))
    ensures Texts(ts) == Texts(done) + Squeeze(e[pos..])
    decreases |e| - pos, RuleCount - i, 2
  {
    if pos == |e| {
      assert ts == done;
    } else if re(i, e[pos..]) == 0 {
      LexFromTexts(re, e, pos, done, i + 1, ts);
    } else {
      LexMatchTexts(re, e, pos, done, i, ts);
    }
  }

  /** The step of `LexFromTexts` where rule `i` matches at `pos`. */
  lemma {:induction false} LexMatchTexts(re: Matcher, e: string, pos: nat, done: seq<Token>, i: nat, ts: seq<Token>)
    requires WellFormed(re) && SpacesOnlyByNoType(re)
    requires pos < |e| && i < RuleCount && re(i, e[pos..]) > 0
    requires LexFrom(re, e, pos, done, i) == Done(Tokens(ts))
    ensures Texts(ts) == Texts(done) + Squeeze(e[pos..])
    decreases |e| - pos, RuleCount - i, 1
  {
    var n := re(i, e[pos..]);
    SliceFacts(e, pos, n);
    MatchSpelling(re, e[pos..], i);
    if Rule(i) == NoType {
      LexFromTexts(re, e, pos + n, done, 0, ts);
    } else {
      LexTokenTexts(re, e, pos, done, i, ts);
    }
  }

  /** The step of `LexFromTexts` where rule `i` matches at `pos` and emits a token. */
  lemma {:induction false} LexTokenTexts(re: Matcher, e: string, pos: nat, done: seq<Token>, i: nat, ts: seq<Token>)
    requires WellFormed(re) && SpacesOnlyByNoType(re)
    requires pos < |e| && i < RuleCount && re(i, e[pos..]) > 0 && Rule(i) != NoType
    requires LexFrom(re, e, pos, done, i) == Done(Tokens(ts))
    ensures Texts(ts) == Texts(done) + e[pos..pos + re(i, e[pos..])] + Squeeze(e[pos + re(i, e[pos..])..])
    decreases |e| - pos, RuleCount - i, 0
  {
    var n := re(i, e[pos..]);
    var t := Token(Rule(i), e[pos..pos + n]);
    LexFromTexts(re, e, pos + n, done + [t], 0, ts);
    TextsSnoc(done, t, Squeeze(e[pos + n..]), ts);
  }

  lemma SliceFacts(e: string, pos: nat, n: nat)
    requires pos + n <= |e|
    ensures e[pos..pos + n] == e[pos..][..n] && e[pos + n..] == e[pos..][n..]
  {
  }

  /** A match of rule `i` at the start of `s` contributes its own text to the
      squeezed text, or nothing for the space rule. */
  lemma MatchSpelling(re: Matcher, s: string, i: nat)
    requires WellFormed(re) && SpacesOnlyByNoType(re) && i < RuleCount
    ensures Squeeze(s) == (if Rule(i) == NoType then [] else s[..re(i, s)]) + Squeeze(s[re(i, s)..])
  {
    SqueezeSplit(s, re(i, s));
    assert Squeeze(s[..re(i, s)]) == if Rule(i) == NoType then [] else s[..re(i, s)];
  }

  /** What `make_token` leaves in the buffer when it succeeds: at most 32 tokens of
      emitted kinds, each with a text of 1 to 31 characters, whose texts spell
      the input without its spaces. */
  lemma LexTokens(e: string, ts: seq<Token>)
    requires Lex(e) == Done(Tokens(ts))
    ensures |ts| <= MaxTokens
    ensures forall k :: 0 <= k < |ts| ==> Emitted(ts[k].kind) && 0 < |ts[k].text| < TextCap
    ensures Texts(ts) == Squeeze(e)
  {
    LexFromShape(Patterns(), e, 0, [], 0, ts);
    PatternsSpacesOnlyByNoType();
    LexFromTexts(Patterns(), e, 0, [], 0, ts);
    assert e[0..] == e;
  }

  /** The tokenizer stops with `NoMatchAt(p)` only at a position inside the input
      where no rule of the table matches. */
  lemma {:induction false} LexFromNoMatch(re: Matcher, e: string, pos: nat, done: seq<Token>, i: nat, p: nat)
    requires WellFormed(re) && pos <= |e| && i <= RuleCount
    requires forall j :: 0 <= j < i ==> re(j, e[pos..]) == 0
    requires LexFrom(re, e, pos, done, i) == Done(NoMatchAt(p))
    ensures pos <= p < |e|
    ensures forall j :: 0 <= j < RuleCount ==> re(j, e[p..]) == 0
    decreases |e| - pos, RuleCount - i
  {
    if i < RuleCount {
      var n := re(i, e[pos..]);
      if n == 0 {
        LexFromNoMatch(re, e, pos, done, i + 1, p);
      } else {
        LexFromNoMatch(re, e, pos + n, if Rule(i) == NoType then done else done + [Token(Rule(i), e[pos..pos + n])], 0, p);
      }
    }
  }

  /** `make_token` returns false exactly at a position where no rule matches. */
  lemma LexNoMatch(e: string, p: nat)
    requires Lex(e) == Done(NoMatchAt(p))
    ensures p < |e|
    ensures forall j :: 0 <= j < RuleCount ==> MatchLen(Rule(j), e[p..]) == 0
  {
    LexFromNoMatch(Patterns(), e, 0, [], 0, p);
    forall j | 0 <= j < RuleCount
      ensures MatchLen(Rule(j), e[p..]) == 0
    {
      assert Patterns()(j, e[p..]) == MatchLen(Rule(j), e[p..]);
    }
  }

  /** The kind and match length of the first rule at or after index `i` whose
      match by `re` starts at the start of `s`. */
  function FirstMatch(re: Matcher, s: string, i: nat): (r: Option<(Kind, nat)>)
    requires WellFormed(re) && i <= RuleCount
    ensures r.Some? ==> 0 < r.value.1 <= |s|
    decreases RuleCount - i
  {
    if i == RuleCount then None
    else if re(i, s) > 0 then Some((Rule(i), re(i, s)))
    else FirstMatch(re, s, i + 1)
  }

  /** When rule `r` is the first that matches at the start of `s`, it decides both
      the kind and the length, whatever later rules would match. */
  lemma {:induction false} FirstRuleWins(re: Matcher, s: string, i: nat, r: nat)
    requires WellFormed(re) && i <= r < RuleCount
    requires re(r, s) > 0
    requires forall j :: i <= j < r ==> re(j, s) == 0
    ensures FirstMatch(re, s, i) == Some((Rule(r), re(r, s)))
    decreases r - i
  {
    if i < r {
      assert re(i, s) == 0;
      FirstRuleWins(re, s, i + 1, r);
    }
  }

  /** There is no first match exactly when no rule matches at the start of `s`. */
  lemma {:induction false} NoRuleNoMatch(re: Matcher, s: string, i: nat)
    requires WellFormed(re) && i <= RuleCount
    ensures FirstMatch(re, s, i).None? <==> forall j :: i <= j < RuleCount ==> re(j, s) == 0
    decreases RuleCount - i
  {
    if i < RuleCount {
      NoRuleNoMatch(re, s, i + 1);
    }
  }

  /** How the tokenizer goes on after a match of kind `k` and length `n` at `pos`. */
  function AfterMatch(re: Matcher, e: string, pos: nat, done: seq<Token>, k: Kind, n: nat): Outcome<Lexed>
    requires WellFormed(re) && 0 < n && pos + n <= |e|
  {
    if k == NoType then LexFrom(re, e, pos + n, done, 0)
    else if |done| >= MaxTokens then Aborted
    else if n >= TextCap then Undefined
    else LexFrom(re, e, pos + n, done + [Token(k, e[pos..pos + n])], 0)
  }

  /** At each position the rules are tried in table order, and the first one whose
      match starts there decides both the kind and the number of characters
      consumed; with no such rule the tokenizer stops there. */
  lemma {:induction false} LexFollowsFirstMatch(re: Matcher, e: string, pos: nat, done: seq<Token>, i: nat)
    requires WellFormed(re) && pos < |e| && i <= RuleCount
    ensures LexFrom(re, e, pos, done, i) ==
      match FirstMatch(re, e[pos..], i)
      case None => Done(NoMatchAt(pos))
      case Some((k, n)) => AfterMatch(re, e, pos, done, k, n)
    decreases RuleCount - i
  {
    if i < RuleCount && re(i, e[pos..]) == 0 {
      LexFollowsFirstMatch(re, e, pos, done, i + 1);
    }
  }
}
