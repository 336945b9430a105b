/** Following parent links from the last token simulates a stack of open brackets. */
module TokenTree {
  import opened Tokenizer

  /** Token `i` is on the way from `j` to the root. */
  ghost predicate OnChain(toks: seq<Token>, i: int, j: int)
    requires Parents(toks) && -1 <= j < |toks|
    decreases j
  {
    j >= 0 && (i == j || OnChain(toks, i, toks[j].parent))
  }

  /** Every open token is on the way from `j` to the root. */
  ghost predicate OpensOnChain(toks: seq<Token>, j: int)
    requires Parents(toks) && -1 <= j < |toks|
  {
    forall i :: 0 <= i < |toks| && toks[i].Open() ==> OnChain(toks, i, j)
  }

  /** Token `b`, which starts after `a`, lies inside `a` or behind it. */
  predicate NestedOrBehind(a: Token, b: Token) {
    || a.Open()
    || b.start >= a.end
    || (!b.Open() && b.end <= a.end)
  }

  /** What holds between any two steps, on arbitrary input. */
  ghost predicate Inv(st: State) {
    && st.Shape()
    && OpensOnChain(st.toks, st.super) && OpensOnChain(st.toks, |st.toks| - 1)
    && Spans(st.toks, st.pos)
  }

  /**
   * Tokens start in order, only containers are open, nothing ends behind `pos`, and tokens nest or
   * are disjoint.
   */
  ghost predicate Spans(toks: seq<Token>, pos: nat) {
    && (forall i :: 0 <= i < |toks| ==> toks[i].start < pos && -1 <= toks[i].end <= pos)
    && (forall i :: 0 <= i < |toks| ==> if toks[i].Open() then toks[i].Container() else toks[i].start <= toks[i].end)
    && (forall i, j :: 0 <= i < j < |toks| ==> toks[i].start < toks[j].start && NestedOrBehind(toks[i], toks[j]))
  }

  // ---- chains

  lemma {:induction false} ChainAbove(toks: seq<Token>, i: int, j: int)
    requires Parents(toks) && -1 <= j < |toks| && OnChain(toks, i, j)
    ensures 0 <= i <= j
    decreases j
  {
    if i != j {
      ChainAbove(toks, i, toks[j].parent);
    }
  }

  /** Chains only depend on the parents of the tokens they start from. */
  lemma {:induction false} ChainSame(a: seq<Token>, b: seq<Token>, i: int, j: int)
    requires Parents(a) && Parents(b) && -1 <= j < |a| && j < |b|
    requires forall k :: 0 <= k <= j ==> a[k].parent == b[k].parent
    ensures OnChain(a, i, j) <==> OnChain(b, i, j)
    decreases j
  {
    if j >= 0 && i != j {
      ChainSame(a, b, i, a[j].parent);
    }
  }

  /** With all open tokens on the chain from `j`, walking finds the last open one, if there is one. */
  lemma {:induction false} WalkFindsLast(toks: seq<Token>, j: nat)
    requires Parents(toks) && j < |toks| && OpensOnChain(toks, j)
    ensures var r := Walk(toks, j);
      if toks[r].Open() then forall i :: r < i < |toks| ==> !toks[i].Open()
      else forall i :: 0 <= i < |toks| ==> !toks[i].Open()
    ensures OnChain(toks, Walk(toks, j), j)
    decreases j
  {
    forall i | 0 <= i < |toks| && toks[i].Open() ensures 0 <= i <= j {
      ChainAbove(toks, i, j);
    }
    if !toks[j].Open() {
      forall i | 0 <= i < |toks| && toks[i].Open() ensures OnChain(toks, i, toks[j].parent) {
        assert OnChain(toks, i, j);
      }
      if toks[j].parent != -1 {
        WalkFindsLast(toks, toks[j].parent);
      }
    }
  }

  /** Everything above `r` on a chain through `r` is on the chain from the parent of `r`. */
  lemma {:induction false} ChainThrough(toks: seq<Token>, i: int, r: int, j: int)
    requires Parents(toks) && -1 <= j < |toks| && OnChain(toks, i, j) && OnChain(toks, r, j) && i < r
    ensures 0 <= r < |toks| && OnChain(toks, i, toks[r].parent)
    decreases j
  {
    ChainAbove(toks, r, j);
    if r != j {
      ChainThrough(toks, i, r, toks[j].parent);
    }
  }

  // ---- the stack of open tokens

  /** The kinds of the open tokens, outermost first. */
  function Stack(toks: seq<Token>): seq<Kind> {
    if toks == [] then []
    else
      var t := toks[|toks| - 1];
      Stack(toks[..|toks| - 1]) + (if t.Open() then [t.kind] else [])
  }

  lemma {:induction false} StackEmpty(toks: seq<Token>)
    ensures Stack(toks) == [] <==> forall i :: 0 <= i < |toks| ==> !toks[i].Open()
    decreases |toks|
  {
    if toks != [] {
      var p := toks[..|toks| - 1];
      StackEmpty(p);
      if forall i :: 0 <= i < |toks| ==> !toks[i].Open() {
        assert forall i :: 0 <= i < |p| ==> !p[i].Open();
      } else if Stack(toks) == [] {
        assert forall i :: 0 <= i < |p| ==> !p[i].Open();
        assert false;
      }
    }
  }

  /** The stack depends on kinds and open ends only. */
  lemma {:induction false} StackSame(a: seq<Token>, b: seq<Token>)
    requires |a| == |b| && forall i :: 0 <= i < |a| ==> a[i].kind == b[i].kind && (a[i].Open() <==> b[i].Open())
    ensures Stack(a) == Stack(b)
    decreases |a|
  {
    if a != [] {
      StackSame(a[..|a| - 1], b[..|b| - 1]);
    }
  }

  lemma StackPush(toks: seq<Token>, t: Token)
    ensures Stack(toks + [t]) == Stack(toks) + (if t.Open() then [t.kind] else [])
  {
    assert (toks + [t])[..|toks|] == toks;
  }

  /** The last open token is the top of the stack, and closing it pops the stack. */
  lemma {:induction false} StackPop(toks: seq<Token>, r: nat, t: Token)
    requires r < |toks| && toks[r].Open() && forall i :: r < i < |toks| ==> !toks[i].Open()
    requires !t.Open()
    ensures var s := Stack(toks);
      s != [] && s[|s| - 1] == toks[r].kind && Stack(toks[r := t]) == s[..|s| - 1]
    decreases |toks|
  {
    var n := |toks| - 1;
    var p := toks[..n];
    if r == n {
      assert toks[r := t][..n] == p;
    } else {
      StackPop(p, r, t);
      assert toks[r := t][..n] == p[r := t];
    }
  }

  // ---- what every step keeps

  lemma PushInv(st: State, cap: nat, kind: Kind, start: nat, end: int, pos: nat)
    requires Inv(st) && st.pos <= start < pos && -1 <= end <= pos
    requires if end == -1 then kind == Object || kind == Array else start <= end
    requires Push(st, cap, kind, start, end, pos).Next?
    ensures Inv(Push(st, cap, kind, start, end, pos).st)
  {
    hide OnChain, OpensOnChain, Spans, Push;
    PushChains(st, cap, kind, start, end, pos);
    PushSpans(st, cap, kind, start, end, pos);
  }

  lemma PushSpans(st: State, cap: nat, kind: Kind, start: nat, end: int, pos: nat)
    requires st.Shape() && Spans(st.toks, st.pos) && st.pos <= start < pos && -1 <= end <= pos
    requires if end == -1 then kind == Object || kind == Array else start <= end
    requires Push(st, cap, kind, start, end, pos).Next?
    ensures Spans(Push(st, cap, kind, start, end, pos).st.toks, pos)
  {
    var st' := Push(st, cap, kind, start, end, pos).st;
    var a, b, n := st.toks, st'.toks, |st.toks|;
    assert forall i :: 0 <= i < n ==> b[i] == a[i].(size := b[i].size);
    assert b[n] == Token(kind, start, end, 0, st.super);
    forall i, j | 0 <= i < j < |b| ensures b[i].start < b[j].start && NestedOrBehind(b[i], b[j]) {
      if j < n {
        assert NestedOrBehind(a[i], a[j]);
      }
    }
  }

  lemma PushChains(st: State, cap: nat, kind: Kind, start: nat, end: int, pos: nat)
    requires st.Shape() && OpensOnChain(st.toks, st.super) && Push(st, cap, kind, start, end, pos).Next?
    ensures var st' := Push(st, cap, kind, start, end, pos).st;
      OpensOnChain(st'.toks, st'.super) && OpensOnChain(st'.toks, |st'.toks| - 1) && st'.pos == pos
  {
    var st' := Push(st, cap, kind, start, end, pos).st;
    var a, b, n := st.toks, st'.toks, |st.toks|;
    assert b[n].parent == st.super;
    forall i | 0 <= i < |b| && b[i].Open() ensures OnChain(b, i, n) && OnChain(b, i, st'.super) {
      if i < n {
        assert a[i].Open();
        ChainSame(a, b, i, st.super);
      }
    }
  }

  lemma SuperInv(st: State, super: int)
    requires Inv(st) && -1 <= super < |st.toks| && OpensOnChain(st.toks, super)
    ensures Inv(State(st.pos + 1, st.toks, super))
  {
  }

  lemma CommaChain(st: State)
    requires Inv(st)
    ensures OpensOnChain(st.toks, Comma(st))
  {
    if st.super != -1 && !st.toks[st.super].Container() {
      forall i | 0 <= i < |st.toks| && st.toks[i].Open() ensures OnChain(st.toks, i, Comma(st)) {
        assert OnChain(st.toks, i, st.super);
        assert i != st.super;
      }
    }
  }

  lemma CloseSpans(toks: seq<Token>, r: nat, pos: nat)
    requires Spans(toks, pos) && r < |toks| && toks[r].Open() && forall i :: r < i < |toks| ==> !toks[i].Open()
    ensures Spans(toks[r := toks[r].(end := pos + 1)], pos + 1)
  {
    var b := toks[r := toks[r].(end := pos + 1)];
    forall i, j | 0 <= i < j < |b| ensures b[i].start < b[j].start && NestedOrBehind(b[i], b[j]) {
      assert toks[i].start < toks[j].start && NestedOrBehind(toks[i], toks[j]);
    }
  }

  lemma CloseInv(st: State, kind: Kind)
    requires Inv(st) && Close(st, kind).Next?
    ensures Inv(Close(st, kind).st)
  {
    hide Spans;
    var a, n := st.toks, |st.toks| - 1;
    var r := Walk(a, n);
    WalkFindsLast(a, n);
    if a[r].Open() {
      var b := a[r := a[r].(end := st.pos + 1)];
      CloseSpans(a, r, st.pos);
      forall i | 0 <= i < |b| && b[i].Open() ensures OnChain(b, i, n) && OnChain(b, i, a[r].parent) {
        assert a[i].Open() && i < r;
        assert OnChain(a, i, n);
        ChainThrough(a, i, r, n);
        ChainSame(a, b, i, n);
        ChainSame(a, b, i, a[r].parent);
      }
    } else {
      SpansLater(a, st.pos);
    }
  }

  lemma SpansLater(toks: seq<Token>, pos: nat)
    requires Spans(toks, pos)
    ensures Spans(toks, pos + 1)
  {
  }

  /** Every step keeps the invariant, on any input. */
  lemma StepInv(js: string, st: State, cap: nat)
    requires Inv(st) && !AtEnd(js, st.pos) && Step(js, st, cap).Next?
    ensures Inv(Step(js, st, cap).st)
  {
    hide Push, Close, Comma, ScanString, OpensOnChain, Spans;
    match js[st.pos]
    case '{' => PushInv(st, cap, Object, st.pos, -1, st.pos + 1);
    case '[' => PushInv(st, cap, Array, st.pos, -1, st.pos + 1);
    case '}' => CloseInv(st, Object);
    case ']' => CloseInv(st, Array);
    case '\"' =>
      var e := ScanString(js, st.pos + 1).value;
      PushInv(st, cap, String, st.pos + 1, e, e + 1);
    case ':' => SuperInv(st, |st.toks| - 1);
    case ',' =>
      CommaChain(st);
      SuperInv(st, Comma(st));
    case c =>
      if IsSpace(c) {
        SuperInv(st, st.super);
      } else {
        var e := ScanPrimitive(js, st.pos).value;
        PushInv(st, cap, Primitive, st.pos, e, e);
      }
  }

  lemma {:induction false} RunInv(js: string, st: State, cap: nat)
    requires Inv(st)
    ensures Inv(Run(js, st, cap).st)
    decreases |js| - st.pos
  {
    if !AtEnd(js, st.pos) && Step(js, st, cap).Next? {
      StepInv(js, st, cap);
      RunInv(js, Step(js, st, cap).st, cap);
    }
  }

  // ---- brackets

  /**
   * A closing bracket, when something is open, closes the innermost open container if the kinds
   * match and is refused otherwise. When nothing is open it changes no token; it is let through
   * exactly if the root above the last token has its kind and new tokens would belong to a token.
   */
  lemma CloseExact(st: State, kind: Kind)
    requires Inv(st)
    ensures var s, c := Stack(st.toks), Close(st, kind);
      if s != [] then
        && (c.Next? <==> s[|s| - 1] == kind)
        && (c.Next? ==> Stack(c.st.toks) == s[..|s| - 1] && c.st.pos == st.pos + 1)
        && (c.Next? ==> exists r :: ClosesLast(st, c.st, r))
      else
        && (c.Next? <==> st.super != -1 && st.toks[Walk(st.toks, |st.toks| - 1)].kind == kind)
        && (c.Next? ==> c.st == st.(pos := st.pos + 1))
  {
    hide Inv, Stack, Close, ClosesLast, Walk;
    if Stack(st.toks) != [] {
      CloseOpen(st, kind);
    } else {
      CloseNothing(st, kind);
    }
  }

  lemma CloseOpen(st: State, kind: Kind)
    requires Inv(st) && Stack(st.toks) != []
    ensures var s, c := Stack(st.toks), Close(st, kind);
      && (c.Next? <==> s[|s| - 1] == kind)
      && (c.Next? ==> Stack(c.st.toks) == s[..|s| - 1] && c.st.pos == st.pos + 1)
      && (c.Next? ==> exists r :: ClosesLast(st, c.st, r))
  {
    hide OpensOnChain, Spans, Stack, Walk, OnChain;
    StackEmpty(st.toks);
    assert st.toks != [];
    var r := Walk(st.toks, |st.toks| - 1);
    WalkFindsLast(st.toks, |st.toks| - 1);
    StackPop(st.toks, r, st.toks[r].(end := st.pos + 1));
    if Close(st, kind).Next? {
      assert ClosesLast(st, Close(st, kind).st, r);
    }
  }

  lemma CloseNothing(st: State, kind: Kind)
    requires Inv(st) && Stack(st.toks) == []
    ensures var c := Close(st, kind);
      && (c.Next? <==> st.super != -1 && st.toks[Walk(st.toks, |st.toks| - 1)].kind == kind)
      && (c.Next? ==> c.st == st.(pos := st.pos + 1))
  {
    hide OpensOnChain, Spans, Stack, Walk, OnChain;
    StackEmpty(st.toks);
  }

  /** The last open token `r` ends behind the bracket, and new tokens belong to its parent. */
  ghost predicate ClosesLast(st: State, st': State, r: nat) {
    && r < |st.toks| && st.toks[r].Open()
    && (forall i :: r < i < |st.toks| ==> !st.toks[i].Open())
    && st'.toks == st.toks[r := st.toks[r].(end := st.pos + 1)]
    && st'.super == st.toks[r].parent
  }

  lemma PushStack(st: State, cap: nat, kind: Kind, start: nat, end: int, pos: nat)
    requires st.Shape() && Push(st, cap, kind, start, end, pos).Next?
    ensures Stack(Push(st, cap, kind, start, end, pos).st.toks)
         == Stack(st.toks) + (if end == -1 then [kind] else [])
  {
    StackPush(AddSize(st.toks, st.super, 1), Token(kind, start, end, 0, st.super));
    StackSame(AddSize(st.toks, st.super, 1), st.toks);
  }

  // ---- spans, and the loops of the consumers that skip subtrees

  /** The tokens of a successful run: closed, in order of their starts, nested or disjoint. */
  ghost predicate Forest(toks: seq<Token>) {
    && Parents(toks)
    && (forall i :: 0 <= i < |toks| ==> toks[i].start <= toks[i].end)
    && (forall i, j :: 0 <= i < j < |toks| ==>
          && toks[i].start < toks[j].start
          && (toks[j].start >= toks[i].end || toks[j].end <= toks[i].end))
  }

  lemma SuccessForest(js: string, cap: nat)
    requires Run(js, INIT, cap).code >= 0
    ensures Forest(Run(js, INIT, cap).st.toks)
  {
    RunInv(js, INIT, cap);
    SuccessClosed(js, INIT, cap);
    var toks := Run(js, INIT, cap).st.toks;
    forall i, j | 0 <= i < j < |toks|
      ensures toks[i].start < toks[j].start && (toks[j].start >= toks[i].end || toks[j].end <= toks[i].end)
    {
      assert NestedOrBehind(toks[i], toks[j]);
    }
  }

  lemma {:induction false} SuccessClosed(js: string, st: State, cap: nat)
    requires st.Shape() && Run(js, st, cap).code >= 0
    ensures !AnyOpen(Run(js, st, cap).st.toks)
    ensures Run(js, st, cap).code == |Run(js, st, cap).st.toks|
    decreases |js| - st.pos
  {
    if !AtEnd(js, st.pos) {
      SuccessClosed(js, Step(js, st, cap).st, cap);
    }
  }

  /**
   * The skip loop of the consumers, over all places of an array of which the first `n` are in use: it
   * lands behind token `i` and everything inside it, and behind nothing else in use. It looks at the
   * place behind the last one in use too, and goes past it exactly if the token is the last one
   * outermost and what was left in that place starts before its end.
   */
  method SkipSubtree(toks: seq<Token>, n: nat, i: nat) returns (k: nat)
    requires i < n <= |toks| && Forest(toks[..n])
    requires exists j :: i < j < |toks| && toks[j].start >= toks[i].end
    ensures i < k < |toks| && toks[k].start >= toks[i].end
    ensures forall j :: i < j < k && j < n ==>
      toks[i].start < toks[j].start < toks[i].end && toks[j].end <= toks[i].end
    ensures forall j :: k <= j < n ==> toks[j].start >= toks[i].end
    ensures k <= n <==> exists j :: i < j <= n && j < |toks| && toks[j].start >= toks[i].end
  {
    var end := toks[i].end;
    assert forall j :: 0 <= j < n ==> toks[j] == toks[..n][j];
    k := i + 1;
    while toks[k].start < end
      invariant i < k < |toks|
      invariant exists j :: k <= j < |toks| && toks[j].start >= end
      invariant forall j :: i < j < k ==> toks[j].start < end
      decreases |toks| - k
    {
      k := k + 1;
    }
  }
}
