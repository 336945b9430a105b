/** Which texts the tokenizer accepts, as a stack of brackets decides it without tokens. */
module Brackets {
  import opened Tokenizer
  import opened TokenTree

  /**
   * A place in the tree of tokens, as far as it matters outside all brackets: nowhere, on a string or
   * primitive below `n - 1` others, or on or below a container; with the kind of the root above it.
   */
  datatype Spot = Nowhere | Plain(root: Kind, n: nat) | Held(root: Kind)

  /** The place of a new token below a place. */
  function Under(s: Spot, kind: Kind): Spot {
    match s
    case Nowhere => if kind == Object || kind == Array then Held(kind) else Plain(kind, 1)
    case Plain(root, n) => if kind == Object || kind == Array then Held(root) else Plain(root, n + 1)
    case Held(_) => s
  }

  /** Where a comma leads: out of a string or primitive, to what it is below. */
  function Left(s: Spot): Spot {
    if !s.Plain? then s else if s.n <= 1 then Nowhere else Plain(s.root, s.n - 1)
  }

  datatype Verdict = Balanced | Unclosed | Mismatched | Stray | BadString | BadPrimitive

  /**
   * A stack of brackets over the text, strings and primitives skipped. Outside all brackets a colon
   * sets the cursor to the last place and a comma leads it out again; a closing bracket there is let
   * through if the cursor is set and the root above the last place has its kind.
   */
  function Judge(js: string, pos: nat, stack: seq<Kind>, cursor: Spot, last: Spot): Verdict
    decreases |js| - pos
  {
    if AtEnd(js, pos) then if stack == [] then Balanced else Unclosed
    else
      match js[pos]
      case '{' => Judge(js, pos + 1, stack + [Object], cursor, Put(stack, cursor, last, Object))
      case '[' => Judge(js, pos + 1, stack + [Array], cursor, Put(stack, cursor, last, Array))
      case '}' => JudgeClose(js, pos, stack, cursor, last, Object)
      case ']' => JudgeClose(js, pos, stack, cursor, last, Array)
      case '\"' =>
        var e := ScanString(js, pos + 1);
        if e.None? then BadString
        else Judge(js, e.value + 1, stack, cursor, Put(stack, cursor, last, String))
      case ':' => Judge(js, pos + 1, stack, if stack == [] then last else cursor, last)
      case ',' => Judge(js, pos + 1, stack, if stack == [] then Left(cursor) else cursor, last)
      case c =>
        if IsSpace(c) then Judge(js, pos + 1, stack, cursor, last)
        else
          var e := ScanPrimitive(js, pos);
          if e.None? then BadPrimitive
          else
            assert ScanPrimitive(js, pos + 1) == e;
            Judge(js, e.value, stack, cursor, Put(stack, cursor, last, Primitive))
  }

  /** The last place after a new token: a new one only outside all brackets. */
  function Put(stack: seq<Kind>, cursor: Spot, last: Spot, kind: Kind): Spot {
    if stack == [] then Under(cursor, kind) else last
  }

  function JudgeClose(js: string, pos: nat, stack: seq<Kind>, cursor: Spot, last: Spot, kind: Kind): Verdict
    requires pos < |js|
    decreases |js| - pos, 0
  {
    if stack == [] then
      if cursor != Nowhere && last == Held(kind) then Judge(js, pos + 1, stack, cursor, last) else Stray
    else if stack[|stack| - 1] != kind then Mismatched
    else Judge(js, pos + 1, stack[..|stack| - 1], cursor, last)
  }

  /** What the tokenizer returns for a verdict; a bad string is reported like a full token array. */
  function Code(v: Verdict): int
    requires v != Balanced
  {
    match v
    case Unclosed => PART
    case Mismatched => INVAL
    case Stray => INVAL
    case BadString => -1
    case BadPrimitive => INVAL
  }

  // ---- places of tokens

  ghost function SpotOf(toks: seq<Token>, j: int): Spot
    requires Parents(toks) && -1 <= j < |toks|
    decreases j
  {
    if j == -1 then Nowhere else Under(SpotOf(toks, toks[j].parent), toks[j].kind)
  }

  lemma {:induction false} SpotSame(a: seq<Token>, b: seq<Token>, j: int)
    requires Parents(a) && Parents(b) && -1 <= j < |a| && j < |b|
    requires forall k :: 0 <= k <= j ==> a[k].parent == b[k].parent && a[k].kind == b[k].kind
    ensures SpotOf(a, j) == SpotOf(b, j)
    decreases j
  {
    if j >= 0 {
      SpotSame(a, b, a[j].parent);
    }
  }

  /** A container holds all places below it. */
  lemma {:induction false} HeldBelow(toks: seq<Token>, i: int, j: int)
    requires Parents(toks) && -1 <= j < |toks| && OnChain(toks, i, j) && 0 <= i < |toks| && toks[i].Container()
    ensures SpotOf(toks, j) == SpotOf(toks, i) && SpotOf(toks, j).Held?
    decreases j
  {
    if i != j {
      HeldBelow(toks, i, toks[j].parent);
    }
  }

  /** The outermost open token, or the number of tokens if nothing is open. */
  function First(toks: seq<Token>): (r: nat)
    ensures r <= |toks| && (r < |toks| ==> toks[r].Open()) && forall i :: 0 <= i < r ==> !toks[i].Open()
  {
    if toks == [] then 0
    else
      var f := First(toks[..|toks| - 1]);
      if f < |toks| - 1 || toks[|toks| - 1].Open() then f else |toks|
  }

  lemma FirstIs(toks: seq<Token>, r: nat)
    requires r <= |toks| && (r < |toks| ==> toks[r].Open()) && forall i :: 0 <= i < r ==> !toks[i].Open()
    ensures First(toks) == r
  {
    var f := First(toks);
  }

  /** What new tokens belong to outside all brackets: now, or once those open are closed. */
  ghost function Base(st: State): int
    requires st.Shape()
  {
    if First(st.toks) < |st.toks| then st.toks[First(st.toks)].parent else st.super
  }

  /** The judge knows the places that matter. */
  ghost predicate Knows(st: State, cursor: Spot, last: Spot)
    requires st.Shape()
  {
    cursor == SpotOf(st.toks, Base(st)) && last == SpotOf(st.toks, |st.toks| - 1)
  }

  lemma Empty(toks: seq<Token>)
    ensures Stack(toks) == [] <==> First(toks) == |toks|
  {
    StackEmpty(toks);
  }

  /** Below brackets every place that matters is that of the outermost one. */
  lemma Below(st: State, j: int)
    requires Inv(st) && First(st.toks) < |st.toks| && (j == st.super || j == |st.toks| - 1)
    ensures SpotOf(st.toks, j).Held? && SpotOf(st.toks, j) == SpotOf(st.toks, First(st.toks))
  {
    HeldBelow(st.toks, First(st.toks), j);
  }

  lemma PushKnows(st: State, cap: nat, kind: Kind, start: nat, end: int, pos: nat, cursor: Spot, last: Spot)
    requires Inv(st) && Knows(st, cursor, last) && Push(st, cap, kind, start, end, pos).Next?
    ensures Knows(Push(st, cap, kind, start, end, pos).st, cursor, Put(Stack(st.toks), cursor, last, kind))
  {
    hide OpensOnChain, Spans, OnChain, Stack, First, Under;
    var st' := Push(st, cap, kind, start, end, pos).st;
    var a, b, n, f := st.toks, st'.toks, |st.toks|, First(st.toks);
    Empty(a);
    assert b[n].parent == st.super && b[n].kind == kind;
    SpotSame(a, b, st.super);
    SpotSame(a, b, Base(st));
    FirstIs(b, if f == n && end != -1 then n + 1 else f);
    if f < n {
      Below(st, st.super);
      Below(st, n - 1);
      UnderHeld(SpotOf(a, f), kind);
    }
  }

  lemma UnderHeld(s: Spot, kind: Kind)
    requires s.Held?
    ensures Under(s, kind) == s
  {
  }

  /** A comma outside all brackets. */
  lemma CommaKnows(st: State)
    requires st.Shape()
    ensures SpotOf(st.toks, Comma(st)) == Left(SpotOf(st.toks, st.super))
  {
    if st.super != -1 {
      var up := SpotOf(st.toks, st.toks[st.super].parent);
      PlainCounts(st.toks, st.super);
      PlainCounts(st.toks, st.toks[st.super].parent);
    }
  }

  lemma {:induction false} PlainCounts(toks: seq<Token>, j: int)
    requires Parents(toks) && -1 <= j < |toks|
    ensures SpotOf(toks, j).Plain? ==> SpotOf(toks, j).n >= 1
    decreases j
  {
    if j >= 0 {
      PlainCounts(toks, toks[j].parent);
    }
  }

  /** The root that the walk finds when nothing is open is the root of the place. */
  lemma {:induction false} RootKind(toks: seq<Token>, j: nat)
    requires Parents(toks) && j < |toks| && First(toks) == |toks|
    ensures var s, k := SpotOf(toks, j), toks[Walk(toks, j)].kind;
      s != Nowhere && s.root == k && (k == Object || k == Array ==> s.Held?)
    decreases j
  {
    if toks[j].parent != -1 {
      RootKind(toks, toks[j].parent);
    }
  }

  lemma CloseKnows(st: State, kind: Kind, cursor: Spot, last: Spot)
    requires Inv(st) && Knows(st, cursor, last) && Close(st, kind).Next?
    ensures Knows(Close(st, kind).st, cursor, last)
  {
    hide OpensOnChain, Spans, OnChain, Stack, First, Under;
    CloseExact(st, kind);
    Empty(st.toks);
    var st' := Close(st, kind).st;
    if Stack(st.toks) != [] {
      var r: nat :| ClosesLast(st, st', r);
      var a, b, f := st.toks, st'.toks, First(st.toks);
      SpotSame(a, b, |a| - 1);
      SpotSame(a, b, a[f].parent);
      assert f <= r;
      FirstIs(b, if f < r then f else |b|);
    }
  }

  /** Outside all brackets, a closing bracket is let through as the judge says. */
  lemma StrayKnows(st: State, kind: Kind, cursor: Spot, last: Spot)
    requires Inv(st) && Knows(st, cursor, last) && Stack(st.toks) == [] && (kind == Object || kind == Array)
    ensures Close(st, kind).Next? <==> cursor != Nowhere && last == Held(kind)
  {
    Empty(st.toks);
    if st.toks != [] {
      RootKind(st.toks, |st.toks| - 1);
      if st.super != -1 {
        RootKind(st.toks, st.super);
      }
    }
  }

  // ---- the verdict

  /**
   * With room for all tokens, the tokenizer is this judge, on every text: it succeeds exactly on the
   * texts found balanced, and otherwise returns the code of the first fault.
   */
  lemma {:induction false} RunJudges(js: string, st: State, cap: nat, cursor: Spot, last: Spot)
    requires Inv(st) && Knows(st, cursor, last) && |st.toks| + |js| <= cap + st.pos
    ensures var v, r := Judge(js, st.pos, Stack(st.toks), cursor, last), Run(js, st, cap);
      if v == Balanced then r.code == |r.st.toks| else r.code == Code(v)
    decreases |js| - st.pos
  {
    hide OpensOnChain, Spans, OnChain, Knows, Push, Close, Comma, Stack, JudgeClose, Put;
    if AtEnd(js, st.pos) {
      StackEmpty(st.toks);
    } else {
      var s := Step(js, st, cap);
      var stack, cursor', last' := StepJudges(js, st, cap, cursor, last);
      if s.Next? {
        StepInv(js, st, cap);
        RunJudges(js, s.st, cap, cursor', last');
      }
    }
  }

  lemma StepJudges(js: string, st: State, cap: nat, cursor: Spot, last: Spot)
    returns (stack: seq<Kind>, cursor': Spot, last': Spot)
    requires Inv(st) && Knows(st, cursor, last) && !AtEnd(js, st.pos) && |st.toks| < cap
    ensures var v, s := Judge(js, st.pos, Stack(st.toks), cursor, last), Step(js, st, cap);
      if s.Next? then
        && v == Judge(js, s.st.pos, stack, cursor', last')
        && stack == Stack(s.st.toks) && Knows(s.st, cursor', last')
      else v != Balanced && Code(v) == s.code
  {
    hide Stack, JudgeClose, Put, Comma, Base, SpotOf;
    stack, cursor', last' := Stack(st.toks), cursor, last;
    match js[st.pos]
    case '{' => stack, last' := PushJudges(st, cap, Object, st.pos, -1, st.pos + 1, cursor, last);
    case '[' => stack, last' := PushJudges(st, cap, Array, st.pos, -1, st.pos + 1, cursor, last);
    case '}' => stack := CloseJudges(js, st, Object, cursor, last);
    case ']' => stack := CloseJudges(js, st, Array, cursor, last);
    case '\"' =>
      var e := ScanString(js, st.pos + 1);
      if e.Some? {
        stack, last' := PushJudges(st, cap, String, st.pos + 1, e.value, e.value + 1, cursor, last);
      }
    case ':' => cursor' := MoveJudges(st, |st.toks| - 1, cursor, last);
    case ',' =>
      CommaKnows(st);
      cursor' := MoveJudges(st, Comma(st), cursor, last);
    case c =>
      if IsSpace(c) {
        cursor' := MoveJudges(st, st.super, cursor, last);
      } else {
        var e := ScanPrimitive(js, st.pos);
        if e.Some? {
          stack, last' := PushJudges(st, cap, Primitive, st.pos, e.value, e.value, cursor, last);
        }
      }
  }

  lemma PushJudges(st: State, cap: nat, kind: Kind, start: nat, end: int, pos: nat, cursor: Spot, last: Spot)
    returns (stack: seq<Kind>, last': Spot)
    requires Inv(st) && Knows(st, cursor, last) && |st.toks| < cap
    ensures stack == Stack(st.toks) + (if end == -1 then [kind] else [])
    ensures last' == Put(Stack(st.toks), cursor, last, kind)
    ensures Push(st, cap, kind, start, end, pos).Next?
    ensures var st' := Push(st, cap, kind, start, end, pos).st;
      st'.pos == pos && stack == Stack(st'.toks) && Knows(st', cursor, last')
    ensures end != -1 ==> stack == Stack(st.toks)
  {
    hide Knows, Put, Stack;
    stack := Stack(st.toks) + if end == -1 then [kind] else [];
    last' := Put(Stack(st.toks), cursor, last, kind);
    PushStack(st, cap, kind, start, end, pos);
    PushKnows(st, cap, kind, start, end, pos, cursor, last);
  }

  /** Moving on, with new tokens to belong to `super`. */
  lemma MoveJudges(st: State, super: int, cursor: Spot, last: Spot) returns (cursor': Spot)
    requires st.Shape() && Knows(st, cursor, last) && -1 <= super < |st.toks|
    ensures cursor' == if Stack(st.toks) == [] then SpotOf(st.toks, super) else cursor
    ensures Stack(st.toks) == [] ==> cursor == SpotOf(st.toks, st.super)
    ensures last == SpotOf(st.toks, |st.toks| - 1)
    ensures Knows(State(st.pos + 1, st.toks, super), cursor', last)
  {
    hide SpotOf, First;
    Empty(st.toks);
    cursor' := if Stack(st.toks) == [] then SpotOf(st.toks, super) else cursor;
  }

  lemma CloseJudges(js: string, st: State, kind: Kind, cursor: Spot, last: Spot) returns (stack: seq<Kind>)
    requires Inv(st) && Knows(st, cursor, last) && st.pos < |js| && (kind == Object || kind == Array)
    ensures var v, s := JudgeClose(js, st.pos, Stack(st.toks), cursor, last, kind), Close(st, kind);
      if s.Next? then
        && v == Judge(js, s.st.pos, stack, cursor, last)
        && stack == Stack(s.st.toks) && Knows(s.st, cursor, last)
      else (v == Stray || v == Mismatched) && s.code == INVAL
  {
    hide OpensOnChain, Spans, OnChain, Knows, Judge, Stack, Walk, ClosesLast;
    var s := Stack(st.toks);
    stack := if s == [] then [] else s[..|s| - 1];
    CloseExact(st, kind);
    if s == [] {
      StrayKnows(st, kind, cursor, last);
    }
    if Close(st, kind).Next? {
      CloseKnows(st, kind, cursor, last);
    }
  }

  /** A whole text, from the start. */
  lemma TextJudged(js: string, cap: nat)
    requires |js| <= cap
    ensures var v, r := Judge(js, 0, [], Nowhere, Nowhere), Run(js, INIT, cap);
      if v == Balanced then r.code == |r.st.toks| else r.code == Code(v)
  {
    hide Judge, Run;
    RunJudges(js, INIT, cap, Nowhere, Nowhere);
  }

  /** A stray closing bracket can be let through: this text is accepted with one token. */
  lemma StrayAccepted()
    ensures Judge("[]:]", 0, [], Nowhere, Nowhere) == Balanced && Judge("[]]", 0, [], Nowhere, Nowhere) == Stray
    ensures Run("[]:]", INIT, 4).code >= 0 && Run("[]]", INIT, 3).code == INVAL
  {
    hide Run, Step, Push, Close;
    TextJudged("[]:]", 4);
    TextJudged("[]]", 3);
  }
}
