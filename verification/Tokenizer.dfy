/** What the JSON tokenizer computes, as a step function over its token list. */
module Tokenizer {
  import opened Options
  import opened Strings

  datatype Kind = Object | Array | String | Primitive

  /** A token; -1 stands for an end not reached yet and for no parent. */
  datatype Token = Token(kind: Kind, start: nat, end: int, size: nat, parent: int) {
    predicate Open() {
      end == -1
    }

    predicate Container() {
      kind == Object || kind == Array
    }
  }

  /** The next character, the tokens so far, and the token that new ones belong to. */
  datatype State = State(pos: nat, toks: seq<Token>, super: int) {
    /** Parents precede their children and `super` is a token or -1. */
    ghost predicate Shape() {
      Parents(toks) && -1 <= super < |toks|
    }
  }

  ghost predicate Parents(toks: seq<Token>) {
    forall i :: 0 <= i < |toks| ==> -1 <= toks[i].parent < i
  }

  const NOMEM := -1
  const INVAL := -2
  const PART := -3

  predicate AtEnd(js: string, pos: nat) {
    pos >= |js| || js[pos] == '\0'
  }

  predicate IsSpace(c: char) {
    c == '\t' || c == '\r' || c == '\n' || c == ' '
  }

  predicate EndsPrimitive(c: char) {
    IsSpace(c) || c == ':' || c == ',' || c == ']' || c == '}'
  }

  /** Where the primitive that starts at or before `pos` ends; nothing if it has a bad character. */
  function ScanPrimitive(js: string, pos: nat): (r: Option<nat>)
    ensures r.Some? ==> r.value >= pos
    ensures r.Some? && pos <= |js| ==> r.value <= |js|
    decreases |js| - pos
  {
    if AtEnd(js, pos) || EndsPrimitive(js[pos]) then Some(pos)
    else if js[pos] < ' ' || js[pos] >= 127 as char then None
    else ScanPrimitive(js, pos + 1)
  }

  predicate IsSimpleEscape(c: char) {
    c == '\"' || c == '/' || c == '\\' || c == 'b' || c == 'f' || c == 'r' || c == 'n' || c == 't'
  }

  /** The position behind up to `n` hex digits; nothing if another character is among them. */
  function ScanHex(js: string, pos: nat, n: nat): (r: Option<nat>)
    ensures r.Some? ==> r.value >= pos
    ensures r.Some? && pos <= |js| ==> r.value <= |js|
    decreases n
  {
    if n == 0 || AtEnd(js, pos) then Some(pos)
    else if IsHex(js[pos]) then ScanHex(js, pos + 1, n - 1)
    else None
  }

  /** The position of the quote that closes the string whose text goes on at `pos`. */
  function ScanString(js: string, pos: nat): (r: Option<nat>)
    ensures r.Some? ==> pos <= r.value < |js| && js[r.value] == '\"'
    decreases |js| - pos
  {
    if AtEnd(js, pos) then None
    else if js[pos] == '\"' then Some(pos)
    else if js[pos] == '\\' && pos + 1 < |js| then
      if IsSimpleEscape(js[pos + 1]) then ScanString(js, pos + 2)
      else if js[pos + 1] == 'u' then
        var h := ScanHex(js, pos + 2, 4);
        if h.None? then None else ScanString(js, h.value)
      else None
    else ScanString(js, pos + 1)
  }

  /** Counts one more child of token `i`. */
  function AddSize(toks: seq<Token>, i: int, n: nat): (r: seq<Token>)
    requires -1 <= i < |toks|
    ensures |r| == |toks|
    ensures forall k :: 0 <= k < |toks| ==> r[k] == if k == i then toks[k].(size := toks[k].size + n) else toks[k]
  {
    if i == -1 then toks else toks[i := toks[i].(size := toks[i].size + n)]
  }

  /** The innermost open token on the way from `j` to the root, or else the root. */
  function Walk(toks: seq<Token>, j: nat): (r: nat)
    requires Parents(toks) && j < |toks|
    ensures r <= j && (toks[r].Open() || toks[r].parent == -1)
  {
    if toks[j].Open() || toks[j].parent == -1 then j else Walk(toks, toks[j].parent)
  }

  datatype Outcome = Next(st: State) | Stop(code: int)

  /** Adds a token below `super`. */
  function Push(st: State, cap: nat, kind: Kind, start: nat, end: int, pos: nat): (r: Outcome)
    requires st.Shape()
    ensures r.Next? ==> r.st.Shape()
  {
    if |st.toks| >= cap then Stop(NOMEM)
    else
      var toks := AddSize(st.toks, st.super, 1) + [Token(kind, start, end, 0, st.super)];
      Next(State(pos, toks, if end == -1 then |st.toks| else st.super))
  }

  /** A closing bracket. */
  function Close(st: State, kind: Kind): (r: Outcome)
    requires st.Shape()
    ensures r.Next? ==> r.st.Shape()
  {
    if st.toks == [] then Stop(INVAL)
    else
      var i := Walk(st.toks, |st.toks| - 1);
      var t := st.toks[i];
      if t.Open() then
        if t.kind != kind then Stop(INVAL)
        else Next(State(st.pos + 1, st.toks[i := t.(end := st.pos + 1)], t.parent))
      else if t.kind != kind || st.super == -1 then Stop(INVAL)
      else Next(st.(pos := st.pos + 1))
  }

  /** What a comma does to the token that new ones belong to: it leaves a key or a plain value. */
  function Comma(st: State): (s: int)
    requires st.Shape()
    ensures -1 <= s < |st.toks|
  {
    if st.super != -1 && !st.toks[st.super].Container() then st.toks[st.super].parent else st.super
  }

  /** One round of the main loop, with room for `cap` tokens. */
  function Step(js: string, st: State, cap: nat): (r: Outcome)
    requires st.Shape() && !AtEnd(js, st.pos)
    ensures r.Next? ==> r.st.Shape() && st.pos < r.st.pos <= |js| && |r.st.toks| <= |st.toks| + 1
    ensures r.Stop? ==> r.code < 0
  {
    match js[st.pos]
    case '{' => Push(st, cap, Object, st.pos, -1, st.pos + 1)
    case '[' => Push(st, cap, Array, st.pos, -1, st.pos + 1)
    case '}' => Close(st, Object)
    case ']' => Close(st, Array)
    case '\"' =>
      var e := ScanString(js, st.pos + 1);
      if e.None? then Stop(-1) else Push(st, cap, String, st.pos + 1, e.value, e.value + 1)
    case ':' => Next(st.(pos := st.pos + 1, super := |st.toks| - 1))
    case ',' => Next(st.(pos := st.pos + 1, super := Comma(st)))
    case c =>
      if IsSpace(c) then Next(st.(pos := st.pos + 1))
      else
        var e := ScanPrimitive(js, st.pos);
        if e.None? then Stop(INVAL)
        else
          assert ScanPrimitive(js, st.pos + 1) == e;
          Push(st, cap, Primitive, st.pos, e.value, e.value)
  }

  predicate AnyOpen(toks: seq<Token>) {
    exists i :: 0 <= i < |toks| && toks[i].Open()
  }

  /** The value returned and the state left behind. */
  datatype Result = Result(code: int, st: State)

  function Run(js: string, st: State, cap: nat): (r: Result)
    requires st.Shape()
    ensures r.st.Shape()
    decreases |js| - st.pos
  {
    if AtEnd(js, st.pos) then Result(if AnyOpen(st.toks) then PART else |st.toks|, st)
    else
      var s := Step(js, st, cap);
      if s.Stop? then Result(s.code, st) else Run(js, s.st, cap)
  }

  const INIT: State := State(0, [], -1)

  /** The counting pass, which keeps no tokens and so checks no brackets. */
  function Count(js: string, pos: nat, n: nat): int
    decreases |js| - pos
  {
    if AtEnd(js, pos) then n
    else
      match js[pos]
      case '{' => Count(js, pos + 1, n + 1)
      case '[' => Count(js, pos + 1, n + 1)
      case '}' => Count(js, pos + 1, n)
      case ']' => Count(js, pos + 1, n)
      case '\"' =>
        var e := ScanString(js, pos + 1);
        if e.None? then -1 else Count(js, e.value + 1, n + 1)
      case ':' => Count(js, pos + 1, n)
      case ',' => Count(js, pos + 1, n)
      case c =>
        if IsSpace(c) then Count(js, pos + 1, n)
        else
          var e := ScanPrimitive(js, pos);
          if e.None? then INVAL
          else
            assert ScanPrimitive(js, pos + 1) == e;
            Count(js, e.value, n + 1)
  }

  // ---- resuming and counting

  /**
   * Tokenizing is resumable: going on from where a run with less room ended, whatever it returned,
   * ends as one run with all the room.
   */
  lemma {:induction false} Resumable(js: string, st: State, small: nat, large: nat)
    requires st.Shape() && small <= large
    ensures Run(js, Run(js, st, small).st, large) == Run(js, st, large)
    decreases |js| - st.pos
  {
    if !AtEnd(js, st.pos) {
      var s := Step(js, st, small);
      if s.Next? {
        assert Step(js, st, large) == s;
        Resumable(js, s.st, small, large);
      }
    }
  }

  /** With less room a run ends as with more, or reports that all the room is used. */
  lemma {:induction false} LessRoom(js: string, st: State, small: nat, large: nat)
    requires st.Shape() && |st.toks| <= small <= large
    ensures var r := Run(js, st, small); r == Run(js, st, large) || (r.code == -1 && |r.st.toks| == small)
    decreases |js| - st.pos
  {
    if !AtEnd(js, st.pos) {
      var s := Step(js, st, small);
      if s.Next? {
        assert Step(js, st, large) == s;
        LessRoom(js, s.st, small, large);
      } else {
        assert Step(js, st, large) == s || (s.code == NOMEM && |st.toks| == small);
      }
    }
  }

  /** Whenever filling succeeds, the counting pass returns the same number. */
  lemma {:induction false} CountAgrees(js: string, st: State, cap: nat)
    requires st.Shape() && Run(js, st, cap).code >= 0
    ensures Count(js, st.pos, |st.toks|) == Run(js, st, cap).code
    decreases |js| - st.pos
  {
    hide ScanString, ScanPrimitive, Step, Count;
    if AtEnd(js, st.pos) {
      CountEnd(js, st.pos, |st.toks|);
    } else {
      CountStep(js, st, cap);
      CountAgrees(js, Step(js, st, cap).st, cap);
    }
  }

  lemma CountEnd(js: string, pos: nat, n: nat)
    requires AtEnd(js, pos)
    ensures Count(js, pos, n) == n
  {
  }

  /** Counting goes on as the step does. */
  lemma CountStep(js: string, st: State, cap: nat)
    requires st.Shape() && !AtEnd(js, st.pos) && Step(js, st, cap).Next?
    ensures var t := Step(js, st, cap).st; Count(js, st.pos, |st.toks|) == Count(js, t.pos, |t.toks|)
  {
    hide ScanString, ScanPrimitive, Walk, Comma, AddSize;
  }
}
