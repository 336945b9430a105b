/** JSON text as sections 2 to 7 of RFC 8259 write it, and the tokens it stands for. */
module JsonText {
  import opened Options
  import opened Strings
  import opened Lexis
  import opened Tokenizer
  import opened TokenTree

  /** A value with the insignificant white space written inside its brackets. */
  datatype Value =
    | Obj(members: seq<Member>, pad: string)
    | Arr(elems: seq<Elem>, pad: string)
    | Str(body: string)
    | Prim(text: string)

  /** An element between white space. */
  datatype Elem = Elem(before: string, v: Value, after: string)

  /** A member: white space, key, white space, and the value behind the colon. */
  datatype Member = Member(before: string, key: string, between: string, e: Elem)

  predicate Blank(s: string) {
    forall i :: 0 <= i < |s| ==> IsSpace(s[i])
  }

  /** The text of a string, section 7: unescaped characters and escapes. */
  predicate StringBody(s: string) {
    if s == [] then true
    else if s[0] == '\\' then
      if |s| < 2 then false
      else if IsSimpleEscape(s[1]) then StringBody(s[2..])
      else
        && s[1] == 'u' && |s| >= 6 && IsHex(s[2]) && IsHex(s[3]) && IsHex(s[4]) && IsHex(s[5])
        && StringBody(s[6..])
    else s[0] >= ' ' && s[0] != '\"' && StringBody(s[1..])
  }

  /** Printable text without structural characters; numbers and literal names are of this form. */
  predicate PrimitiveText(s: string) {
    && s != []
    && (forall i :: 0 <= i < |s| ==> ' ' < s[i] < 127 as char && !EndsPrimitive(s[i]))
    && s[0] != '{' && s[0] != '[' && s[0] != '\"'
  }

  predicate Valid(v: Value) {
    match v
    case Obj(members, pad) => Blank(pad) && ValidMembers(members)
    case Arr(elems, pad) => Blank(pad) && ValidElems(elems)
    case Str(body) => StringBody(body)
    case Prim(text) => PrimitiveText(text)
  }

  predicate ValidElems(es: seq<Elem>) {
    if es == [] then true
    else Blank(es[0].before) && Valid(es[0].v) && Blank(es[0].after) && ValidElems(es[1..])
  }

  predicate ValidMembers(ms: seq<Member>) {
    if ms == [] then true
    else
      var m := ms[0];
      && Blank(m.before) && StringBody(m.key) && Blank(m.between)
      && Blank(m.e.before) && Valid(m.e.v) && Blank(m.e.after) && ValidMembers(ms[1..])
  }

  // ---- printing

  function Print(v: Value): string {
    match v
    case Obj(members, pad) => "{" + (if members == [] then pad else PrintMembers(members)) + "}"
    case Arr(elems, pad) => "[" + (if elems == [] then pad else PrintElems(elems)) + "]"
    case Str(body) => "\"" + body + "\""
    case Prim(text) => text
  }

  function PrintElems(es: seq<Elem>): string
    requires es != []
  {
    es[0].before + Print(es[0].v) + es[0].after + (if |es| == 1 then "" else "," + PrintElems(es[1..]))
  }

  function PrintKey(m: Member): string {
    m.before + "\"" + m.key + "\"" + m.between + ":"
  }

  function PrintMembers(ms: seq<Member>): string
    requires ms != []
  {
    PrintKey(ms[0]) + ms[0].e.before + Print(ms[0].e.v) + ms[0].e.after
    + (if |ms| == 1 then "" else "," + PrintMembers(ms[1..]))
  }

  // ---- the tokens of a value

  /** How many tokens a value has: one per value and one per key. */
  function Nodes(v: Value): nat {
    match v
    case Obj(members, _) => 1 + MemberNodes(members)
    case Arr(elems, _) => 1 + ElemNodes(elems)
    case Str(_) => 1
    case Prim(_) => 1
  }

  function ElemNodes(es: seq<Elem>): nat {
    if es == [] then 0 else Nodes(es[0].v) + ElemNodes(es[1..])
  }

  function MemberNodes(ms: seq<Member>): nat {
    if ms == [] then 0 else 1 + Nodes(ms[0].e.v) + MemberNodes(ms[1..])
  }

  /**
   * The tokens of a value printed at `at`, in pre-order, the first of them being number `n`: a
   * container spans its brackets and counts its elements or members, a string its text.
   */
  function Flatten(v: Value, at: nat, n: nat, parent: int): (r: seq<Token>)
    ensures |r| == Nodes(v)
    decreases v, 0
  {
    match v
    case Obj(members, _) =>
      [Token(Object, at, at + |Print(v)|, |members|, parent)] + FlattenMembers(members, at + 1, n + 1, n)
    case Arr(elems, _) =>
      [Token(Array, at, at + |Print(v)|, |elems|, parent)] + FlattenElems(elems, at + 1, n + 1, n)
    case Str(body) => [Token(String, at + 1, at + 1 + |body|, 0, parent)]
    case Prim(text) => [Token(Primitive, at, at + |text|, 0, parent)]
  }

  function FlattenElems(es: seq<Elem>, at: nat, n: nat, parent: int): (r: seq<Token>)
    ensures |r| == ElemNodes(es)
    decreases es, 1
  {
    if es == [] then []
    else
      var p := at + |es[0].before|;
      Flatten(es[0].v, p, n, parent)
      + FlattenElems(es[1..], p + |Print(es[0].v)| + |es[0].after| + 1, n + Nodes(es[0].v), parent)
  }

  /** A key has the members' object as its parent, and its value has the key. */
  function FlattenMembers(ms: seq<Member>, at: nat, n: nat, parent: int): (r: seq<Token>)
    ensures |r| == MemberNodes(ms)
    decreases ms, 1
  {
    if ms == [] then []
    else
      var m := ms[0];
      var k := at + |m.before| + 1;
      var p := at + |PrintKey(m)| + |m.e.before|;
      [Token(String, k, k + |m.key|, 1, parent)] + Flatten(m.e.v, p, n + 1, n)
      + FlattenMembers(ms[1..], p + |Print(m.e.v)| + |m.e.after| + 1, n + 1 + Nodes(m.e.v), parent)
  }

  // ---- tokenizing printed text

  /** The text `s` stands at position `p` of `js`. */
  ghost predicate TextAt(js: string, p: nat, s: string) {
    p + |s| <= |js| && js[p..p + |s|] == s
  }

  lemma TextConcat(js: string, p: nat, a: string, b: string)
    ensures TextAt(js, p, a + b) <==> TextAt(js, p, a) && TextAt(js, p + |a|, b)
  {
    if p + |a| + |b| <= |js| {
      assert js[p..p + |a| + |b|] == js[p..p + |a|] + js[p + |a|..p + |a| + |b|];
      if TextAt(js, p, a + b) {
        assert js[p..p + |a|] == (a + b)[..|a|] == a;
        assert js[p + |a|..p + |a| + |b|] == (a + b)[|a|..] == b;
      }
    }
  }

  /** From `st` the tokenizer gets to `st'`, keeping its invariant. */
  ghost predicate Reaches(js: string, st: State, st': State, cap: nat) {
    && Inv(st) && Inv(st') && Run(js, st, cap) == Run(js, st', cap)
  }

  lemma OneStep(js: string, st: State, cap: nat)
    requires Inv(st) && !AtEnd(js, st.pos) && Step(js, st, cap).Next?
    ensures Reaches(js, st, Step(js, st, cap).st, cap)
  {
    StepInv(js, st, cap);
  }

  lemma BlankTail(s: string)
    requires Blank(s) && s != ""
    ensures IsSpace(s[0]) && Blank(s[1..])
  {
  }

  lemma {:induction false} SkipBlank(js: string, st: State, cap: nat, s: string)
    requires Inv(st) && Blank(s) && TextAt(js, st.pos, s)
    ensures Reaches(js, st, st.(pos := st.pos + |s|), cap)
    decreases |s|
  {
    hide OpensOnChain, Spans, Run, Blank, Step;
    if s == [] {
      assert st.(pos := st.pos) == st;
    } else {
      assert js[st.pos] == js[st.pos..st.pos + |s|][0] == s[0];
      BlankTail(s);
      SpaceStep(js, st, cap);
      OneStep(js, st, cap);
      var st1 := st.(pos := st.pos + 1);
      assert TextAt(js, st1.pos, s[1..]) by {
        TextConcat(js, st.pos, [s[0]], s[1..]);
        assert [s[0]] + s[1..] == s;
      }
      SkipBlank(js, st1, cap, s[1..]);
    }
  }

  lemma SpaceStep(js: string, st: State, cap: nat)
    requires st.Shape() && st.pos < |js| && IsSpace(js[st.pos])
    ensures !AtEnd(js, st.pos) && Step(js, st, cap) == Next(st.(pos := st.pos + 1))
  {
  }

  /** Strings as the grammar of JSON has them are among those that are read. */
  lemma {:induction false} BodyRead(s: string)
    requires StringBody(s)
    ensures StringText(s)
    decreases |s|
  {
    if s != "" {
      var n := if s[0] != '\\' then 1 else if IsSimpleEscape(s[1]) then 2 else 6;
      BodyRead(s[n..]);
      if n == 6 {
        assert s[1] != '\"';
      }
    }
  }

  lemma ScanBody(js: string, p: nat, s: string)
    requires StringBody(s) && TextAt(js, p, s + "\"")
    ensures ScanString(js, p) == Some(p + |s|)
  {
    hide StringBody, StringText, ScanString;
    BodyRead(s);
    TextConcat(js, p, s, "\"");
    CharAt(js, p + |s|, '\"');
    StringExact(js, p, p + |s|);
  }

  lemma {:induction false} ScanText(js: string, p: nat, s: string)
    requires TextAt(js, p, s) && forall i :: 0 <= i < |s| ==> ' ' < s[i] < 127 as char && !EndsPrimitive(s[i])
    requires AtEnd(js, p + |s|) || EndsPrimitive(js[p + |s|])
    ensures ScanPrimitive(js, p) == Some(p + |s|)
    decreases |s|
  {
    if s != [] {
      assert js[p] == js[p..p + |s|][0] == s[0];
      TextConcat(js, p, [s[0]], s[1..]);
      assert [s[0]] + s[1..] == s;
      ScanText(js, p + 1, s[1..]);
    }
  }

  // ---- one value

  /** The state behind a value: its tokens added, and counted by the token they belong to. */
  function After(st: State, v: Value): State
    requires st.Shape()
  {
    State(st.pos + |Print(v)|, AddSize(st.toks, st.super, 1) + Flatten(v, st.pos, |st.toks|, st.super), st.super)
  }

  lemma {:induction false} FlattenClosed(v: Value, at: nat, n: nat, parent: int)
    ensures forall i :: 0 <= i < Nodes(v) ==> !Flatten(v, at, n, parent)[i].Open()
    decreases v, 0
  {
    match v
    case Obj(members, _) => FlattenMembersClosed(members, at + 1, n + 1, n);
    case Arr(elems, _) => FlattenElemsClosed(elems, at + 1, n + 1, n);
    case Str(_) =>
    case Prim(_) =>
  }

  lemma {:induction false} FlattenElemsClosed(es: seq<Elem>, at: nat, n: nat, parent: int)
    ensures forall i :: 0 <= i < ElemNodes(es) ==> !FlattenElems(es, at, n, parent)[i].Open()
    decreases es, 1
  {
    if es != [] {
      var p := at + |es[0].before|;
      FlattenClosed(es[0].v, p, n, parent);
      FlattenElemsClosed(es[1..], p + |Print(es[0].v)| + |es[0].after| + 1, n + Nodes(es[0].v), parent);
    }
  }

  lemma {:induction false} FlattenMembersClosed(ms: seq<Member>, at: nat, n: nat, parent: int)
    ensures forall i :: 0 <= i < MemberNodes(ms) ==> !FlattenMembers(ms, at, n, parent)[i].Open()
    decreases ms, 1
  {
    if ms != [] {
      var m := ms[0];
      var p := at + |PrintKey(m)| + |m.e.before|;
      FlattenClosed(m.e.v, p, n + 1, n);
      FlattenMembersClosed(ms[1..], p + |Print(m.e.v)| + |m.e.after| + 1, n + 1 + Nodes(m.e.v), parent);
    }
  }

  lemma CharAt(js: string, p: nat, c: char)
    requires TextAt(js, p, [c])
    ensures p < |js| && js[p] == c
  {
    assert js[p..p + 1][0] == js[p];
  }

  /** A quoted string becomes one token. */
  lemma StringStep(js: string, st: State, cap: nat, body: string)
    requires Inv(st) && StringBody(body) && TextAt(js, st.pos, "\"" + body + "\"") && |st.toks| < cap
    ensures Reaches(js, st, After(st, Str(body)), cap)
  {
    hide Spans, OpensOnChain, Run, ScanString;
    TextConcat(js, st.pos, "\"", body + "\"");
    assert "\"" + (body + "\"") == "\"" + body + "\"";
    CharAt(js, st.pos, '\"');
    ScanBody(js, st.pos + 1, body);
    OneStep(js, st, cap);
  }

  lemma PrimitiveStep(js: string, st: State, cap: nat, text: string)
    requires Inv(st) && PrimitiveText(text) && TextAt(js, st.pos, text) && |st.toks| < cap
    requires AtEnd(js, st.pos + |text|) || EndsPrimitive(js[st.pos + |text|])
    ensures Reaches(js, st, After(st, Prim(text)), cap)
  {
    hide Spans, OpensOnChain, Run;
    ScanText(js, st.pos, text);
    assert js[st.pos] == js[st.pos..st.pos + |text|][0] == text[0];
    OneStep(js, st, cap);
  }

  /** The bracket that closes token `n`, whose contents `f` are complete. */
  lemma CloseStep(js: string, st: State, cap: nat, base: seq<Token>, t: Token, f: seq<Token>)
    requires Inv(st) && st.toks == base + [t] + f && t.Open() && t.Container()
    requires forall i :: 0 <= i < |f| ==> !f[i].Open()
    requires TextAt(js, st.pos, if t.kind == Object then "}" else "]")
    ensures -1 <= t.parent < |base|
    ensures Reaches(js, st, State(st.pos + 1, base + [t.(end := st.pos + 1)] + f, t.parent), cap)
  {
    hide Spans, OpensOnChain, Stack, Walk, Close, Run;
    CharAt(js, st.pos, if t.kind == Object then '}' else ']');
    var n := |base|;
    assert st.toks[n] == t;
    StackEmpty(st.toks);
    CloseExact(st, t.kind);
    LastOpen(st, t.kind, n);
    OneStep(js, st, cap);
    assert st.toks[n := t.(end := st.pos + 1)] == base + [t.(end := st.pos + 1)] + f;
  }

  /** With token `n` the last open one, the top of the stack is its kind, and it is what is closed. */
  lemma LastOpen(st: State, kind: Kind, n: nat)
    requires Inv(st) && n < |st.toks| && st.toks[n].Open() && st.toks[n].kind == kind
    requires forall i :: n < i < |st.toks| ==> !st.toks[i].Open()
    ensures Close(st, kind) == Next(State(st.pos + 1, st.toks[n := st.toks[n].(end := st.pos + 1)], st.toks[n].parent))
  {
    hide Spans, Stack;
    var j := |st.toks| - 1;
    WalkFindsLast(st.toks, j);
    assert st.toks[n].Open();
    assert Walk(st.toks, j) == n;
  }

  lemma OpenStep(js: string, st: State, cap: nat, kind: Kind)
    requires Inv(st) && (kind == Object || kind == Array) && |st.toks| < cap
    requires TextAt(js, st.pos, if kind == Object then "{" else "[")
    ensures Reaches(js, st, Opened(st, kind), cap)
  {
    CharAt(js, st.pos, if kind == Object then '{' else '[');
    OneStep(js, st, cap);
  }

  function Opened(st: State, kind: Kind): State
    requires st.Shape()
  {
    State(st.pos + 1, AddSize(st.toks, st.super, 1) + [Token(kind, st.pos, -1, 0, st.super)], |st.toks|)
  }

  lemma SeparatorStep(js: string, st: State, cap: nat, c: char)
    requires Inv(st) && (c == ':' || c == ',') && TextAt(js, st.pos, [c])
    ensures Reaches(js, st, State(st.pos + 1, st.toks, if c == ':' then |st.toks| - 1 else Comma(st)), cap)
  {
    hide Spans, NestedOrBehind;
    CharAt(js, st.pos, c);
    OneStep(js, st, cap);
  }

  /** Behind a value comes white space, a comma or a closing bracket. */
  lemma Terminated(js: string, p: nat, after: string)
    requires Blank(after) && TextAt(js, p, after) && p + |after| < |js| && EndsPrimitive(js[p + |after|])
    ensures EndsPrimitive(js[p])
  {
    if after != [] {
      assert js[p] == js[p..p + |after|][0];
    }
  }

  // ---- values, elements and members

  /** Tokenizing a printed value appends exactly its tokens. */
  lemma {:induction false} ValueTokens(js: string, st: State, cap: nat, v: Value)
    requires Inv(st) && Valid(v) && TextAt(js, st.pos, Print(v)) && |st.toks| + Nodes(v) <= cap
    requires AtEnd(js, st.pos + |Print(v)|) || EndsPrimitive(js[st.pos + |Print(v)|])
    ensures Reaches(js, st, After(st, v), cap)
    decreases v, 1
  {
    match v
    case Str(body) => StringStep(js, st, cap, body);
    case Prim(text) => PrimitiveStep(js, st, cap, text);
    case Arr(_, _) => ArrayTokens(js, st, cap, v);
    case Obj(_, _) => ObjectTokens(js, st, cap, v);
  }

  lemma {:induction false} ArrayTokens(js: string, st: State, cap: nat, v: Value)
    requires v.Arr? && Inv(st) && Valid(v) && TextAt(js, st.pos, Print(v)) && |st.toks| + Nodes(v) <= cap
    ensures Reaches(js, st, After(st, v), cap)
    decreases v, 0
  {
    hide OpensOnChain, Run, AddSize, Blank, StringBody, OnChain, ValidElems, ValidMembers, Parents;
    var elems, inner := v.elems, if v.elems == [] then v.pad else PrintElems(v.elems);
    BracketText(js, st.pos, "[", inner, "]");
    OpenStep(js, st, cap, Array);
    var st1 := Opened(st, Array);
    var f := FlattenElems(elems, st1.pos, |st1.toks|, st1.super);
    var st2 := State(st1.pos + |inner|, AddSize(st1.toks, st1.super, |elems|) + f, st1.super);
    if elems == [] {
      SkipBlank(js, st1, cap, v.pad);
      assert st2 == st1.(pos := st1.pos + |v.pad|);
    } else {
      st2 := ElemsTokens(js, st1, cap, elems);
    }
    FlattenElemsClosed(elems, st1.pos, |st1.toks|, st1.super);
    ContainerClose(js, st, cap, Array, |elems|, f, st2);
  }

  lemma {:induction false} ObjectTokens(js: string, st: State, cap: nat, v: Value)
    requires v.Obj? && Inv(st) && Valid(v) && TextAt(js, st.pos, Print(v)) && |st.toks| + Nodes(v) <= cap
    ensures Reaches(js, st, After(st, v), cap)
    decreases v, 0
  {
    hide OpensOnChain, Spans, Run, AddSize, Blank, StringBody, PrimitiveText, OnChain, ValidElems, ValidMembers;
    var members, inner := v.members, if v.members == [] then v.pad else PrintMembers(v.members);
    BracketText(js, st.pos, "{", inner, "}");
    OpenStep(js, st, cap, Object);
    var st1 := Opened(st, Object);
    var f := FlattenMembers(members, st1.pos, |st1.toks|, st1.super);
    var st2 := State(st1.pos + |inner|, AddSize(st1.toks, st1.super, |members|) + f, st1.super);
    if members == [] {
      SkipBlank(js, st1, cap, v.pad);
      assert st2 == st1.(pos := st1.pos + |v.pad|);
    } else {
      st2 := MembersTokens(js, st1, cap, members);
    }
    FlattenMembersClosed(members, st1.pos, |st1.toks|, st1.super);
    ContainerClose(js, st, cap, Object, |members|, f, st2);
  }

  /** Closing the container opened at `st`, with `k` children and the tokens `f` inside. */
  lemma ContainerClose(js: string, st: State, cap: nat, kind: Kind, k: nat, f: seq<Token>, st': State)
    requires Inv(st) && Inv(st') && (kind == Object || kind == Array)
    requires st'.toks == AddSize(Opened(st, kind).toks, |st.toks|, k) + f
    requires forall i :: 0 <= i < |f| ==> !f[i].Open()
    requires TextAt(js, st'.pos, if kind == Object then "}" else "]")
    ensures Reaches(js, st', State(st'.pos + 1, AddSize(st.toks, st.super, 1)
              + ([Token(kind, st.pos, st'.pos + 1, k, st.super)] + f), st.super), cap)
  {
    hide OpensOnChain, Spans, Parents, Run;
    var t := Token(kind, st.pos, -1, k, st.super);
    var base := AddSize(st.toks, st.super, 1);
    assert st'.toks == base + [t] + f;
    CloseStep(js, st', cap, base, t, f);
    assert base + [t.(end := st'.pos + 1)] + f == base + ([t.(end := st'.pos + 1)] + f);
  }

  lemma BracketText(js: string, p: nat, a: string, b: string, c: string)
    requires TextAt(js, p, a + b + c)
    ensures TextAt(js, p, a) && TextAt(js, p + |a|, b) && TextAt(js, p + |a| + |b|, c)
  {
    TextConcat(js, p, a + b, c);
    TextConcat(js, p, a, b);
  }

  /** The state behind a value and the white space around it. */
  function AfterElem(st: State, e: Elem): State
    requires st.Shape()
  {
    State(st.pos + |e.before| + |Print(e.v)| + |e.after|,
          AddSize(st.toks, st.super, 1) + Flatten(e.v, st.pos + |e.before|, |st.toks|, st.super), st.super)
  }

  lemma {:induction false} ElemTokens(js: string, st: State, cap: nat, e: Elem)
    requires Inv(st) && Blank(e.before) && Valid(e.v) && Blank(e.after) && |st.toks| + Nodes(e.v) <= cap
    requires TextAt(js, st.pos, e.before) && TextAt(js, st.pos + |e.before|, Print(e.v))
    requires var p := st.pos + |e.before| + |Print(e.v)|;
      TextAt(js, p, e.after) && p + |e.after| < |js| && EndsPrimitive(js[p + |e.after|])
    ensures Reaches(js, st, AfterElem(st, e), cap)
    decreases e, 2
  {
    hide OpensOnChain, Spans, Parents, Run;
    var st1 := st.(pos := st.pos + |e.before|);
    var st2 := After(st1, e.v);
    SkipBlank(js, st, cap, e.before);
    Terminated(js, st2.pos, e.after);
    ValueTokens(js, st1, cap, e.v);
    SkipBlank(js, st2, cap, e.after);
    assert AfterElem(st, e) == st2.(pos := st2.pos + |e.after|);
  }

  /** The parts of a list of elements, and what follows its first one. */
  lemma ElemsText(js: string, p: nat, es: seq<Elem>)
    requires es != [] && TextAt(js, p, PrintElems(es)) && TextAt(js, p + |PrintElems(es)|, "]")
    ensures var e := es[0];
      var r := p + |e.before| + |Print(e.v)|;
      && TextAt(js, p, e.before) && TextAt(js, p + |e.before|, Print(e.v))
      && TextAt(js, r, e.after) && r + |e.after| < |js| && EndsPrimitive(js[r + |e.after|])
      && (|es| == 1 ==> |PrintElems(es)| == r + |e.after| - p)
      && (|es| > 1 ==>
          && |PrintElems(es)| == r + |e.after| + 1 + |PrintElems(es[1..])| - p
          && TextAt(js, r + |e.after|, ",") && TextAt(js, r + |e.after| + 1, PrintElems(es[1..])))
  {
    hide TextAt, Print;
    var e := es[0];
    var tail := if |es| == 1 then "" else "," + PrintElems(es[1..]);
    ElemText(js, p, e.before, Print(e.v), e.after, tail);
    var t := p + |e.before| + |Print(e.v)| + |e.after|;
    if |es| > 1 {
      TextConcat(js, t, ",", PrintElems(es[1..]));
      CharAt(js, t, ',');
    } else {
      CharAt(js, p + |PrintElems(es)|, ']');
    }
  }

  lemma {:induction false} ElemsTokens(js: string, st: State, cap: nat, es: seq<Elem>) returns (st': State)
    requires es != [] && Inv(st) && ValidElems(es) && |st.toks| + ElemNodes(es) <= cap
    requires TextAt(js, st.pos, PrintElems(es)) && TextAt(js, st.pos + |PrintElems(es)|, "]")
    requires 0 <= st.super && st.toks[st.super].Container()
    ensures st'.pos == st.pos + |PrintElems(es)| && st'.super == st.super
    ensures st'.toks == AddSize(st.toks, st.super, |es|) + FlattenElems(es, st.pos, |st.toks|, st.super)
    ensures Reaches(js, st, st', cap)
    decreases es, 1
  {
    hide OpensOnChain, Spans, Parents, Run, Valid, Print, PrintElems, Flatten, Blank, Nodes, TextAt, AddSize;
    hide EndsPrimitive;
    var e, rest := es[0], es[1..];
    var st3 := AfterElem(st, e);
    ElemsText(js, st.pos, es);
    ElemTokens(js, st, cap, e);
    if |es| == 1 {
      st' := st3;
      assert FlattenElems(es, st.pos, |st.toks|, st.super)
          == Flatten(e.v, st.pos + |e.before|, |st.toks|, st.super) + [];
    } else {
      assert st3.toks[st3.super].Container();
      SeparatorStep(js, st3, cap, ',');
      st' := ElemsTokens(js, State(st3.pos + 1, st3.toks, st3.super), cap, rest);
      ElemsJoined(st, es);
    }
  }

  lemma ElemsCons(st: State, es: seq<Elem>)
    requires st.Shape() && |es| > 1
    ensures var st' := AfterElem(st, es[0]);
      FlattenElems(es, st.pos, |st.toks|, st.super)
      == Flatten(es[0].v, st.pos + |es[0].before|, |st.toks|, st.super)
       + FlattenElems(es[1..], st'.pos + 1, |st'.toks|, st.super)
  {
    hide Flatten, Print, Nodes, Parents, AddSize;
  }

  /** The tokens of a first element and of the others are those of all. */
  lemma ElemsJoined(st: State, es: seq<Elem>)
    requires st.Shape() && st.super >= 0 && |es| > 1
    ensures var st' := AfterElem(st, es[0]);
      AddSize(st'.toks, st.super, |es| - 1) + FlattenElems(es[1..], st'.pos + 1, |st'.toks|, st.super)
      == AddSize(st.toks, st.super, |es|) + FlattenElems(es, st.pos, |st.toks|, st.super)
  {
    hide FlattenElems, Flatten, AddSize, Print;
    var st' := AfterElem(st, es[0]);
    ElemsCons(st, es);
    AddSizeTwice(st.toks, st.super, 1, |es| - 1, Flatten(es[0].v, st.pos + |es[0].before|, |st.toks|, st.super),
                 FlattenElems(es[1..], st'.pos + 1, |st'.toks|, st.super));
  }

  lemma ElemText(js: string, p: nat, a: string, b: string, c: string, d: string)
    requires TextAt(js, p, a + b + c + d)
    ensures TextAt(js, p, a) && TextAt(js, p + |a|, b) && TextAt(js, p + |a| + |b|, c)
    ensures TextAt(js, p + |a| + |b| + |c|, d)
  {
    TextConcat(js, p, a + b + c, d);
    BracketText(js, p, a, b, c);
  }

  lemma AddSizeTwice(toks: seq<Token>, i: nat, m: nat, n: nat, f: seq<Token>, g: seq<Token>)
    requires i < |toks|
    ensures AddSize(AddSize(toks, i, m) + f, i, n) + g == AddSize(toks, i, m + n) + (f + g)
  {
  }

  /** The state behind a member; what follows still belongs to its key. */
  function AfterMember(st: State, m: Member): State
    requires st.Shape()
  {
    State(st.pos + |PrintKey(m)| + |m.e.before| + |Print(m.e.v)| + |m.e.after|,
          AddSize(st.toks, st.super, 1) + MemberToks(st, m), |st.toks|)
  }

  function MemberToks(st: State, m: Member): (r: seq<Token>)
    requires st.Shape()
    ensures |r| == 1 + Nodes(m.e.v)
  {
    var k := st.pos + |m.before| + 1;
    [Token(String, k, k + |m.key|, 1, st.super)]
    + Flatten(m.e.v, st.pos + |PrintKey(m)| + |m.e.before|, |st.toks| + 1, |st.toks|)
  }

  lemma {:induction false} MemberTokens(js: string, st: State, cap: nat, m: Member)
    requires Inv(st) && Blank(m.before) && StringBody(m.key) && Blank(m.between)
    requires Blank(m.e.before) && Valid(m.e.v) && Blank(m.e.after) && |st.toks| + 1 + Nodes(m.e.v) <= cap
    requires TextAt(js, st.pos, PrintKey(m)) && TextAt(js, st.pos + |PrintKey(m)|, m.e.before)
    requires TextAt(js, st.pos + |PrintKey(m)| + |m.e.before|, Print(m.e.v))
    requires var p := st.pos + |PrintKey(m)| + |m.e.before| + |Print(m.e.v)|;
      TextAt(js, p, m.e.after) && p + |m.e.after| < |js| && EndsPrimitive(js[p + |m.e.after|])
    ensures Reaches(js, st, AfterMember(st, m), cap)
    decreases m, 2
  {
    hide OpensOnChain, Spans, Parents, Run, Valid, Print, Flatten, Blank, StringBody, PrintKey;
    var st1 := KeyTokens(js, st, cap, m);
    ElemTokens(js, st1, cap, m.e);
    var k := st.pos + |m.before| + 1;
    assert AddSize(st1.toks, |st.toks|, 1)
        == AddSize(st.toks, st.super, 1) + [Token(String, k, k + |m.key|, 1, st.super)];
    assert AfterElem(st1, m.e) == AfterMember(st, m);
  }

  lemma MembersPrinted(ms: seq<Member>)
    requires ms != []
    ensures var m := ms[0];
      PrintMembers(ms) == (PrintKey(m) + m.e.before) + Print(m.e.v) + m.e.after
        + (if |ms| == 1 then "" else "," + PrintMembers(ms[1..]))
  {
    hide Print, PrintKey;
  }

  /** The parts of a list of members, and what follows its first one. */
  lemma MembersText(js: string, p: nat, ms: seq<Member>)
    requires ms != [] && TextAt(js, p, PrintMembers(ms)) && TextAt(js, p + |PrintMembers(ms)|, "}")
    ensures var m := ms[0];
      var q := p + |PrintKey(m)|;
      var r := q + |m.e.before| + |Print(m.e.v)|;
      && TextAt(js, p, PrintKey(m)) && TextAt(js, q, m.e.before) && TextAt(js, q + |m.e.before|, Print(m.e.v))
      && TextAt(js, r, m.e.after) && r + |m.e.after| < |js| && EndsPrimitive(js[r + |m.e.after|])
      && (|ms| == 1 ==> |PrintMembers(ms)| == r + |m.e.after| - p)
      && (|ms| > 1 ==>
          && |PrintMembers(ms)| == r + |m.e.after| + 1 + |PrintMembers(ms[1..])| - p
          && TextAt(js, r + |m.e.after|, ",") && TextAt(js, r + |m.e.after| + 1, PrintMembers(ms[1..])))
  {
    hide Print, PrintKey, PrintMembers, TextAt;
    MembersPrinted(ms);
    var m := ms[0];
    var tail := if |ms| == 1 then "" else "," + PrintMembers(ms[1..]);
    ElemText(js, p, PrintKey(m) + m.e.before, Print(m.e.v), m.e.after, tail);
    TextConcat(js, p, PrintKey(m), m.e.before);
    var t := p + |PrintKey(m) + m.e.before| + |Print(m.e.v)| + |m.e.after|;
    if |ms| > 1 {
      TextConcat(js, t, ",", PrintMembers(ms[1..]));
      CharAt(js, t, ',');
    } else {
      CharAt(js, p + |PrintMembers(ms)|, '}');
    }
  }

  lemma {:induction false} MembersTokens(js: string, st: State, cap: nat, ms: seq<Member>) returns (st': State)
    requires ms != [] && Inv(st) && ValidMembers(ms) && |st.toks| + MemberNodes(ms) <= cap
    requires TextAt(js, st.pos, PrintMembers(ms)) && TextAt(js, st.pos + |PrintMembers(ms)|, "}")
    requires 0 <= st.super && st.toks[st.super].Container()
    ensures st'.pos == st.pos + |PrintMembers(ms)|
    ensures st'.toks == AddSize(st.toks, st.super, |ms|) + FlattenMembers(ms, st.pos, |st.toks|, st.super)
    ensures Reaches(js, st, st', cap)
    decreases ms, 1
  {
    hide OpensOnChain, Spans, Parents, Run, Valid, Print, Flatten, Blank, StringBody, PrintKey, PrintMembers;
    hide Nodes, TextAt, AddSize, EndsPrimitive;
    var m, rest := ms[0], ms[1..];
    var st4 := AfterMember(st, m);
    MembersText(js, st.pos, ms);
    MemberTokens(js, st, cap, m);
    if |ms| == 1 {
      st' := st4;
      assert FlattenMembers(ms, st.pos, |st.toks|, st.super) == MemberToks(st, m) + [];
    } else {
      SeparatorStep(js, st4, cap, ',');
      assert st4.toks[st4.super] == MemberToks(st, m)[0];
      st' := MembersTokens(js, State(st4.pos + 1, st4.toks, st.super), cap, rest);
      MembersJoined(st, ms);
    }
  }

  lemma MembersCons(st: State, ms: seq<Member>)
    requires st.Shape() && |ms| > 1
    ensures var st' := AfterMember(st, ms[0]);
      FlattenMembers(ms, st.pos, |st.toks|, st.super)
      == MemberToks(st, ms[0]) + FlattenMembers(ms[1..], st'.pos + 1, |st'.toks|, st.super)
  {
    hide Flatten, Print, PrintKey, Nodes, Parents, AddSize;
  }

  /** The tokens of a first member and of the others are those of all. */
  lemma MembersJoined(st: State, ms: seq<Member>)
    requires st.Shape() && st.super >= 0 && |ms| > 1
    ensures var st' := AfterMember(st, ms[0]);
      AddSize(st'.toks, st.super, |ms| - 1) + FlattenMembers(ms[1..], st'.pos + 1, |st'.toks|, st.super)
      == AddSize(st.toks, st.super, |ms|) + FlattenMembers(ms, st.pos, |st.toks|, st.super)
  {
    hide FlattenMembers, MemberToks, AddSize, Print, PrintKey;
    var st' := AfterMember(st, ms[0]);
    MembersCons(st, ms);
    AddSizeTwice(st.toks, st.super, 1, |ms| - 1, MemberToks(st, ms[0]),
                 FlattenMembers(ms[1..], st'.pos + 1, |st'.toks|, st.super));
  }

  /** A key and its colon: what follows belongs to the key. */
  lemma KeyTokens(js: string, st: State, cap: nat, m: Member) returns (st': State)
    requires Inv(st) && Blank(m.before) && StringBody(m.key) && Blank(m.between) && |st.toks| < cap
    requires TextAt(js, st.pos, PrintKey(m))
    ensures st'.pos == st.pos + |PrintKey(m)| && st'.super == |st.toks|
    ensures st'.toks == AddSize(st.toks, st.super, 1)
      + [Token(String, st.pos + |m.before| + 1, st.pos + |m.before| + 1 + |m.key|, 0, st.super)]
    ensures Reaches(js, st, st', cap)
  {
    hide Spans, Run, Blank, ElemNodes, TextAt;
    var q := "\"" + m.key + "\"";
    assert PrintKey(m) == m.before + q + m.between + ":";
    ElemText(js, st.pos, m.before, q, m.between, ":");
    SkipBlank(js, st, cap, m.before);
    var st1 := st.(pos := st.pos + |m.before|);
    StringStep(js, st1, cap, m.key);
    var st2 := After(st1, Str(m.key));
    SkipBlank(js, st2, cap, m.between);
    var st3 := st2.(pos := st2.pos + |m.between|);
    SeparatorStep(js, st3, cap, ':');
    st' := State(st3.pos + 1, st3.toks, |st3.toks| - 1);
  }

  /**
   * For every JSON text, tokenizing returns the number of values and keys and leaves exactly their
   * pre-order list: kinds, spans, sizes and parents.
   */
  lemma JsonTokens(before: string, v: Value, after: string, cap: nat)
    requires Blank(before) && Valid(v) && Blank(after) && Nodes(v) <= cap
    ensures var js := before + Print(v) + after;
      Run(js, INIT, cap) == Result(Nodes(v), State(|js|, Flatten(v, |before|, 0, -1), -1))
  {
    hide Print, Flatten, Blank, StringBody, ValidMembers, Nodes, OnChain, Spans;
    var js := before + Print(v) + after;
    assert TextAt(js, 0, js);
    BracketText(js, 0, before, Print(v), after);
    AfterText(js, |before| + |Print(v)|, after);
    InitInv();
    SkipBlank(js, INIT, cap, before);
    var st1 := INIT.(pos := |before|);
    ValueTokens(js, st1, cap, v);
    var st2 := After(st1, v);
    SkipBlank(js, st2, cap, after);
    FlattenClosed(v, |before|, 0, -1);
    assert [] + Flatten(v, |before|, 0, -1) == Flatten(v, |before|, 0, -1);
  }

  lemma InitInv()
    ensures Inv(INIT)
  {
  }

  lemma AfterText(js: string, p: nat, after: string)
    requires TextAt(js, p, after) && Blank(after) && p + |after| == |js|
    ensures AtEnd(js, p) || EndsPrimitive(js[p])
  {
    if after != [] {
      assert js[p] == js[p..p + |after|][0] == after[0];
    }
  }
}
