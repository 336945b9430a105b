/** The tokenizer of src/jsmn.c, filling a token array or only counting. */
module Jsmn {
  import opened Strings
  import opened Tokenizer

  class Parser {
    var pos: nat
    var toknext: nat
    var toksuper: int

    constructor ()
      ensures pos == 0 && toknext == 0 && toksuper == -1
    {
      pos, toknext, toksuper := 0, 0, -1;
    }

    /** The parser and the tokens in use. */
    ghost function Abs(tokens: array<Token>): State
      requires toknext <= tokens.Length
      reads this, tokens
    {
      State(pos, tokens[..toknext], toksuper)
    }

    ghost predicate Valid(tokens: array<Token>)
      reads this, tokens
    {
      toknext <= tokens.Length && Abs(tokens).Shape()
    }

    /** Takes the next token of the array, with no end, no children and no parent; -1 when there is none. */
    method AllocToken(tokens: array<Token>) returns (i: int)
      requires toknext <= tokens.Length
      modifies this`toknext, tokens
      ensures i == if old(toknext) < tokens.Length then old(toknext) else -1
      ensures toknext == if i == -1 then old(toknext) else old(toknext) + 1
      ensures i != -1 ==> tokens[i] == old(tokens[..])[i].(end := -1, size := 0, parent := -1)
      ensures forall j :: 0 <= j < tokens.Length && j != i ==> tokens[j] == old(tokens[j])
    {
      if toknext >= tokens.Length {
        return -1;
      }
      toknext := toknext + 1;
      i := toknext - 1;
      tokens[i] := tokens[i].(end := -1, size := 0, parent := -1);
    }

    /** Fills the next token with the primitive at `pos`, or only finds its end. */
    method ParsePrimitive(js: string, tokens: array?<Token>) returns (r: int)
      requires !AtEnd(js, pos) && !EndsPrimitive(js[pos])
      requires tokens != null ==> toknext <= tokens.Length
      modifies this`pos, this`toknext, tokens
      ensures var e := ScanPrimitive(js, old(pos));
        if e.None? then r == INVAL && toknext == old(toknext) && pos == old(pos)
        else if tokens != null && old(toknext) >= tokens.Length then
          r == NOMEM && toknext == old(toknext) && pos == old(pos)
        else r == 0 && pos + 1 == e.value && Filled(tokens, old(toknext), Primitive, old(pos), e.value)
      ensures tokens != null ==> tokens[..old(toknext)] == old(tokens[..toknext])
    {
      var start := pos;
      while pos < |js| && js[pos] != '\0' && !EndsPrimitive(js[pos])
        invariant start <= pos <= |js| && ScanPrimitive(js, start) == ScanPrimitive(js, pos)
        invariant toknext == old(toknext) && (tokens != null ==> tokens[..] == old(tokens[..]))
        invariant pos == start ==> !AtEnd(js, pos) && !EndsPrimitive(js[pos])
        decreases |js| - pos
      {
        if js[pos] < ' ' || js[pos] >= 127 as char {
          pos := start;
          return INVAL;
        }
        pos := pos + 1;
      }
      if tokens == null {
        pos := pos - 1;
        return 0;
      }
      var i := AllocToken(tokens);
      if i == -1 {
        pos := start;
        return NOMEM;
      }
      tokens[i] := Token(Primitive, start, pos, 0, toksuper);
      pos := pos - 1;
      return 0;
    }

    /** Token `n` was taken and filled; without an array nothing was. */
    ghost predicate Filled(tokens: array?<Token>, n: nat, kind: Kind, start: nat, end: nat)
      reads this, tokens
    {
      if tokens == null then toknext == n
      else toknext == n + 1 <= tokens.Length && tokens[n] == Token(kind, start, end, 0, toksuper)
    }

    /** Moves over up to four hex digits; another character before the end is an error. */
    method SkipHex(js: string) returns (ok: bool)
      modifies this`pos
      ensures ok == ScanHex(js, old(pos), 4).Some?
      ensures ok ==> pos == ScanHex(js, old(pos), 4).value
    {
      var i := 0;
      while i < 4 && pos < |js| && js[pos] != '\0'
        invariant 0 <= i <= 4 && ScanHex(js, old(pos), 4) == ScanHex(js, pos, 4 - i)
        decreases 4 - i
      {
        if !IsHex(js[pos]) {
          return false;
        }
        pos, i := pos + 1, i + 1;
      }
      ok := true;
    }

    /** Fills the next token with the string that opens at `pos`, or only finds its end. */
    method ParseString(js: string, tokens: array?<Token>) returns (r: int)
      requires !AtEnd(js, pos)
      requires tokens != null ==> toknext <= tokens.Length
      modifies this`pos, this`toknext, tokens
      ensures var e := ScanString(js, old(pos) + 1);
        if e.None? then (r == INVAL || r == PART) && toknext == old(toknext) && pos == old(pos)
        else if tokens != null && old(toknext) >= tokens.Length then
          r == NOMEM && toknext == old(toknext) && pos == old(pos)
        else r == 0 && pos == e.value && Filled(tokens, old(toknext), String, old(pos) + 1, e.value)
      ensures tokens != null ==> tokens[..old(toknext)] == old(tokens[..toknext])
    {
      hide ScanHex;
      var start := pos;
      pos := pos + 1;
      while pos < |js| && js[pos] != '\0'
        invariant start < pos && ScanString(js, start + 1) == ScanString(js, pos)
        invariant toknext == old(toknext) && (tokens != null ==> tokens[..] == old(tokens[..]))
        decreases |js| - pos
      {
        var c := js[pos];
        if c == '\"' {
          if tokens == null {
            return 0;
          }
          var i := AllocToken(tokens);
          if i == -1 {
            pos := start;
            return NOMEM;
          }
          tokens[i] := Token(String, start + 1, pos, 0, toksuper);
          return 0;
        }
        if c == '\\' && pos + 1 < |js| {
          pos := pos + 1;
          if IsSimpleEscape(js[pos]) {
          } else if js[pos] == 'u' {
            pos := pos + 1;
            var ok := SkipHex(js);
            if !ok {
              pos := start;
              return INVAL;
            }
            pos := pos - 1;
          } else {
            pos := start;
            return INVAL;
          }
        }
        pos := pos + 1;
      }
      pos := start;
      return PART;
    }

    /** An opening bracket. */
    method OpenBracket(kind: Kind, tokens: array<Token>) returns (r: int)
      requires Valid(tokens)
      modifies this`toknext, this`toksuper, tokens
      ensures Valid(tokens) && pos == old(pos)
      ensures r == 0 || r == NOMEM
      ensures Push(old(Abs(tokens)), tokens.Length, kind, old(pos), -1, old(pos))
           == if r == 0 then Next(Abs(tokens)) else Stop(r)
      ensures r == NOMEM ==> Abs(tokens) == old(Abs(tokens))
    {
      ghost var st := Abs(tokens);
      var i := AllocToken(tokens);
      if i == -1 {
        assert tokens[..toknext] == st.toks;
        return NOMEM;
      }
      assert forall j :: 0 <= j < i ==> tokens[j] == st.toks[j];
      if toksuper != -1 {
        tokens[toksuper] := tokens[toksuper].(size := tokens[toksuper].size + 1);
        tokens[i] := tokens[i].(parent := toksuper);
      }
      tokens[i] := tokens[i].(kind := kind, start := pos);
      toksuper := toknext - 1;
      assert tokens[..toknext] == AddSize(st.toks, st.super, 1) + [tokens[i]];
      return 0;
    }

    /** A closing bracket: walks up from the last token to the container it closes. */
    method CloseBracket(kind: Kind, tokens: array<Token>) returns (r: int)
      requires Valid(tokens)
      modifies this`toksuper, tokens
      ensures Valid(tokens) && pos == old(pos) && toknext == old(toknext)
      ensures r == 0 || r == INVAL
      ensures Close(old(Abs(tokens)), kind)
           == if r == 0 then Next(Abs(tokens).(pos := pos + 1)) else Stop(r)
      ensures r == INVAL ==> Abs(tokens) == old(Abs(tokens))
    {
      if toknext < 1 {
        return INVAL;
      }
      ghost var st := Abs(tokens);
      var t := toknext - 1;
      while true
        invariant 0 <= t < toknext && Abs(tokens) == st && Walk(st.toks, toknext - 1) == Walk(st.toks, t)
        decreases t
      {
        assert tokens[t] == st.toks[t];
        if tokens[t].Open() {
          if tokens[t].kind != kind {
            return INVAL;
          }
          toksuper := tokens[t].parent;
          tokens[t] := tokens[t].(end := pos + 1);
          assert tokens[..toknext] == st.toks[t := st.toks[t].(end := pos + 1)];
          return 0;
        }
        if tokens[t].parent == -1 {
          if tokens[t].kind != kind || toksuper == -1 {
            return INVAL;
          }
          return 0;
        }
        t := tokens[t].parent;
      }
    }

    /** Counts the token just filled as a child of the one it belongs to. */
    method CountChild(tokens: array<Token>, ghost st: State, ghost t: Token)
      requires 0 < toknext <= tokens.Length && st.Shape() && toksuper == st.super && |st.toks| == toknext - 1
      requires tokens[..toknext] == st.toks + [t]
      modifies tokens
      ensures tokens[..toknext] == AddSize(st.toks, st.super, 1) + [t]
    {
      if toksuper != -1 {
        assert tokens[toksuper] == st.toks[toksuper];
        tokens[toksuper] := tokens[toksuper].(size := tokens[toksuper].size + 1);
      }
    }

    /**
     * Goes on tokenizing at `pos` and returns the number of tokens, or an error. The parser and its
     * tokens end as the step function says; without an array the tokens are only counted.
     */
    method Parse(js: string, tokens: array?<Token>) returns (r: int)
      requires tokens != null ==> Valid(tokens)
      modifies this, tokens
      ensures tokens != null ==> Valid(tokens)
      ensures tokens != null ==> Result(r, Abs(tokens)) == Run(js, old(Abs(tokens)), tokens.Length)
      ensures tokens == null ==> r == Count(js, old(pos), old(toknext))
    {
      hide State.Shape, Step, Run, Count;
      var count := toknext;
      while pos < |js| && js[pos] != '\0'
        invariant tokens != null ==> Valid(tokens) && count == toknext
        invariant tokens != null ==> Run(js, old(Abs(tokens)), tokens.Length) == Run(js, Abs(tokens), tokens.Length)
        invariant tokens == null ==> Count(js, old(pos), old(toknext)) == Count(js, pos, count)
        decreases |js| - pos
      {
        var counted;
        ghost var st := if tokens == null then INIT else Abs(tokens);
        if tokens != null {
          RunStep(js, st, tokens.Length);
        }
        r, counted := ParseOne(js, tokens, count);
        if r < 0 {
          return;
        }
        count := if counted then count + 1 else count;
        pos := pos + 1;
      }
      if tokens != null {
        RunEnd(js, Abs(tokens), tokens.Length);
        var i := toknext;
        while i > 0
          invariant 0 <= i <= toknext && forall k :: i <= k < toknext ==> !tokens[k].Open()
        {
          i := i - 1;
          if tokens[i].Open() {
            assert Abs(tokens).toks[i].Open();
            return PART;
          }
        }
        assert forall k :: 0 <= k < toknext ==> Abs(tokens).toks[k] == tokens[k];
      } else {
        CountEnd(js, pos, count);
      }
      return count;
    }

    /**
     * Handles the character at `pos`. With an array this is one step, short of moving on from the
     * last character used; without one it only says whether a token would be counted.
     */
    method ParseOne(js: string, tokens: array?<Token>, ghost count: nat) returns (r: int, counted: bool)
      requires !AtEnd(js, pos)
      requires tokens != null ==> Valid(tokens)
      modifies this, tokens
      ensures r <= 0 && old(pos) <= pos
      ensures tokens != null ==> Valid(tokens)
      ensures tokens != null && r < 0 ==> Abs(tokens) == old(Abs(tokens))
      ensures tokens != null ==>
        Step(js, old(Abs(tokens)), tokens.Length) == if r < 0 then Stop(r) else Next(Abs(tokens).(pos := pos + 1))
      ensures tokens != null && r == 0 ==> toknext == old(toknext) + if counted then 1 else 0
      ensures tokens == null ==>
        Count(js, old(pos), count) == if r < 0 then r else Count(js, pos + 1, if counted then count + 1 else count)
    {
      hide Close, Comma, ScanHex, ScanString;
      var c := js[pos];
      r, counted := 0, false;
      if c == '{' || c == '[' {
        counted := true;
        if tokens != null {
          r := OpenBracket(if c == '{' then Object else Array, tokens);
          PushPos(old(Abs(tokens)), tokens.Length, if c == '{' then Object else Array, pos, -1);
        }
      } else if c == '}' || c == ']' {
        if tokens != null {
          r := CloseBracket(if c == '}' then Object else Array, tokens);
        }
      } else if c == '\"' {
        r := ParseString(js, tokens);
        if r < 0 {
          return -1, false;
        }
        counted := true;
        if tokens != null {
          AddChild(tokens, old(Abs(tokens)), tokens[toknext - 1], pos + 1);
        }
      } else if IsSpace(c) {
      } else if c == ':' {
        toksuper := toknext - 1;
      } else if c == ',' {
        CommaRule(tokens);
      } else {
        assert ScanPrimitive(js, pos) == ScanPrimitive(js, pos + 1) || ScanPrimitive(js, pos).None?;
        r := ParsePrimitive(js, tokens);
        if r < 0 {
          return;
        }
        counted := true;
        if tokens != null {
          AddChild(tokens, old(Abs(tokens)), tokens[toknext - 1], pos + 1);
        }
      }
    }

    /** A comma leaves a key or a plain value for what it belongs to. */
    method CommaRule(tokens: array?<Token>)
      requires tokens != null ==> Valid(tokens)
      modifies this`toksuper
      ensures tokens != null ==> Valid(tokens) && Abs(tokens) == old(Abs(tokens)).(super := Comma(old(Abs(tokens))))
    {
      if tokens != null && toksuper != -1 {
        assert tokens[toksuper] == Abs(tokens).toks[toksuper];
        if tokens[toksuper].kind != Array && tokens[toksuper].kind != Object {
          toksuper := tokens[toksuper].parent;
        }
      }
    }

    /** Completes the push of the token that was just filled. */
    method AddChild(tokens: array<Token>, ghost st: State, ghost t: Token, ghost next: nat)
      requires st.Shape() && toksuper == st.super && toknext == |st.toks| + 1 <= tokens.Length
      requires tokens[..toknext - 1] == st.toks && tokens[toknext - 1] == t
      requires t == Token(t.kind, t.start, t.end, 0, st.super) && t.end != -1
      modifies tokens
      ensures Valid(tokens)
      ensures Push(st, tokens.Length, t.kind, t.start, t.end, next) == Next(Abs(tokens).(pos := next))
    {
      assert tokens[..toknext] == st.toks + [t];
      CountChild(tokens, st, t);
    }
  }

  lemma PushPos(st: State, cap: nat, kind: Kind, start: nat, end: int)
    requires st.Shape()
    ensures var r := Push(st, cap, kind, start, end, start);
      Push(st, cap, kind, start, end, start + 1) == if r.Next? then Next(r.st.(pos := start + 1)) else r
  {
  }

  lemma RunStep(js: string, st: State, cap: nat)
    requires st.Shape() && !AtEnd(js, st.pos)
    ensures var s := Step(js, st, cap);
      Run(js, st, cap) == if s.Next? then Run(js, s.st, cap) else Result(s.code, st)
  {
  }

  lemma RunEnd(js: string, st: State, cap: nat)
    requires st.Shape() && AtEnd(js, st.pos)
    ensures Run(js, st, cap) == Result(if AnyOpen(st.toks) then PART else |st.toks|, st)
  {
  }
}
