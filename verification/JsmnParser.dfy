/** The tokenizer as the library has it: a parser whose fields are advanced in place and a caller's token array. */
module JsmnParser {
  import opened Bytes
  import opened Jsmn

  class Parser {
    var pos: nat
    var toknext: nat
    var toksuper: int

    ghost predicate Fits(tokens: array<Token>)
      reads this
    {
      toknext <= tokens.Length && -1 <= toksuper < toknext
    }

    /** The machine's state: the tokens are those handed out so far. */
    ghost function Machine(tokens: array<Token>): State
      reads this, tokens
      requires Fits(tokens)
    {
      State(pos, tokens[..toknext], toksuper)
    }

    constructor ()
      ensures pos == 0 && toknext == 0 && toksuper == -1
    {
      pos, toknext, toksuper := 0, 0, -1;
    }

    /** The next unused token, blank; none if the array is used up. */
    method AllocToken(tokens: array<Token>) returns (i: Option<nat>)
      requires Fits(tokens)
      modifies this`toknext, tokens
      ensures toknext <= tokens.Length && i == if old(toknext) < tokens.Length then Some(old(toknext)) else None
      ensures i.None? ==> toknext == old(toknext) && tokens[..] == old(tokens[..])
      ensures i.Some? ==> toknext == old(toknext) + 1 && tokens[..old(toknext)] == old(tokens[..toknext])
      ensures i.Some? ==> tokens[old(toknext)] == old(tokens[toknext]).(start := -1, end := -1, size := 0)
    {
      if toknext >= tokens.Length {
        return None;
      }
      i := Some(toknext);
      tokens[toknext] := tokens[toknext].(start := -1, end := -1, size := 0);
      toknext := toknext + 1;
    }

    /** A finished token, if there is room for it. */
    method StoreLeaf(tokens: array<Token>, kind: Kind, start: nat, end: nat) returns (ok: bool)
      requires Fits(tokens)
      modifies this`toknext, tokens
      ensures Fits(tokens) && ok == (old(toknext) < tokens.Length)
      ensures tokens[..toknext] == old(tokens[..toknext]) + if ok then [Token(kind, start, end, 0)] else []
      ensures toknext == old(toknext) + if ok then 1 else 0
    {
      var i := AllocToken(tokens);
      if i.None? {
        return false;
      }
      tokens[i.value] := Token(kind, start, end, 0);
      ok := true;
    }

    /** Advances over a primitive and leaves the position on its last octet; without an array nothing is stored. */
    method ParsePrimitive(js: text, tokens: array?<Token>) returns (r: int)
      requires !AtEnd(js, pos) && !Delimits(js[pos]) && (tokens != null ==> Fits(tokens))
      modifies this`pos, this`toknext, if tokens == null then {} else {tokens}
      ensures tokens != null ==> Fits(tokens)
      ensures Scanned(js, tokens, r, ScanPrimitive(js, old(pos)).Some?, ERROR_INVAL,
                      if ScanPrimitive(js, old(pos)).Some? then ScanPrimitive(js, old(pos)).value - 1 else 0,
                      Token(Primitive, old(pos),
                             if ScanPrimitive(js, old(pos)).Some? then ScanPrimitive(js, old(pos)).value else 0, 0))
    {
      var start := pos;
      while pos < |js| && js[pos] != 0 && !Delimits(js[pos])
        invariant start <= pos <= |js| && ScanPrimitive(js, pos) == ScanPrimitive(js, start)
        invariant toknext == old(toknext) && (tokens != null ==> tokens[..] == old(tokens[..]))
        decreases |js| - pos
      {
        if js[pos] < 32 || js[pos] >= 127 {
          pos := start;
          return ERROR_INVAL;
        }
        pos := pos + 1;
      }
      r := Store(tokens, Primitive, start, pos, start);
      if r == 0 {
        pos := pos - 1;
      }
    }

    method Store(tokens: array?<Token>, kind: Kind, start: nat, end: nat, back: nat) returns (r: int)
      requires tokens != null ==> Fits(tokens)
      modifies this`pos, this`toknext, if tokens == null then {} else {tokens}
      ensures r == 0 || r == ERROR_NOMEM
      ensures pos == if r == 0 then old(pos) else back
      ensures tokens == null ==> r == 0 && toknext == old(toknext)
      ensures tokens != null ==>
                && Fits(tokens) && (r == 0 <==> old(toknext) < tokens.Length)
                && toknext == old(toknext) + (if r == 0 then 1 else 0)
                && tokens[..toknext] == old(tokens[..toknext]) + (if r == 0 then [Token(kind, start, end, 0)] else [])
    {
      if tokens == null {
        return 0;
      }
      var ok := StoreLeaf(tokens, kind, start, end);
      if !ok {
        pos := back;
        return ERROR_NOMEM;
      }
      r := 0;
    }

    /** What scanning one token does: `t` is stored, or there is no room, or the scan fails with `code`. */
    twostate predicate Scanned(js: text, tokens: array?<Token>, r: int, good: bool, code: int, last: int, t: Token)
      reads this, if tokens == null then {} else {tokens}
      requires tokens != null ==> old(Fits(tokens)) && Fits(tokens)
    {
      && toksuper == old(toksuper)
      && (!good ==> r == code)
      && (good && tokens != null && old(toknext) >= tokens.Length ==> r == ERROR_NOMEM)
      && (good && (tokens == null || old(toknext) < tokens.Length) ==> r == 0)
      && pos == (if r == 0 then last else old(pos))
      && (tokens == null || r != 0 ==> toknext == old(toknext))
      && (tokens != null ==> tokens[..toknext] == old(tokens[..toknext]) + if r == 0 then [t] else [])
    }

    /** Advances to the closing quote of a string; on any failure the position is put back. */
    method ParseString(js: text, tokens: array?<Token>) returns (r: int)
      requires !AtEnd(js, pos) && (tokens != null ==> Fits(tokens))
      modifies this`pos, this`toknext, if tokens == null then {} else {tokens}
      ensures tokens != null ==> Fits(tokens)
      ensures var s := ScanString(js, old(pos) + 1);
              Scanned(js, tokens, r, s.Closed?, if s.Invalid? then ERROR_INVAL else ERROR_PART,
                      if s.Closed? then s.quote else 0,
                      Token(String, old(pos) + 1, if s.Closed? then s.quote else 0, 0))
    {
      var start := pos;
      pos := pos + 1;
      while pos < |js| && js[pos] != 0
        invariant start < pos <= |js| && ScanString(js, pos) == ScanString(js, start + 1)
        invariant toknext == old(toknext) && (tokens != null ==> tokens[..] == old(tokens[..]))
        decreases |js| - pos
      {
        var c := js[pos];
        if c == QUOTE {
          r := Store(tokens, String, start + 1, pos, start);
          return;
        }
        if c == BACKSLASH && pos + 1 < |js| {
          pos := pos + 1;
          if SimpleEscape(js[pos]) {
          } else if js[pos] == 117 {
            var ok := SkipHex(js);
            if !ok {
              pos := start;
              return ERROR_INVAL;
            }
          } else {
            pos := start;
            return ERROR_INVAL;
          }
        }
        pos := pos + 1;
      }
      pos := start;
      r := ERROR_PART;
    }

    /** Advances from the `u` of an escape over its digits, and leaves the position on the last of them. */
    method SkipHex(js: text) returns (ok: bool)
      requires pos < |js|
      modifies this`pos
      ensures ok == ScanHex(js, old(pos) + 1, 4).Some?
      ensures ok ==> pos + 1 == ScanHex(js, old(pos) + 1, 4).value
    {
      pos := pos + 1;
      var i := 0;
      while i < 4 && pos < |js| && js[pos] != 0
        invariant i <= 4 && old(pos) < pos <= |js| && ScanHex(js, pos, 4 - i) == ScanHex(js, old(pos) + 1, 4)
      {
        if !IsHex(js[pos]) {
          return false;
        }
        pos := pos + 1;
        i := i + 1;
      }
      pos := pos - 1;
      ok := true;
    }

    /** One more child for the superior token. */
    method AddChild(tokens: array<Token>)
      requires Fits(tokens)
      modifies tokens
      ensures tokens[..toknext] == Bump(old(tokens[..toknext]), toksuper)
    {
      if toksuper != -1 {
        tokens[toksuper] := tokens[toksuper].(size := tokens[toksuper].size + 1);
      }
    }

    method OpenBracket(js: text, tokens: array<Token>) returns (r: int)
      requires Fits(tokens) && pos < |js|
      modifies this`toknext, this`toksuper, tokens
      ensures Fits(tokens)
      ensures match OpenContainer(js, old(Machine(tokens)), tokens.Length)
              case Stop(code) => r == code && Machine(tokens) == old(Machine(tokens))
              case Go(s) => r == 0 && Machine(tokens) == s.(pos := pos)
    {
      ghost var was := Machine(tokens);
      var i := AllocToken(tokens);
      if i.None? {
        return ERROR_NOMEM;
      }
      if toksuper != -1 {
        tokens[toksuper] := tokens[toksuper].(size := tokens[toksuper].size + 1);
      }
      tokens[i.value] := tokens[i.value].(kind := KindOf(js[pos]), start := pos);
      assert tokens[..i.value] == Bump(was.toks, was.super);
      toksuper := toknext - 1;
      r := 0;
    }

    /** Backwards from `n` to the last unclosed token; -1 if there is none. */
    method ScanBack(tokens: array<Token>, n: nat) returns (i: int)
      requires n <= toknext <= tokens.Length
      ensures i == LastOpen(tokens[..toknext], n)
    {
      i := n - 1;
      while i >= 0
        invariant -1 <= i < n && LastOpen(tokens[..toknext], i + 1) == LastOpen(tokens[..toknext], n)
      {
        if tokens[i].start != -1 && tokens[i].end == -1 {
          return;
        }
        i := i - 1;
      }
    }

    method CloseBracket(js: text, tokens: array<Token>) returns (r: int)
      requires Fits(tokens) && pos < |js|
      modifies this`toksuper, tokens
      ensures Fits(tokens)
      ensures match CloseContainer(js, old(Machine(tokens)))
              case Stop(code) => r == code && Machine(tokens) == old(Machine(tokens))
              case Go(s) => r == 0 && Machine(tokens) == s.(pos := pos)
    {
      ghost var was := Machine(tokens);
      var i := ScanBack(tokens, toknext);
      if i == -1 || tokens[i].kind != KindOf(js[pos]) {
        return ERROR_INVAL;
      }
      toksuper := -1;
      tokens[i] := tokens[i].(end := pos + 1);
      assert tokens[..toknext] == was.toks[i := was.toks[i].(end := pos + 1)];
      toksuper := ScanBack(tokens, i + 1);
      r := 0;
    }

    method Comma(tokens: array<Token>)
      requires Fits(tokens)
      modifies this`toksuper
      ensures Fits(tokens) && Machine(tokens) == AfterComma(old(Machine(tokens))).(pos := pos)
    {
      ghost var toks := tokens[..toknext];
      if toksuper != -1 && tokens[toksuper].kind != Array && tokens[toksuper].kind != Object {
        var i: int := toknext - 1;
        while i >= 0
          invariant -1 <= i < toknext && toksuper == old(toksuper)
          invariant LastOpenContainer(toks, i + 1) == LastOpenContainer(toks, toknext)
        {
          if tokens[i].kind == Array || tokens[i].kind == Object {
            if tokens[i].start != -1 && tokens[i].end == -1 {
              toksuper := i;
              return;
            }
          }
          i := i - 1;
        }
      }
    }

    /** One turn of the loop, up to the last octet it uses. */
    method Turn(js: text, tokens: array<Token>) returns (r: int)
      requires Fits(tokens) && !AtEnd(js, pos)
      modifies this, tokens
      ensures Fits(tokens)
      ensures match Step(js, old(Machine(tokens)), tokens.Length)
              case Stop(code) => r == code < 0 && Machine(tokens) == old(Machine(tokens))
              case Go(s) => r == 0 && s.pos > 0 && Machine(tokens) == s.(pos := s.pos - 1)
    {
      hide ScanString, ScanPrimitive, LastOpen, LastOpenContainer;
      var c := js[pos];
      r := 0;
      if Opens(c) {
        r := OpenBracket(js, tokens);
      } else if Closes(c) {
        r := CloseBracket(js, tokens);
      } else if c == QUOTE {
        r := ParseString(js, tokens);
        if r == 0 {
          AddChild(tokens);
        }
      } else if IsSpace(c) {
      } else if c == COLON {
        toksuper := toknext - 1;
      } else if c == COMMA {
        Comma(tokens);
      } else {
        r := ParsePrimitive(js, tokens);
        if r == 0 {
          AddChild(tokens);
        }
      }
    }

    /** A run with a token array: the count of all tokens handed out so far, or the error that stops it. */
    method ParseInto(js: text, tokens: array<Token>) returns (r: int)
      requires Fits(tokens)
      modifies this, tokens
      ensures Fits(tokens)
      ensures Outcome(r, Machine(tokens)) == Parse(js, old(Machine(tokens)), tokens.Length)
    {
      hide Step;
      while pos < |js| && js[pos] != 0
        invariant Fits(tokens)
        invariant Parse(js, Machine(tokens), tokens.Length) == Parse(js, old(Machine(tokens)), tokens.Length)
        decreases |js| - pos
      {
        r := Turn(js, tokens);
        if r < 0 {
          return;
        }
        pos := pos + 1;
      }
      var i := ScanBack(tokens, toknext);
      r := if i >= 0 then ERROR_PART else toknext;
    }

    /** A run without one: only the lexical structure is looked at. */
    method ParseNull(js: text) returns (r: int)
      modifies this
      ensures r == Count(js, old(pos), old(toknext)) && toknext == old(toknext)
    {
      hide ScanString, ScanPrimitive;
      var count := toknext;
      while pos < |js| && js[pos] != 0
        invariant toknext == old(toknext) && Count(js, pos, count) == Count(js, old(pos), old(toknext))
        decreases |js| - pos
      {
        var c := js[pos];
        if Opens(c) {
          count := count + 1;
        } else if Closes(c) || IsSpace(c) || c == COMMA {
        } else if c == COLON {
          toksuper := toknext - 1;
        } else {
          if c == QUOTE {
            r := ParseString(js, null);
          } else {
            r := ParsePrimitive(js, null);
          }
          if r < 0 {
            return;
          }
          count := count + 1;
        }
        pos := pos + 1;
      }
      r := count;
    }

    /** Parsing with an array, or only counting without one. */
    method JsmnParse(js: text, tokens: array?<Token>) returns (r: int)
      requires tokens != null ==> Fits(tokens)
      modifies this, if tokens == null then {} else {tokens}
      ensures tokens == null ==> r == Count(js, old(pos), old(toknext))
      ensures tokens != null ==>
                Fits(tokens) && Outcome(r, Machine(tokens)) == Parse(js, old(Machine(tokens)), tokens.Length)
    {
      if tokens == null {
        r := ParseNull(js);
      } else {
        r := ParseInto(js, tokens);
      }
    }
  }
}
