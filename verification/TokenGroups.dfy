/**
  Finding the end of a bracketed token group (ci/rust_test_modules.py, `close`): a scan with a
  stack of expected closers, against the grammar of balanced groups.
 */
module TokenGroups {
  import opened CfgPredicate
  import opened Slices

  datatype Found = Closed(index: nat) | Unbalanced | Unterminated

  predicate Opens(text: string)
  {
    |text| == 1 && (text[0] == '(' || text[0] == '[' || text[0] == '{')
  }

  predicate Closes(text: string)
  {
    |text| == 1 && (text[0] == ')' || text[0] == ']' || text[0] == '}')
  }

  function Partner(open: string): (close: char)
    requires Opens(open)
    ensures Closes([close]) && !Opens([close])
  {
    if open[0] == '(' then ')' else if open[0] == '[' then ']' else '}'
  }

  /** The three pairs of brackets, and nothing else. */
  lemma BracketsMean(text: string)
    ensures Opens(text) <==> text == "(" || text == "[" || text == "{"
    ensures Closes(text) <==> text == ")" || text == "]" || text == "}"
    ensures Partner("(") == ')' && Partner("[") == ']' && Partner("{") == '}'
  {
  }

  // ----- the grammar

  /** A balanced run of tokens: single tokens and bracketed groups, in order. */
  datatype Forest =
    | Empty
    | Single(token: Token, rest: Forest)
    | Bracketed(open: Token, inner: Forest, close: Token, rest: Forest)

  predicate Balanced(f: Forest)
  {
    match f
    case Empty => true
    case Single(t, rest) => (t.kind == Text || (!Opens(t.text) && !Closes(t.text))) && Balanced(rest)
    case Bracketed(open, inner, close, rest) =>
      && open.kind == Code && Opens(open.text)
      && close.kind == Code && close.text == [Partner(open.text)]
      && Balanced(inner) && Balanced(rest)
  }

  function Flat(f: Forest): seq<Token>
  {
    match f
    case Empty => []
    case Single(t, rest) => [t] + Flat(rest)
    case Bracketed(open, inner, close, rest) => [open] + (Flat(inner) + ([close] + Flat(rest)))
  }

  /** The group that the token at `start` opens ends at token e. */
  ghost predicate GroupEnds(tokens: seq<Token>, start: nat, e: nat)
    requires start < |tokens| && Opens(tokens[start].text)
  {
    exists f :: Balanced(f) && Spans(tokens, start + 1, f, e, Partner(tokens[start].text))
  }

  /** `f` lies from token i on, and its closer follows at m. */
  ghost predicate Spans(tokens: seq<Token>, i: nat, f: Forest, m: nat, closer: char)
  {
    && Occurs(tokens, i, Flat(f)) && m == i + |Flat(f)|
    && m < |tokens| && tokens[m] == Token(Code, [closer])
  }

  // ----- the scan

  function Scan(tokens: seq<Token>, i: nat, stack: seq<char>): Found
    requires stack != []
    decreases |tokens| - i
  {
    if i >= |tokens| then Unterminated
    else if tokens[i].kind != Code then Scan(tokens, i + 1, stack)
    else if Opens(tokens[i].text) then Scan(tokens, i + 1, stack + [Partner(tokens[i].text)])
    else if Closes(tokens[i].text) then
      if tokens[i].text[0] != stack[|stack| - 1] then Unbalanced
      else if |stack| == 1 then Closed(i)
      else Scan(tokens, i + 1, stack[..|stack| - 1])
    else Scan(tokens, i + 1, stack)
  }

  /** A balanced run leaves the stack as it was. */
  lemma {:induction false} ScanBalanced(tokens: seq<Token>, i: nat, f: Forest, stack: seq<char>)
    requires stack != [] && Balanced(f) && Occurs(tokens, i, Flat(f))
    ensures Scan(tokens, i, stack) == Scan(tokens, i + |Flat(f)|, stack)
    decreases f, 1
  {
    match f
    case Empty =>
    case Single(t, rest) =>
      ScanSingle(tokens, i, f, stack);
      ScanBalanced(tokens, i + 1, rest, stack);
    case Bracketed(_, _, _, rest) =>
      ScanGroup(tokens, i, f, stack);
      ScanBalanced(tokens, i + |Flat(f)| - |Flat(rest)|, rest, stack);
  }

  /** A single token is passed over. */
  lemma ScanSingle(tokens: seq<Token>, i: nat, f: Forest, stack: seq<char>)
    requires stack != [] && f.Single? && Balanced(f) && Occurs(tokens, i, Flat(f))
    ensures |Flat(f)| == 1 + |Flat(f.rest)| && Occurs(tokens, i + 1, Flat(f.rest))
    ensures Scan(tokens, i, stack) == Scan(tokens, i + 1, stack)
  {
    var t, rest := f.token, Flat(f.rest);
    assert Flat(f) == [t] + rest;
    Split(tokens, i, [t], rest);
    OccursOne(tokens, i, t);
    Skips(tokens, i, stack);
  }

  /** A bracketed group leaves the stack as it was. */
  lemma {:induction false} ScanGroup(tokens: seq<Token>, i: nat, f: Forest, stack: seq<char>)
    requires stack != [] && f.Bracketed? && Balanced(f) && Occurs(tokens, i, Flat(f))
    ensures |Flat(f.rest)| < |Flat(f)| && Occurs(tokens, i + |Flat(f)| - |Flat(f.rest)|, Flat(f.rest))
    ensures Scan(tokens, i, stack) == Scan(tokens, i + |Flat(f)| - |Flat(f.rest)|, stack)
    decreases f, 0
  {
    var closer := Partner(f.open.text);
    var m := i + 1 + |Flat(f.inner)|;
    BracketedParts(tokens, i, f);
    Pushes(tokens, i, stack);
    ScanBalanced(tokens, i + 1, f.inner, stack + [closer]);
    Pops(tokens, m, stack, closer);
  }

  lemma BracketedParts(tokens: seq<Token>, i: nat, f: Forest)
    requires f.Bracketed? && Occurs(tokens, i, Flat(f))
    ensures i < |tokens| && tokens[i] == f.open && Occurs(tokens, i + 1, Flat(f.inner))
    ensures var m := i + 1 + |Flat(f.inner)|;
            m < |tokens| && tokens[m] == f.close && Occurs(tokens, m + 1, Flat(f.rest))
    ensures i + |Flat(f)| == i + 1 + |Flat(f.inner)| + 1 + |Flat(f.rest)|
  {
    var inner, rest := Flat(f.inner), Flat(f.rest);
    FlatBracketed(f);
    ThreeParts(tokens, i, f.open, inner, f.close, rest);
  }

  lemma FlatBracketed(f: Forest)
    requires f.Bracketed?
    ensures Flat(f) == [f.open] + (Flat(f.inner) + ([f.close] + Flat(f.rest)))
    ensures |Flat(f)| == |Flat(f.inner)| + |Flat(f.rest)| + 2
  {
  }

  lemma ThreeParts(tokens: seq<Token>, i: nat, open: Token, inner: seq<Token>, close: Token, rest: seq<Token>)
    requires Occurs(tokens, i, [open] + (inner + ([close] + rest)))
    ensures i < |tokens| && tokens[i] == open && Occurs(tokens, i + 1, inner)
    ensures i + 1 + |inner| < |tokens| && tokens[i + 1 + |inner|] == close && Occurs(tokens, i + |inner| + 2, rest)
  {
    Split(tokens, i, [open], inner + ([close] + rest));
    OccursOne(tokens, i, open);
    HeadPart(tokens, i + 1, inner, close, rest);
  }

  lemma HeadPart(tokens: seq<Token>, i: nat, inner: seq<Token>, close: Token, rest: seq<Token>)
    requires Occurs(tokens, i, inner + ([close] + rest))
    ensures Occurs(tokens, i, inner)
    ensures i + |inner| < |tokens| && tokens[i + |inner|] == close && Occurs(tokens, i + |inner| + 1, rest)
  {
    Split(tokens, i, inner, [close] + rest);
    Split(tokens, i + |inner|, [close], rest);
    OccursOne(tokens, i + |inner|, close);
  }

  lemma Skips(tokens: seq<Token>, i: nat, stack: seq<char>)
    requires stack != [] && i < |tokens|
    requires tokens[i].kind == Text || (!Opens(tokens[i].text) && !Closes(tokens[i].text))
    ensures Scan(tokens, i, stack) == Scan(tokens, i + 1, stack)
  {
  }

  lemma Pushes(tokens: seq<Token>, i: nat, stack: seq<char>)
    requires stack != [] && i < |tokens| && tokens[i].kind == Code && Opens(tokens[i].text)
    ensures Scan(tokens, i, stack) == Scan(tokens, i + 1, stack + [Partner(tokens[i].text)])
  {
  }

  lemma Pops(tokens: seq<Token>, m: nat, stack: seq<char>, closer: char)
    requires stack != [] && m < |tokens| && tokens[m] == Token(Code, [closer]) && Closes([closer]) && !Opens([closer])
    ensures Scan(tokens, m, stack + [closer]) == Scan(tokens, m + 1, stack)
  {
  }

  /**
    A scan that succeeds has read a balanced run up to the closer on top of its stack, and goes
    on with the stack below it.
   */
  lemma {:induction false} ScanReads(tokens: seq<Token>, i: nat, base: seq<char>, top: char, e: nat)
      returns (f: Forest, m: nat)
    requires Scan(tokens, i, base + [top]) == Closed(e)
    ensures Balanced(f) && Spans(tokens, i, f, m, top)
    ensures if base == [] then m == e else Scan(tokens, m + 1, base) == Closed(e)
    decreases |tokens| - i
  {
    var t := tokens[i];
    if t.kind == Code && Opens(t.text) {
      var inner, k := ScanReads(tokens, i + 1, base + [top], Partner(t.text), e);
      var rest;
      rest, m := ScanReads(tokens, k + 1, base, top, e);
      f := Bracketed(t, inner, tokens[k], rest);
      Enclose(tokens, i, inner, k, rest, m, top);
    } else if t.kind == Code && Closes(t.text) {
      f, m := Empty, i;
      assert (base + [top])[..|base|] == base;
    } else {
      var rest;
      rest, m := ScanReads(tokens, i + 1, base, top, e);
      f := Single(t, rest);
      Precede(tokens, i, rest, m, top);
    }
  }

  lemma Precede(tokens: seq<Token>, i: nat, rest: Forest, m: nat, top: char)
    requires i < |tokens| && Spans(tokens, i + 1, rest, m, top)
    ensures Spans(tokens, i, Single(tokens[i], rest), m, top)
  {
  }

  lemma Enclose(tokens: seq<Token>, i: nat, inner: Forest, k: nat, rest: Forest, m: nat, top: char)
    requires i < |tokens| && Opens(tokens[i].text)
    requires Spans(tokens, i + 1, inner, k, Partner(tokens[i].text)) && Spans(tokens, k + 1, rest, m, top)
    ensures Spans(tokens, i, Bracketed(tokens[i], inner, tokens[k], rest), m, top)
  {
    var f := Bracketed(tokens[i], inner, tokens[k], rest);
    assert tokens[i..m] == [tokens[i]] + (tokens[i + 1..k] + ([tokens[k]] + tokens[k + 1..m]));
    assert Flat(f) == tokens[i..m];
  }

  /** `close`: the scan as it runs, from the token after the opening one. */
  method Close(tokens: seq<Token>, start: nat) returns (r: Found)
    requires start < |tokens| && Opens(tokens[start].text)
    ensures r == Scan(tokens, start + 1, [Partner(tokens[start].text)])
    ensures forall e :: r == Closed(e) <==> GroupEnds(tokens, start, e)
  {
    var stack := [Partner(tokens[start].text)];
    var i := start + 1;
    r := Unterminated;
    while i < |tokens|
      invariant start < i <= |tokens| && stack != []
      invariant Scan(tokens, start + 1, [Partner(tokens[start].text)]) == Scan(tokens, i, stack)
    {
      if tokens[i].kind == Code {
        if Opens(tokens[i].text) {
          stack := stack + [Partner(tokens[i].text)];
        } else if Closes(tokens[i].text) {
          var expected := stack[|stack| - 1];
          var below := stack[..|stack| - 1];
          if tokens[i].text[0] != expected {
            r := Unbalanced;
            break;
          }
          if below == [] {
            r := Closed(i);
            break;
          }
          stack := below;
        }
      }
      i := i + 1;
    }
    forall e ensures r == Closed(e) <==> GroupEnds(tokens, start, e) {
      ScanIffGroup(tokens, start, e);
    }
  }

  /** The scan finds token e exactly when the group that `start` opens ends there. */
  lemma ScanIffGroup(tokens: seq<Token>, start: nat, e: nat)
    requires start < |tokens| && Opens(tokens[start].text)
    ensures Scan(tokens, start + 1, [Partner(tokens[start].text)]) == Closed(e) <==> GroupEnds(tokens, start, e)
  {
    var closer := Partner(tokens[start].text);
    assert [] + [closer] == [closer];
    if Scan(tokens, start + 1, [closer]) == Closed(e) {
      var f, m := ScanReads(tokens, start + 1, [], closer, e);
      assert Spans(tokens, start + 1, f, e, closer);
    }
    if f :| Balanced(f) && Spans(tokens, start + 1, f, e, closer) {
      ScanBalanced(tokens, start + 1, f, [closer]);
    }
  }

  // ----- the two errors

  /** More tokens at the end change nothing once the scan has stopped. */
  lemma {:induction false} ScanStopped(tokens: seq<Token>, more: seq<Token>, i: nat, stack: seq<char>)
    requires stack != [] && Scan(tokens, i, stack) != Unterminated
    ensures Scan(tokens + more, i, stack) == Scan(tokens, i, stack)
    decreases |tokens| - i
  {
    assert (tokens + more)[i] == tokens[i];
    if tokens[i].kind == Code && Opens(tokens[i].text) {
      ScanStopped(tokens, more, i + 1, stack + [Partner(tokens[i].text)]);
    } else if tokens[i].kind == Code && Closes(tokens[i].text) {
      if tokens[i].text[0] == stack[|stack| - 1] && |stack| > 1 {
        ScanStopped(tokens, more, i + 1, stack[..|stack| - 1]);
      }
    } else {
      ScanStopped(tokens, more, i + 1, stack);
    }
  }

  ghost predicate Closers(stack: seq<char>)
  {
    forall k :: 0 <= k < |stack| ==> Closes([stack[k]]) && !Opens([stack[k]])
  }

  /** The missing closers, innermost first. */
  function Missing(stack: seq<char>): seq<Token>
  {
    if stack == [] then [] else [Token(Code, [stack[|stack| - 1]])] + Missing(stack[..|stack| - 1])
  }

  lemma {:induction false} ScanMissing(tokens: seq<Token>, stack: seq<char>)
    requires stack != [] && Closers(stack)
    ensures Scan(tokens + Missing(stack), |tokens|, stack).Closed?
    decreases |stack|
  {
    var t := Token(Code, [stack[|stack| - 1]]);
    var below := stack[..|stack| - 1];
    assert tokens + ([t] + Missing(below)) == (tokens + [t]) + Missing(below);
    assert (tokens + Missing(stack))[|tokens|] == t;
    if below != [] {
      ScanMissing(tokens + [t], below);
    }
  }

  /** An unterminated group is completed by some continuation. */
  lemma {:induction false} Completed(tokens: seq<Token>, i: nat, stack: seq<char>) returns (more: seq<Token>)
    requires i <= |tokens| && stack != [] && Closers(stack) && Scan(tokens, i, stack) == Unterminated
    ensures Scan(tokens + more, i, stack).Closed?
    decreases |tokens| - i
  {
    if i == |tokens| {
      more := Missing(stack);
      ScanMissing(tokens, stack);
    } else {
      if tokens[i].kind == Code && Opens(tokens[i].text) {
        more := Completed(tokens, i + 1, stack + [Partner(tokens[i].text)]);
      } else if tokens[i].kind == Code && Closes(tokens[i].text) {
        more := Completed(tokens, i + 1, stack[..|stack| - 1]);
      } else {
        more := Completed(tokens, i + 1, stack);
      }
      assert (tokens + more)[i] == tokens[i];
    }
  }

  /** The error tells whether more tokens could still close the group. */
  lemma ErrorMeans(tokens: seq<Token>, start: nat)
    requires start < |tokens| && Opens(tokens[start].text)
    ensures var r := Scan(tokens, start + 1, [Partner(tokens[start].text)]);
            r == Unbalanced <==> forall more: seq<Token>, e :: !GroupEnds(tokens + more, start, e)
  {
    var stack := [Partner(tokens[start].text)];
    var r := Scan(tokens, start + 1, stack);
    forall more: seq<Token>, e | r == Unbalanced ensures !GroupEnds(tokens + more, start, e) {
      ScanStopped(tokens, more, start + 1, stack);
      ScanIffGroup(tokens + more, start, e);
    }
    if r != Unbalanced {
      var more := [];
      if r == Unterminated {
        more := Completed(tokens, start + 1, stack);
      } else {
        assert tokens + more == tokens;
      }
      var e := Scan(tokens + more, start + 1, stack).index;
      ScanIffGroup(tokens + more, start, e);
    }
  }
}
