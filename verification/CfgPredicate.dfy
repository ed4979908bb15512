/**
  Which values a `cfg` predicate can have in a non-test build
  (ci/rust_test_modules.py, `cfg_without_tests`): a recursive reader over tokens that returns
  the set of possible values, with `test` fixed to false and everything else unknown.
  The predicates and their values follow the chapter "Conditional compilation" of The Rust
  Reference.
 */
module CfgPredicate {
  import opened Numbers
  import opened Slices

  datatype Kind = Code | Text
  datatype Token = Token(kind: Kind, text: string)

  const UNKNOWN: set<bool> := {false, true}

  // ----- the reader, as a function

  /** Every way to take one value from each set. */
  function Product(sets: seq<set<bool>>): set<seq<bool>>
  {
    if sets == [] then {[]}
    else
      var rest := Product(sets[1..]);
      set v, vs | v in sets[0] && vs in rest :: [v] + vs
  }

  predicate Combined(all: bool, values: seq<bool>)
  {
    if all then false !in values else true in values
  }

  function Outcomes(all: bool, children: seq<set<bool>>): set<bool>
  {
    set vs | vs in Product(children) :: Combined(all, vs)
  }

  function Verdict(name: string, children: seq<set<bool>>): set<bool>
  {
    if name == "not" && |children| == 1 then set x | x in children[0] :: !x
    else if name == "all" || name == "any" then Outcomes(name == "all", children)
    else UNKNOWN
  }

  /** A token of one character. */
  predicate IsMark(text: string, c: char)
  {
    |text| == 1 && text[0] == c
  }

  predicate At(tokens: seq<Token>, i: nat, c: char)
  {
    i < |tokens| && IsMark(tokens[i].text, c)
  }

  /** One predicate from token i: its possible values and the position after it. */
  function Expr(tokens: seq<Token>, i: nat): (r: (set<bool>, nat))
    ensures i < |tokens| ==> i < r.1
    decreases |tokens| - i, 0
  {
    if i >= |tokens| then (UNKNOWN, i)
    else if At(tokens, i + 1, '(') then
      var (children, j) := Children(tokens, i + 2);
      (Verdict(tokens[i].text, children), j + 1)
    else if At(tokens, i + 1, '=') then (UNKNOWN, Min(i + 3, |tokens|))
    else (if tokens[i].text == "test" then {false} else UNKNOWN, i + 1)
  }

  function SkipComma(tokens: seq<Token>, i: nat): nat
  {
    if At(tokens, i, ',') then i + 1 else i
  }

  /** The children of a list from token i, up to the closing parenthesis or the end. */
  function Children(tokens: seq<Token>, i: nat): (r: (seq<set<bool>>, nat))
    ensures i <= r.1
    decreases |tokens| - i, 1
  {
    if i >= |tokens| || IsMark(tokens[i].text, ')') then ([], i)
    else
      var (value, j) := Expr(tokens, i);
      var (rest, k) := Children(tokens, SkipComma(tokens, j));
      ([value] + rest, k)
  }

  function CfgWithoutTests(tokens: seq<Token>): set<bool>
  {
    Expr(tokens, 0).0
  }

  /**
    What the reader does not know is unknown: any other name with a list, a `not` without
    exactly one operand, a setting, another name, and the end of the tokens.
   */
  lemma OthersUnknown(tokens: seq<Token>, i: nat)
    ensures i >= |tokens| ==> Expr(tokens, i).0 == {false, true}
    ensures i < |tokens| && At(tokens, i + 1, '(') && tokens[i].text !in {"not", "all", "any"} ==>
              Expr(tokens, i).0 == {false, true}
    ensures i < |tokens| && At(tokens, i + 1, '(') && tokens[i].text == "not" && |Children(tokens, i + 2).0| != 1 ==>
              Expr(tokens, i).0 == {false, true}
    ensures i < |tokens| && At(tokens, i + 1, '=') ==> Expr(tokens, i).0 == {false, true}
    ensures i < |tokens| && !At(tokens, i + 1, '=') && !At(tokens, i + 1, '(') && tokens[i].text != "test" ==>
              Expr(tokens, i).0 == {false, true}
  {
  }

  predicate Open(values: set<bool>)
  {
    true in values || false in values
  }

  /** Whatever the tokens, some value is possible. */
  lemma {:induction false} ExprPossible(tokens: seq<Token>, i: nat)
    ensures Open(Expr(tokens, i).0)
    decreases |tokens| - i, 0
  {
    if i < |tokens| && At(tokens, i + 1, '(') {
      ChildrenPossible(tokens, i + 2);
      VerdictPossible(tokens[i].text, Children(tokens, i + 2).0);
    }
  }

  lemma VerdictPossible(name: string, children: seq<set<bool>>)
    requires forall k :: 0 <= k < |children| ==> Open(children[k])
    ensures Open(Verdict(name, children))
  {
    var vs := SomeChoice(children);
    if name == "not" && |children| == 1 {
      var x := true in children[0];
      assert !x in Verdict(name, children);
    } else if name == "all" || name == "any" {
      assert Combined(name == "all", vs) in Verdict(name, children);
    }
  }

  lemma {:induction false} ChildrenPossible(tokens: seq<Token>, i: nat)
    ensures forall k :: 0 <= k < |Children(tokens, i).0| ==> Open(Children(tokens, i).0[k])
    decreases |tokens| - i, 1
  {
    if i < |tokens| && !IsMark(tokens[i].text, ')') {
      ExprPossible(tokens, i);
      ChildrenPossible(tokens, SkipComma(tokens, Expr(tokens, i).1));
    }
  }

  lemma {:induction false} SomeChoice(sets: seq<set<bool>>) returns (vs: seq<bool>)
    requires forall k :: 0 <= k < |sets| ==> Open(sets[k])
    ensures vs in Product(sets)
  {
    vs := [];
    if sets != [] {
      var rest := SomeChoice(sets[1..]);
      var v := true in sets[0];
      assert v in sets[0] && rest in Product(sets[1..]);
      vs := [v] + rest;
    }
  }

  lemma NextChild(tokens: seq<Token>, i: nat, before: seq<set<bool>>)
    requires i < |tokens| && !IsMark(tokens[i].text, ')')
    ensures var (value, j) := Expr(tokens, i);
            var next := SkipComma(tokens, j);
            && before + Children(tokens, i).0 == (before + [value]) + Children(tokens, next).0
            && Children(tokens, i).1 == Children(tokens, next).1
  {
  }

  /** The reader as it runs: a recursive call for a child, a loop over the list of children. */
  method ReadExpr(tokens: seq<Token>, start: nat) returns (values: set<bool>, next: nat)
    ensures (values, next) == Expr(tokens, start)
    decreases |tokens| - start
  {
    var i := start;
    if i >= |tokens| {
      return UNKNOWN, i;
    }
    var name := tokens[i].text;
    i := i + 1;
    if i < |tokens| && IsMark(tokens[i].text, '(') {
      i := i + 1;
      var children: seq<set<bool>> := [];
      while i < |tokens| && !IsMark(tokens[i].text, ')')
        invariant start + 2 <= i
        invariant Children(tokens, start + 2).0 == children + Children(tokens, i).0
        invariant Children(tokens, start + 2).1 == Children(tokens, i).1
        decreases |tokens| - i
      {
        NextChild(tokens, i, children);
        var value;
        value, i := ReadExpr(tokens, i);
        children := children + [value];
        if i < |tokens| && IsMark(tokens[i].text, ',') {
          i := i + 1;
        }
      }
      assert children + [] == children;
      i := i + 1;
      return Verdict(name, children), i;
    }
    if i < |tokens| && IsMark(tokens[i].text, '=') {
      return UNKNOWN, Min(i + 2, |tokens|);
    }
    return if name == "test" then {false} else UNKNOWN, i;
  }

  // ----- predicates and what they mean

  /** `name`, `name = "value"`, `all(..)`, `any(..)` and `not(..)`; lists may end in a comma. */
  datatype Cfg =
    | Flag(name: string)
    | Setting(name: string, value: string)
    | Group(all: bool, items: Items, comma: bool)
    | Not(inner: Cfg, comma: bool)

  datatype Items = Nothing | Item(head: Cfg, tail: Items)

  /** A build configuration: the set of options that are set. */
  datatype Atom = IsSet(name: string) | HasValue(name: string, value: string)
  type Build = set<Atom>

  predicate Holds(c: Cfg, build: Build)
  {
    match c
    case Flag(name) => IsSet(name) in build
    case Setting(name, value) => HasValue(name, value) in build
    case Group(all, items, _) => if all then HoldsAll(items, build) else HoldsAny(items, build)
    case Not(inner, _) => !Holds(inner, build)
  }

  predicate HoldsAll(items: Items, build: Build)
  {
    items.Nothing? || (Holds(items.head, build) && HoldsAll(items.tail, build))
  }

  predicate HoldsAny(items: Items, build: Build)
  {
    items.Item? && (Holds(items.head, build) || HoldsAny(items.tail, build))
  }

  predicate IsName(name: string)
  {
    !IsMark(name, '(') && !IsMark(name, ')') && !IsMark(name, ',') && !IsMark(name, '=')
  }

  predicate WellFormed(c: Cfg)
  {
    match c
    case Flag(name) => IsName(name)
    case Setting(name, _) => IsName(name)
    case Group(_, items, comma) => AllWellFormed(items) && (comma ==> items.Item?)
    case Not(inner, _) => WellFormed(inner)
  }

  predicate AllWellFormed(items: Items)
  {
    items.Nothing? || (WellFormed(items.head) && AllWellFormed(items.tail))
  }

  // ----- how a predicate is written

  function Word(text: string): seq<Token>
  {
    [Token(Code, text)]
  }

  function Mark(c: char): seq<Token>
  {
    Word([c])
  }

  function Comma(comma: bool): seq<Token>
  {
    if comma then Mark(',') else []
  }

  function GroupName(all: bool): string
  {
    if all then "all" else "any"
  }

  function Written(c: Cfg): (s: seq<Token>)
    ensures |s| > 0
  {
    match c
    case Flag(name) => Word(name)
    case Setting(name, value) => Word(name) + Mark('=') + [Token(Text, value)]
    case Group(all, items, comma) => Word(GroupName(all)) + Mark('(') + (List(items, comma) + Mark(')'))
    case Not(inner, comma) => Word("not") + Mark('(') + ((Written(inner) + Comma(comma)) + Mark(')'))
  }

  function List(items: Items, comma: bool): seq<Token>
  {
    if items.Nothing? then []
    else Written(items.head) + (if items.tail.Nothing? then Comma(comma) else Mark(',') + List(items.tail, comma))
  }

  // ----- the set the reader computes, read off the predicate itself

  function Possible(c: Cfg): set<bool>
  {
    match c
    case Flag(name) => if name == "test" then {false} else UNKNOWN
    case Setting(_, _) => UNKNOWN
    case Group(all, items, _) => Outcomes(all, PossibleEach(items))
    case Not(inner, _) => set x | x in Possible(inner) :: !x
  }

  function PossibleEach(items: Items): seq<set<bool>>
  {
    if items.Nothing? then [] else [Possible(items.head)] + PossibleEach(items.tail)
  }

  lemma OccursWord(tokens: seq<Token>, i: nat, text: string)
    requires Occurs(tokens, i, Word(text))
    ensures i < |tokens| && tokens[i].text == text
  {
  }

  lemma OccursMark(tokens: seq<Token>, i: nat, c: char)
    requires Occurs(tokens, i, Mark(c))
    ensures At(tokens, i, c)
  {
    OccursWord(tokens, i, [c]);
  }

  lemma FirstWord(tokens: seq<Token>, i: nat, c: Cfg)
    requires Occurs(tokens, i, Written(c)) && WellFormed(c)
    ensures i < |tokens| && !IsMark(tokens[i].text, ')')
  {
    WrittenFirst(c);
    assert tokens[i] == tokens[i..i + |Written(c)|][0];
  }

  lemma WrittenFirst(c: Cfg)
    requires WellFormed(c)
    ensures !IsMark(Written(c)[0].text, ')')
  {
  }

  /** What may come after a predicate: the end, a comma or a closing parenthesis. */
  predicate Ends(tokens: seq<Token>, i: nat)
  {
    i >= |tokens| || IsMark(tokens[i].text, ',') || IsMark(tokens[i].text, ')')
  }

  /** The reader recovers the written predicate: its possible values and where it ends. */
  lemma {:induction false} Reads(tokens: seq<Token>, i: nat, c: Cfg)
    requires WellFormed(c) && Occurs(tokens, i, Written(c)) && Ends(tokens, i + |Written(c)|)
    ensures Expr(tokens, i) == (Possible(c), i + |Written(c)|)
    decreases c, 0
  {
    match c
    case Flag(name) => OccursWord(tokens, i, name);
    case Setting(name, value) => ReadsSetting(tokens, i, name, value);
    case Group(all, items, comma) => ReadsGroup(tokens, i, all, items, comma);
    case Not(inner, comma) => ReadsNot(tokens, i, inner, comma);
  }

  lemma {:induction false} ReadsGroup(tokens: seq<Token>, i: nat, all: bool, items: Items, comma: bool)
    requires AllWellFormed(items)
    requires Occurs(tokens, i, Word(GroupName(all)) + Mark('(') + (List(items, comma) + Mark(')')))
    ensures Expr(tokens, i) ==
            (Outcomes(all, PossibleEach(items)),
             i + |Word(GroupName(all)) + Mark('(') + (List(items, comma) + Mark(')'))|)
    decreases items, 2
  {
    var list := List(items, comma);
    OpensGroup(tokens, i, GroupName(all), list);
    ReadsList(tokens, i + 2, items, comma);
    ReadsCall(tokens, i, GroupName(all), list, PossibleEach(items));
    GroupVerdict(all, PossibleEach(items));
  }

  lemma GroupVerdict(all: bool, children: seq<set<bool>>)
    ensures Verdict(GroupName(all), children) == Outcomes(all, children)
  {
  }

  lemma {:induction false} ReadsNot(tokens: seq<Token>, i: nat, inner: Cfg, comma: bool)
    requires WellFormed(inner)
    requires Occurs(tokens, i, Word("not") + Mark('(') + ((Written(inner) + Comma(comma)) + Mark(')')))
    ensures Expr(tokens, i) ==
            (set x | x in Possible(inner) :: !x,
             i + |Word("not") + Mark('(') + ((Written(inner) + Comma(comma)) + Mark(')'))|)
    decreases inner, 2
  {
    var list := Written(inner) + Comma(comma);
    OpensGroup(tokens, i, "not", list);
    ReadsOne(tokens, i + 2, inner, comma);
    ReadsCall(tokens, i, "not", list, [Possible(inner)]);
    NotVerdict(Possible(inner));
  }

  lemma NotVerdict(child: set<bool>)
    ensures Verdict("not", [child]) == set x | x in child :: !x
  {
  }

  /** A name and a parenthesis: the children are read, and the name judges them. */
  lemma ReadsCall(tokens: seq<Token>, i: nat, name: string, list: seq<Token>, children: seq<set<bool>>)
    requires i + 1 < |tokens| && tokens[i].text == name && IsMark(tokens[i + 1].text, '(')
    requires Children(tokens, i + 2) == (children, i + 2 + |list|)
    ensures Expr(tokens, i) == (Verdict(name, children), i + |Word(name) + Mark('(') + (list + Mark(')'))|)
  {
  }

  lemma ReadsSetting(tokens: seq<Token>, i: nat, name: string, value: string)
    requires IsName(name) && Occurs(tokens, i, Word(name) + Mark('=') + [Token(Text, value)])
    ensures Expr(tokens, i) == (UNKNOWN, i + |Word(name) + Mark('=') + [Token(Text, value)]|)
  {
  }

  lemma OpensGroup(tokens: seq<Token>, i: nat, name: string, list: seq<Token>)
    requires Occurs(tokens, i, Word(name) + Mark('(') + (list + Mark(')')))
    ensures i + 1 < |tokens| && tokens[i].text == name && IsMark(tokens[i + 1].text, '(')
    ensures Occurs(tokens, i + 2, list) && At(tokens, i + 2 + |list|, ')')
  {
    Split(tokens, i, Word(name) + Mark('('), list + Mark(')'));
    Split(tokens, i, Word(name), Mark('('));
    OccursWord(tokens, i, name);
    OccursMark(tokens, i + 1, '(');
    ClosesGroup(tokens, i + 2, list);
  }

  lemma ClosesGroup(tokens: seq<Token>, i: nat, list: seq<Token>)
    requires Occurs(tokens, i, list + Mark(')'))
    ensures Occurs(tokens, i, list) && At(tokens, i + |list|, ')')
  {
    Split(tokens, i, list, Mark(')'));
    OccursMark(tokens, i + |list|, ')');
  }

  lemma {:induction false} ReadsOne(tokens: seq<Token>, i: nat, c: Cfg, comma: bool)
    requires WellFormed(c) && Occurs(tokens, i, Written(c) + Comma(comma))
    requires At(tokens, i + |Written(c) + Comma(comma)|, ')')
    ensures Children(tokens, i) == ([Possible(c)], i + |Written(c) + Comma(comma)|)
    decreases c, 1
  {
    PartEnds(tokens, i, Written(c), comma);
    FirstWord(tokens, i, c);
    Reads(tokens, i, c);
    LastChild(tokens, i, i + |Written(c)|, i + |Written(c) + Comma(comma)|);
  }

  lemma PartEnds(tokens: seq<Token>, i: nat, part: seq<Token>, comma: bool)
    requires Occurs(tokens, i, part + Comma(comma)) && At(tokens, i + |part + Comma(comma)|, ')')
    ensures Occurs(tokens, i, part) && Ends(tokens, i + |part|)
    ensures SkipComma(tokens, i + |part|) == i + |part + Comma(comma)|
  {
    Split(tokens, i, part, Comma(comma));
    if comma {
      OccursMark(tokens, i + |part|, ',');
    }
  }

  lemma LastChild(tokens: seq<Token>, i: nat, j: nat, k: nat)
    requires i < |tokens| && !IsMark(tokens[i].text, ')') && Expr(tokens, i).1 == j
    requires SkipComma(tokens, j) == k && At(tokens, k, ')')
    ensures Children(tokens, i) == ([Expr(tokens, i).0], k)
  {
    assert Children(tokens, k) == ([], k);
    assert [Expr(tokens, i).0] + [] == [Expr(tokens, i).0];
  }

  lemma {:induction false} ReadsList(tokens: seq<Token>, i: nat, items: Items, comma: bool)
    requires AllWellFormed(items) && Occurs(tokens, i, List(items, comma))
    requires At(tokens, i + |List(items, comma)|, ')')
    ensures Children(tokens, i) == (PossibleEach(items), i + |List(items, comma)|)
    decreases items, 1
  {
    if items.Item? {
      if items.tail.Nothing? {
        ReadsOne(tokens, i, items.head, comma);
        assert PossibleEach(items) == [Possible(items.head)] + [] == [Possible(items.head)];
      } else {
        ReadsMore(tokens, i, items, comma);
      }
    }
  }

  lemma {:induction false} ReadsMore(tokens: seq<Token>, i: nat, items: Items, comma: bool)
    requires items.Item? && items.tail.Item?
    requires AllWellFormed(items) && Occurs(tokens, i, List(items, comma))
    requires At(tokens, i + |List(items, comma)|, ')')
    ensures Children(tokens, i) == (PossibleEach(items), i + |List(items, comma)|)
    decreases items, 0
  {
    var rest := List(items.tail, comma);
    ListLength(items, comma);
    var next := ReadsHead(tokens, i, items.head, rest);
    assert i + |List(items, comma)| == next + |rest|;
    ReadsList(tokens, next, items.tail, comma);
    PossibleItem(items);
  }

  lemma PossibleItem(items: Items)
    requires items.Item?
    ensures PossibleEach(items) == [Possible(items.head)] + PossibleEach(items.tail)
  {
  }

  lemma ListLength(items: Items, comma: bool)
    requires items.Item? && items.tail.Item?
    ensures List(items, comma) == Written(items.head) + (Mark(',') + List(items.tail, comma))
    ensures |List(items, comma)| == |Written(items.head)| + 1 + |List(items.tail, comma)|
  {
  }

  /** The first item of several, and the comma after it. */
  lemma {:induction false} ReadsHead(tokens: seq<Token>, i: nat, head: Cfg, rest: seq<Token>) returns (next: nat)
    requires WellFormed(head) && Occurs(tokens, i, Written(head) + (Mark(',') + rest))
    ensures next == i + |Written(head)| + 1 && Occurs(tokens, next, rest)
    ensures Children(tokens, i) == ([Possible(head)] + Children(tokens, next).0, Children(tokens, next).1)
    decreases head, 1
  {
    next := i + |Written(head)| + 1;
    Split(tokens, i, Written(head), Mark(',') + rest);
    Split(tokens, i + |Written(head)|, Mark(','), rest);
    OccursMark(tokens, i + |Written(head)|, ',');
    FirstWord(tokens, i, head);
    Reads(tokens, i, head);
    ChildComma(tokens, i, i + |Written(head)|);
  }

  lemma ChildComma(tokens: seq<Token>, i: nat, j: nat)
    requires i < |tokens| && !IsMark(tokens[i].text, ')') && Expr(tokens, i).1 == j && At(tokens, j, ',')
    ensures Children(tokens, i) == ([Expr(tokens, i).0] + Children(tokens, j + 1).0, Children(tokens, j + 1).1)
  {
  }

  lemma ReadsWhole(c: Cfg)
    requires WellFormed(c)
    ensures CfgWithoutTests(Written(c)) == Possible(c)
    ensures Expr(Written(c), 0).1 == |Written(c)|
  {
    assert Written(c)[0..|Written(c)|] == Written(c);
    Reads(Written(c), 0, c);
  }

  // ----- the set holds the value in every non-test build

  lemma ProductHas(sets: seq<set<bool>>, v: bool, vs: seq<bool>)
    requires sets != [] && v in sets[0] && vs in Product(sets[1..])
    ensures [v] + vs in Product(sets)
  {
    var rest := Product(sets[1..]);
    assert v in sets[0] && vs in rest;
  }

  lemma ProductFrom(sets: seq<set<bool>>, values: seq<bool>)
    requires sets != [] && values != [] && values in Product(sets)
    ensures values[0] in sets[0] && values[1..] in Product(sets[1..])
  {
    var rest := Product(sets[1..]);
    var v, vs :| v in sets[0] && vs in rest && values == [v] + vs;
    assert values[1..] == vs;
  }

  lemma HeadTail(values: seq<bool>)
    requires values != []
    ensures [values[0]] + values[1..] == values
  {
  }

  lemma ProductHead(sets: seq<set<bool>>, values: seq<bool>)
    requires sets != [] && values != []
    ensures values in Product(sets) <==> values[0] in sets[0] && values[1..] in Product(sets[1..])
  {
    if values[0] in sets[0] && values[1..] in Product(sets[1..]) {
      ProductHas(sets, values[0], values[1..]);
      HeadTail(values);
    }
    if values in Product(sets) {
      ProductFrom(sets, values);
    }
  }

  /** Membership in a product is pointwise. */
  lemma {:induction false} ProductPointwise(sets: seq<set<bool>>, values: seq<bool>)
    ensures values in Product(sets) <==> |values| == |sets| && forall k :: 0 <= k < |sets| ==> values[k] in sets[k]
  {
    if sets != [] && values != [] {
      ProductPointwise(sets[1..], values[1..]);
      assert values == [values[0]] + values[1..];
      ProductHead(sets, values);
      assert forall k :: 0 <= k < |sets| - 1 ==> sets[1..][k] == sets[k + 1];
      assert forall k :: 0 <= k < |values| - 1 ==> values[1..][k] == values[k + 1];
      assert forall k :: 0 < k < |sets| ==> sets[1..][k - 1] == sets[k];
      assert forall k :: 0 < k < |values| ==> values[1..][k - 1] == values[k];
    }
  }

  function ValuesOf(items: Items, build: Build): seq<bool>
  {
    if items.Nothing? then [] else [Holds(items.head, build)] + ValuesOf(items.tail, build)
  }

  lemma {:induction false} ValuesCombine(items: Items, build: Build)
    ensures Combined(true, ValuesOf(items, build)) == HoldsAll(items, build)
    ensures Combined(false, ValuesOf(items, build)) == HoldsAny(items, build)
  {
    if items.Item? {
      ValuesCombine(items.tail, build);
      var v := Holds(items.head, build);
      assert forall b :: b in [v] + ValuesOf(items.tail, build) <==> b == v || b in ValuesOf(items.tail, build);
    }
  }

  lemma {:induction false} Sound(c: Cfg, build: Build)
    requires IsSet("test") !in build
    ensures Holds(c, build) in Possible(c)
  {
    match c
    case Flag(_) =>
    case Setting(_, _) =>
    case Not(inner, _) => Sound(inner, build);
    case Group(all, items, _) =>
      SoundEach(items, build);
      ValuesCombine(items, build);
      assert Combined(all, ValuesOf(items, build)) in Outcomes(all, PossibleEach(items));
  }

  lemma {:induction false} SoundEach(items: Items, build: Build)
    requires IsSet("test") !in build
    ensures ValuesOf(items, build) in Product(PossibleEach(items))
  {
    if items.Item? {
      Sound(items.head, build);
      SoundEach(items.tail, build);
      assert PossibleEach(items)[1..] == PossibleEach(items.tail);
    }
  }

  /**
    In every build without `test`, the value of a written predicate is one the reader returns;
    so the answer `{false}` proves that the item is absent from every non-test build.
   */
  lemma WithoutTestsSound(c: Cfg, build: Build)
    requires WellFormed(c) && IsSet("test") !in build
    ensures Holds(c, build) in CfgWithoutTests(Written(c))
    ensures CfgWithoutTests(Written(c)) == {false} ==> !Holds(c, build)
  {
    ReadsWhole(c);
    Sound(c, build);
  }

  // ----- and no other value, as long as no option is mentioned twice

  function Mentions(c: Cfg): set<Atom>
  {
    match c
    case Flag(name) => if name == "test" then {} else {IsSet(name)}
    case Setting(name, value) => {HasValue(name, value)}
    case Group(_, items, _) => MentionsAny(items)
    case Not(inner, _) => Mentions(inner)
  }

  function MentionsAny(items: Items): set<Atom>
  {
    if items.Nothing? then {} else Mentions(items.head) + MentionsAny(items.tail)
  }

  /** No option other than `test` is mentioned twice. */
  predicate MentionsOnce(c: Cfg)
  {
    match c
    case Flag(_) => true
    case Setting(_, _) => true
    case Group(_, items, _) => EachOnce(items)
    case Not(inner, _) => MentionsOnce(inner)
  }

  predicate EachOnce(items: Items)
  {
    items.Nothing? ||
    (MentionsOnce(items.head) && EachOnce(items.tail) && Mentions(items.head) !! MentionsAny(items.tail))
  }

  predicate Agree(a: Build, b: Build, atoms: set<Atom>)
  {
    forall x :: x in atoms ==> (x in a <==> x in b)
  }

  /** A predicate looks only at what it mentions, and at `test`. */
  lemma {:induction false} LooksOnlyAt(c: Cfg, a: Build, b: Build)
    requires IsSet("test") !in a && IsSet("test") !in b && Agree(a, b, Mentions(c))
    ensures Holds(c, a) == Holds(c, b)
  {
    match c
    case Flag(name) => if name != "test" { assert IsSet(name) in Mentions(c); }
    case Setting(name, value) => assert HasValue(name, value) in Mentions(c);
    case Not(inner, _) => LooksOnlyAt(inner, a, b);
    case Group(all, items, _) =>
      LooksOnlyAtEach(items, a, b);
      ValuesCombine(items, a);
      ValuesCombine(items, b);
  }

  lemma {:induction false} LooksOnlyAtEach(items: Items, a: Build, b: Build)
    requires IsSet("test") !in a && IsSet("test") !in b && Agree(a, b, MentionsAny(items))
    ensures ValuesOf(items, a) == ValuesOf(items, b)
  {
    if items.Item? {
      LooksOnlyAt(items.head, a, b);
      LooksOnlyAtEach(items.tail, a, b);
    }
  }

  lemma {:induction false} Attained(c: Cfg, value: bool) returns (build: Build)
    requires MentionsOnce(c) && value in Possible(c)
    ensures IsSet("test") !in build && Holds(c, build) == value
  {
    match c
    case Flag(name) => build := if value then {IsSet(name)} else {};
    case Setting(name, v) => build := if value then {HasValue(name, v)} else {};
    case Not(inner, _) => build := Attained(inner, !value);
    case Group(all, items, _) =>
      var values :| values in Product(PossibleEach(items)) && Combined(all, values) == value;
      build := AttainedEach(items, values);
      ValuesCombine(items, build);
  }

  lemma {:induction false} AttainedEach(items: Items, values: seq<bool>) returns (build: Build)
    requires EachOnce(items) && values in Product(PossibleEach(items))
    ensures IsSet("test") !in build && ValuesOf(items, build) == values
  {
    if items.Nothing? {
      build := {};
    } else {
      var v, vs :| v in Possible(items.head) && vs in Product(PossibleEach(items)[1..]) && values == [v] + vs;
      assert PossibleEach(items)[1..] == PossibleEach(items.tail);
      var first := Attained(items.head, v);
      var rest := AttainedEach(items.tail, vs);
      build := Joined(first, rest, Mentions(items.head));
      LooksOnlyAt(items.head, build, first);
      LooksOnlyAtEach(items.tail, build, rest);
    }
  }

  function Joined(first: Build, rest: Build, atoms: set<Atom>): Build
  {
    first * atoms + (rest - atoms)
  }

  /** The reader's answer is exact when no option is mentioned twice. */
  lemma WithoutTestsExact(c: Cfg, value: bool)
    requires WellFormed(c) && MentionsOnce(c)
    ensures value in CfgWithoutTests(Written(c)) <==>
            exists build: Build :: IsSet("test") !in build && Holds(c, build) == value
  {
    ReadsWhole(c);
    if value in Possible(c) {
      var build := Attained(c, value);
    }
    if build: Build :| IsSet("test") !in build && Holds(c, build) == value {
      Sound(c, build);
    }
  }

  /** An option mentioned twice can cost exactness, never soundness: `all(a, not(a))`. */
  lemma RepeatedOptionUnknown()
    ensures var a := Flag("a");
            var c := Group(true, Item(a, Item(Not(a, false), Nothing)), false);
            WellFormed(c) && true in CfgWithoutTests(Written(c)) && forall build: Build :: !Holds(c, build)
  {
    var a := Flag("a");
    var b := Not(a, false);
    var items := Item(a, Item(b, Nothing));
    var c := Group(true, items, false);
    ReadsWhole(c);
    assert forall build: Build :: Holds(b, build) == !Holds(a, build);
    assert forall build: Build :: HoldsAll(items, build) == (Holds(a, build) && HoldsAll(items.tail, build));
    assert true in Possible(b) by {
      assert false in Possible(a);
    }
    var sets := PossibleEach(items);
    assert sets == [Possible(a)] + ([Possible(b)] + []);
    ProductPointwise(sets, [true, true]);
    assert Combined(true, [true, true]);
  }
}
