/**
  Finding the source files that only test builds reach (ci/rust_test_modules.py,
  `wholly_test_files`), the file edges taken as given: a worklist over (file, mode) pairs,
  where the mode says whether some edge on the way was test-only.
 */
module RustTestModules {
  datatype Edge = Edge(target: string, test: bool)

  /** The declared edges of every file; `entries` are the crate's lib.rs and main.rs. */
  datatype Graph = Graph(edges: map<string, seq<Edge>>, entries: set<string>)

  /** Edges stay among the files. */
  predicate Closed(g: Graph)
  {
    forall p, i :: p in g.edges && 0 <= i < |g.edges[p]| ==> g.edges[p][i].target in g.edges
  }

  function Incoming(g: Graph): (s: set<string>)
    ensures forall t :: t in s <==> exists p, i :: p in g.edges && 0 <= i < |g.edges[p]| && g.edges[p][i].target == t
  {
    var s := set p, i | p in g.edges && 0 <= i < |g.edges[p]| :: g.edges[p][i].target;
    s
  }

  function Roots(g: Graph): set<string>
  {
    (g.edges.Keys - Incoming(g)) + (g.entries * g.edges.Keys)
  }

  /** Some declared edge leads to the file. */
  ghost predicate Targeted(g: Graph, p: string)
  {
    exists q, i :: q in g.edges && 0 <= i < |g.edges[q]| && g.edges[q][i].target == p
  }

  /** The roots are the entry points among the files, and the files that no edge leads to. */
  lemma RootsMeans(g: Graph, p: string)
    ensures p in Roots(g) <==> p in g.edges && (p in g.entries || !Targeted(g, p))
  {
  }

  // ----- walks from a root

  datatype Walk = Start(root: string) | Follow(before: Walk, index: nat)

  function End(g: Graph, w: Walk): string
    requires IsWalk(g, w)
    decreases w, 1
  {
    match w
    case Start(root) => root
    case Follow(before, i) => g.edges[End(g, before)][i].target
  }

  predicate IsWalk(g: Graph, w: Walk)
    decreases w, 0
  {
    match w
    case Start(root) => root in Roots(g)
    case Follow(before, i) => IsWalk(g, before) && End(g, before) in g.edges && i < |g.edges[End(g, before)]|
  }

  /** Some edge of the walk is test-only. */
  predicate CrossesTest(g: Graph, w: Walk)
    requires IsWalk(g, w)
  {
    match w
    case Start(_) => false
    case Follow(before, i) => CrossesTest(g, before) || g.edges[End(g, before)][i].test
  }

  ghost predicate Reaches(g: Graph, file: string, mode: bool)
  {
    exists w :: IsWalk(g, w) && End(g, w) == file && CrossesTest(g, w) == mode
  }

  /** The file is reached, and every walk to it crosses a test-only edge. */
  ghost predicate WhollyTest(g: Graph, file: string)
  {
    (exists w :: IsWalk(g, w) && End(g, w) == file) &&
    forall w :: IsWalk(g, w) && End(g, w) == file ==> CrossesTest(g, w)
  }

  // ----- the worklist

  type Reached = map<string, set<bool>>

  function Successors(edges: seq<Edge>, mode: bool): (out: seq<(string, bool)>)
    ensures |out| == |edges|
  {
    seq(|edges|, i requires 0 <= i < |edges| => (edges[i].target, mode || edges[i].test))
  }

  /** Every recorded or pending pair is really reached. */
  ghost predicate Sound(g: Graph, reached: Reached, pending: seq<(string, bool)>)
  {
    && reached.Keys == g.edges.Keys
    && (forall p, m :: p in reached && m in reached[p] ==> Reaches(g, p, m))
    && (forall i :: 0 <= i < |pending| ==> pending[i].0 in g.edges && Reaches(g, pending[i].0, pending[i].1))
  }

  ghost predicate Known(reached: Reached, pending: seq<(string, bool)>, p: string, m: bool)
  {
    (p in reached && m in reached[p]) || (p, m) in pending
  }

  /** Roots are recorded or pending, and so is every successor of a recorded pair. */
  ghost predicate Complete(g: Graph, reached: Reached, pending: seq<(string, bool)>)
  {
    && (forall r :: r in Roots(g) ==> Known(reached, pending, r, false))
    && (forall p, m, i :: p in reached && p in g.edges && m in reached[p] && 0 <= i < |g.edges[p]|
          ==> Known(reached, pending, g.edges[p][i].target, m || g.edges[p][i].test))
  }

  /** With nothing pending, everything reached has been recorded. */
  lemma {:induction false} RecordsAll(g: Graph, reached: Reached, w: Walk)
    requires Closed(g) && reached.Keys == g.edges.Keys && Complete(g, reached, []) && IsWalk(g, w)
    ensures End(g, w) in reached && CrossesTest(g, w) in reached[End(g, w)]
  {
    match w
    case Start(root) => assert Known(reached, [], root, false);
    case Follow(before, i) =>
      RecordsAll(g, reached, before);
      var p := End(g, before);
      assert Known(reached, [], g.edges[p][i].target, CrossesTest(g, before) || g.edges[p][i].test);
  }

  lemma SuccessorReached(g: Graph, p: string, m: bool, i: nat)
    requires p in g.edges && i < |g.edges[p]| && Reaches(g, p, m)
    ensures Reaches(g, g.edges[p][i].target, m || g.edges[p][i].test)
  {
    var w :| IsWalk(g, w) && End(g, w) == p && CrossesTest(g, w) == m;
    var next := Follow(w, i);
    assert IsWalk(g, next) && End(g, next) == g.edges[p][i].target;
  }

  lemma RootReached(g: Graph, r: string)
    requires r in Roots(g)
    ensures Reaches(g, r, false)
  {
    assert IsWalk(g, Start(r)) && End(g, Start(r)) == r;
  }

  // ----- one step of the loop

  function Record(reached: Reached, p: string, m: bool): Reached
    requires p in reached
  {
    reached[p := reached[p] + {m}]
  }

  lemma StepSound(g: Graph, reached: Reached, rest: seq<(string, bool)>, p: string, m: bool)
    requires Closed(g) && Sound(g, reached, rest + [(p, m)])
    ensures p in reached && Sound(g, reached, rest)
    ensures Sound(g, Record(reached, p, m), rest + Successors(g.edges[p], m))
  {
    var all := rest + [(p, m)];
    assert all[|rest|] == (p, m);
    forall i | 0 <= i < |rest| ensures rest[i].0 in g.edges && Reaches(g, rest[i].0, rest[i].1) {
      assert all[i] == rest[i];
    }
    forall i | 0 <= i < |g.edges[p]| ensures Reaches(g, g.edges[p][i].target, m || g.edges[p][i].test) {
      SuccessorReached(g, p, m, i);
    }
  }

  lemma KnownStays(reached: Reached, rest: seq<(string, bool)>, p: string, m: bool, more: seq<(string, bool)>,
                   q: string, n: bool)
    requires p in reached && Known(reached, rest + [(p, m)], q, n)
    ensures Known(Record(reached, p, m), rest + more, q, n)
  {
  }

  lemma StepComplete(g: Graph, reached: Reached, rest: seq<(string, bool)>, p: string, m: bool)
    requires reached.Keys == g.edges.Keys && p in reached && Complete(g, reached, rest + [(p, m)])
    ensures Complete(g, Record(reached, p, m), rest + Successors(g.edges[p], m))
  {
    var more := Successors(g.edges[p], m);
    var after := Record(reached, p, m);
    forall r | r in Roots(g) ensures Known(after, rest + more, r, false) {
      KnownStays(reached, rest, p, m, more, r, false);
    }
    forall q, n, i | q in after && q in g.edges && n in after[q] && 0 <= i < |g.edges[q]|
      ensures Known(after, rest + more, g.edges[q][i].target, n || g.edges[q][i].test)
    {
      if n in reached[q] {
        KnownStays(reached, rest, p, m, more, g.edges[q][i].target, n || g.edges[q][i].test);
      } else {
        assert (rest + more)[|rest| + i] == (g.edges[q][i].target, n || g.edges[q][i].test);
      }
    }
  }

  lemma RepeatComplete(g: Graph, reached: Reached, rest: seq<(string, bool)>, p: string, m: bool)
    requires reached.Keys == g.edges.Keys && p in reached && m in reached[p] && Complete(g, reached, rest + [(p, m)])
    ensures Complete(g, reached, rest)
  {
  }

  // ----- termination

  /** The (file, mode) pairs not yet recorded. */
  ghost function Unrecorded(reached: Reached): set<(string, bool)>
  {
    set p, m | p in reached && m in {false, true} && m !in reached[p] :: (p, m)
  }

  lemma RecordShrinks(reached: Reached, p: string, m: bool)
    requires p in reached && m !in reached[p]
    ensures |Unrecorded(Record(reached, p, m))| < |Unrecorded(reached)|
  {
    assert (p, m) in Unrecorded(reached);
    assert Unrecorded(Record(reached, p, m)) == Unrecorded(reached) - {(p, m)};
  }

  /** The initial stack: one pair per root, in any order. */
  method InitialPending(roots: set<string>) returns (pending: seq<(string, bool)>)
    ensures forall r :: r in roots <==> (r, false) in pending
    ensures forall i :: 0 <= i < |pending| ==> pending[i].0 in roots && !pending[i].1
  {
    pending := [];
    var rest := roots;
    while rest != {}
      invariant rest <= roots
      invariant forall r :: r in roots - rest <==> (r, false) in pending
      invariant forall i :: 0 <= i < |pending| ==> pending[i].0 in roots && !pending[i].1
      decreases |rest|
    {
      var r :| r in rest;
      rest := rest - {r};
      pending := pending + [(r, false)];
    }
  }

  /**
    `wholly_test_files`: exactly the files that are reached from a root and only over walks
    that cross a test-only edge.
   */
  method WhollyTestFiles(g: Graph) returns (files: set<string>)
    requires Closed(g)
    ensures forall p :: p in files <==> p in g.edges && WhollyTest(g, p)
    ensures forall p :: p in files ==> p in g.edges && p !in g.entries && Targeted(g, p)
    ensures forall p :: Targeted(g, p) && p !in g.entries && OnlyTestEdges(g, p) ==> p in files
    ensures forall q, i :: ProductionEdge(g, q, i) ==> g.edges[q][i].target !in files
  {
    var reached: Reached := map p | p in g.edges :: {};
    var pending := InitialPending(Roots(g));
    assert Sound(g, reached, pending) by {
      forall i | 0 <= i < |pending| ensures Reaches(g, pending[i].0, pending[i].1) {
        RootReached(g, pending[i].0);
      }
    }
    while pending != []
      invariant Sound(g, reached, pending) && Complete(g, reached, pending)
      decreases |Unrecorded(reached)|, |pending|
    {
      var (p, m) := pending[|pending| - 1];
      assert pending == pending[..|pending| - 1] + [(p, m)];
      pending := pending[..|pending| - 1];
      StepSound(g, reached, pending, p, m);
      if m in reached[p] {
        RepeatComplete(g, reached, pending, p, m);
      } else {
        StepComplete(g, reached, pending, p, m);
        RecordShrinks(reached, p, m);
        reached := Record(reached, p, m);
        pending := pending + Successors(g.edges[p], m);
      }
    }
    files := set p | p in reached && reached[p] == {true};
    forall p | p in g.edges ensures p in files <==> WhollyTest(g, p) {
      ModesDecide(g, reached, p);
    }
    FilesAnswer(g, files);
  }

  /** Every edge to the file is test-only and comes from an entry point or a file that no edge leads to. */
  ghost predicate OnlyTestEdges(g: Graph, p: string)
  {
    forall q, i :: q in g.edges && 0 <= i < |g.edges[q]| && g.edges[q][i].target == p ==>
      g.edges[q][i].test && (q in g.entries || !Targeted(g, q))
  }

  /** An edge of an entry point, or of a file that no edge leads to, that is not test-only. */
  ghost predicate ProductionEdge(g: Graph, q: string, i: int)
  {
    q in g.edges && (q in g.entries || !Targeted(g, q)) && 0 <= i < |g.edges[q]| && !g.edges[q][i].test
  }

  /** What the answer says of files next to the roots, from the declared edges alone. */
  lemma FilesAnswer(g: Graph, files: set<string>)
    requires Closed(g) && forall p :: p in files <==> p in g.edges && WhollyTest(g, p)
    ensures forall p :: p in files ==> p in g.edges && p !in g.entries && Targeted(g, p)
    ensures forall p :: Targeted(g, p) && p !in g.entries && OnlyTestEdges(g, p) ==> p in files
    ensures forall q, i :: ProductionEdge(g, q, i) ==> g.edges[q][i].target !in files
  {
    forall p | p in files ensures p !in g.entries && Targeted(g, p) {
      RootsMeans(g, p);
      if p in Roots(g) {
        RootNeverTest(g, p);
      }
    }
    forall p | Targeted(g, p) && p !in g.entries && OnlyTestEdges(g, p) ensures p in files {
      EdgesDecide(g, p);
    }
    forall q, i | ProductionEdge(g, q, i)
      ensures g.edges[q][i].target !in files
    {
      RootsMeans(g, q);
      RootReached(g, q);
      SuccessorReached(g, q, false, i);
    }
  }

  lemma EdgesDecide(g: Graph, p: string)
    requires Closed(g) && Targeted(g, p) && p !in g.entries && OnlyTestEdges(g, p)
    ensures p in g.edges && WhollyTest(g, p)
  {
    var q, i :| q in g.edges && 0 <= i < |g.edges[q]| && g.edges[q][i].target == p;
    RootsMeans(g, q);
    RootReached(g, q);
    SuccessorReached(g, q, false, i);
    RootsMeans(g, p);
    forall w | IsWalk(g, w) && End(g, w) == p ensures CrossesTest(g, w) {
      assert w.Follow?;
    }
  }

  /** Some walk from a root leads to the file. */
  ghost predicate Rooted(g: Graph, p: string)
  {
    exists w :: IsWalk(g, w) && End(g, w) == p
  }

  lemma RootedNext(g: Graph, p: string)
    ensures Rooted(g, p) <==>
            p in Roots(g) ||
            exists q, i :: q in g.edges && 0 <= i < |g.edges[q]| && g.edges[q][i].target == p && Rooted(g, q)
  {
    if w :| IsWalk(g, w) && End(g, w) == p {
      if w.Follow? {
        assert Rooted(g, End(g, w.before));
      }
    }
    if p in Roots(g) {
      RootReached(g, p);
    }
    if q, i :| q in g.edges && 0 <= i < |g.edges[q]| && g.edges[q][i].target == p && Rooted(g, q) {
      var w :| IsWalk(g, w) && End(g, w) == q;
      assert IsWalk(g, Follow(w, i)) && End(g, Follow(w, i)) == p;
    }
  }

  /**
    The answer file by file: a rooted file is wholly a test file exactly when it is no root and
    every edge to it is test-only, or comes from a wholly test file, or from one that no root reaches.
   */
  lemma TestExactly(g: Graph, p: string)
    requires Rooted(g, p)
    ensures WhollyTest(g, p) <==>
            p !in Roots(g) &&
            forall q, i :: q in g.edges && 0 <= i < |g.edges[q]| && g.edges[q][i].target == p ==>
              g.edges[q][i].test || WhollyTest(g, q) || !Rooted(g, q)
  {
    if WhollyTest(g, p) {
      if p in Roots(g) {
        RootNeverTest(g, p);
      }
      forall q, i |
          q in g.edges && 0 <= i < |g.edges[q]| && g.edges[q][i].target == p && !g.edges[q][i].test && Rooted(g, q)
        ensures WhollyTest(g, q)
      {
        forall w | IsWalk(g, w) && End(g, w) == q ensures CrossesTest(g, w) {
          assert IsWalk(g, Follow(w, i)) && End(g, Follow(w, i)) == p;
        }
      }
    } else {
      var w :| IsWalk(g, w) && End(g, w) == p && !CrossesTest(g, w);
      if w.Follow? {
        assert Rooted(g, End(g, w.before)) && !WhollyTest(g, End(g, w.before));
      }
    }
  }

  lemma ModesDecide(g: Graph, reached: Reached, p: string)
    requires Closed(g) && Sound(g, reached, []) && Complete(g, reached, []) && p in reached
    ensures reached[p] == {true} <==> WhollyTest(g, p)
  {
    forall w | IsWalk(g, w) && End(g, w) == p ensures CrossesTest(g, w) in reached[p] {
      RecordsAll(g, reached, w);
    }
    if reached[p] == {true} {
      assert Reaches(g, p, true);
    }
    if WhollyTest(g, p) {
      var w :| IsWalk(g, w) && End(g, w) == p;
      assert CrossesTest(g, w) in reached[p];
      forall m | m in reached[p] ensures m {
        assert Reaches(g, p, m);
      }
      assert reached[p] == {true};
    }
  }

  /** A root is never wholly a test file: the empty walk crosses nothing. */
  lemma RootNeverTest(g: Graph, r: string)
    requires r in Roots(g)
    ensures !WhollyTest(g, r)
  {
    assert IsWalk(g, Start(r)) && End(g, Start(r)) == r && !CrossesTest(g, Start(r));
  }

  /** A set of files that no root is in and no edge enters from outside. */
  ghost predicate Unrooted(g: Graph, cycle: set<string>)
  {
    cycle !! Roots(g) &&
    forall p, i :: p in g.edges && 0 <= i < |g.edges[p]| && g.edges[p][i].target in cycle ==> p in cycle
  }

  lemma {:induction false} UnrootedUnreached(g: Graph, cycle: set<string>, w: Walk)
    requires Unrooted(g, cycle) && IsWalk(g, w)
    ensures End(g, w) !in cycle
  {
    if w.Follow? {
      UnrootedUnreached(g, cycle, w.before);
    }
  }

  /** Files on unrooted cycles are never exempted: the answer fails closed. */
  lemma UnrootedNeverTest(g: Graph, cycle: set<string>, p: string)
    requires Unrooted(g, cycle) && p in cycle
    ensures !WhollyTest(g, p)
  {
    if w :| IsWalk(g, w) && End(g, w) == p {
      UnrootedUnreached(g, cycle, w);
    }
  }
}
