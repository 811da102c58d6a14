/** `recursive_split`: a LIFO worklist that keeps every geometry within the
    vertex bound (or that cannot be bisected) and replaces every other geometry
    by the parts its bisection yields.

    The source gives no termination argument: the split primitive need not
    lower the vertex count (a square cut in two gives two five-coordinate
    rectangles). Termination rests on one explicit assumption, `Shrinks`: the
    primitive makes progress under some natural-number `rank` of geometries,
    which falls strictly from a geometry to each part of any bisection the
    worklist acts on (for instance the vertex count itself, for a primitive
    whose parts always have fewer vertices than what it cuts). */
module Splitting {
  import opened Geometries
  import opened Bisector

  /** A geometry the worklist accepts as it is: within the bound, or over it
      but bisected into exactly one part. */
  predicate Final(split: Splitter, maxVertices: int, g: Geometry)
  {
    Count(g) <= maxVertices || (!IsEmpty(g) && |Bisect(split, g)| == 1)
  }

  /** `p` is one of the parts the worklist pushes in place of `g`: `g` is over
      the bound and its bisection did not give exactly one part. */
  predicate Pushes(split: Splitter, maxVertices: int, g: Geometry, p: Geometry)
  {
    !IsEmpty(g) && Count(g) > maxVertices && |Bisect(split, g)| != 1 && p in Bisect(split, g)
  }

  /** The termination assumption on the primitive: every part the worklist
      pushes in place of a geometry has a smaller rank than that geometry. */
  ghost predicate Shrinks(split: Splitter, rank: Geometry -> nat, maxVertices: int)
  {
    forall g, p :: Pushes(split, maxVertices, g, p) ==> rank(p) < rank(g)
  }

  /** The parts pushed in place of a non-final geometry all rank below it. */
  lemma PartsRankBelow(split: Splitter, rank: Geometry -> nat, maxVertices: int, g: Geometry)
    requires maxVertices >= 0 && Shrinks(split, rank, maxVertices) && !Final(split, maxVertices, g)
    ensures Height(rank, Bisect(split, g)) <= rank(g)
  {
    var parts := Bisect(split, g);
    forall p | p in parts
      ensures rank(p) < rank(g)
    {
      assert Pushes(split, maxVertices, g, p);
    }
    HeightBelow(rank, parts, rank(g));
  }

  /** One more than the largest rank on a stack (0 for an empty stack). */
  ghost function Height(rank: Geometry -> nat, stack: seq<Geometry>): nat
  {
    if stack == [] then 0 else MaxNat(rank(stack[|stack| - 1]) + 1, Height(rank, stack[..|stack| - 1]))
  }

  function MaxNat(a: nat, b: nat): nat { if a <= b then b else a }

  lemma {:induction false} HeightBelow(rank: Geometry -> nat, stack: seq<Geometry>, bound: nat)
    requires forall p :: p in stack ==> rank(p) < bound
    ensures Height(rank, stack) <= bound
  {
    if stack != [] {
      assert stack[|stack| - 1] in stack;
      HeightBelow(rank, stack[..|stack| - 1], bound);
    }
  }

  /** The recursive reading of `recursive_split`: what the worklist emits for
      `g`, in order. A final geometry is emitted as it is; any other is replaced
      by the fragments of its parts, the last-pushed part's first. */
  ghost function Fragments(split: Splitter, rank: Geometry -> nat, maxVertices: int, g: Geometry): seq<Geometry>
    requires maxVertices >= 0 && Shrinks(split, rank, maxVertices)
    decreases rank(g) + 1, 0
  {
    if Final(split, maxVertices, g) then [g]
    else
      var parts := Bisect(split, g);
      PartsRankBelow(split, rank, maxVertices, g);
      StackFragments(split, rank, maxVertices, parts)
  }

  /** What the worklist emits for a whole stack, popped from its top (the end). */
  ghost function StackFragments(split: Splitter, rank: Geometry -> nat, maxVertices: int, stack: seq<Geometry>): seq<Geometry>
    requires maxVertices >= 0 && Shrinks(split, rank, maxVertices)
    decreases Height(rank, stack), 1, |stack|
  {
    if stack == [] then []
    else
      Fragments(split, rank, maxVertices, stack[|stack| - 1])
      + StackFragments(split, rank, maxVertices, stack[..|stack| - 1])
  }

  /** The number of loop iterations the worklist spends on `g`. */
  ghost function Work(split: Splitter, rank: Geometry -> nat, maxVertices: int, g: Geometry): nat
    requires maxVertices >= 0 && Shrinks(split, rank, maxVertices)
    decreases rank(g) + 1, 0
  {
    if Final(split, maxVertices, g) then 1
    else
      var parts := Bisect(split, g);
      PartsRankBelow(split, rank, maxVertices, g);
      1 + StackWork(split, rank, maxVertices, parts)
  }

  ghost function StackWork(split: Splitter, rank: Geometry -> nat, maxVertices: int, stack: seq<Geometry>): nat
    requires maxVertices >= 0 && Shrinks(split, rank, maxVertices)
    decreases Height(rank, stack), 1, |stack|
  {
    if stack == [] then 0
    else
      Work(split, rank, maxVertices, stack[|stack| - 1])
      + StackWork(split, rank, maxVertices, stack[..|stack| - 1])
  }

  lemma AppendAssociative<T>(a: seq<T>, b: seq<T>, c: seq<T>)
    ensures a + (b + c) == (a + b) + c
  {
  }

  /** Popping the top of a non-empty stack: its fragments come first, then
      those of the rest; its work adds to theirs. */
  lemma Pop(split: Splitter, rank: Geometry -> nat, maxVertices: int, stack: seq<Geometry>)
    requires maxVertices >= 0 && Shrinks(split, rank, maxVertices) && stack != []
    ensures var top, rest := stack[|stack| - 1], stack[..|stack| - 1];
      && StackFragments(split, rank, maxVertices, stack)
         == Fragments(split, rank, maxVertices, top) + StackFragments(split, rank, maxVertices, rest)
      && StackWork(split, rank, maxVertices, stack)
         == Work(split, rank, maxVertices, top) + StackWork(split, rank, maxVertices, rest)
  {
  }

  /** One step of the worklist on a popped geometry: a final one is emitted in
      one iteration, any other is replaced by its parts. */
  lemma Step(split: Splitter, rank: Geometry -> nat, maxVertices: int, g: Geometry)
    requires maxVertices >= 0 && Shrinks(split, rank, maxVertices)
    ensures Final(split, maxVertices, g) ==>
      Fragments(split, rank, maxVertices, g) == [g] && Work(split, rank, maxVertices, g) == 1
    ensures !Final(split, maxVertices, g) ==>
      && Fragments(split, rank, maxVertices, g) == StackFragments(split, rank, maxVertices, Bisect(split, g))
      && Work(split, rank, maxVertices, g) == 1 + StackWork(split, rank, maxVertices, Bisect(split, g))
  {
  }

  /** Pushing a block of geometries onto a stack: the block is emitted first,
      then the stack beneath it. */
  lemma {:induction false} StackFragmentsAppend(split: Splitter, rank: Geometry -> nat, maxVertices: int, below: seq<Geometry>, pushed: seq<Geometry>)
    requires maxVertices >= 0 && Shrinks(split, rank, maxVertices)
    ensures StackFragments(split, rank, maxVertices, below + pushed)
         == StackFragments(split, rank, maxVertices, pushed) + StackFragments(split, rank, maxVertices, below)
    decreases |pushed|
  {
    if pushed == [] {
      assert below + pushed == below;
    } else {
      var s := below + pushed;
      var top, rest := pushed[|pushed| - 1], pushed[..|pushed| - 1];
      var f := Fragments(split, rank, maxVertices, top);
      var a := StackFragments(split, rank, maxVertices, rest);
      var b := StackFragments(split, rank, maxVertices, below);
      assert StackFragments(split, rank, maxVertices, s) == f + (a + b) by {
        assert s[|s| - 1] == top && s[..|s| - 1] == below + rest;
        Pop(split, rank, maxVertices, s);
        StackFragmentsAppend(split, rank, maxVertices, below, rest);
      }
      assert StackFragments(split, rank, maxVertices, pushed) == f + a by {
        Pop(split, rank, maxVertices, pushed);
      }
      AppendAssociative(f, a, b);
    }
  }

  /** The work of a stack is the sum of the work of its blocks. */
  lemma {:induction false} StackWorkAppend(split: Splitter, rank: Geometry -> nat, maxVertices: int, below: seq<Geometry>, pushed: seq<Geometry>)
    requires maxVertices >= 0 && Shrinks(split, rank, maxVertices)
    ensures StackWork(split, rank, maxVertices, below + pushed)
         == StackWork(split, rank, maxVertices, pushed) + StackWork(split, rank, maxVertices, below)
    decreases |pushed|
  {
    if pushed == [] {
      assert below + pushed == below;
    } else {
      var s := below + pushed;
      var top, rest := pushed[|pushed| - 1], pushed[..|pushed| - 1];
      assert s[|s| - 1] == top && s[..|s| - 1] == below + rest;
      StackWorkAppend(split, rank, maxVertices, below, rest);
      Pop(split, rank, maxVertices, s);
      Pop(split, rank, maxVertices, pushed);
    }
  }

  /** `recursive_split`: pop from the end of the worklist; keep a geometry
      within the bound; otherwise bisect it, keep the geometry itself when the
      bisection gave one part and push all the parts otherwise. The result is
      the recursive reading `Fragments`, so every element is final, and an
      input within the bound comes back alone and unchanged. */
  method RecursiveSplit(split: Splitter, ghost rank: Geometry -> nat, geometry: Geometry, maxVertices: int)
    returns (results: seq<Geometry>)
    requires maxVertices >= 0 && Shrinks(split, rank, maxVertices)
    ensures results == Fragments(split, rank, maxVertices, geometry)
    ensures Count(geometry) <= maxVertices ==> results == [geometry]
    ensures forall f :: f in results ==> Final(split, maxVertices, f)
  {
    var queue := [geometry];
    results := [];
    assert StackFragments(split, rank, maxVertices, queue) == Fragments(split, rank, maxVertices, geometry) + [];
    while queue != []
      invariant results + StackFragments(split, rank, maxVertices, queue) == Fragments(split, rank, maxVertices, geometry)
      decreases StackWork(split, rank, maxVertices, queue)
    {
      Pop(split, rank, maxVertices, queue);
      var geom := queue[|queue| - 1];
      queue := queue[..|queue| - 1];
      Step(split, rank, maxVertices, geom);
      ghost var later := StackFragments(split, rank, maxVertices, queue);
      ghost var done := results;
      if Count(geom) <= maxVertices {
        results := results + [geom];
        AppendAssociative(done, [geom], later);
      } else {
        var parts := Bisect(split, geom);
        if |parts| == 1 {
          results := results + [geom];
          AppendAssociative(done, [geom], later);
        } else {
          StackFragmentsAppend(split, rank, maxVertices, queue, parts);
          StackWorkAppend(split, rank, maxVertices, queue, parts);
          queue := queue + parts;
        }
      }
    }
    FragmentsAreFinal(split, rank, maxVertices, geometry);
  }

  /** Bound satisfaction: every fragment is within the bound or is a geometry
      whose bisection gave exactly one part. */
  lemma {:induction false} FragmentsAreFinal(split: Splitter, rank: Geometry -> nat, maxVertices: int, g: Geometry)
    requires maxVertices >= 0 && Shrinks(split, rank, maxVertices)
    ensures forall f :: f in Fragments(split, rank, maxVertices, g) ==> Final(split, maxVertices, f)
    decreases rank(g) + 1, 0
  {
    if !Final(split, maxVertices, g) {
      var parts := Bisect(split, g);
      PartsRankBelow(split, rank, maxVertices, g);
      StackFragmentsAreFinal(split, rank, maxVertices, parts);
    }
  }

  lemma {:induction false} StackFragmentsAreFinal(split: Splitter, rank: Geometry -> nat, maxVertices: int, stack: seq<Geometry>)
    requires maxVertices >= 0 && Shrinks(split, rank, maxVertices)
    ensures forall f :: f in StackFragments(split, rank, maxVertices, stack) ==> Final(split, maxVertices, f)
    decreases Height(rank, stack), 1, |stack|
  {
    if stack != [] {
      FragmentsAreFinal(split, rank, maxVertices, stack[|stack| - 1]);
      StackFragmentsAreFinal(split, rank, maxVertices, stack[..|stack| - 1]);
    }
  }

  /** No fragment outranks the geometry it came from. */
  lemma {:induction false} FragmentsRank(split: Splitter, rank: Geometry -> nat, maxVertices: int, g: Geometry)
    requires maxVertices >= 0 && Shrinks(split, rank, maxVertices)
    ensures forall f :: f in Fragments(split, rank, maxVertices, g) ==> rank(f) <= rank(g)
    ensures !Final(split, maxVertices, g) ==> forall f :: f in Fragments(split, rank, maxVertices, g) ==> rank(f) < rank(g)
    decreases rank(g) + 1, 0
  {
    if !Final(split, maxVertices, g) {
      var parts := Bisect(split, g);
      PartsRankBelow(split, rank, maxVertices, g);
      StackFragmentsRank(split, rank, maxVertices, parts);
    }
  }

  lemma {:induction false} StackFragmentsRank(split: Splitter, rank: Geometry -> nat, maxVertices: int, stack: seq<Geometry>)
    requires maxVertices >= 0 && Shrinks(split, rank, maxVertices)
    ensures forall f :: f in StackFragments(split, rank, maxVertices, stack) ==> rank(f) < Height(rank, stack)
    decreases Height(rank, stack), 1, |stack|
  {
    if stack != [] {
      FragmentsRank(split, rank, maxVertices, stack[|stack| - 1]);
      StackFragmentsRank(split, rank, maxVertices, stack[..|stack| - 1]);
    }
  }

  /** Idempotence: the output is exactly the input, unchanged, if and only if
      the input is final (within the bound, or not bisectable into other than
      one part). For a final oversized input it is the input itself that is
      kept, not the single part its bisection returned. */
  lemma KeptIffFinal(split: Splitter, rank: Geometry -> nat, maxVertices: int, g: Geometry)
    requires maxVertices >= 0 && Shrinks(split, rank, maxVertices)
    ensures Fragments(split, rank, maxVertices, g) == [g] <==> Final(split, maxVertices, g)
  {
    FragmentsRank(split, rank, maxVertices, g);
    if Fragments(split, rank, maxVertices, g) == [g] {
      assert g in Fragments(split, rank, maxVertices, g);
    }
  }

  /** Nothing is dropped as long as the primitive never answers an oversized
      geometry with an empty collection: the output is then never empty. */
  lemma {:induction false} NothingDropped(split: Splitter, rank: Geometry -> nat, maxVertices: int, g: Geometry)
    requires maxVertices >= 0 && Shrinks(split, rank, maxVertices)
    requires forall h | !IsEmpty(h) && Count(h) > maxVertices :: Bisect(split, h) != []
    ensures Fragments(split, rank, maxVertices, g) != []
    decreases rank(g)
  {
    if !Final(split, maxVertices, g) {
      var parts := Bisect(split, g);
      var top := parts[|parts| - 1];
      assert top in parts;
      NothingDropped(split, rank, maxVertices, top);
      HeightBelow(rank, parts, rank(g));
    }
  }

  /** An oversized geometry the primitive answers with an empty collection
      leaves no fragment at all: the length test `len(parts) == 1` fails and
      nothing is pushed. */
  lemma EmptyCollectionDropsGeometry(split: Splitter, rank: Geometry -> nat, maxVertices: int, g: Geometry)
    requires maxVertices >= 0 && Shrinks(split, rank, maxVertices)
    requires Count(g) > maxVertices && split(g, CutFor(g)) == Pieces([])
    ensures Fragments(split, rank, maxVertices, g) == []
  {
  }
}
