/**
 Reachability as the least set that holds the roots and is closed under a
 successor function, and what that set says about paths.
 */
module Reachability {

  ghost predicate Closed<T(!new)>(succ: T -> set<T>, s: set<T>) {
    forall x :: x in s ==> succ(x) <= s
  }

  /** `s` is exactly what the roots reach. */
  ghost predicate Reaches<T(!new)>(roots: set<T>, succ: T -> set<T>, s: set<T>) {
    && roots <= s
    && Closed(succ, s)
    && forall c :: roots <= c && Closed(succ, c) ==> s <= c
  }

  ghost predicate IsPath<T(!new)>(roots: set<T>, succ: T -> set<T>, p: seq<T>) {
    && p != []
    && p[0] in roots
    && forall i :: 0 <= i < |p| - 1 ==> p[i + 1] in succ(p[i])
  }

  ghost predicate OnPath<T(!new)>(roots: set<T>, succ: T -> set<T>, x: T) {
    exists p :: IsPath(roots, succ, p) && p[|p| - 1] == x
  }

  lemma {:induction false} PathStaysInside<T(!new)>(roots: set<T>, succ: T -> set<T>, s: set<T>, p: seq<T>, i: nat)
    requires roots <= s && Closed(succ, s)
    requires IsPath(roots, succ, p) && i < |p|
    ensures p[i] in s
  {
    if i > 0 {
      PathStaysInside(roots, succ, s, p, i - 1);
      assert p[i - 1 + 1] in succ(p[i - 1]);
    }
  }

  /** The least closed set holds exactly the nodes at the end of a path from a root. */
  lemma ReachedIffOnPath<T(!new)>(roots: set<T>, succ: T -> set<T>, s: set<T>)
    requires Reaches(roots, succ, s)
    ensures forall x :: x in s <==> OnPath(roots, succ, x)
  {
    forall x | OnPath(roots, succ, x) ensures x in s {
      var p :| IsPath(roots, succ, p) && p[|p| - 1] == x;
      PathStaysInside(roots, succ, s, p, |p| - 1);
    }
    var c := set x | x in s && OnPath(roots, succ, x);
    forall x | x in roots ensures x in c {
      assert IsPath(roots, succ, [x]);
      assert [x][|[x]| - 1] == x;
    }
    forall x, y | x in c && y in succ(x) ensures y in c {
      var p :| IsPath(roots, succ, p) && p[|p| - 1] == x;
      assert IsPath(roots, succ, p + [y]);
      assert (p + [y])[|p + [y]| - 1] == y;
    }
    assert Closed(succ, c);
  }

  /**
   What a worklist knows between two iterations: `seen` has been expanded,
   `pending` has not, and neither holds anything the roots do not reach.
   */
  ghost predicate Frontier<T(!new)>(roots: set<T>, succ: T -> set<T>, seen: set<T>, pending: set<T>) {
    && roots <= seen + pending
    && (forall x :: x in seen ==> succ(x) <= seen + pending)
    && forall c :: roots <= c && Closed(succ, c) ==> seen + pending <= c
  }

  function Elements<T>(q: seq<T>): set<T> {
    set x | x in q
  }

  function Last<T>(q: seq<T>): T
    requires q != []
  {
    q[|q| - 1]
  }

  function AllButLast<T>(q: seq<T>): seq<T>
    requires q != []
  {
    q[..|q| - 1]
  }

  /** Taking `x` off the queue keeps the frontier, whether `x` is expanded now or was before. */
  lemma Advance<T(!new)>(roots: set<T>, succ: T -> set<T>, seen: set<T>, pending: set<T>, x: T, rest: seq<T>,
                  pushed: seq<T>)
    requires Frontier(roots, succ, seen, pending)
    requires pending == Elements(rest) + {x}
    requires Elements(pushed) == succ(x) || (x in seen && pushed == [])
    ensures Frontier(roots, succ, seen + {x}, Elements(rest + pushed))
  {
    assert Elements(rest + pushed) == Elements(rest) + Elements(pushed);
    forall c | roots <= c && Closed(succ, c) ensures seen + {x} + Elements(rest + pushed) <= c {
      assert succ(x) <= c;
    }
  }

  /** A stack: the last element is taken. */
  lemma AdvanceStack<T(!new)>(roots: set<T>, succ: T -> set<T>, seen: set<T>, stack: seq<T>, pushed: seq<T>)
    requires Frontier(roots, succ, seen, Elements(stack)) && stack != []
    requires Elements(pushed) == succ(Last(stack)) || (Last(stack) in seen && pushed == [])
    ensures Frontier(roots, succ, seen + {Last(stack)}, Elements(AllButLast(stack) + pushed))
    ensures Last(stack) in seen ==> seen + {Last(stack)} == seen
    ensures Last(stack) !in seen ==> |seen + {Last(stack)}| == |seen| + 1
  {
    assert Elements(stack) == Elements(AllButLast(stack)) + {Last(stack)};
    Advance(roots, succ, seen, Elements(stack), Last(stack), AllButLast(stack), pushed);
  }

  /** A queue: the first element is taken. */
  lemma AdvanceQueue<T(!new)>(roots: set<T>, succ: T -> set<T>, seen: set<T>, queue: seq<T>, pushed: seq<T>)
    requires Frontier(roots, succ, seen, Elements(queue)) && queue != []
    requires Elements(pushed) == succ(queue[0]) || (queue[0] in seen && pushed == [])
    ensures Frontier(roots, succ, seen + {queue[0]}, Elements(queue[1..] + pushed))
    ensures queue[0] in seen ==> seen + {queue[0]} == seen
    ensures queue[0] !in seen ==> |seen + {queue[0]}| == |seen| + 1
  {
    assert Elements(queue) == Elements(queue[1..]) + {queue[0]};
    Advance(roots, succ, seen, Elements(queue), queue[0], queue[1..], pushed);
  }

  lemma EmptyFrontier<T(!new)>(roots: set<T>, succ: T -> set<T>, seen: set<T>)
    requires Frontier(roots, succ, seen, {})
    ensures Reaches(roots, succ, seen)
  {
    assert seen + {} == seen;
  }

  lemma {:induction false} SubsetSize<T>(a: set<T>, b: set<T>)
    requires a <= b
    ensures |a| <= |b|
  {
    if a != {} {
      var x :| x in a;
      SubsetSize(a - {x}, b - {x});
    }
  }
}
