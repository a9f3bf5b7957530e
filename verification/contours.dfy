/**
  `find_contours`: flood-fill the black pixels of a `w` x `h` bitmap into
  4-connected groups and keep, for each group, the pixels that touch a
  non-black or out-of-bounds 4-neighbour. Groups with fewer than two such
  pixels are discarded.

  The scan visits pixels row by row; an unvisited black pixel starts a
  depth-first search with an explicit stack. The `visited` grid of booleans
  is modelled as the set of visited points.
 */
module Contours {
  import opened Compass

  /** A thresholded image: `pixels[y][x]` is true when pixel (x, y) is black. */
  datatype Bitmap = Bitmap(pixels: seq<seq<bool>>, w: nat, h: nat) {

    /** The rows really have the stated dimensions. */
    predicate Valid() {
      |pixels| == h && forall y :: 0 <= y < h ==> |pixels[y]| == w
    }

    /** `is_black`: inside the image and black. */
    predicate IsBlack(p: Point) {
      0 <= p.x < w && 0 <= p.y < h && p.y < |pixels| && p.x < |pixels[p.y]| && pixels[p.y][p.x]
    }

    /** The pixel has a 4-neighbour (one of the `DIRS` offsets) that is
        white or outside the image. */
    predicate OnEdge(p: Point) {
      !IsBlack(Neighbour(p, 0)) || !IsBlack(Neighbour(p, 1))
      || !IsBlack(Neighbour(p, 2)) || !IsBlack(Neighbour(p, 3))
    }

    /** All black pixels. */
    function BlackSet(): (r: set<Point>)
      ensures forall p :: p in r <==> IsBlack(p)
    {
      set x: int, y: int | 0 <= x < w && 0 <= y < h && IsBlack(Point(x, y)) :: Point(x, y)
    }

    /** Every black 4-neighbour of a pixel of `s` is in `s`: nothing a flood
        fill could still reach from `s` lies outside it. */
    predicate Closed(s: set<Point>) {
      forall p, i :: p in s && 0 <= i < 4 && IsBlack(Neighbour(p, i)) ==> Neighbour(p, i) in s
    }

    /** A 4-connected component of the black pixels: a connected set of
        black pixels closed under black 4-neighbours. */
    ghost predicate Patch(s: set<Point>) {
      Connected(s) && AllBlack(s) && Closed(s)
    }

    predicate AllBlack(s: set<Point>) {
      forall p :: p in s ==> IsBlack(p)
    }

    predicate StackBlack(s: seq<Point>) {
      forall k :: 0 <= k < |s| ==> IsBlack(s[k])
    }

    /** The black neighbours of `p` not yet visited, in `DIRS` order from
        direction `i` on. */
    function FrontierFrom(p: Point, visited: set<Point>, i: nat): (r: seq<Point>)
      requires i <= 4
      ensures forall q :: q in r ==> IsBlack(q) && q !in visited
      ensures forall j :: i <= j < 4 && IsBlack(Neighbour(p, j)) && Neighbour(p, j) !in visited
                ==> Neighbour(p, j) in r
      decreases 4 - i
    {
      if i == 4 then []
      else
        var n := Neighbour(p, i);
        (if IsBlack(n) && n !in visited then [n] else []) + FrontierFrom(p, visited, i + 1)
    }
  }

  /** Every pixel pushed for `p` is one of its 4-neighbours. */
  lemma FrontierSteps(img: Bitmap, p: Point, visited: set<Point>, i: nat)
    requires i <= 4
    ensures forall q :: q in img.FrontierFrom(p, visited, i) ==> IsUnitStep(Sub(q, p))
    decreases 4 - i
  {
    if i < 4 {
      FrontierSteps(img, p, visited, i + 1);
      NeighbourBack(p, i);
    }
  }

  /** `order` lists pixels from a seed `order[0]` so that every later pixel
      is a 4-neighbour of an earlier one, `order[link[k]]`. */
  predicate Spans(order: seq<Point>, link: seq<int>) {
    && |order| > 0 && |link| == |order|
    && forall k :: 0 < k < |order| ==> 0 <= link[k] < k && IsUnitStep(Sub(order[k], order[link[k]]))
  }

  /** A non-empty set whose pixels can be listed as a spanning sequence:
      every pixel is joined to the seed by a chain of 4-steps inside it. */
  ghost predicate Connected(s: set<Point>) {
    exists order, link :: Spans(order, link) && forall q :: q in s <==> q in order
  }

  /** The direction in which `b` sees its 4-neighbour `a`. */
  lemma StepIndex(a: Point, b: Point) returns (i: int)
    requires IsUnitStep(Sub(a, b))
    ensures 0 <= i < 4 && Neighbour(b, i) == a
  {
    i := Dirs(Sub(a, b)).value / 90;
  }

  /** Along a spanning sequence of black pixels, a set closed under black
      4-neighbours holds the seed as soon as it holds any listed pixel ... */
  lemma {:induction false} SeedInside(img: Bitmap, order: seq<Point>, link: seq<int>,
                                      t: set<Point>, k: int)
    requires Spans(order, link) && 0 <= k < |order|
    requires forall j :: 0 <= j < |order| ==> img.IsBlack(order[j])
    requires img.Closed(t) && order[k] in t
    ensures order[0] in t
    decreases k
  {
    if k > 0 {
      var j := link[k];
      var i := StepIndex(order[j], order[k]);
      assert order[j] in t;
      SeedInside(img, order, link, t, j);
    }
  }

  /** ... and then holds every listed pixel. */
  lemma {:induction false} SpanInside(img: Bitmap, order: seq<Point>, link: seq<int>,
                                      t: set<Point>, k: int)
    requires Spans(order, link) && 0 <= k < |order|
    requires forall j :: 0 <= j < |order| ==> img.IsBlack(order[j])
    requires img.Closed(t) && order[0] in t
    ensures order[k] in t
    decreases k
  {
    if k > 0 {
      var j := link[k];
      SpanInside(img, order, link, t, j);
      var i := StepIndex(order[k], order[j]);
      assert img.IsBlack(order[k]);
    }
  }

  /** A connected set of black pixels that meets a closed set lies inside it. */
  lemma ConnectedInside(img: Bitmap, s: set<Point>, t: set<Point>)
    requires Connected(s) && (forall p :: p in s ==> img.IsBlack(p))
    requires img.Closed(t) && !(s !! t)
    ensures s <= t
  {
    var order, link :| Spans(order, link) && forall q :: q in s <==> q in order;
    var p :| p in s && p in t;
    var k :| 0 <= k < |order| && order[k] == p;
    SeedInside(img, order, link, t, k);
    forall q | q in s ensures q in t {
      var m :| 0 <= m < |order| && order[m] == q;
      SpanInside(img, order, link, t, m);
    }
  }

  /** Two patches are the same patch or share no pixel: a patch is a whole
      4-connected component of the black pixels. */
  lemma PatchesEqualOrApart(img: Bitmap, s: set<Point>, t: set<Point>)
    requires img.Patch(s) && img.Patch(t)
    ensures s == t || s !! t
  {
    if !(s !! t) {
      ConnectedInside(img, s, t);
      ConnectedInside(img, t, s);
    }
  }

  predicate Distinct(s: seq<Point>) {
    forall i, j :: 0 <= i < j < |s| ==> s[i] != s[j]
  }

  /** `s` has at most one edge pixel. */
  predicate AtMostOneEdge(img: Bitmap, s: set<Point>) {
    forall p, q :: p in s && q in s && img.OnEdge(p) && img.OnEdge(q) ==> p == q
  }

  function UnionAll(ps: seq<set<Point>>): set<Point> {
    if |ps| == 0 then {} else UnionAll(ps[..|ps| - 1]) + ps[|ps| - 1]
  }

  function Flatten(cs: seq<seq<Point>>): seq<Point> {
    if |cs| == 0 then [] else Flatten(cs[..|cs| - 1]) + cs[|cs| - 1]
  }

  /** `contour` lists the edge pixels of `comp`, each once and nothing else. */
  ghost predicate EdgeList(img: Bitmap, contour: seq<Point>, comp: set<Point>) {
    && Distinct(contour)
    && (forall k :: 0 <= k < |contour| ==> contour[k] in comp && img.OnEdge(contour[k]))
    && (forall q {:trigger img.OnEdge(q)} :: q in comp && img.OnEdge(q) ==> q in contour)
  }

  /** `pushed` holds black pixels only, among them every black 4-neighbour
      of `p` outside `vis`. */
  predicate Pushes(img: Bitmap, p: Point, vis: set<Point>, pushed: seq<Point>) {
    && (forall q :: q in pushed ==> img.IsBlack(q))
    && forall j :: 0 <= j < 4 && img.IsBlack(Neighbour(p, j)) && Neighbour(p, j) !in vis
         ==> Neighbour(p, j) in pushed
  }

  /** Every black 4-neighbour of a pixel of `comp` is visited or waiting on
      the stack. */
  ghost predicate Reached(img: Bitmap, comp: set<Point>, vis: set<Point>, stack: seq<Point>) {
    forall q, i :: q in comp && 0 <= i < 4 && img.IsBlack(Neighbour(q, i))
      ==> Neighbour(q, i) in vis || Neighbour(q, i) in stack
  }

  /** The state of one flood fill from `start` that began with `visited`:
      `vis` is the visited set now, `comp` the pixels this fill has visited,
      `stack` the pixels still to pop and `contour` the edge pixels found. */
  ghost predicate FillState(img: Bitmap, start: Point, visited: set<Point>, vis: set<Point>,
                            comp: set<Point>, stack: seq<Point>, contour: seq<Point>)
  {
    && img.AllBlack(visited)
    && start !in visited
    && vis == visited + comp && visited !! comp
    && img.AllBlack(comp)
    && img.StackBlack(stack)
    && (start in comp || start in stack)
    && Reached(img, comp, vis, stack)
    && EdgeList(img, contour, comp)
  }

  /** Popping a pixel that is already visited changes nothing else. */
  lemma SkipVisited(img: Bitmap, start: Point, visited: set<Point>, vis: set<Point>,
                    comp: set<Point>, popped: seq<Point>, cur: Point, contour: seq<Point>)
    requires FillState(img, start, visited, vis, comp, popped + [cur], contour)
    requires cur in vis
    ensures FillState(img, start, visited, vis, comp, popped, contour)
  {
    var stack := popped + [cur];
    assert stack[|popped|] == cur;
    assert start !in comp ==> start in popped || start == cur;
    assert forall k :: 0 <= k < |popped| ==> popped[k] == stack[k];
    assert forall n :: n in stack ==> n in popped || n == cur;
  }

  /** Visiting a new pixel: mark it, record it if it is on the edge and push
      its black unvisited neighbours. */
  lemma VisitNew(img: Bitmap, start: Point, visited: set<Point>, vis: set<Point>,
                 comp: set<Point>, popped: seq<Point>, cur: Point, contour: seq<Point>,
                 pushed: seq<Point>, contour': seq<Point>)
    requires FillState(img, start, visited, vis, comp, popped + [cur], contour)
    requires cur !in vis
    requires Pushes(img, cur, vis + {cur}, pushed)
    requires contour' == if img.OnEdge(cur) then contour + [cur] else contour
    ensures FillState(img, start, visited, vis + {cur}, comp + {cur}, popped + pushed, contour')
  {
    var stack := popped + [cur];
    assert img.IsBlack(cur) by {
      assert stack[|popped|] == cur;
    }
    VisitStack(img, popped, cur, pushed);
    VisitReached(img, comp, vis, popped, cur, pushed);
    VisitContour(img, comp, cur, contour);
    VisitStart(start, comp, popped, cur, pushed);
    VisitSets(img, visited, vis, comp, cur);
    FillStateIntro(img, start, visited, vis + {cur}, comp + {cur}, popped + pushed, contour');
  }

  lemma VisitSets(img: Bitmap, visited: set<Point>, vis: set<Point>, comp: set<Point>, cur: Point)
    requires vis == visited + comp && visited !! comp && cur !in vis
    requires img.AllBlack(comp) && img.IsBlack(cur)
    ensures vis + {cur} == visited + (comp + {cur}) && visited !! comp + {cur}
    ensures img.AllBlack(comp + {cur})
  {
  }

  lemma FillStateIntro(img: Bitmap, start: Point, visited: set<Point>, vis: set<Point>,
                       comp: set<Point>, stack: seq<Point>, contour: seq<Point>)
    requires img.AllBlack(visited) && start !in visited
    requires vis == visited + comp && visited !! comp
    requires img.AllBlack(comp) && img.StackBlack(stack)
    requires start in comp || start in stack
    requires Reached(img, comp, vis, stack) && EdgeList(img, contour, comp)
    ensures FillState(img, start, visited, vis, comp, stack, contour)
  {
  }

  lemma VisitStart(start: Point, comp: set<Point>, popped: seq<Point>, cur: Point, pushed: seq<Point>)
    requires start in comp || start in popped + [cur]
    ensures start in comp + {cur} || start in popped + pushed
  {
    if start !in comp && start != cur {
      assert start in popped;
    }
  }

  /** Each new visit removes a black pixel from the unvisited ones. */
  lemma VisitShrinks(img: Bitmap, vis: set<Point>, cur: Point)
    requires img.IsBlack(cur) && cur !in vis
    ensures img.BlackSet() - (vis + {cur}) < img.BlackSet() - vis
  {
    assert cur in img.BlackSet() - vis;
  }

  lemma VisitStack(img: Bitmap, popped: seq<Point>, cur: Point, pushed: seq<Point>)
    requires img.StackBlack(popped + [cur])
    requires forall q :: q in pushed ==> img.IsBlack(q)
    ensures img.StackBlack(popped + pushed)
  {
    var stack := popped + [cur];
    forall k | 0 <= k < |popped + pushed|
      ensures img.IsBlack((popped + pushed)[k])
    {
      if k < |popped| {
        assert (popped + pushed)[k] == stack[k];
      } else {
        assert (popped + pushed)[k] in pushed;
      }
    }
  }

  lemma VisitReached(img: Bitmap, comp: set<Point>, vis: set<Point>, popped: seq<Point>,
                     cur: Point, pushed: seq<Point>)
    requires Reached(img, comp, vis, popped + [cur])
    requires Pushes(img, cur, vis + {cur}, pushed)
    ensures Reached(img, comp + {cur}, vis + {cur}, popped + pushed)
  {
    var vis', comp', stack' := vis + {cur}, comp + {cur}, popped + pushed;
    forall q, i | q in comp' && 0 <= i < 4 && img.IsBlack(Neighbour(q, i))
      ensures Neighbour(q, i) in vis' || Neighbour(q, i) in stack'
    {
      var n := Neighbour(q, i);
      if q == cur {
        if n !in vis' {
          assert n in pushed;
          assert n in stack';
        }
      } else {
        assert n in vis || n in popped + [cur];
        if n in popped {
          assert n in stack';
        }
      }
    }
  }

  lemma VisitContour(img: Bitmap, comp: set<Point>, cur: Point, contour: seq<Point>)
    requires EdgeList(img, contour, comp)
    requires cur !in comp
    ensures EdgeList(img, if img.OnEdge(cur) then contour + [cur] else contour, comp + {cur})
  {
    if img.OnEdge(cur) {
      var contour' := contour + [cur];
      assert forall k :: 0 <= k < |contour| ==> contour'[k] == contour[k];
      assert cur !in contour;
    }
  }

  /** When the stack is empty nothing black next to the fill is left out. */
  lemma FillDone(img: Bitmap, start: Point, visited: set<Point>, vis: set<Point>,
                 comp: set<Point>, contour: seq<Point>)
    requires FillState(img, start, visited, vis, comp, [], contour)
    requires img.Closed(visited)
    ensures img.Closed(comp) && start in comp
  {
    forall q, i | q in comp && 0 <= i < 4 && img.IsBlack(Neighbour(q, i))
      ensures Neighbour(q, i) in comp
    {
      var n := Neighbour(q, i);
      if n in visited {
        NeighbourBack(q, i);
        assert false;
      }
    }
  }

  /** The order in which the fill visits its pixels, with, for each pixel
      after the first, the index of the visited pixel that pushed it;
      `from[k]` is that index for the pending `stack[k]`. */
  ghost predicate Grown(start: Point, comp: set<Point>, order: seq<Point>, link: seq<int>,
                        stack: seq<Point>, from: seq<int>)
  {
    && |link| == |order| && |from| == |stack|
    && (forall q :: q in comp <==> q in order)
    && (|order| > 0 ==> order[0] == start)
    && (forall k :: 0 < k < |order| ==> 0 <= link[k] < k && IsUnitStep(Sub(order[k], order[link[k]])))
    && (|order| == 0 ==> |stack| == 1 && stack[0] == start)
    && (|order| > 0 ==> forall k :: 0 <= k < |stack| ==>
          0 <= from[k] < |order| && IsUnitStep(Sub(stack[k], order[from[k]])))
  }

  lemma GrowSkip(start: Point, comp: set<Point>, order: seq<Point>, link: seq<int>,
                 popped: seq<Point>, cur: Point, from: seq<int>)
    requires Grown(start, comp, order, link, popped + [cur], from)
    requires |order| == 0 ==> cur != start
    ensures Grown(start, comp, order, link, popped, from[..|popped|])
  {
    if |order| == 0 {
      assert false;
    }
    assert forall k :: 0 <= k < |popped| ==> popped[k] == (popped + [cur])[k];
  }

  lemma GrowVisit(start: Point, comp: set<Point>, order: seq<Point>, link: seq<int>,
                  popped: seq<Point>, cur: Point, from: seq<int>, pushed: seq<Point>,
                  order': seq<Point>, link': seq<int>, from': seq<int>)
    requires Grown(start, comp, order, link, popped + [cur], from)
    requires cur !in comp
    requires forall q :: q in pushed ==> IsUnitStep(Sub(q, cur))
    requires order' == order + [cur]
    requires link' == link + [if |order| == 0 then 0 else from[|popped|]]
    requires from' == from[..|popped|] + seq(|pushed|, _ => |order|)
    ensures Grown(start, comp + {cur}, order', link', popped + pushed, from')
  {
    var stack := popped + [cur];
    assert stack[|popped|] == cur;
    assert |order| == 0 ==> cur == start && |popped| == 0;
    assert forall k :: 0 <= k < |order| ==> order'[k] == order[k];
    assert forall k :: 0 <= k < |popped| ==> popped[k] == stack[k] && from'[k] == from[k];
    assert forall k :: |popped| <= k < |popped + pushed| ==>
      (popped + pushed)[k] == pushed[k - |popped|] && from'[k] == |order|;
  }

  /** A fill that has visited `start` lists its pixels as a spanning sequence. */
  lemma GrownConnected(start: Point, comp: set<Point>, order: seq<Point>, link: seq<int>,
                       stack: seq<Point>, from: seq<int>)
    requires Grown(start, comp, order, link, stack, from) && start in comp
    ensures Connected(comp)
  {
    assert Spans(order, link);
  }

  /** One flood fill from `start`, as the inner `while stack` loop does it.
      `comp` is the set of pixels this fill visits; `contour` lists its edge
      pixels in visiting order. */
  method ExploreComponent(img: Bitmap, start: Point, visited: set<Point>)
    returns (contour: seq<Point>, visited': set<Point>, ghost comp: set<Point>)
    requires img.Valid()
    requires img.IsBlack(start) && start !in visited
    requires img.AllBlack(visited) && img.Closed(visited)
    ensures visited' == visited + comp && visited !! comp && start in comp
    ensures img.Patch(comp)
    ensures EdgeList(img, contour, comp)
    ensures start in visited' - visited && img.AllBlack(visited') && img.Closed(visited')
    ensures Distinct(contour)
    ensures forall k :: 0 <= k < |contour| ==>
              img.IsBlack(contour[k]) && img.OnEdge(contour[k]) && contour[k] in visited' - visited
  {
    var stack := [start];
    contour := [];
    visited' := visited;
    comp := {};
    ghost var order: seq<Point>, link: seq<int>, from: seq<int> := [], [], [0];
    FillInit(img, start, visited);
    while |stack| > 0
      invariant Filling(img, start, visited, visited', comp, stack, contour, order, link, from)
      decreases img.BlackSet() - visited', |stack|
    {
      var cur := stack[|stack| - 1];
      var popped := stack[..|stack| - 1];
      assert stack == popped + [cur];
      if cur in visited' {
        SkipStep(img, start, visited, visited', comp, popped, cur, contour, order, link, from);
        stack := popped;
        from := from[..|popped|];
      } else {
        var pushed := img.FrontierFrom(cur, visited' + {cur}, 0);
        var contour' := if img.OnEdge(cur) then contour + [cur] else contour;
        ghost var order', link' := order + [cur], link + [if |order| == 0 then 0 else from[|popped|]];
        ghost var from' := from[..|popped|] + seq(|pushed|, _ => |order|);
        VisitStep(img, start, visited, visited', comp, popped, cur, contour, order, link, from,
                  pushed, contour', order', link', from');
        visited' := visited' + {cur};
        comp := comp + {cur};
        contour := contour';
        stack := popped + pushed;
        order, link, from := order', link', from';
      }
    }
    FillFinish(img, start, visited, visited', comp, contour, order, link, from);
    FillVisible(img, start, visited, visited', comp, contour);
  }

  /** What a finished fill shows in its real results: the newly visited
      pixels are black and still closed, and the contour lists distinct
      edge pixels among them. */
  lemma FillVisible(img: Bitmap, start: Point, visited: set<Point>, visited': set<Point>,
                    comp: set<Point>, contour: seq<Point>)
    requires img.AllBlack(visited) && img.Closed(visited)
    requires visited' == visited + comp && visited !! comp && start in comp
    requires img.Patch(comp) && EdgeList(img, contour, comp)
    ensures start in visited' - visited && img.AllBlack(visited') && img.Closed(visited')
    ensures Distinct(contour)
    ensures forall k :: 0 <= k < |contour| ==>
              img.IsBlack(contour[k]) && img.OnEdge(contour[k]) && contour[k] in visited' - visited
  {
    ClosedUnion(img, visited, comp);
  }

  /** The invariant of the fill loop: its state, and the order in which it
      has grown. */
  ghost predicate Filling(img: Bitmap, start: Point, visited: set<Point>, vis: set<Point>,
                          comp: set<Point>, stack: seq<Point>, contour: seq<Point>,
                          order: seq<Point>, link: seq<int>, from: seq<int>)
  {
    FillState(img, start, visited, vis, comp, stack, contour) && Grown(start, comp, order, link, stack, from)
  }

  lemma FillInit(img: Bitmap, start: Point, visited: set<Point>)
    requires img.IsBlack(start) && start !in visited && img.AllBlack(visited)
    ensures Filling(img, start, visited, visited, {}, [start], [], [], [], [0])
  {
  }

  lemma SkipStep(img: Bitmap, start: Point, visited: set<Point>, vis: set<Point>,
                 comp: set<Point>, popped: seq<Point>, cur: Point, contour: seq<Point>,
                 order: seq<Point>, link: seq<int>, from: seq<int>)
    requires Filling(img, start, visited, vis, comp, popped + [cur], contour, order, link, from)
    requires cur in vis
    ensures Filling(img, start, visited, vis, comp, popped, contour, order, link, from[..|popped|])
  {
    SkipVisited(img, start, visited, vis, comp, popped, cur, contour);
    assert |order| == 0 ==> comp == {};
    GrowSkip(start, comp, order, link, popped, cur, from);
  }

  lemma VisitStep(img: Bitmap, start: Point, visited: set<Point>, vis: set<Point>,
                  comp: set<Point>, popped: seq<Point>, cur: Point, contour: seq<Point>,
                  order: seq<Point>, link: seq<int>, from: seq<int>,
                  pushed: seq<Point>, contour': seq<Point>,
                  order': seq<Point>, link': seq<int>, from': seq<int>)
    requires Filling(img, start, visited, vis, comp, popped + [cur], contour, order, link, from)
    requires cur !in vis
    requires pushed == img.FrontierFrom(cur, vis + {cur}, 0)
    requires contour' == if img.OnEdge(cur) then contour + [cur] else contour
    requires order' == order + [cur]
    requires link' == link + [if |order| == 0 then 0 else from[|popped|]]
    requires from' == from[..|popped|] + seq(|pushed|, _ => |order|)
    ensures Filling(img, start, visited, vis + {cur}, comp + {cur}, popped + pushed, contour',
                    order', link', from')
    ensures img.BlackSet() - (vis + {cur}) < img.BlackSet() - vis
  {
    VisitNew(img, start, visited, vis, comp, popped, cur, contour, pushed, contour');
    assert img.IsBlack((popped + [cur])[|popped|]);
    VisitShrinks(img, vis, cur);
    FrontierSteps(img, cur, vis + {cur}, 0);
    GrowVisit(start, comp, order, link, popped, cur, from, pushed, order', link', from');
  }

  lemma FillFinish(img: Bitmap, start: Point, visited: set<Point>, vis: set<Point>,
                   comp: set<Point>, contour: seq<Point>,
                   order: seq<Point>, link: seq<int>, from: seq<int>)
    requires Filling(img, start, visited, vis, comp, [], contour, order, link, from)
    requires img.Closed(visited)
    ensures vis == visited + comp && visited !! comp && start in comp
    ensures img.Patch(comp)
    ensures EdgeList(img, contour, comp)
  {
    FillDone(img, start, visited, vis, comp, contour);
    GrownConnected(start, comp, order, link, [], from);
  }

  /** No two patches of `ps` share a pixel. */
  predicate Pairwise(ps: seq<set<Point>>) {
    forall k, l :: 0 <= k < l < |ps| ==> ps[k] !! ps[l]
  }

  /** No patch of `ps` shares a pixel with a patch of `qs`. */
  predicate Apart(ps: seq<set<Point>>, qs: seq<set<Point>>) {
    forall k, l :: 0 <= k < |ps| && 0 <= l < |qs| ==> ps[k] !! qs[l]
  }

  /** Each kept patch is a patch with at least two edge pixels, and its
      contour lists exactly those pixels, each once. */
  ghost predicate KeptOk(img: Bitmap, contours: seq<seq<Point>>, kept: seq<set<Point>>) {
    && |kept| == |contours|
    && forall k :: 0 <= k < |kept| ==>
         && img.Patch(kept[k])
         && |contours[k]| >= 2
         && EdgeList(img, contours[k], kept[k])
  }

  /** Each dropped patch is a patch with at most one edge pixel. */
  ghost predicate DroppedOk(img: Bitmap, dropped: seq<set<Point>>) {
    forall k :: 0 <= k < |dropped| ==> img.Patch(dropped[k]) && AtMostOneEdge(img, dropped[k])
  }

  /** What the scan has built once the pixels in `visited` are done. */
  ghost predicate Scanned(img: Bitmap, visited: set<Point>, contours: seq<seq<Point>>,
                          kept: seq<set<Point>>, dropped: seq<set<Point>>)
  {
    && (forall q :: q in visited ==> img.IsBlack(q))
    && img.Closed(visited)
    && UnionAll(kept) + UnionAll(dropped) == visited
    && KeptOk(img, contours, kept)
    && DroppedOk(img, dropped)
    && Pairwise(kept)
    && Pairwise(dropped)
    && Apart(kept, dropped)
  }

  lemma PairwiseAppend(ps: seq<set<Point>>, s: set<Point>)
    requires Pairwise(ps) && UnionAll(ps) !! s
    ensures Pairwise(ps + [s])
  {
    var ps' := ps + [s];
    forall k, l | 0 <= k < l < |ps'| ensures ps'[k] !! ps'[l] {
      assert ps'[k] == ps[k];
      if l == |ps| {
        UnionAllContains(ps, k);
      } else {
        assert ps'[l] == ps[l];
      }
    }
  }

  lemma ApartAppendLeft(ps: seq<set<Point>>, qs: seq<set<Point>>, s: set<Point>)
    requires Apart(ps, qs) && UnionAll(qs) !! s
    ensures Apart(ps + [s], qs)
  {
    var ps' := ps + [s];
    forall k, l | 0 <= k < |ps'| && 0 <= l < |qs| ensures ps'[k] !! qs[l] {
      if k == |ps| {
        UnionAllContains(qs, l);
      } else {
        assert ps'[k] == ps[k];
      }
    }
  }

  lemma ApartAppendRight(ps: seq<set<Point>>, qs: seq<set<Point>>, s: set<Point>)
    requires Apart(ps, qs) && UnionAll(ps) !! s
    ensures Apart(ps, qs + [s])
  {
    var qs' := qs + [s];
    forall k, l | 0 <= k < |ps| && 0 <= l < |qs'| ensures ps[k] !! qs'[l] {
      if l == |qs| {
        UnionAllContains(ps, k);
      } else {
        assert qs'[l] == qs[l];
      }
    }
  }

  lemma KeptAppend(img: Bitmap, contours: seq<seq<Point>>, kept: seq<set<Point>>,
                   contour: seq<Point>, comp: set<Point>)
    requires KeptOk(img, contours, kept)
    requires img.Patch(comp) && |contour| >= 2 && EdgeList(img, contour, comp)
    ensures KeptOk(img, contours + [contour], kept + [comp])
  {
    var kept', contours' := kept + [comp], contours + [contour];
    forall k | 0 <= k < |kept'|
      ensures && img.Patch(kept'[k])
              && |contours'[k]| >= 2
              && EdgeList(img, contours'[k], kept'[k])
    {
      if k < |kept| {
        assert kept'[k] == kept[k] && contours'[k] == contours[k];
      }
    }
  }

  lemma DroppedAppend(img: Bitmap, dropped: seq<set<Point>>, comp: set<Point>)
    requires DroppedOk(img, dropped)
    requires img.Patch(comp) && AtMostOneEdge(img, comp)
    ensures DroppedOk(img, dropped + [comp])
  {
    var dropped' := dropped + [comp];
    forall k | 0 <= k < |dropped'|
      ensures img.Patch(dropped'[k]) && AtMostOneEdge(img, dropped'[k])
    {
      if k < |dropped| {
        assert dropped'[k] == dropped[k];
      }
    }
  }

  lemma UnionAllContains(ps: seq<set<Point>>, k: int)
    requires 0 <= k < |ps|
    ensures ps[k] <= UnionAll(ps)
    decreases |ps|
  {
    if k < |ps| - 1 {
      UnionAllContains(ps[..|ps| - 1], k);
    }
  }

  lemma UnionAllAppend(ps: seq<set<Point>>, s: set<Point>)
    ensures UnionAll(ps + [s]) == UnionAll(ps) + s
  {
    assert (ps + [s])[..|ps|] == ps;
  }

  /** The union of two sets closed under black neighbours is closed. */
  lemma ClosedUnion(img: Bitmap, a: set<Point>, b: set<Point>)
    requires img.Closed(a) && img.Closed(b)
    ensures img.Closed(a + b)
  {
  }

  /** Every finished patch lies inside the visited pixels. */
  lemma PartsVisited(visited: set<Point>, kept: seq<set<Point>>, dropped: seq<set<Point>>)
    requires UnionAll(kept) + UnionAll(dropped) == visited
    ensures forall k :: 0 <= k < |kept| ==> kept[k] <= visited
    ensures forall k :: 0 <= k < |dropped| ==> dropped[k] <= visited
  {
    forall k | 0 <= k < |kept| ensures kept[k] <= visited {
      UnionAllContains(kept, k);
    }
    forall k | 0 <= k < |dropped| ensures dropped[k] <= visited {
      UnionAllContains(dropped, k);
    }
  }

  /** A fill with at least two edge pixels is appended to the kept patches
      and its contour to the result. */
  lemma AddKept(img: Bitmap, visited: set<Point>, contours: seq<seq<Point>>,
                kept: seq<set<Point>>, dropped: seq<set<Point>>,
                contour: seq<Point>, comp: set<Point>)
    requires Scanned(img, visited, contours, kept, dropped)
    requires visited !! comp && img.Patch(comp) && EdgeList(img, contour, comp)
    requires |contour| > 1
    ensures Scanned(img, visited + comp, contours + [contour], kept + [comp], dropped)
  {
    ClosedUnion(img, visited, comp);
    UnionAllAppend(kept, comp);
    KeptAppend(img, contours, kept, contour, comp);
    PairwiseAppend(kept, comp);
    ApartAppendLeft(kept, dropped, comp);
  }

  /** A list of at most one element that lists all edge pixels of `comp`
      leaves room for at most one. */
  lemma ShortContour(img: Bitmap, contour: seq<Point>, comp: set<Point>)
    requires |contour| <= 1
    requires EdgeList(img, contour, comp)
    ensures AtMostOneEdge(img, comp)
  {
    forall p, q | p in comp && q in comp && img.OnEdge(p) && img.OnEdge(q)
      ensures p == q
    {
      assert p in contour && q in contour;
      assert contour[0] == p && contour[0] == q;
    }
  }

  /** A fill with at most one edge pixel is only recorded as dropped. */
  lemma AddDropped(img: Bitmap, visited: set<Point>, contours: seq<seq<Point>>,
                   kept: seq<set<Point>>, dropped: seq<set<Point>>,
                   contour: seq<Point>, comp: set<Point>)
    requires Scanned(img, visited, contours, kept, dropped)
    requires visited !! comp && img.Patch(comp) && EdgeList(img, contour, comp)
    requires |contour| <= 1
    ensures Scanned(img, visited + comp, contours, kept, dropped + [comp])
  {
    ShortContour(img, contour, comp);
    ClosedUnion(img, visited, comp);
    UnionAllAppend(dropped, comp);
    DroppedAppend(img, dropped, comp);
    PairwiseAppend(dropped, comp);
    ApartAppendRight(kept, dropped, comp);
  }

  lemma FlattenIn(cs: seq<seq<Point>>, p: Point)
    requires p in Flatten(cs)
    ensures exists k :: 0 <= k < |cs| && p in cs[k]
    decreases |cs|
  {
    var init := cs[..|cs| - 1];
    if p !in cs[|cs| - 1] {
      FlattenIn(init, p);
      var k :| 0 <= k < |init| && p in init[k];
      assert cs[k] == init[k];
    }
  }

  lemma FlattenDistinct(contours: seq<seq<Point>>, kept: seq<set<Point>>)
    requires |kept| == |contours|
    requires forall k :: 0 <= k < |kept| ==>
               Distinct(contours[k]) && forall q :: q in contours[k] ==> q in kept[k]
    requires forall k, l :: 0 <= k < l < |kept| ==> kept[k] !! kept[l]
    ensures Distinct(Flatten(contours))
    decreases |contours|
  {
    if |contours| > 0 {
      var n := |contours| - 1;
      var init, kinit := contours[..n], kept[..n];
      FlattenDistinct(init, kinit);
      var a, b := Flatten(init), contours[n];
      assert Flatten(contours) == a + b;
      forall i, j | 0 <= i < j < |a + b|
        ensures (a + b)[i] != (a + b)[j]
      {
        if i < |a| && j >= |a| {
          var p := a[i];
          FlattenIn(init, p);
          var k :| 0 <= k < |init| && p in init[k];
          assert p in kept[k];
          assert (a + b)[j] == b[j - |a|];
          assert b[j - |a|] in kept[n];
        } else if i >= |a| {
          assert (a + b)[i] == b[i - |a|] && (a + b)[j] == b[j - |a|];
        }
      }
    }
  }

  /** `find_contours`. Besides the contours it returns, as ghost witnesses,
      the flood-filled patches: `kept[k]` is the patch whose edge pixels are
      `contours[k]`, and `dropped` are the patches discarded for having fewer
      than two edge pixels. */
  method FindContours(img: Bitmap)
    returns (contours: seq<seq<Point>>, ghost kept: seq<set<Point>>, ghost dropped: seq<set<Point>>)
    requires img.Valid()
    ensures forall k, j :: 0 <= k < |contours| && 0 <= j < |contours[k]| ==>
              img.IsBlack(contours[k][j]) && img.OnEdge(contours[k][j])
    ensures forall k :: 0 <= k < |contours| ==> |contours[k]| >= 2
    ensures Distinct(Flatten(contours))
    ensures |kept| == |contours|
    ensures forall k :: 0 <= k < |kept| ==>
              img.Patch(kept[k]) && EdgeList(img, contours[k], kept[k])
    ensures forall k :: 0 <= k < |dropped| ==> img.Patch(dropped[k]) && AtMostOneEdge(img, dropped[k])
    ensures UnionAll(kept) + UnionAll(dropped) == img.BlackSet()
    ensures forall k, l :: 0 <= k < l < |kept| ==> kept[k] !! kept[l]
    ensures forall k, l :: 0 <= k < l < |dropped| ==> dropped[k] !! dropped[l]
    ensures forall k, l :: 0 <= k < |kept| && 0 <= l < |dropped| ==> kept[k] !! dropped[l]
  {
    var visited: set<Point> := {};
    contours, kept, dropped := [], [], [];
    var y := 0;
    while y < img.h
      invariant 0 <= y <= img.h
      invariant Scanned(img, visited, contours, kept, dropped)
      invariant Covered(img, visited, 0, y)
    {
      var x := 0;
      while x < img.w
        invariant 0 <= x <= img.w
        invariant Scanned(img, visited, contours, kept, dropped)
        invariant Covered(img, visited, x, y)
      {
        var p := Point(x, y);
        if img.IsBlack(p) && p !in visited {
          var contour, visited', comp := ExploreComponent(img, p, visited);
          if |contour| > 1 {
            AddKept(img, visited, contours, kept, dropped, contour, comp);
            contours, kept := contours + [contour], kept + [comp];
          } else {
            AddDropped(img, visited, contours, kept, dropped, contour, comp);
            dropped := dropped + [comp];
          }
          CoverStep(img, visited, visited', x, y);
          visited := visited';
        } else {
          CoverStep(img, visited, visited, x, y);
        }
        x := x + 1;
      }
      CoverRow(img, visited, y);
      y := y + 1;
    }
    CoverAll(img, visited);
    ScanResult(img, contours, kept, dropped);
  }

  /** Every black pixel before (x, y) in row-major order is visited. */
  ghost predicate Covered(img: Bitmap, visited: set<Point>, x: int, y: int) {
    forall q :: img.IsBlack(q) && (q.y < y || (q.y == y && q.x < x)) ==> q in visited
  }

  lemma CoverStep(img: Bitmap, visited: set<Point>, visited': set<Point>, x: int, y: int)
    requires Covered(img, visited, x, y) && visited <= visited'
    requires img.IsBlack(Point(x, y)) ==> Point(x, y) in visited'
    ensures Covered(img, visited', x + 1, y)
  {
  }

  lemma CoverRow(img: Bitmap, visited: set<Point>, y: int)
    requires Covered(img, visited, img.w, y)
    ensures Covered(img, visited, 0, y + 1)
  {
  }

  lemma CoverAll(img: Bitmap, visited: set<Point>)
    requires Covered(img, visited, 0, img.h)
    requires forall q :: q in visited ==> img.IsBlack(q)
    ensures visited == img.BlackSet()
  {
  }

  /** The scan's invariant over all black pixels gives the promises of
      `FindContours`. */
  lemma ScanResult(img: Bitmap, contours: seq<seq<Point>>, kept: seq<set<Point>>, dropped: seq<set<Point>>)
    requires Scanned(img, img.BlackSet(), contours, kept, dropped)
    ensures forall k, j :: 0 <= k < |contours| && 0 <= j < |contours[k]| ==>
              img.IsBlack(contours[k][j]) && img.OnEdge(contours[k][j])
    ensures forall k :: 0 <= k < |contours| ==> |contours[k]| >= 2
    ensures Distinct(Flatten(contours))
    ensures |kept| == |contours|
    ensures forall k :: 0 <= k < |kept| ==>
              img.Patch(kept[k]) && EdgeList(img, contours[k], kept[k])
    ensures forall k :: 0 <= k < |dropped| ==> img.Patch(dropped[k]) && AtMostOneEdge(img, dropped[k])
    ensures UnionAll(kept) + UnionAll(dropped) == img.BlackSet()
    ensures forall k, l :: 0 <= k < l < |kept| ==> kept[k] !! kept[l]
    ensures forall k, l :: 0 <= k < l < |dropped| ==> dropped[k] !! dropped[l]
    ensures forall k, l :: 0 <= k < |kept| && 0 <= l < |dropped| ==> kept[k] !! dropped[l]
  {
    FlattenDistinct(contours, kept);
    forall k, j | 0 <= k < |contours| && 0 <= j < |contours[k]|
      ensures img.IsBlack(contours[k][j]) && img.OnEdge(contours[k][j])
    {
      assert contours[k][j] in contours[k];
    }
  }
}
