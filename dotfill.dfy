/** `floodFillDotPattern`: a depth-first fill with an explicit stack and a
    visited set over 4-connected neighbours, which recolours only the pixels of
    even `x + y` and so leaves a checkerboard dither. */
module DotFill {
  import opened Raster
  import PixelWrites

  /** `d` is one step from `c` along a row or a column. */
  predicate Adjacent(c: Coord, d: Coord)
  {
    (d.y == c.y && (d.x == c.x + 1 || d.x == c.x - 1)) || (d.x == c.x && (d.y == c.y + 1 || d.y == c.y - 1))
  }

  /** The neighbours of `c` in the order the fill pushes them: right, left, down, up;
      each is one row or column step away. */
  function Neighbours(c: Coord): (r: seq<Coord>)
    ensures |r| == 4
    ensures Adjacent(c, r[0]) && Adjacent(c, r[1]) && Adjacent(c, r[2]) && Adjacent(c, r[3])
  {
    [Coord(c.x + 1, c.y), Coord(c.x - 1, c.y), Coord(c.x, c.y + 1), Coord(c.x, c.y - 1)]
  }

  /** The neighbours are exactly the pixels one row or column step away, none of them twice. */
  lemma NeighboursAreAdjacent(c: Coord)
    ensures forall d :: d in Neighbours(c) <==> Adjacent(c, d)
    ensures forall i, j :: 0 <= i < j < 4 ==> Neighbours(c)[i] != Neighbours(c)[j]
  {
  }

  /** The dither test on absolute canvas coordinates. */
  predicate Even(c: Coord)
  {
    (c.x + c.y) % 2 == 0
  }

  /** `c` is on the canvas and its colour in `s` is `target`. */
  predicate Matches(s: seq<Byte>, width: nat, height: nat, target: Rgba, c: Coord)
  {
    |s| == FrameSize(width, height) && InBounds(width, height, c) && ColorAt(s, width, height, c) == target
  }

  /** A 4-connected walk over pixels of colour `target`. */
  ghost predicate IsPath(s: seq<Byte>, width: nat, height: nat, target: Rgba, path: seq<Coord>)
  {
    |path| > 0 &&
    (forall i :: 0 <= i < |path| ==> Matches(s, width, height, target, path[i])) &&
    (forall i :: 0 <= i < |path| - 1 ==> path[i + 1] in Neighbours(path[i]))
  }

  /** `c` lies in the 4-connected component of `seed` among the pixels whose colour
      in `s` is the seed's colour. Empty when the seed is off the canvas. */
  ghost predicate InRegion(s: seq<Byte>, width: nat, height: nat, seed: Coord, c: Coord)
  {
    |s| == FrameSize(width, height) && InBounds(width, height, seed) &&
    exists path :: IsPath(s, width, height, ColorAt(s, width, height, seed), path) &&
                   path[0] == seed && path[|path| - 1] == c
  }

  /** What the fill promises: each byte of an even pixel of the seed's region (taken in
      the ORIGINAL buffer `s`) takes the fill channel, every other byte is kept. */
  ghost function DotFilled(s: seq<Byte>, width: nat, height: nat, seed: Coord, fill: Rgba): (r: seq<Byte>)
    requires width > 0 && |s| == FrameSize(width, height)
    ensures |r| == |s|
    ensures !InBounds(width, height, seed) ==> r == s
  {
    seq(|s|, i requires 0 <= i < |s| =>
      var c := CoordOfByte(width, i);
      if InRegion(s, width, height, seed, c) && Even(c) then fill[i % 4] else s[i])
  }

  // ---------------------------------------------------------------------
  // The algorithm

  /** `matchColor(pos)`: do the four bytes at `pos` equal `target`? */
  method MatchColor(data: array<Byte>, pos: nat, target: Rgba) returns (m: bool)
    requires pos + 4 <= data.Length
    ensures m <==> data[pos..pos + 4] == target
  {
    for i := 0 to 4
      invariant data[pos..pos + i] == target[..i]
    {
      if data[pos + i] != target[i] {
        assert data[pos..pos + 4][i] != target[i];
        return false;
      }
      assert data[pos..pos + i + 1] == data[pos..pos + i] + [data[pos + i]];
    }
    return true;
  }

  /** `floodFillDotPattern(x, y, fillRGBA)` on the canvas bytes. `pushes` counts the
      coordinates ever pushed on the stack. */
  method FloodFillDotPattern(data: array<Byte>, width: nat, height: nat, x: int, y: int, fill: Rgba)
    returns (ghost pushes: nat)
    requires width > 0 && height > 0 && data.Length == FrameSize(width, height)
    modifies data
    ensures data[..] == DotFilled(old(data[..]), width, height, Coord(x, y), fill)
    ensures pushes <= 4 * (width * height) + 1
  {
    ghost var s := data[..];
    var seed := Coord(x, y);
    var target: Rgba := Transparent;
    if InBounds(width, height, seed) {
      PixelStartInRange(width, height, seed);
      var idx := (y * width + x) * 4;
      var t := data[idx..idx + 4];
      assert |t| == 4;
      target := t;
      if target == fill {
        SeedOfFillColorIsNoOp(s, width, height, seed, fill);
        return 0;
      }
    }

    var stack := [seed];
    var visited: set<Coord> := {};
    ghost var painted: set<Coord> := {};
    pushes := 1;
    FillStart(s, width, height, seed, target, fill);
    while |stack| > 0
      invariant FillInv(data[..], s, width, height, seed, target, fill, stack, visited, painted)
      invariant pushes == 1 + 4 * |painted|
      decreases |Box(width, height) + {seed} - visited|, |stack|
    {
      var c := stack[|stack| - 1];
      ghost var popped := stack;
      stack := stack[..|stack| - 1];
      if c in visited {
        SkipVisited(data[..], s, width, height, seed, target, fill, popped, visited, painted);
        continue;
      }
      ghost var prev := visited;
      visited := visited + {c};
      if c.x < 0 || c.y < 0 || c.x >= width || c.y >= height {
        SkipUnmatched(data[..], s, width, height, seed, target, fill, popped, prev, painted);
        continue;
      }
      var pos := (c.y * width + c.x) * 4;
      ghost var cur := data[..];
      MatchOfUnvisited(cur, s, width, height, seed, target, fill, popped, prev, painted);
      var m := MatchColor(data, pos, target);
      assert data[..] == cur;
      assert data[pos..pos + 4] == cur[pos..pos + 4];
      if !m {
        SkipUnmatched(cur, s, width, height, seed, target, fill, popped, prev, painted);
        continue;
      }
      if Even(c) {
        PixelWrites.WriteRgba(data, pos, fill);
      }
      VisitMatched(cur, s, width, height, seed, target, fill, popped, prev, painted);
      stack := stack + Neighbours(c);
      painted := painted + {c};
      pushes := pushes + 4;
    }
    FillDone(data[..], s, width, height, seed, target, fill, visited, painted);
  }

  // ---------------------------------------------------------------------
  // The loop invariant and its upkeep, one lemma per path through the loop body

  /** The loop invariant over the bytes `d`, the stack, the visited set and the ghost set
      `painted` of pixels whose neighbours were pushed: see the predicates it is made of. */
  ghost predicate FillInv(d: seq<Byte>, s: seq<Byte>, width: nat, height: nat, seed: Coord, target: Rgba,
                          fill: Rgba, stack: seq<Coord>, visited: set<Coord>, painted: set<Coord>)
    requires width > 0
  {
    |s| == FrameSize(width, height) &&
    visited <= Box(width, height) + {seed} &&
    (forall c :: c in stack ==> c in Box(width, height) + {seed}) &&
    (InBounds(width, height, seed) ==> target == ColorAt(s, width, height, seed)) &&
    Sound(s, width, height, seed, target, visited) &&
    (forall c :: c in stack ==> Candidate(s, width, height, seed, c)) &&
    Closed(s, width, height, target, visited, stack) &&
    (seed in visited || seed in stack) &&
    Painted(d, s, width, height, target, visited, fill) &&
    painted <= visited && painted <= Grid(width, height)
  }

  lemma FillStart(s: seq<Byte>, width: nat, height: nat, seed: Coord, target: Rgba, fill: Rgba)
    requires width > 0 && |s| == FrameSize(width, height)
    requires InBounds(width, height, seed) ==> target == ColorAt(s, width, height, seed)
    ensures FillInv(s, s, width, height, seed, target, fill, [seed], {}, {})
  {
  }

  /** A popped coordinate that was visited before changes nothing. */
  lemma SkipVisited(d: seq<Byte>, s: seq<Byte>, width: nat, height: nat, seed: Coord, target: Rgba,
                    fill: Rgba, popped: seq<Coord>, visited: set<Coord>, painted: set<Coord>)
    requires width > 0 && |popped| > 0 && FillInv(d, s, width, height, seed, target, fill, popped, visited, painted)
    requires popped[|popped| - 1] in visited
    ensures FillInv(d, s, width, height, seed, target, fill, popped[..|popped| - 1], visited, painted)
  {
    var c := popped[|popped| - 1];
    var stack := popped[..|popped| - 1];
    PopKeepsClosed(s, width, height, target, visited, popped, stack);
    assert visited + {c} == visited;
    assert forall n :: n in stack ==> n in popped;
  }

  /** A popped, unvisited coordinate that is off the canvas or of another colour is only
      marked visited. */
  lemma SkipUnmatched(d: seq<Byte>, s: seq<Byte>, width: nat, height: nat, seed: Coord, target: Rgba,
                      fill: Rgba, popped: seq<Coord>, visited: set<Coord>, painted: set<Coord>)
    requires width > 0 && |popped| > 0 && FillInv(d, s, width, height, seed, target, fill, popped, visited, painted)
    requires popped[|popped| - 1] !in visited && !Matches(s, width, height, target, popped[|popped| - 1])
    ensures FillInv(d, s, width, height, seed, target, fill, popped[..|popped| - 1], visited + {popped[|popped| - 1]}, painted)
    ensures |Box(width, height) + {seed} - (visited + {popped[|popped| - 1]})| < |Box(width, height) + {seed} - visited|
  {
    var c := popped[|popped| - 1];
    var stack := popped[..|popped| - 1];
    var box := Box(width, height) + {seed};
    PopKeepsClosed(s, width, height, target, visited, popped, stack);
    VisitKeepsSound(s, width, height, seed, target, visited, c);
    VisitUnpainted(d, s, width, height, target, visited, fill, c);
    assert forall n :: n in stack ==> n in popped;
    assert c in box;
    assert box - (visited + {c}) == (box - visited) - {c};
  }

  /** Before the colour test: an unvisited pixel still holds its original colour, so the
      test on the current bytes is the test on the original ones. */
  lemma MatchOfUnvisited(d: seq<Byte>, s: seq<Byte>, width: nat, height: nat, seed: Coord, target: Rgba,
                         fill: Rgba, popped: seq<Coord>, visited: set<Coord>, painted: set<Coord>)
    requires width > 0 && |popped| > 0 && FillInv(d, s, width, height, seed, target, fill, popped, visited, painted)
    requires popped[|popped| - 1] !in visited && InBounds(width, height, popped[|popped| - 1])
    ensures var p := PixelStart(width, popped[|popped| - 1]);
      0 <= p && p + 4 <= |d| &&
      (d[p..p + 4] == target <==> Matches(s, width, height, target, popped[|popped| - 1]))
  {
    UnvisitedPixelIsOriginal(d, s, width, height, target, visited, fill, popped[|popped| - 1]);
  }

  /** A popped, unvisited pixel of the target colour is painted when even, and its
      neighbours are pushed. */
  lemma VisitMatched(d: seq<Byte>, s: seq<Byte>, width: nat, height: nat, seed: Coord, target: Rgba,
                     fill: Rgba, popped: seq<Coord>, visited: set<Coord>, painted: set<Coord>)
    requires width > 0 && |popped| > 0 && FillInv(d, s, width, height, seed, target, fill, popped, visited, painted)
    requires popped[|popped| - 1] !in visited && Matches(s, width, height, target, popped[|popped| - 1])
    ensures var c := popped[|popped| - 1];
      var p := PixelStart(width, c);
      0 <= p && p + 4 <= |d| &&
      FillInv(if Even(c) then d[..p] + fill + d[p + 4..] else d, s, width, height, seed, target, fill,
              popped[..|popped| - 1] + Neighbours(c), visited + {c}, painted + {c}) &&
      |painted + {c}| == |painted| + 1 &&
      |Box(width, height) + {seed} - (visited + {c})| < |Box(width, height) + {seed} - visited|
  {
    var c := popped[|popped| - 1];
    var stack := popped[..|popped| - 1] + Neighbours(c);
    var box := Box(width, height) + {seed};
    PixelStartInRange(width, height, c);
    var p := PixelStart(width, c);
    var d' := if Even(c) then d[..p] + fill + d[p + 4..] else d;
    CandidateInRegion(s, width, height, seed, c);
    VisitKeepsSound(s, width, height, seed, target, visited, c);
    if Even(c) {
      PaintEvenPixel(d, s, width, height, target, visited, fill, c);
    } else {
      VisitUnpainted(d, s, width, height, target, visited, fill, c);
    }
    PushNeighbours(s, width, height, seed, target, popped, visited);
    GridMembers(width, height, c);
    assert c !in painted;
    assert box - (visited + {c}) == (box - visited) - {c};
    InvFromParts(d', s, width, height, seed, target, fill, stack, visited + {c}, painted + {c});
  }

  /** The stack after popping region pixel `c` and pushing its neighbours keeps its three
      invariants. */
  lemma PushNeighbours(s: seq<Byte>, width: nat, height: nat, seed: Coord, target: Rgba,
                       popped: seq<Coord>, visited: set<Coord>)
    requires |popped| > 0 && |s| == FrameSize(width, height)
    requires forall c :: c in popped ==> c in Box(width, height) + {seed}
    requires Closed(s, width, height, target, visited, popped)
    requires Matches(s, width, height, target, popped[|popped| - 1])
    requires InRegion(s, width, height, seed, popped[|popped| - 1])
    requires forall c :: c in popped ==> Candidate(s, width, height, seed, c)
    ensures var stack := popped[..|popped| - 1] + Neighbours(popped[|popped| - 1]);
      (forall n :: n in stack ==> n in Box(width, height) + {seed}) &&
      (forall n :: n in stack ==> Candidate(s, width, height, seed, n)) &&
      Closed(s, width, height, target, visited + {popped[|popped| - 1]}, stack)
  {
    var c := popped[|popped| - 1];
    var rest := popped[..|popped| - 1];
    var stack := rest + Neighbours(c);
    NeighboursAreCandidates(s, width, height, seed, c);
    NeighboursInBox(width, height, c);
    PopKeepsClosed(s, width, height, target, visited, popped, stack);
    forall n | n in stack
      ensures n in Box(width, height) + {seed} && Candidate(s, width, height, seed, n)
    {
      if n in rest {
        assert n in popped;
      }
    }
  }

  /** `FillInv` from its parts. */
  lemma InvFromParts(d: seq<Byte>, s: seq<Byte>, width: nat, height: nat, seed: Coord, target: Rgba,
                     fill: Rgba, stack: seq<Coord>, visited: set<Coord>, painted: set<Coord>)
    requires width > 0 && |s| == FrameSize(width, height)
    requires visited <= Box(width, height) + {seed}
    requires forall c :: c in stack ==> c in Box(width, height) + {seed}
    requires InBounds(width, height, seed) ==> target == ColorAt(s, width, height, seed)
    requires Sound(s, width, height, seed, target, visited)
    requires forall c :: c in stack ==> Candidate(s, width, height, seed, c)
    requires Closed(s, width, height, target, visited, stack)
    requires seed in visited || seed in stack
    requires Painted(d, s, width, height, target, visited, fill)
    requires painted <= visited && painted <= Grid(width, height)
    ensures FillInv(d, s, width, height, seed, target, fill, stack, visited, painted)
  {
  }

  /** Once the stack is empty the bytes are the dot fill, and at most `width*height`
      pixels had their neighbours pushed. */
  lemma FillDone(d: seq<Byte>, s: seq<Byte>, width: nat, height: nat, seed: Coord, target: Rgba,
                 fill: Rgba, visited: set<Coord>, painted: set<Coord>)
    requires width > 0 && FillInv(d, s, width, height, seed, target, fill, [], visited, painted)
    ensures d == DotFilled(s, width, height, seed, fill)
    ensures |painted| <= width * height
  {
    GridSize(width, height);
    SubsetCard(painted, Grid(width, height));
    ClosedVisitedCoversRegion(s, width, height, seed, target, visited, fill, d);
  }

  // ---------------------------------------------------------------------
  // Loop invariants, stated once

  /** Every neighbour of a visited pixel of the target colour is visited or still stacked. */
  ghost predicate Closed(s: seq<Byte>, width: nat, height: nat, target: Rgba, visited: set<Coord>, stack: seq<Coord>)
  {
    forall m, n :: m in visited && Matches(s, width, height, target, m) && n in Neighbours(m) ==>
      n in visited || n in stack
  }

  /** Popping the top `c` and marking it visited keeps `Closed`, provided a matching `c`
      has its neighbours pushed. */
  lemma PopKeepsClosed(s: seq<Byte>, width: nat, height: nat, target: Rgba, visited: set<Coord>,
                       popped: seq<Coord>, stack: seq<Coord>)
    requires |popped| > 0 && Closed(s, width, height, target, visited, popped)
    requires forall n :: n in popped[..|popped| - 1] ==> n in stack
    requires popped[|popped| - 1] !in visited && Matches(s, width, height, target, popped[|popped| - 1]) ==>
               forall n :: n in Neighbours(popped[|popped| - 1]) ==> n in stack
    ensures Closed(s, width, height, target, visited + {popped[|popped| - 1]}, stack)
  {
    var c := popped[|popped| - 1];
    forall m, n | m in visited + {c} && Matches(s, width, height, target, m) && n in Neighbours(m)
      ensures n in visited + {c} || n in stack
    {
      if (m in visited || c !in visited) && n !in visited && n != c && !(m == c && c !in visited) {
        assert n in popped;
        var j :| 0 <= j < |popped| && popped[j] == n;
        assert popped[..|popped| - 1][j] == n;
      }
    }
  }

  /** Every visited pixel of the target colour lies in the seed's region. */
  ghost predicate Sound(s: seq<Byte>, width: nat, height: nat, seed: Coord, target: Rgba, visited: set<Coord>)
  {
    forall c :: c in visited && Matches(s, width, height, target, c) ==> InRegion(s, width, height, seed, c)
  }

  lemma VisitKeepsSound(s: seq<Byte>, width: nat, height: nat, seed: Coord, target: Rgba, visited: set<Coord>, c: Coord)
    requires Sound(s, width, height, seed, target, visited)
    requires Matches(s, width, height, target, c) ==> InRegion(s, width, height, seed, c)
    ensures Sound(s, width, height, seed, target, visited + {c})
  {
  }

  /** A stacked coordinate is the seed or a neighbour of a region pixel. */
  ghost predicate Candidate(s: seq<Byte>, width: nat, height: nat, seed: Coord, c: Coord)
  {
    c == seed || exists m :: InRegion(s, width, height, seed, m) && c in Neighbours(m)
  }

  /** The byte the fill has produced so far: the fill channel on visited even pixels
      of the target colour, the original byte elsewhere. */
  ghost predicate Painted(d: seq<Byte>, s: seq<Byte>, width: nat, height: nat, target: Rgba,
                          visited: set<Coord>, fill: Rgba)
    requires width > 0
  {
    |d| == |s| == FrameSize(width, height) &&
    forall i :: 0 <= i < |s| ==>
      d[i] == if CoordOfByte(width, i) in visited && Matches(s, width, height, target, CoordOfByte(width, i))
                 && Even(CoordOfByte(width, i))
              then fill[i % 4] else s[i]
  }

  /** The rectangle of coordinates the stack can ever hold (one beyond each edge). */
  ghost function Box(width: nat, height: nat): set<Coord>
  {
    set i, j | -1 <= i <= width && -1 <= j <= height :: Coord(i, j)
  }

  lemma NeighboursInBox(width: nat, height: nat, c: Coord)
    requires InBounds(width, height, c)
    ensures forall n :: n in Neighbours(c) ==> n in Box(width, height)
  {
    assert Coord(c.x + 1, c.y) in Box(width, height);
    assert Coord(c.x - 1, c.y) in Box(width, height);
    assert Coord(c.x, c.y + 1) in Box(width, height);
    assert Coord(c.x, c.y - 1) in Box(width, height);
  }

  /** A pixel not yet visited still holds its original colour. */
  lemma UnvisitedPixelIsOriginal(d: seq<Byte>, s: seq<Byte>, width: nat, height: nat, target: Rgba,
                                 visited: set<Coord>, fill: Rgba, c: Coord)
    requires width > 0 && Painted(d, s, width, height, target, visited, fill)
    requires InBounds(width, height, c) && c !in visited
    ensures PixelStart(width, c) >= 0 && PixelStart(width, c) + 4 <= |d|
    ensures d[PixelStart(width, c)..PixelStart(width, c) + 4] == ColorAt(s, width, height, c)
  {
    PixelStartInRange(width, height, c);
    var p := PixelStart(width, c);
    ByteOfPixel(width, height, c, 0);
    ByteOfPixel(width, height, c, 1);
    ByteOfPixel(width, height, c, 2);
    ByteOfPixel(width, height, c, 3);
    assert d[p..p + 4] == [d[p], d[p + 1], d[p + 2], d[p + 3]];
    assert s[p..p + 4] == [s[p], s[p + 1], s[p + 2], s[p + 3]];
  }

  /** Visiting a pixel that is not painted keeps the `Painted` relation. */
  lemma VisitUnpainted(d: seq<Byte>, s: seq<Byte>, width: nat, height: nat, target: Rgba,
                       visited: set<Coord>, fill: Rgba, c: Coord)
    requires width > 0 && Painted(d, s, width, height, target, visited, fill)
    requires c !in visited && !(Matches(s, width, height, target, c) && Even(c))
    ensures Painted(d, s, width, height, target, visited + {c}, fill)
  {
  }

  /** Painting an even, matching, unvisited pixel and marking it visited keeps `Painted`. */
  lemma PaintEvenPixel(d: seq<Byte>, s: seq<Byte>, width: nat, height: nat, target: Rgba,
                       visited: set<Coord>, fill: Rgba, c: Coord)
    requires width > 0 && Painted(d, s, width, height, target, visited, fill)
    requires c !in visited && Matches(s, width, height, target, c) && Even(c)
    requires 0 <= PixelStart(width, c) && PixelStart(width, c) + 4 <= |d|
    ensures Painted(d[..PixelStart(width, c)] + fill + d[PixelStart(width, c) + 4..], s, width, height,
                    target, visited + {c}, fill)
  {
    var p := PixelStart(width, c);
    var d' := d[..p] + fill + d[p + 4..];
    forall i | 0 <= i < |s|
      ensures d'[i] == if CoordOfByte(width, i) in visited + {c} && Matches(s, width, height, target, CoordOfByte(width, i))
                          && Even(CoordOfByte(width, i))
                       then fill[i % 4] else s[i]
    {
      ByteInPixel(width, height, c, i);
      if p <= i < p + 4 {
        ByteOfPixel(width, height, c, i - p);
      }
    }
  }

  /** A matching candidate belongs to the region. */
  lemma CandidateInRegion(s: seq<Byte>, width: nat, height: nat, seed: Coord, c: Coord)
    requires Candidate(s, width, height, seed, c) && |s| == FrameSize(width, height) && InBounds(width, height, c)
    requires InBounds(width, height, seed) ==> ColorAt(s, width, height, c) == ColorAt(s, width, height, seed)
    requires InBounds(width, height, seed) || c != seed
    ensures InRegion(s, width, height, seed, c)
  {
    if c == seed {
      RegionContainsSeed(s, width, height, seed);
    } else {
      var m :| InRegion(s, width, height, seed, m) && c in Neighbours(m);
      var target := ColorAt(s, width, height, seed);
      var path :| IsPath(s, width, height, target, path) && path[0] == seed && path[|path| - 1] == m;
      assert Matches(s, width, height, target, c);
      PathExtend(s, width, height, target, path, c);
      var path' := path + [c];
      assert IsPath(s, width, height, target, path') && path'[0] == seed && path'[|path'| - 1] == c;
    }
  }

  /** A path to `m` extends by a matching neighbour of `m`. */
  lemma PathExtend(s: seq<Byte>, width: nat, height: nat, target: Rgba, path: seq<Coord>, c: Coord)
    requires IsPath(s, width, height, target, path)
    requires Matches(s, width, height, target, c) && c in Neighbours(path[|path| - 1])
    ensures IsPath(s, width, height, target, path + [c])
    ensures (path + [c])[0] == path[0] && (path + [c])[|path|] == c
  {
    var path' := path + [c];
    forall i | 0 <= i < |path'| ensures Matches(s, width, height, target, path'[i]) {
      if i < |path| { assert path'[i] == path[i]; }
    }
    forall i | 0 <= i < |path'| - 1 ensures path'[i + 1] in Neighbours(path'[i]) {
      if i < |path| - 1 { assert path'[i] == path[i] && path'[i + 1] == path[i + 1]; }
    }
  }

  lemma NeighboursAreCandidates(s: seq<Byte>, width: nat, height: nat, seed: Coord, c: Coord)
    requires InRegion(s, width, height, seed, c)
    ensures forall n :: n in Neighbours(c) ==> Candidate(s, width, height, seed, n)
  {
  }

  /** When the stack is empty, the visited set holds the whole region, and the bytes
      are exactly those `DotFilled` describes. */
  lemma ClosedVisitedCoversRegion(s: seq<Byte>, width: nat, height: nat, seed: Coord, target: Rgba,
                                  visited: set<Coord>, fill: Rgba, d: seq<Byte>)
    requires width > 0 && Painted(d, s, width, height, target, visited, fill)
    requires InBounds(width, height, seed) ==> target == ColorAt(s, width, height, seed)
    requires Sound(s, width, height, seed, target, visited)
    requires Closed(s, width, height, target, visited, [])
    requires seed in visited
    ensures d == DotFilled(s, width, height, seed, fill)
  {
    var r := DotFilled(s, width, height, seed, fill);
    forall i | 0 <= i < |s| ensures d[i] == r[i] {
      var c := CoordOfByte(width, i);
      if InRegion(s, width, height, seed, c) {
        RegionWithinClosedSet(s, width, height, seed, target, visited, c);
      }
    }
  }

  lemma RegionWithinClosedSet(s: seq<Byte>, width: nat, height: nat, seed: Coord, target: Rgba,
                              visited: set<Coord>, c: Coord)
    requires InRegion(s, width, height, seed, c) && target == ColorAt(s, width, height, seed)
    requires Closed(s, width, height, target, visited, [])
    requires seed in visited
    ensures c in visited && Matches(s, width, height, target, c)
  {
    var path :| IsPath(s, width, height, target, path) && path[0] == seed && path[|path| - 1] == c;
    PathWithinClosedSet(s, width, height, target, visited, path, |path| - 1);
  }

  lemma {:induction false} PathWithinClosedSet(s: seq<Byte>, width: nat, height: nat, target: Rgba,
                                               visited: set<Coord>, path: seq<Coord>, k: nat)
    requires IsPath(s, width, height, target, path) && path[0] in visited && k < |path|
    requires Closed(s, width, height, target, visited, [])
    ensures path[k] in visited
  {
    if k > 0 {
      PathWithinClosedSet(s, width, height, target, visited, path, k - 1);
      assert path[k] in Neighbours(path[k - 1]);
    }
  }

  // ---------------------------------------------------------------------
  // The work bound: the grid has width*height pixels

  ghost function Row(width: nat, y: int): set<Coord>
  {
    if width == 0 then {} else Row(width - 1, y) + {Coord(width - 1, y)}
  }

  ghost function Grid(width: nat, height: nat): set<Coord>
  {
    if height == 0 then {} else Grid(width, height - 1) + Row(width, height - 1)
  }

  lemma {:induction false} RowMembers(width: nat, y: int, c: Coord)
    ensures c in Row(width, y) <==> c.y == y && 0 <= c.x < width
  {
    if width > 0 {
      RowMembers(width - 1, y, c);
    }
  }

  lemma {:induction false} GridMembers(width: nat, height: nat, c: Coord)
    ensures c in Grid(width, height) <==> InBounds(width, height, c)
  {
    if height > 0 {
      GridMembers(width, height - 1, c);
      RowMembers(width, height - 1, c);
    }
  }

  lemma {:induction false} RowSize(width: nat, y: int)
    ensures |Row(width, y)| == width
  {
    if width > 0 {
      RowSize(width - 1, y);
      RowMembers(width - 1, y, Coord(width - 1, y));
    }
  }

  lemma {:induction false} GridSize(width: nat, height: nat)
    ensures |Grid(width, height)| == width * height
  {
    if height > 0 {
      GridSize(width, height - 1);
      RowSize(width, height - 1);
      var g, r := Grid(width, height - 1), Row(width, height - 1);
      forall c | c in r ensures c !in g {
        RowMembers(width, height - 1, c);
        GridMembers(width, height - 1, c);
      }
      assert g * r == {};
      assert width * height == width * (height - 1) + width;
    }
  }

  lemma SubsetCard<T>(a: set<T>, b: set<T>)
    requires a <= b
    ensures |a| <= |b|
  {
    assert b == a + (b - a);
    assert a * (b - a) == {};
  }

  // ---------------------------------------------------------------------
  // Properties of the specification

  /** Filling with the colour the seed already has changes nothing. */
  lemma SeedOfFillColorIsNoOp(s: seq<Byte>, width: nat, height: nat, seed: Coord, fill: Rgba)
    requires width > 0 && |s| == FrameSize(width, height)
    requires InBounds(width, height, seed) && ColorAt(s, width, height, seed) == fill
    ensures DotFilled(s, width, height, seed, fill) == s
  {
    var r := DotFilled(s, width, height, seed, fill);
    forall i | 0 <= i < |s| ensures r[i] == s[i] {
      var c := CoordOfByte(width, i);
      if InRegion(s, width, height, seed, c) {
        RegionHasSeedColor(s, width, height, seed, c);
        ChannelOfByte(s, width, height, i);
      }
    }
  }

  /** The region is bounded by colour: every region pixel is on the canvas and has
      the seed's original colour. */
  lemma RegionHasSeedColor(s: seq<Byte>, width: nat, height: nat, seed: Coord, c: Coord)
    requires InRegion(s, width, height, seed, c)
    ensures Matches(s, width, height, ColorAt(s, width, height, seed), c)
  {
    var target := ColorAt(s, width, height, seed);
    var path :| IsPath(s, width, height, target, path) && path[0] == seed && path[|path| - 1] == c;
    assert Matches(s, width, height, target, path[|path| - 1]);
  }

  /** Pixel view of the fill: an on-canvas pixel takes the fill colour when it is in the
      seed's region and `x + y` is even, and keeps its original colour otherwise. */
  lemma DotFilledPixel(s: seq<Byte>, width: nat, height: nat, seed: Coord, fill: Rgba, c: Coord)
    requires width > 0 && |s| == FrameSize(width, height) && InBounds(width, height, c)
    ensures ColorAt(DotFilled(s, width, height, seed, fill), width, height, c) ==
            if InRegion(s, width, height, seed, c) && Even(c) then fill else ColorAt(s, width, height, c)
  {
    var r := DotFilled(s, width, height, seed, fill);
    ColorAtBytes(r, width, height, c);
    ColorAtBytes(s, width, height, c);
    DotFilledChannel(s, width, height, seed, fill, c, 0);
    DotFilledChannel(s, width, height, seed, fill, c, 1);
    DotFilledChannel(s, width, height, seed, fill, c, 2);
    DotFilledChannel(s, width, height, seed, fill, c, 3);
    if InRegion(s, width, height, seed, c) && Even(c) {
      assert ColorAt(r, width, height, c) == [fill[0], fill[1], fill[2], fill[3]];
    }
  }

  lemma DotFilledChannel(s: seq<Byte>, width: nat, height: nat, seed: Coord, fill: Rgba, c: Coord, k: int)
    requires width > 0 && |s| == FrameSize(width, height) && InBounds(width, height, c) && 0 <= k < 4
    ensures 0 <= PixelStart(width, c) + k < |s|
    ensures DotFilled(s, width, height, seed, fill)[PixelStart(width, c) + k] ==
            if InRegion(s, width, height, seed, c) && Even(c) then fill[k] else ColorAt(s, width, height, c)[k]
  {
    ColorAtBytes(s, width, height, c);
    ByteOfPixel(width, height, c, k);
  }

  /** A second fill from the same seed with the same colour changes nothing: either the
      seed now has the fill colour, or (odd seed) its region has shrunk to the seed alone. */
  lemma DotFillIdempotent(s: seq<Byte>, width: nat, height: nat, seed: Coord, fill: Rgba)
    requires width > 0 && |s| == FrameSize(width, height)
    ensures var once := DotFilled(s, width, height, seed, fill);
            DotFilled(once, width, height, seed, fill) == once
  {
    var once := DotFilled(s, width, height, seed, fill);
    if !InBounds(width, height, seed) {
      return;
    }
    var target := ColorAt(s, width, height, seed);
    RegionContainsSeed(s, width, height, seed);
    DotFilledPixel(s, width, height, seed, fill, seed);
    if target == fill || Even(seed) {
      SeedOfFillColorIsNoOp(once, width, height, seed, fill);
    } else {
      // The seed keeps `target`; each on-canvas neighbour either had another colour
      // (and keeps it) or was in the region with even parity (and now has `fill`).
      forall n | n in Neighbours(seed) && InBounds(width, height, n)
        ensures ColorAt(once, width, height, n) != target
      {
        NeighbourOfOddSeed(s, width, height, seed, fill, n);
      }
      var r := DotFilled(once, width, height, seed, fill);
      forall i | 0 <= i < |once| ensures r[i] == once[i] {
        var c := CoordOfByte(width, i);
        if InRegion(once, width, height, seed, c) {
          RegionOfIsolatedSeed(once, width, height, seed, c);
        }
      }
    }
  }

  /** After a fill from an odd seed, no on-canvas neighbour of the seed keeps the seed's colour. */
  lemma NeighbourOfOddSeed(s: seq<Byte>, width: nat, height: nat, seed: Coord, fill: Rgba, n: Coord)
    requires width > 0 && |s| == FrameSize(width, height) && InBounds(width, height, seed)
    requires !Even(seed) && ColorAt(s, width, height, seed) != fill
    requires n in Neighbours(seed) && InBounds(width, height, n)
    ensures ColorAt(DotFilled(s, width, height, seed, fill), width, height, n) != ColorAt(s, width, height, seed)
  {
    DotFilledPixel(s, width, height, seed, fill, n);
    if ColorAt(s, width, height, n) == ColorAt(s, width, height, seed) {
      RegionContainsSeed(s, width, height, seed);
      assert Candidate(s, width, height, seed, n);
      CandidateInRegion(s, width, height, seed, n);
      NeighbourParity(seed, n);
    } else if InRegion(s, width, height, seed, n) {
      RegionHasSeedColor(s, width, height, seed, n);
    }
  }

  /** A step to a 4-neighbour flips the parity of `x + y`. */
  lemma NeighbourParity(c: Coord, n: Coord)
    requires n in Neighbours(c)
    ensures Even(n) <==> !Even(c)
  {
  }

  lemma RegionContainsSeed(s: seq<Byte>, width: nat, height: nat, seed: Coord)
    requires |s| == FrameSize(width, height) && InBounds(width, height, seed)
    ensures InRegion(s, width, height, seed, seed)
  {
    var path := [seed];
    assert IsPath(s, width, height, ColorAt(s, width, height, seed), path);
  }

  lemma PathStep(s: seq<Byte>, width: nat, height: nat, target: Rgba, path: seq<Coord>)
    requires IsPath(s, width, height, target, path) && |path| > 1
    ensures path[1] in Neighbours(path[0]) && Matches(s, width, height, target, path[1])
  {
  }

  /** When no on-canvas neighbour of the seed shares its colour, the region is the seed alone. */
  lemma RegionOfIsolatedSeed(s: seq<Byte>, width: nat, height: nat, seed: Coord, c: Coord)
    requires InRegion(s, width, height, seed, c)
    requires forall n :: n in Neighbours(seed) && InBounds(width, height, n) ==>
               ColorAt(s, width, height, n) != ColorAt(s, width, height, seed)
    ensures c == seed
  {
    var target := ColorAt(s, width, height, seed);
    var path :| IsPath(s, width, height, target, path) && path[0] == seed && path[|path| - 1] == c;
    if |path| > 1 {
      PathStep(s, width, height, target, path);
      assert false;
    }
  }

  // ---------------------------------------------------------------------
  // Worked examples

  lemma BlankColor(width: nat, height: nat, c: Coord)
    requires InBounds(width, height, c)
    ensures ColorAt(BlankFrame(width, height), width, height, c) == Transparent
  {
    ColorAtBytes(BlankFrame(width, height), width, height, c);
  }

  /** On a canvas of one colour the region is the whole canvas, so the fill leaves an exact
      checkerboard: every even pixel takes the fill colour, every odd pixel keeps its own. */
  lemma UniformCanvasFillIsCheckerboard(s: seq<Byte>, width: nat, height: nat, seed: Coord, fill: Rgba, c: Coord)
    requires width > 0 && |s| == FrameSize(width, height)
    requires InBounds(width, height, seed) && InBounds(width, height, c)
    requires forall d :: InBounds(width, height, d) ==> ColorAt(s, width, height, d) == ColorAt(s, width, height, seed)
    ensures ColorAt(DotFilled(s, width, height, seed, fill), width, height, c) ==
            if Even(c) then fill else ColorAt(s, width, height, c)
  {
    UniformCanvasIsOneRegion(s, width, height, seed, c);
    DotFilledPixel(s, width, height, seed, fill, c);
  }

  /** Every pixel of a one-colour canvas is reached: walk from the seed towards `c`,
      one 4-neighbour step at a time. */
  lemma {:induction false} UniformCanvasIsOneRegion(s: seq<Byte>, width: nat, height: nat, seed: Coord, c: Coord)
    requires |s| == FrameSize(width, height)
    requires InBounds(width, height, seed) && InBounds(width, height, c)
    requires forall d :: InBounds(width, height, d) ==> ColorAt(s, width, height, d) == ColorAt(s, width, height, seed)
    ensures InRegion(s, width, height, seed, c)
    decreases Dist(seed.x, c.x) + Dist(seed.y, c.y)
  {
    if c == seed {
      RegionContainsSeed(s, width, height, seed);
    } else {
      var p: Coord;
      if c.x < seed.x {
        p := Coord(c.x + 1, c.y);
      } else if c.x > seed.x {
        p := Coord(c.x - 1, c.y);
      } else if c.y < seed.y {
        p := Coord(c.x, c.y + 1);
      } else {
        p := Coord(c.x, c.y - 1);
      }
      assert c in Neighbours(p);
      UniformCanvasIsOneRegion(s, width, height, seed, p);
      assert Candidate(s, width, height, seed, c);
      CandidateInRegion(s, width, height, seed, c);
    }
  }

  function Dist(a: int, b: int): nat
  {
    if a <= b then b - a else a - b
  }

  /** Filling a blank (transparent) canvas from any pixel paints exactly the even pixels,
      whatever the canvas size: the dot pattern of a fresh frame. */
  lemma FillBlankCanvas(width: nat, height: nat, seed: Coord, fill: Rgba, c: Coord)
    requires width > 0 && InBounds(width, height, seed) && InBounds(width, height, c)
    ensures ColorAt(DotFilled(BlankFrame(width, height), width, height, seed, fill), width, height, c) ==
            if Even(c) then fill else Transparent
  {
    var s := BlankFrame(width, height);
    forall d | InBounds(width, height, d) ensures ColorAt(s, width, height, d) == ColorAt(s, width, height, seed) {
      BlankColor(width, height, d);
      BlankColor(width, height, seed);
    }
    BlankColor(width, height, c);
    UniformCanvasFillIsCheckerboard(s, width, height, seed, fill, c);
  }

  /** A 2x2 canvas whose transparent pixels touch only diagonally. */
  const DiagonalPair: seq<Byte> := [0, 0, 0, 0, 64, 64, 160, 255, 64, 64, 160, 255, 0, 0, 0, 0]

  /** Connectivity is 4-way: a fill from (0, 0) does not reach the diagonal pixel (1, 1)
      of the same colour, whatever the fill colour. */
  lemma FillDoesNotCrossDiagonal(fill: Rgba)
    ensures ColorAt(DotFilled(DiagonalPair, 2, 2, Coord(0, 0), fill), 2, 2, Coord(1, 1)) == Transparent
  {
    var s := DiagonalPair;
    ColorAtBytes(s, 2, 2, Coord(0, 0));
    ColorAtBytes(s, 2, 2, Coord(1, 0));
    ColorAtBytes(s, 2, 2, Coord(0, 1));
    ColorAtBytes(s, 2, 2, Coord(1, 1));
    if InRegion(s, 2, 2, Coord(0, 0), Coord(1, 1)) {
      RegionOfIsolatedSeed(s, 2, 2, Coord(0, 0), Coord(1, 1));
    }
    DotFilledPixel(s, 2, 2, Coord(0, 0), fill, Coord(1, 1));
  }
}
