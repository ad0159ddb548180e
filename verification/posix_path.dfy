/**
 * The POSIX flavour of Node's `path` module as the program uses it:
 * `isAbsolute`, `normalize`, `join` and `resolve`, over `/`-separated pieces.
 * Resolution drops empty and `.` pieces and lets `..` cancel the piece
 * before it; a `..` with nothing to cancel is kept in a relative path and
 * dropped at the root of an absolute one.
 */
module PosixPath {

  import opened Segments

  predicate IsAbsolute(p: string)
  {
    |p| > 0 && p[0] == Slash
  }

  predicate StartsWith(s: string, prefix: string)
  {
    |prefix| <= |s| && s[..|prefix|] == prefix
  }

  /** A piece that names an entry: not empty, not `.` and not `..`. */
  predicate IsName(piece: string)
  {
    piece != "" && piece != "." && piece != ".."
  }

  predicate AllNames(pieces: seq<string>)
  {
    forall i :: 0 <= i < |pieces| ==> IsName(pieces[i])
  }

  /** A resolved stack: names and `..`, where every `..` comes before every name. */
  predicate IsResolved(stack: seq<string>)
  {
    && (forall i :: 0 <= i < |stack| ==> stack[i] == ".." || IsName(stack[i]))
    && (forall i, j :: 0 <= j < i < |stack| && stack[i] == ".." ==> stack[j] == "..")
  }

  /** A resolved stack that does not start with `..` holds names only. */
  lemma ResolvedNamesOnly(stack: seq<string>)
    requires IsResolved(stack)
    requires |stack| == 0 || stack[0] != ".."
    ensures AllNames(stack)
  {
    forall i | 0 < i < |stack|
      ensures IsName(stack[i])
    {
      var first := stack[0];
      assert stack[i] == ".." ==> first == "..";
    }
  }

  /**
   * Node's `normalizeString`: pushes the pieces onto `stack` in order.
   * A `..` pops the last entry unless the stack is empty or ends in `..`;
   * then it is pushed when `aboveRoot` allows it and dropped otherwise.
   */
  function Resolve(stack: seq<string>, pieces: seq<string>, aboveRoot: bool): (r: seq<string>)
    ensures IsResolved(stack) ==> IsResolved(r)
    ensures !aboveRoot && AllNames(stack) ==> AllNames(r)
    ensures AllSlashFree(stack) && AllSlashFree(pieces) ==> AllSlashFree(r)
    decreases |pieces|
  {
    if |pieces| == 0 then stack
    else
      var piece := pieces[0];
      if piece == "" || piece == "." then Resolve(stack, pieces[1..], aboveRoot)
      else if piece == ".." then
        if |stack| > 0 && stack[|stack| - 1] != ".." then
          Resolve(stack[..|stack| - 1], pieces[1..], aboveRoot)
        else if aboveRoot then Resolve(stack + [".."], pieces[1..], aboveRoot)
        else Resolve(stack, pieces[1..], aboveRoot)
      else Resolve(stack + [piece], pieces[1..], aboveRoot)
  }

  /** The resolved pieces of a path, relative or absolute. */
  function Pieces(p: string): seq<string>
  {
    Resolve([], Split(p), !IsAbsolute(p))
  }

  /**
   * `path.normalize`: `"."` for the empty path; otherwise the resolved
   * pieces joined by `/`, with a leading `/` kept for an absolute path and a
   * trailing `/` kept when the input had one.
   */
  function Normalize(p: string): (r: string)
    ensures |r| > 0
    ensures IsAbsolute(r) <==> IsAbsolute(p)
  {
    if |p| == 0 then "."
    else
      var absolute := IsAbsolute(p);
      var trailing := p[|p| - 1] == Slash;
      var pieces := Pieces(p);
      if |pieces| == 0 then
        (if absolute then "/" else if trailing then "./" else ".")
      else
        var body := Join(pieces) + (if trailing then "/" else "");
        assert |Join(pieces)| >= |pieces[0]| > 0 && Join(pieces)[0] == pieces[0][0] by {
          JoinStartsWithFirst(pieces);
        }
        if absolute then "/" + body else body
  }

  /** `path.join(a, b)`: the non-empty arguments joined by `/`, then normalized. */
  function PathJoin(a: string, b: string): (r: string)
    ensures |a| > 0 ==> (IsAbsolute(r) <==> IsAbsolute(a))
  {
    if |a| == 0 && |b| == 0 then "."
    else if |a| == 0 then Normalize(b)
    else if |b| == 0 then Normalize(a)
    else Normalize(a + [Slash] + b)
  }

  /** An absolute path with no empty, `.` or `..` piece and no trailing slash. */
  predicate IsCanonicalAbsolute(p: string)
  {
    p == "/" || (IsAbsolute(p) && AllNames(Split(p)[1..]))
  }

  /** `p` is `root` itself or lies below it. */
  predicate IsInside(root: string, p: string)
  {
    StartsWith(p, root) && (|p| == |root| || root == "/" || p[|root|] == Slash)
  }

  /**
   * `path.resolve(p)` against the working directory `cwd`: `p` itself when
   * it is absolute, otherwise `cwd/p`, resolved with `..` stopping at the root.
   */
  function PathResolve(cwd: string, p: string): (r: string)
    requires IsAbsolute(cwd)
    ensures IsCanonicalAbsolute(r)
  {
    var full := if IsAbsolute(p) then p + "/" else if |p| == 0 then cwd + "/" else cwd + "/" + p + "/";
    var pieces := Resolve([], Split(full), false);
    assert AllNames(pieces) && AllSlashFree(pieces);
    var r := "/" + Join(pieces);
    assert |pieces| > 0 ==> IsCanonicalAbsolute(r) by {
      if |pieces| > 0 {
        assert r == "" + [Slash] + Join(pieces);
        SplitAppend("", Join(pieces));
        SplitJoin(pieces);
        assert Split(r)[1..] == pieces;
      }
    }
    r
  }

  /**
   * Reference walk: does following the pieces from `depth` levels below the
   * start ever go above the start?
   */
  predicate ClimbsAbove(pieces: seq<string>, depth: nat)
    decreases |pieces|
  {
    if |pieces| == 0 then false
    else if pieces[0] == "" || pieces[0] == "." then ClimbsAbove(pieces[1..], depth)
    else if pieces[0] == ".." then depth == 0 || ClimbsAbove(pieces[1..], depth - 1)
    else ClimbsAbove(pieces[1..], depth + 1)
  }

  /** Resolution distributes over concatenation of the piece list. */
  lemma {:induction false} ResolveAppend(stack: seq<string>, a: seq<string>, b: seq<string>, aboveRoot: bool)
    ensures Resolve(stack, a + b, aboveRoot) == Resolve(Resolve(stack, a, aboveRoot), b, aboveRoot)
    decreases |a|
  {
    if |a| > 0 {
      assert (a + b)[0] == a[0];
      assert (a + b)[1..] == a[1..] + b;
      var piece := a[0];
      if piece == "" || piece == "." {
        ResolveAppend(stack, a[1..], b, aboveRoot);
      } else if piece == ".." {
        if |stack| > 0 && stack[|stack| - 1] != ".." {
          ResolveAppend(stack[..|stack| - 1], a[1..], b, aboveRoot);
        } else if aboveRoot {
          ResolveAppend(stack + [".."], a[1..], b, aboveRoot);
        } else {
          ResolveAppend(stack, a[1..], b, aboveRoot);
        }
      } else {
        ResolveAppend(stack + [piece], a[1..], b, aboveRoot);
      }
    } else {
      assert a + b == b;
    }
  }

  /** Names are simply pushed. */
  lemma {:induction false} ResolveNames(stack: seq<string>, names: seq<string>, aboveRoot: bool)
    requires AllNames(names)
    ensures Resolve(stack, names, aboveRoot) == stack + names
    decreases |names|
  {
    if |names| > 0 {
      ResolveNames(stack + [names[0]], names[1..], aboveRoot);
      assert stack + [names[0]] + names[1..] == stack + names;
    }
  }

  /**
   * Pieces that never climb above `names` leave whatever lies below `names`
   * untouched, whichever way a `..` at the root would be treated.
   */
  lemma {:induction false} ResolveBeneath(base: seq<string>, names: seq<string>, pieces: seq<string>, a: bool, b: bool)
    requires AllNames(names)
    requires !ClimbsAbove(pieces, |names|)
    ensures Resolve(base + names, pieces, a) == base + Resolve(names, pieces, b)
    decreases |pieces|
  {
    if |pieces| > 0 {
      var piece := pieces[0];
      if piece == "" || piece == "." {
        ResolveBeneath(base, names, pieces[1..], a, b);
      } else if piece == ".." {
        var n := |names|;
        assert (base + names)[..|base + names| - 1] == base + names[..n - 1];
        ResolveBeneath(base, names[..n - 1], pieces[1..], a, b);
      } else {
        assert base + names + [piece] == base + (names + [piece]);
        ResolveBeneath(base, names + [piece], pieces[1..], a, b);
      }
    }
  }

  /**
   * The resolved pieces of a relative path start with `..` exactly when the
   * walk climbs above the start: `stack` holds `ups` copies of `..` followed
   * by names.
   */
  lemma {:induction false} LeadingUpIffClimbs(stack: seq<string>, ups: nat, pieces: seq<string>)
    requires ups <= |stack|
    requires forall i :: 0 <= i < ups ==> stack[i] == ".."
    requires forall i :: ups <= i < |stack| ==> IsName(stack[i])
    ensures var r := Resolve(stack, pieces, true);
      (|r| > 0 && r[0] == "..") <==> (ups > 0 || ClimbsAbove(pieces, |stack| - ups))
    decreases |pieces|
  {
    if |pieces| > 0 {
      var piece := pieces[0];
      if piece == "" || piece == "." {
        LeadingUpIffClimbs(stack, ups, pieces[1..]);
      } else if piece == ".." {
        if |stack| > 0 && stack[|stack| - 1] != ".." {
          var popped := stack[..|stack| - 1];
          assert ups < |stack|;
          LeadingUpIffClimbs(popped, ups, pieces[1..]);
        } else {
          assert |stack| == ups;
          LeadingUpIffClimbs(stack + [".."], ups + 1, pieces[1..]);
        }
      } else {
        LeadingUpIffClimbs(stack + [piece], ups, pieces[1..]);
      }
    }
  }

  /**
   * A relative path's normalized form starts with the characters `..` exactly
   * when its first resolved piece does.
   */
  lemma NormalizeStartsWithDots(p: string)
    requires |p| > 0 && !IsAbsolute(p)
    ensures StartsWith(Normalize(p), "..") <==> (|Pieces(p)| > 0 && StartsWith(Pieces(p)[0], ".."))
  {
    var pieces := Pieces(p);
    var n := Normalize(p);
    assert IsResolved(pieces);
    if |pieces| > 0 {
      var joined := Join(pieces);
      assert n == joined + (if p[|p| - 1] == Slash then "/" else "");
      JoinStartsWithFirst(pieces);
      var first := pieces[0];
      assert first == ".." || IsName(first);
      assert n[..|first|] == first;
      if |first| >= 2 {
        assert n[..2] == first[..2];
      } else {
        assert |first| == 1;
        assert first[0] != '.' by {
          assert first != ".";
          assert first == [first[0]];
        }
        assert n[0] == first[0];
      }
    } else {
      assert n == "." || n == "./";
      assert n[0] == '.' && (|n| == 1 || n[1] == '/');
    }
  }

  /** A canonical absolute root other than `/` is `/` followed by its names. */
  lemma CanonicalRootPieces(root: string)
    requires IsCanonicalAbsolute(root) && root != "/"
    ensures var tops := Split(root[1..]);
      && |tops| > 0
      && AllNames(tops)
      && Resolve([], Split(root), false) == tops
      && root == [Slash] + Join(tops)
  {
    var tops := Split(root[1..]);
    assert Split(root) == [""] + tops;
    assert tops == Split(root)[1..];
    ResolveAppend([], [""], tops, false);
    ResolveNames([], tops, false);
    JoinSplit(root);
    JoinCons("", tops);
  }

  /** Under a canonical root, the pieces of `root/p` are the root's names followed by those of `p`. */
  lemma JoinedPieces(root: string, p: string)
    requires IsCanonicalAbsolute(root) && root != "/"
    requires |p| > 0 && !ClimbsAbove(Split(p), 0)
    ensures Pieces(root + [Slash] + p) == Split(root[1..]) + Pieces(p)
  {
    JoinedPiecesOnRoot(root, p);
    ResolveOnTop(Split(root[1..]), Split(p), false, !IsAbsolute(p));
  }

  /** The pieces of `root/p` are those of `p` resolved on top of the root's names. */
  lemma JoinedPiecesOnRoot(root: string, p: string)
    requires IsCanonicalAbsolute(root) && root != "/"
    ensures Pieces(root + [Slash] + p) == Resolve(Split(root[1..]), Split(p), false)
  {
    var full := root + [Slash] + p;
    assert IsAbsolute(full);
    SplitAppend(root, p);
    assert Pieces(full) == Resolve([], Split(root) + Split(p), false);
    ResolveAppend([], Split(root), Split(p), false);
    CanonicalRootPieces(root);
  }

  /** Pieces that never climb above the start are resolved on top of any stack of names. */
  lemma ResolveOnTop(base: seq<string>, pieces: seq<string>, a: bool, b: bool)
    requires !ClimbsAbove(pieces, 0)
    ensures Resolve(base, pieces, a) == base + Resolve([], pieces, b)
  {
    ResolveBeneath(base, [], pieces, a, b);
    assert base + [] == base;
  }

  /** `normalize` of an absolute path with at least one resolved piece. */
  lemma NormalizeAbsolute(p: string)
    requires IsAbsolute(p) && |Pieces(p)| > 0
    ensures Normalize(p) == [Slash] + Join(Pieces(p)) + (if p[|p| - 1] == Slash then "/" else "")
  {
  }

  lemma Regroup(a: string, b: string, c: string)
    ensures [Slash] + (a + [Slash] + b) + c == ([Slash] + a) + ([Slash] + b + c)
  {
  }

  /** A string extended by nothing or by something starting with a slash lies inside it. */
  lemma InsideByExtension(root: string, rest: string)
    requires rest == [] || rest[0] == Slash
    ensures IsInside(root, root + rest)
  {
    assert (root + rest)[..|root|] == root;
  }

  /** `path.join` of a canonical absolute root and a path that never climbs stays under the root. */
  lemma JoinBeneathRoot(root: string, p: string)
    requires IsCanonicalAbsolute(root)
    requires |p| > 0 && !ClimbsAbove(Split(p), 0)
    ensures IsInside(root, PathJoin(root, p))
  {
    if root != "/" {
      JoinBeneathNamedRoot(root, p);
    } else {
      JoinBeneathTop(root, p);
    }
  }

  /** Every absolute path lies under `/`. */
  lemma JoinBeneathTop(root: string, p: string)
    requires root == "/"
    ensures IsInside(root, PathJoin(root, p))
  {
    var r := PathJoin(root, p);
    assert IsAbsolute(r);
    assert r[..1] == root;
  }

  lemma JoinBeneathNamedRoot(root: string, p: string)
    requires IsCanonicalAbsolute(root) && root != "/"
    requires |p| > 0 && !ClimbsAbove(Split(p), 0)
    ensures IsInside(root, PathJoin(root, p))
  {
    var tops := Split(root[1..]);
    CanonicalRootPieces(root);
    JoinedNormalForm(root, p);
    InsideAfterJoin(root, tops, Pieces(p), if p[|p| - 1] == Slash then "/" else "");
  }

  lemma JoinedNormalForm(root: string, p: string)
    requires IsCanonicalAbsolute(root) && root != "/"
    requires |p| > 0 && !ClimbsAbove(Split(p), 0)
    ensures PathJoin(root, p)
         == [Slash] + Join(Split(root[1..]) + Pieces(p)) + (if p[|p| - 1] == Slash then "/" else "")
  {
    var full := root + [Slash] + p;
    CanonicalRootPieces(root);
    JoinedPieces(root, p);
    NormalizeAbsolute(full);
    assert full[|full| - 1] == p[|p| - 1];
  }

  lemma InsideAfterJoin(root: string, tops: seq<string>, below: seq<string>, tail: string)
    requires |tops| > 0 && root == [Slash] + Join(tops)
    requires tail == "" || tail == "/"
    ensures IsInside(root, [Slash] + Join(tops + below) + tail)
  {
    if |below| > 0 {
      JoinAppend(tops, below);
      Regroup(Join(tops), Join(below), tail);
      InsideByExtension(root, [Slash] + Join(below) + tail);
    } else {
      assert tops + below == tops;
      InsideByExtension(root, tail);
    }
  }
}
