/**
 * `isValidRelativePath`: the check a capitalized subject must pass to be
 * used as a folder under the output directory.
 */
module RelativePath {

  import opened AsciiCase
  import opened Segments
  import opened PosixPath
  import opened Capitalize

  /** Characters the pattern's class `[^\0<>:"|?*]` refuses. */
  predicate IsForbiddenChar(c: char)
  {
    c == '\0' || c == '<' || c == '>' || c == ':' || c == '"' || c == '|' || c == '?' || c == '*'
  }

  /** The look-ahead `(?!\/|(?:[a-zA-Z]:)?[\\/])`: a leading separator, or a drive letter, colon and separator. */
  predicate HasRootPrefix(s: string)
  {
    || (|s| > 0 && (s[0] == '/' || s[0] == '\\'))
    || (|s| >= 3 && IsLetter(s[0]) && s[1] == ':' && (s[2] == '\\' || s[2] == '/'))
  }

  /** The whole-string pattern: no root prefix, then one or more allowed characters. */
  predicate MatchesPattern(s: string)
  {
    |s| > 0 && !HasRootPrefix(s) && forall i :: 0 <= i < |s| ==> !IsForbiddenChar(s[i])
  }

  predicate IsValidRelativePath(s: string)
  {
    MatchesPattern(s) && !IsAbsolute(s) && !StartsWith(Normalize(s), "..")
  }

  /** Everything the pattern refuses is refused. */
  lemma PatternRejections(s: string)
    ensures |s| == 0 ==> !IsValidRelativePath(s)
    ensures forall i :: 0 <= i < |s| && IsForbiddenChar(s[i]) ==> !IsValidRelativePath(s)
    ensures |s| > 0 && (s[0] == '/' || s[0] == '\\') ==> !IsValidRelativePath(s)
    ensures |s| >= 3 && IsLetter(s[0]) && s[1] == ':' && (s[2] == '/' || s[2] == '\\')
      ==> !IsValidRelativePath(s)
  {
  }

  /**
   * An accepted path never climbs above the directory it is taken from:
   * its resolved pieces are all names.
   */
  lemma AcceptedStaysInside(s: string)
    requires IsValidRelativePath(s)
    ensures !ClimbsAbove(Split(s), 0)
    ensures AllNames(Pieces(s))
  {
    var pieces := Pieces(s);
    NormalizeStartsWithDots(s);
    LeadingUpIffClimbs([], 0, Split(s));
    assert IsResolved(pieces);
    ResolvedNamesOnly(pieces);
  }

  /**
   * Exact verdict: the pattern matches, the walk never climbs above the
   * start, and the first resolved piece is not a name beginning with `..`
   * (such as `..foo`), which the prefix test refuses as well.
   */
  lemma ValidRelativePathIff(s: string)
    ensures IsValidRelativePath(s) <==>
      && MatchesPattern(s)
      && !ClimbsAbove(Split(s), 0)
      && !(|Pieces(s)| > 0 && StartsWith(Pieces(s)[0], ".."))
  {
    if MatchesPattern(s) {
      NormalizeStartsWithDots(s);
      LeadingUpIffClimbs([], 0, Split(s));
    }
  }

  /** A path whose first piece is `..` climbs above the start and is refused. */
  lemma LeadingParentRefused(s: string)
    requires Split(s)[0] == ".."
    ensures ClimbsAbove(Split(s), 0)
    ensures !IsValidRelativePath(s)
  {
    ValidRelativePathIff(s);
  }

  /** `..` followed by a separator puts `..` as the first piece, whatever follows. */
  lemma ParentFirst(rest: string)
    ensures Split(".." + [Slash] + rest)[0] == ".."
  {
    SplitAppend("..", rest);
    SplitSlashFree("..");
  }

  /** `../../etc` climbs above the start and is refused. */
  lemma ParentPathRejected()
    ensures !IsValidRelativePath("../../etc")
  {
    var up := "../../etc";
    assert up == ".." + [Slash] + "../etc";
    ParentFirst("../etc");
    LeadingParentRefused(up);
  }

  /** One name down and two levels up climbs above the start and is refused. */
  lemma NameThenTwoUpsRefused(name: string)
    requires IsName(name) && SlashFree(name)
    ensures !IsValidRelativePath(name + [Slash] + (".." + [Slash] + ".."))
  {
    var back := name + [Slash] + (".." + [Slash] + "..");
    SplitAppend(name, ".." + [Slash] + "..");
    SplitTwo("..", "..");
    SplitSlashFree(name);
    var pieces := Split(back);
    assert pieces == [name, "..", ".."];
    assert pieces[1..][1..] == [".."];
    assert ClimbsAbove(pieces, 0);
    ValidRelativePathIff(back);
  }

  /** `a/../..` goes down one level and up two, and is refused. */
  lemma ClimbBackRejected()
    ensures !IsValidRelativePath("a/../..")
  {
    var back := "a/../..";
    assert back == "a" + [Slash] + (".." + [Slash] + "..");
    NameThenTwoUpsRefused("a");
  }

  /**
   * A single name that merely begins with `..`, such as `..foo`, never climbs,
   * yet the prefix test refuses it.
   */
  lemma DottedNameRefused(name: string)
    requires IsName(name) && SlashFree(name) && StartsWith(name, "..")
    ensures !ClimbsAbove(Split(name), 0)
    ensures !IsValidRelativePath(name)
  {
    SplitSlashFree(name);
    ResolveNames([], [name], true);
    assert Pieces(name) == [name];
    ValidRelativePathIff(name);
  }

  /** `..foo` is refused although it names a child of the start. */
  lemma DottedNameRejected()
    ensures !ClimbsAbove(Split("..foo"), 0)
    ensures !IsValidRelativePath("..foo")
  {
    var dotted := "..foo";
    assert dotted[..2] == "..";
    DottedNameRefused(dotted);
  }

  /** The fallback folder `error` is itself accepted. */
  lemma ErrorFolderValid()
    ensures IsValidRelativePath("error")
  {
    var error := "error";
    assert MatchesPattern(error) by {
      forall i | 0 <= i < |error|
        ensures !IsForbiddenChar(error[i])
      {
        assert error[i] in "error";
      }
    }
    SplitSlashFree(error);
    ResolveNames([], [error], true);
    assert Pieces(error) == [error];
    ValidRelativePathIff(error);
  }

  /** Capitalizing a piece keeps it empty, `.`, `..` or a `..`-prefixed name exactly when it was. */
  lemma CapitalizeKeepsDots(x: string)
    ensures CapitalizeFirstLetter(x) == "" <==> x == ""
    ensures CapitalizeFirstLetter(x) == "." <==> x == "."
    ensures CapitalizeFirstLetter(x) == ".." <==> x == ".."
    ensures StartsWith(CapitalizeFirstLetter(x), "..") <==> StartsWith(x, "..")
  {
    var r := CapitalizeFirstLetter(x);
    if |x| >= 1 {
      assert (r[0] == '.' <==> x[0] == '.') by { assert Lower(r[0]) == Lower(x[0]); }
    }
    if |x| >= 2 {
      assert (r[1] == '.' <==> x[1] == '.') by { assert Lower(r[1]) == Lower(x[1]); }
    }
    if |x| == 1 {
      assert r == [r[0]] && x == [x[0]];
    }
    if |x| == 2 {
      assert r == [r[0], r[1]] && x == [x[0], x[1]];
    }
    if |x| >= 2 {
      assert r[..2] == [r[0], r[1]] && x[..2] == [x[0], x[1]];
    }
  }

  /** Resolution commutes with capitalizing every piece. */
  lemma {:induction false} ResolveCapitalized(stack: seq<string>, pieces: seq<string>, aboveRoot: bool)
    ensures Resolve(CapitalizeEach(stack), CapitalizeEach(pieces), aboveRoot)
         == CapitalizeEach(Resolve(stack, pieces, aboveRoot))
    decreases |pieces|
  {
    if |pieces| > 0 {
      var piece := pieces[0];
      var caps := CapitalizeEach(pieces);
      var capStack := CapitalizeEach(stack);
      CapitalizeEachCons(pieces);
      assert caps[1..] == CapitalizeEach(pieces[1..]);
      CapitalizeKeepsDots(piece);
      if piece == "" || piece == "." {
        ResolveCapitalized(stack, pieces[1..], aboveRoot);
      } else if piece == ".." {
        if |stack| > 0 {
          CapitalizeKeepsDots(stack[|stack| - 1]);
          assert capStack[|stack| - 1] == CapitalizeFirstLetter(stack[|stack| - 1]);
        }
        if |stack| > 0 && stack[|stack| - 1] != ".." {
          assert capStack[..|stack| - 1] == CapitalizeEach(stack[..|stack| - 1]);
          ResolveCapitalized(stack[..|stack| - 1], pieces[1..], aboveRoot);
        } else if aboveRoot {
          assert capStack + [".."] == CapitalizeEach(stack + [".."]);
          ResolveCapitalized(stack + [".."], pieces[1..], aboveRoot);
        } else {
          ResolveCapitalized(stack, pieces[1..], aboveRoot);
        }
      } else {
        assert capStack + [CapitalizeFirstLetter(piece)] == CapitalizeEach(stack + [piece]);
        ResolveCapitalized(stack + [piece], pieces[1..], aboveRoot);
      }
    }
  }

  /** Capitalization keeps the characters the pattern looks at. */
  lemma CapitalizedPatternIff(s: string)
    ensures MatchesPattern(CapitalizePath(s)) <==> MatchesPattern(s)
    ensures IsAbsolute(CapitalizePath(s)) <==> IsAbsolute(s)
  {
    var r := CapitalizePath(s);
    CapitalizePathKeepsSlashesAndNonLetters(s);
    assert forall i :: 0 <= i < |s| ==> (IsForbiddenChar(r[i]) <==> IsForbiddenChar(s[i]));
  }

  /**
   * Capitalization never changes the verdict: a capitalized subject is a
   * valid relative path exactly when the subject itself is.
   */
  lemma CapitalizedValidIff(s: string)
    ensures IsValidRelativePath(CapitalizePath(s)) <==> IsValidRelativePath(s)
  {
    var r := CapitalizePath(s);
    CapitalizedPatternIff(s);
    if MatchesPattern(s) {
      CapitalizePathPieces(s);
      ResolveCapitalized([], Split(s), true);
      assert CapitalizeEach([]) == [];
      assert Pieces(r) == CapitalizeEach(Pieces(s));
      NormalizeStartsWithDots(s);
      NormalizeStartsWithDots(r);
      if |Pieces(s)| > 0 {
        CapitalizeKeepsDots(Pieces(s)[0]);
      }
    }
  }
}
