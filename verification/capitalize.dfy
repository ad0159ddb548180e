/**
 * Turning an e-mail subject into a folder name: every `/`-separated piece
 * gets its first character upper-cased and the rest of the piece
 * lower-cased (`capitalizeFirstLetter` and `capitalizeFirstLetterPath`).
 */
module Capitalize {

  import opened AsciiCase
  import opened Segments

  /**
   * `capitalizeFirstLetter`: the same characters up to case, the first one
   * not lower-case and none after it upper-case.
   */
  function CapitalizeFirstLetter(s: string): (r: string)
    ensures |r| == |s|
    ensures forall i :: 0 <= i < |s| ==> Lower(r[i]) == Lower(s[i])
    ensures |r| > 0 ==> !IsLower(r[0])
    ensures forall i :: 1 <= i < |r| ==> !IsUpper(r[i])
  {
    if |s| == 0 then "" else [Upper(s[0])] + LowerAll(s[1..])
  }

  /** The four properties of `CapitalizeFirstLetter` determine its result. */
  lemma CapitalizeFirstLetterUnique(s: string, t: string)
    requires |t| == |s|
    requires forall i :: 0 <= i < |s| ==> Lower(t[i]) == Lower(s[i])
    requires |t| > 0 ==> !IsLower(t[0])
    requires forall i :: 1 <= i < |t| ==> !IsUpper(t[i])
    ensures t == CapitalizeFirstLetter(s)
  {
    var r := CapitalizeFirstLetter(s);
    forall i | 0 <= i < |s|
      ensures t[i] == r[i]
    {
      assert Lower(t[i]) == Lower(s[i]);
    }
  }

  /** Capitalizes each piece of a list. */
  function CapitalizeEach(parts: seq<string>): seq<string>
  {
    seq(|parts|, k requires 0 <= k < |parts| => CapitalizeFirstLetter(parts[k]))
  }

  /**
   * `capitalizeFirstLetterPath`: split on `/`, capitalize every piece, join
   * with `/`. Character by character, the length is kept, a character at the
   * start or right after a slash is upper-cased and every other one is
   * lower-cased.
   */
  function CapitalizePath(s: string): (r: string)
    ensures |r| == |s|
    ensures forall i :: 0 <= i < |s| ==>
      r[i] == (if i == 0 || s[i - 1] == Slash then Upper(s[i]) else Lower(s[i]))
  {
    PiecesAtStart(Split(s));
    PiecesMatchCharacters(s, true);
    Join(CapitalizeEach(Split(s)))
  }

  /**
   * Character-level reference: a character at the start of the string (when
   * `atStart`) or right after a slash is upper-cased, every other one is
   * lower-cased.
   */
  function CaseAt(s: string, i: nat, atStart: bool): char
    requires i < |s|
  {
    if (i == 0 && atStart) || (i > 0 && s[i - 1] == Slash) then Upper(s[i]) else Lower(s[i])
  }

  function CapitalizeAfterSlashes(s: string, atStart: bool): string
  {
    seq(|s|, i requires 0 <= i < |s| => CaseAt(s, i, atStart))
  }

  /** `CapitalizePath` with its first piece lower-cased entirely when `atStart` is false. */
  function CapitalizePieces(parts: seq<string>, atStart: bool): string
    requires |parts| > 0
  {
    Join([if atStart then CapitalizeFirstLetter(parts[0]) else LowerAll(parts[0])]
         + CapitalizeEach(parts[1..]))
  }

  lemma JoinPrependChar(c: char, y: string, tail: seq<string>)
    ensures Join([[c] + y] + tail) == [c] + Join([y] + tail)
  {
    if |tail| > 0 {
      JoinCons([c] + y, tail);
      JoinCons(y, tail);
    }
  }

  lemma CapitalizeEachCons(parts: seq<string>)
    requires |parts| > 0
    ensures CapitalizeEach(parts) == [CapitalizeFirstLetter(parts[0])] + CapitalizeEach(parts[1..])
  {
  }

  /** The character-level form, one character at a time. */
  lemma AfterSlashesCons(s: string, atStart: bool)
    requires |s| > 0
    ensures CapitalizeAfterSlashes(s, atStart)
         == [if atStart then Upper(s[0]) else Lower(s[0])] + CapitalizeAfterSlashes(s[1..], s[0] == Slash)
  {
  }

  /** A leading slash ends the first piece: it is copied and the next piece is capitalized. */
  lemma PiecesAfterSlash(s: string, atStart: bool)
    requires |s| > 0 && s[0] == Slash
    ensures CapitalizePieces(Split(s), atStart) == [Slash] + CapitalizePieces(Split(s[1..]), true)
  {
    var rest := Split(s[1..]);
    SplitConsSlash(s);
    var tail := CapitalizeEach(rest);
    EmptyHeadPieces(Split(s), atStart);
    assert Split(s)[1..] == rest;
    JoinCons("", tail);
    PiecesAtStart(rest);
  }

  /** An empty first piece stays empty whether or not it is capitalized. */
  lemma EmptyHeadPieces(parts: seq<string>, atStart: bool)
    requires |parts| > 0 && parts[0] == ""
    ensures CapitalizePieces(parts, atStart) == Join([""] + CapitalizeEach(parts[1..]))
  {
    assert LowerAll("") == "";
  }

  /** With `atStart`, the pieces are exactly those of `capitalizeFirstLetterPath`. */
  lemma PiecesAtStart(parts: seq<string>)
    requires |parts| > 0
    ensures CapitalizePieces(parts, true) == Join(CapitalizeEach(parts))
  {
    CapitalizeEachCons(parts);
  }

  /** Casing a piece that starts with `c`: `c` is cased by position, the rest lower-cased. */
  lemma FirstPieceCase(c: char, y: string, atStart: bool)
    ensures (if atStart then CapitalizeFirstLetter([c] + y) else LowerAll([c] + y))
         == [if atStart then Upper(c) else Lower(c)] + LowerAll(y)
  {
    assert ([c] + y)[1..] == y;
  }

  /** Any other leading character belongs to the first piece and is cased by its position. */
  lemma PiecesAfterChar(s: string, atStart: bool)
    requires |s| > 0 && s[0] != Slash
    ensures CapitalizePieces(Split(s), atStart)
         == [if atStart then Upper(s[0]) else Lower(s[0])] + CapitalizePieces(Split(s[1..]), false)
  {
    var rest := Split(s[1..]);
    SplitCons(s);
    FirstPieceCase(s[0], rest[0], atStart);
    JoinPrependChar(if atStart then Upper(s[0]) else Lower(s[0]), LowerAll(rest[0]), CapitalizeEach(rest[1..]));
  }

  lemma {:induction false} PiecesMatchCharacters(s: string, atStart: bool)
    ensures CapitalizePieces(Split(s), atStart) == CapitalizeAfterSlashes(s, atStart)
  {
    if |s| > 0 {
      PiecesMatchCharacters(s[1..], s[0] == Slash);
      AfterSlashesCons(s, atStart);
      if s[0] == Slash {
        PiecesAfterSlash(s, atStart);
      } else {
        PiecesAfterChar(s, atStart);
      }
    }
  }

  /**
   * Slashes stay where they are, no slash appears, and characters other than
   * letters are never changed.
   */
  lemma CapitalizePathKeepsSlashesAndNonLetters(s: string)
    ensures |CapitalizePath(s)| == |s|
    ensures forall i :: 0 <= i < |s| ==> (CapitalizePath(s)[i] == Slash <==> s[i] == Slash)
    ensures forall i :: 0 <= i < |s| && !IsLetter(s[i]) ==> CapitalizePath(s)[i] == s[i]
    ensures forall i :: 0 <= i < |s| ==> Lower(CapitalizePath(s)[i]) == Lower(s[i])
    ensures forall i :: 0 <= i < |s| ==> (IsLetter(CapitalizePath(s)[i]) <==> IsLetter(s[i]))
  {
    var r := CapitalizePath(s);
    forall i | 0 <= i < |s|
      ensures r[i] == Slash <==> s[i] == Slash
      ensures !IsLetter(s[i]) ==> r[i] == s[i]
      ensures Lower(r[i]) == Lower(s[i])
      ensures IsLetter(r[i]) <==> IsLetter(s[i])
    {
      assert r[i] == (if i == 0 || s[i - 1] == Slash then Upper(s[i]) else Lower(s[i]));
      CaseMappingFacts(s[i]);
    }
  }

  /**
   * Piece shape: the result has exactly as many `/`-pieces as the subject and
   * each is the corresponding subject piece capitalized, so empty pieces stay
   * empty.
   */
  lemma CapitalizePathPieces(s: string)
    ensures Split(CapitalizePath(s)) == CapitalizeEach(Split(s))
    ensures forall k :: 0 <= k < |Split(s)| ==>
      Split(CapitalizePath(s))[k] == CapitalizeFirstLetter(Split(s)[k])
  {
    var parts := Split(s);
    var caps := CapitalizeEach(parts);
    forall k | 0 <= k < |caps|
      ensures SlashFree(caps[k])
    {
      assert SlashFree(parts[k]);
      forall j | 0 <= j < |caps[k]|
        ensures caps[k][j] != Slash
      {
        assert Lower(caps[k][j]) == Lower(parts[k][j]);
      }
    }
    SplitJoin(caps);
  }

  /** A non-empty subject gives a non-empty folder, and the folder is never `"error"`. */
  lemma CapitalizePathNeverError(s: string)
    ensures |CapitalizePath(s)| == |s|
    ensures CapitalizePath(s) != "error"
  {
    if |s| > 0 {
      assert CapitalizePath(s)[0] == Upper(s[0]);
      assert Upper(s[0]) != 'e';
    }
  }

  /** The subject `invoices/march` becomes the folder `Invoices/March`. */
  lemma CapitalizePathExample()
    ensures CapitalizePath("invoices/march") == "Invoices/March"
  {
    CapitalizePathIsReference("invoices/march");
    InvoicesMarchCharacters("invoices/march");
  }

  /** The split/map/join agrees with the character-level reference. */
  lemma CapitalizePathIsReference(s: string)
    ensures CapitalizePath(s) == CapitalizeAfterSlashes(s, true)
  {
  }

  /**
   * The character walk behind the example; the subject is passed in rather
   * than written out so that the verifier does not unfold the functions on a
   * literal.
   */
  lemma InvoicesMarchCharacters(s: string)
    requires s == "invoices/march"
    ensures CapitalizeAfterSlashes(s, true) == "Invoices/March"
  {
    var r := CapitalizeAfterSlashes(s, true);
    assert r[0] == 'I';
    assert r[1] == 'n';
    assert r[2] == 'v';
    assert r[3] == 'o';
    assert r[4] == 'i';
    assert r[5] == 'c';
    assert r[6] == 'e';
    assert r[7] == 's';
    assert r[8] == '/';
    assert r[9] == 'M';
    assert r[10] == 'a';
    assert r[11] == 'r';
    assert r[12] == 'c';
    assert r[13] == 'h';
  }
}
