/**
 * `String.prototype.split("/")` and `Array.prototype.join("/")`, the two
 * string operations every path manipulation of the program is built on.
 */
module Segments {

  const Slash: char := '/'

  predicate SlashFree(s: string)
  {
    forall j :: 0 <= j < |s| ==> s[j] != Slash
  }

  predicate AllSlashFree(parts: seq<string>)
  {
    forall k :: 0 <= k < |parts| ==> SlashFree(parts[k])
  }

  /** Number of slashes in `s`. */
  function SlashCount(s: string): nat
  {
    if |s| == 0 then 0 else (if s[0] == Slash then 1 else 0) + SlashCount(s[1..])
  }

  /**
   * `s.split("/")`: the pieces between slashes. There is always one more
   * piece than there are slashes, so the empty string splits into `[""]`.
   */
  function Split(s: string): (parts: seq<string>)
    ensures |parts| == SlashCount(s) + 1
    ensures AllSlashFree(parts)
  {
    if |s| == 0 then [""]
    else
      var rest := Split(s[1..]);
      if s[0] == Slash then [""] + rest
      else [[s[0]] + rest[0]] + rest[1..]
  }

  /** `parts.join("/")`; joining no pieces gives the empty string. */
  function Join(parts: seq<string>): string
  {
    if |parts| == 0 then ""
    else if |parts| == 1 then parts[0]
    else parts[0] + [Slash] + Join(parts[1..])
  }

  /** A leading character other than a slash starts the first piece. */
  lemma SplitCons(s: string)
    requires |s| > 0 && s[0] != Slash
    ensures Split(s)[0] == [s[0]] + Split(s[1..])[0]
    ensures Split(s)[1..] == Split(s[1..])[1..]
  {
  }

  /** Joining a piece in front of a non-empty list puts one slash between them. */
  lemma JoinCons(x: string, tail: seq<string>)
    requires |tail| > 0
    ensures Join([x] + tail) == x + [Slash] + Join(tail)
  {
    assert ([x] + tail)[1..] == tail;
  }

  /** Splitting and joining again gives back the original string. */
  lemma {:induction false} JoinSplit(s: string)
    ensures Join(Split(s)) == s
  {
    if |s| > 0 {
      var rest := Split(s[1..]);
      JoinSplit(s[1..]);
      if s[0] == Slash {
        JoinCons("", rest);
        assert s == [Slash] + s[1..];
      } else if |rest| == 1 {
        assert s == [s[0]] + s[1..];
      } else {
        JoinCons([s[0]] + rest[0], rest[1..]);
        JoinCons(rest[0], rest[1..]);
        assert rest == [rest[0]] + rest[1..];
        assert s == [s[0]] + s[1..];
      }
    }
  }

  /** A string without slashes is a single piece. */
  lemma {:induction false} SplitSlashFree(x: string)
    requires SlashFree(x)
    ensures Split(x) == [x]
  {
    if |x| > 0 {
      SplitSlashFree(x[1..]);
      assert x == [x[0]] + x[1..];
    }
  }

  /** A leading slash ends an empty first piece. */
  lemma SplitConsSlash(s: string)
    requires |s| > 0 && s[0] == Slash
    ensures Split(s) == [""] + Split(s[1..])
  {
  }

  /** Splitting `a + "/" + b` gives the pieces of `a` followed by those of `b`. */
  lemma {:induction false} SplitAppend(a: string, b: string)
    ensures Split(a + [Slash] + b) == Split(a) + Split(b)
    decreases |a|
  {
    var s := a + [Slash] + b;
    if |a| == 0 {
      assert s == [Slash] + b;
      SplitConsSlash(s);
      assert s[1..] == b;
    } else {
      assert s[1..] == a[1..] + [Slash] + b;
      SplitAppend(a[1..], b);
      var ra := Split(a[1..]);
      var rb := Split(b);
      if a[0] == Slash {
        SplitConsSlash(a);
        SplitConsSlash(s);
      } else {
        SplitCons(a);
        SplitCons(s);
        SplitPrependToFirst(a[0], ra, rb);
      }
    }
  }

  /** Extending the first piece of `ra + rb` extends the first piece of `ra`. */
  lemma SplitPrependToFirst(c: char, ra: seq<string>, rb: seq<string>)
    requires |ra| > 0
    ensures [[c] + (ra + rb)[0]] + (ra + rb)[1..] == ([[c] + ra[0]] + ra[1..]) + rb
  {
    assert (ra + rb)[1..] == ra[1..] + rb;
  }

  /** Two slash-free pieces around one slash split back into those pieces. */
  lemma SplitTwo(first: string, second: string)
    requires SlashFree(first) && SlashFree(second)
    ensures Split(first + [Slash] + second) == [first, second]
  {
    SplitAppend(first, second);
    SplitSlashFree(first);
    SplitSlashFree(second);
  }

  /** Joining slash-free pieces and splitting again gives back the pieces. */
  lemma {:induction false} SplitJoin(parts: seq<string>)
    requires |parts| > 0
    requires AllSlashFree(parts)
    ensures Split(Join(parts)) == parts
  {
    assert SlashFree(parts[0]);
    SplitSlashFree(parts[0]);
    if |parts| > 1 {
      SplitJoin(parts[1..]);
      SplitAppend(parts[0], Join(parts[1..]));
      assert parts == [parts[0]] + parts[1..];
    }
  }

  /** Joining two non-empty lists puts one slash between their joins. */
  lemma {:induction false} JoinAppend(a: seq<string>, b: seq<string>)
    requires |a| > 0 && |b| > 0
    ensures Join(a + b) == Join(a) + [Slash] + Join(b)
  {
    if |a| == 1 {
      JoinCons(a[0], b);
      assert a + b == [a[0]] + b;
    } else {
      JoinAppend(a[1..], b);
      assert (a + b)[1..] == a[1..] + b;
    }
  }

  /** The joined string begins with its first piece. */
  lemma JoinStartsWithFirst(parts: seq<string>)
    requires |parts| > 0
    ensures |parts[0]| <= |Join(parts)|
    ensures Join(parts)[..|parts[0]|] == parts[0]
  {
  }
}
