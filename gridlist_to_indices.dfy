/**
 * The grid-index resolver: for each line "<lon> <lat>" of a gridlist, the
 * positions of those coordinates in the dataset's longitude and latitude
 * arrays. Coordinates are values of any type with equality; converting a
 * token to a coordinate (Python's `float`) is a parameter of the model.
 */
module GridlistToIndices {
  import opened Wrappers

  // ---------------------------------------------------------------------
  // index_of
  // ---------------------------------------------------------------------

  /** The first position of `needle` in `haystack`, or -1 when it is absent. */
  function FirstIndex<T(==)>(needle: T, haystack: seq<T>): int
  {
    if haystack == [] then -1
    else if haystack[0] == needle then 0
    else
      var r := FirstIndex(needle, haystack[1..]);
      if r < 0 then -1 else r + 1
  }

  /**
   * FirstIndex finds the earliest match: a non-negative result holds the
   * needle with no earlier copy, and -1 means the needle occurs nowhere.
   */
  lemma {:induction false} FirstIndexSpec<T>(needle: T, haystack: seq<T>)
    ensures var r := FirstIndex(needle, haystack);
      && -1 <= r < |haystack|
      && (r >= 0 ==> haystack[r] == needle && forall j :: 0 <= j < r ==> haystack[j] != needle)
      && (r == -1 <==> needle !in haystack)
  {
    if haystack != [] && haystack[0] != needle {
      var rest := haystack[1..];
      FirstIndexSpec(needle, rest);
      assert haystack == [haystack[0]] + rest;
      var r := FirstIndex(needle, rest);
      if r >= 0 {
        forall j | 0 <= j < r + 1 ensures haystack[j] != needle {
          if j > 0 { assert haystack[j] == rest[j - 1]; }
        }
      }
    }
  }

  /** The loop of `index_of`: the first position holding `needle`, or -1. */
  method IndexOf<T(==)>(needle: T, haystack: seq<T>) returns (r: int)
    ensures -1 <= r < |haystack|
    ensures r >= 0 ==> haystack[r] == needle
    ensures r >= 0 ==> forall j :: 0 <= j < r ==> haystack[j] != needle
    ensures r == -1 <==> needle !in haystack
    ensures r == FirstIndex(needle, haystack)
  {
    FirstIndexSpec(needle, haystack);
    var i := 0;
    while i < |haystack|
      invariant 0 <= i <= |haystack|
      invariant forall j :: 0 <= j < i ==> haystack[j] != needle
    {
      if needle == haystack[i] {
        return i;
      }
      i := i + 1;
    }
    return -1;
  }

  // ---------------------------------------------------------------------
  // str.split() with no separator
  // ---------------------------------------------------------------------

  /** The characters Python's `str.split()` treats as whitespace. */
  predicate IsSpace(c: char)
  {
    || c == ' '
    || ('\t' <= c <= '\r')
    || ('\U{1C}' <= c <= '\U{1F}')
    || c == '\U{85}' || c == '\U{A0}' || c == '\U{1680}'
    || ('\U{2000}' <= c <= '\U{200A}')
    || c == '\U{2028}' || c == '\U{2029}' || c == '\U{202F}' || c == '\U{205F}' || c == '\U{3000}'
  }

  /** A word `split()` can produce: non-empty and free of whitespace. */
  predicate IsToken(t: string)
  {
    |t| > 0 && forall k :: 0 <= k < |t| ==> !IsSpace(t[k])
  }

  /** The length of the leading run of non-whitespace characters. */
  function TokenLength(s: string): (n: nat)
    ensures n <= |s|
    ensures forall k :: 0 <= k < n ==> !IsSpace(s[k])
    ensures n < |s| ==> IsSpace(s[n])
  {
    if s == [] || IsSpace(s[0]) then 0 else 1 + TokenLength(s[1..])
  }

  /**
   * Python's `s.split()`: the maximal runs of non-whitespace characters, in
   * order; leading, trailing and repeated whitespace produce nothing.
   */
  function Split(s: string): (tokens: seq<string>)
    ensures forall k :: 0 <= k < |tokens| ==> IsToken(tokens[k])
    decreases |s|
  {
    if s == [] then []
    else if IsSpace(s[0]) then Split(s[1..])
    else
      var n := TokenLength(s);
      [s[..n]] + Split(s[n..])
  }

  /** Joins tokens with one space between neighbours. */
  function JoinWithSpaces(tokens: seq<string>): string
  {
    if |tokens| == 0 then []
    else if |tokens| == 1 then tokens[0]
    else tokens[0] + " " + JoinWithSpaces(tokens[1..])
  }

  /** The leading run of a token followed by whitespace is the token itself. */
  lemma {:induction false} TokenLengthAtSpace(x: string, y: string)
    requires forall k :: 0 <= k < |x| ==> !IsSpace(x[k])
    requires y == [] || IsSpace(y[0])
    ensures TokenLength(x + y) == |x|
  {
    if x != [] {
      assert (x + y)[1..] == x[1..] + y;
      TokenLengthAtSpace(x[1..], y);
    } else {
      assert x + y == y;
    }
  }

  /** Appending text that starts with whitespace does not lengthen the leading run. */
  lemma TokenLengthExtends(x: string, y: string)
    requires |y| > 0 && IsSpace(y[0])
    ensures TokenLength(x + y) == TokenLength(x)
  {
    var n := TokenLength(x);
    assert x + y == x[..n] + (x[n..] + y);
    TokenLengthAtSpace(x[..n], x[n..] + y);
  }

  /** Cutting at a whitespace character splits the two sides separately. */
  lemma {:induction false} SplitAtSpace(x: string, y: string)
    requires |y| > 0 && IsSpace(y[0])
    ensures Split(x + y) == Split(x) + Split(y)
    decreases |x|
  {
    var xy := x + y;
    if x == [] {
      assert xy == y;
    } else if IsSpace(x[0]) {
      assert xy[0] == x[0] && xy[1..] == x[1..] + y;
      SplitAtSpace(x[1..], y);
    } else {
      var n := TokenLength(x);
      TokenLengthExtends(x, y);
      assert xy[0] == x[0];
      assert Split(xy) == [xy[..n]] + Split(xy[n..]);
      assert Split(x) == [x[..n]] + Split(x[n..]);
      assert xy[..n] == x[..n];
      assert xy[n..] == x[n..] + y;
      SplitAtSpace(x[n..], y);
    }
  }

  /** A token splits into itself. */
  lemma SplitToken(t: string)
    requires IsToken(t)
    ensures Split(t) == [t]
  {
    TokenLengthAtSpace(t, []);
    assert t + [] == t;
    assert t[..|t|] == t && t[|t|..] == [];
  }

  /** Whitespace alone splits into nothing. */
  lemma {:induction false} SplitBlank(s: string)
    requires forall k :: 0 <= k < |s| ==> IsSpace(s[k])
    ensures Split(s) == []
    decreases |s|
  {
    if s != [] {
      SplitBlank(s[1..]);
    }
  }

  /** Splitting undoes joining with single spaces. */
  lemma {:induction false} SplitJoinRoundTrip(tokens: seq<string>)
    requires forall k :: 0 <= k < |tokens| ==> IsToken(tokens[k])
    ensures Split(JoinWithSpaces(tokens)) == tokens
  {
    if |tokens| == 1 {
      SplitToken(tokens[0]);
    } else if |tokens| > 1 {
      var first, others := tokens[0], tokens[1..];
      var rest := JoinWithSpaces(others);
      var gap := " " + rest;
      assert JoinWithSpaces(tokens) == first + gap;
      SplitAtSpace(first, gap);
      SplitToken(first);
      assert gap[0] == ' ' && gap[1..] == rest;
      assert Split(gap) == Split(rest);
      SplitJoinRoundTrip(others);
      assert tokens == [first] + others;
    }
  }


  /** The whitespace-free characters of s, in order. */
  function NonSpace(s: string): string
  {
    if s == [] then [] else (if IsSpace(s[0]) then [] else [s[0]]) + NonSpace(s[1..])
  }

  /** The tokens laid end to end. */
  function Concat(tokens: seq<string>): string
  {
    if tokens == [] then [] else tokens[0] + Concat(tokens[1..])
  }

  /** NonSpace distributes over concatenation. */
  lemma {:induction false} NonSpaceAppend(x: string, y: string)
    ensures NonSpace(x + y) == NonSpace(x) + NonSpace(y)
  {
    if x == [] {
      assert x + y == y;
    } else {
      assert (x + y)[1..] == x[1..] + y;
      NonSpaceAppend(x[1..], y);
    }
  }

  /** A run without whitespace is kept whole. */
  lemma {:induction false} NonSpaceOfRun(t: string)
    requires forall k :: 0 <= k < |t| ==> !IsSpace(t[k])
    ensures NonSpace(t) == t
  {
    if t != [] {
      NonSpaceOfRun(t[1..]);
    }
  }

  /** Splitting loses only whitespace: the tokens together hold every other character, in order. */
  lemma {:induction false} SplitKeepsContent(s: string)
    ensures Concat(Split(s)) == NonSpace(s)
    decreases |s|
  {
    if s != [] {
      if IsSpace(s[0]) {
        SplitKeepsContent(s[1..]);
      } else {
        var n := TokenLength(s);
        var tokens := Split(s);
        assert tokens[0] == s[..n] && tokens[1..] == Split(s[n..]);
        SplitKeepsContent(s[n..]);
        assert s == s[..n] + s[n..];
        NonSpaceAppend(s[..n], s[n..]);
        NonSpaceOfRun(s[..n]);
      }
    }
  }

  // ---------------------------------------------------------------------
  // traverse
  // ---------------------------------------------------------------------

  /** The positions printed for one line: "<lon_index> <lat_index>". */
  datatype IndexPair = IndexPair(lonIndex: int, latIndex: int)

  /** Why a gridlist line stops the run. */
  datatype LineError =
    | WrongTokenCount(line: string, count: nat)   // the line does not unpack into (lon, lat)
    | NotANumber(token: string)                   // a token the coordinate parser rejects

  /** What one line of the gridlist does. */
  datatype Step = Skipped | Emitted(pair: IndexPair) | Failed(error: LineError)

  /** Lines that `traverse` passes over: the empty line and a lone newline. */
  predicate IsBlank(line: string)
  {
    |line| < 1 || line == "\n"
  }

  /**
   * One iteration of `traverse`: skip a blank line; otherwise the line must
   * split into exactly two tokens, which are parsed (longitude first) and
   * looked up in the coordinate arrays.
   */
  function ProcessLine<T(==)>(line: string, lons: seq<T>, lats: seq<T>, parse: string -> Option<T>): Step
  {
    if IsBlank(line) then Skipped
    else
      var tokens := Split(line);
      if |tokens| != 2 then Failed(WrongTokenCount(line, |tokens|))
      else match parse(tokens[0])
        case None => Failed(NotANumber(tokens[0]))
        case Some(lon) =>
          match parse(tokens[1])
          case None => Failed(NotANumber(tokens[1]))
          case Some(lat) => Emitted(IndexPair(FirstIndex(lon, lons), FirstIndex(lat, lats)))
  }

  /** What a run prints before it ends, and the error that ended it, if any. */
  datatype Run = Run(printed: seq<IndexPair>, failure: Option<LineError>)

  /** The whole of `traverse` over the lines of a gridlist. */
  function TraverseLines<T(==)>(lines: seq<string>, lons: seq<T>, lats: seq<T>, parse: string -> Option<T>): Run
  {
    if lines == [] then Run([], None)
    else match ProcessLine(lines[0], lons, lats, parse)
      case Skipped => TraverseLines(lines[1..], lons, lats, parse)
      case Failed(e) => Run([], Some(e))
      case Emitted(p) =>
        var rest := TraverseLines(lines[1..], lons, lats, parse);
        Run([p] + rest.printed, rest.failure)
  }

  /** The lines that are not blank, in order. */
  function NonBlank(lines: seq<string>): (kept: seq<string>)
    ensures |kept| <= |lines|
    ensures forall k :: 0 <= k < |kept| ==> !IsBlank(kept[k])
  {
    if lines == [] then []
    else (if IsBlank(lines[0]) then [] else [lines[0]]) + NonBlank(lines[1..])
  }

  /**
   * A run that ends without error prints exactly one pair per non-blank
   * line, in input order, each the result of that line.
   */
  lemma {:induction false} OnePairPerLine<T>(lines: seq<string>, lons: seq<T>, lats: seq<T>, parse: string -> Option<T>)
    requires TraverseLines(lines, lons, lats, parse).failure.None?
    ensures var run := TraverseLines(lines, lons, lats, parse);
      var kept := NonBlank(lines);
      && |run.printed| == |kept|
      && forall k :: 0 <= k < |kept| ==> ProcessLine(kept[k], lons, lats, parse) == Emitted(run.printed[k])
  {
    if lines != [] {
      OnePairPerLine(lines[1..], lons, lats, parse);
      var rest := TraverseLines(lines[1..], lons, lats, parse);
      var keptRest := NonBlank(lines[1..]);
      if !IsBlank(lines[0]) {
        var run := TraverseLines(lines, lons, lats, parse);
        var kept := NonBlank(lines);
        assert kept == [lines[0]] + keptRest;
        forall k | 0 <= k < |kept|
          ensures ProcessLine(kept[k], lons, lats, parse) == Emitted(run.printed[k])
        {
          if k > 0 { assert kept[k] == keptRest[k - 1] && run.printed[k] == rest.printed[k - 1]; }
        }
      } else {
        assert NonBlank(lines) == keptRest;
      }
    }
  }

  /**
   * A run that fails stops at the first line that fails: it prints what the
   * lines before it print, and nothing after it.
   */
  lemma {:induction false} StopsAtFirstFailure<T>(lines: seq<string>, lons: seq<T>, lats: seq<T>, parse: string -> Option<T>)
    requires TraverseLines(lines, lons, lats, parse).failure.Some?
    ensures var run := TraverseLines(lines, lons, lats, parse);
      exists p :: 0 <= p < |lines|
        && ProcessLine(lines[p], lons, lats, parse) == Failed(run.failure.value)
        && TraverseLines(lines[..p], lons, lats, parse) == Run(run.printed, None)
  {
    var run := TraverseLines(lines, lons, lats, parse);
    var step := ProcessLine(lines[0], lons, lats, parse);
    if step.Failed? {
      assert lines[..0] == [];
      assert ProcessLine(lines[0], lons, lats, parse) == Failed(run.failure.value);
    } else {
      var tail := lines[1..];
      StopsAtFirstFailure(tail, lons, lats, parse);
      var rest := TraverseLines(tail, lons, lats, parse);
      var p :| 0 <= p < |tail|
        && ProcessLine(tail[p], lons, lats, parse) == Failed(rest.failure.value)
        && TraverseLines(tail[..p], lons, lats, parse) == Run(rest.printed, None);
      assert lines[..p + 1][1..] == tail[..p];
      assert lines[..p + 1][0] == lines[0];
      assert lines[p + 1] == tail[p];
    }
  }

  /**
   * The loop of `traverse`: prints one pair per non-blank line and stops at
   * the first line that does not split into two coordinates.
   */
  method Traverse<T(==)>(lines: seq<string>, lons: seq<T>, lats: seq<T>, parse: string -> Option<T>)
    returns (printed: seq<IndexPair>, failure: Option<LineError>)
    ensures Run(printed, failure) == TraverseLines(lines, lons, lats, parse)
  {
    printed := [];
    var i := 0;
    while i < |lines|
      invariant 0 <= i <= |lines|
      invariant var rest := TraverseLines(lines[i..], lons, lats, parse);
        TraverseLines(lines, lons, lats, parse) == Run(printed + rest.printed, rest.failure)
    {
      var line := lines[i];
      assert lines[i..][0] == line && lines[i..][1..] == lines[i + 1..];
      if |line| < 1 || line == "\n" {
        i := i + 1;
        continue;
      }
      var tokens := Split(line);
      if |tokens| != 2 {
        return printed, Some(WrongTokenCount(line, |tokens|));
      }
      var lon := parse(tokens[0]);
      if lon.None? {
        return printed, Some(NotANumber(tokens[0]));
      }
      var ilon := IndexOf(lon.value, lons);
      var lat := parse(tokens[1]);
      if lat.None? {
        return printed, Some(NotANumber(tokens[1]));
      }
      var ilat := IndexOf(lat.value, lats);
      printed := printed + [IndexPair(ilon, ilat)];
      i := i + 1;
    }
    assert lines[i..] == [];
    failure := None;
  }

  // ---------------------------------------------------------------------
  // How particular lines fare
  // ---------------------------------------------------------------------

  /**
   * A line of two coordinate tokens and a newline yields the first
   * positions of the parsed coordinates (-1 for a coordinate that is absent).
   */
  lemma TwoTokenLineEmits<T>(lon: string, lat: string, lons: seq<T>, lats: seq<T>, parse: string -> Option<T>)
    requires IsToken(lon) && IsToken(lat)
    requires parse(lon).Some? && parse(lat).Some?
    ensures ProcessLine(lon + " " + lat + "\n", lons, lats, parse)
         == Emitted(IndexPair(FirstIndex(parse(lon).value, lons), FirstIndex(parse(lat).value, lats)))
  {
    var line := lon + " " + lat + "\n";
    SplitLine([lon, lat]);
    assert |line| > 1;
  }

  /** A line of three tokens is an error: the extra token is not ignored. */
  lemma ExtraTokenFails<T>(lon: string, lat: string, extra: string, lons: seq<T>, lats: seq<T>, parse: string -> Option<T>)
    requires IsToken(lon) && IsToken(lat) && IsToken(extra)
    ensures var line := lon + " " + lat + " " + extra + "\n";
      ProcessLine(line, lons, lats, parse) == Failed(WrongTokenCount(line, 3))
  {
    var line := lon + " " + lat + " " + extra + "\n";
    SplitLine([lon, lat, extra]);
    assert JoinWithSpaces([lon, lat, extra]) + "\n" == line by {
      assert [lon, lat, extra][1..] == [lat, extra];
      assert [lat, extra][1..] == [extra];
      assert JoinWithSpaces([lat, extra]) == lat + " " + extra;
      assert JoinWithSpaces([lon, lat, extra]) == lon + " " + (lat + " " + extra);
    }
    assert |line| > 1;
  }

  /** A line of nothing but whitespace that is not skipped is an error. */
  lemma WhitespaceLineFails<T>(line: string, lons: seq<T>, lats: seq<T>, parse: string -> Option<T>)
    requires !IsBlank(line)
    requires forall k :: 0 <= k < |line| ==> IsSpace(line[k])
    ensures ProcessLine(line, lons, lats, parse) == Failed(WrongTokenCount(line, 0))
  {
    SplitBlank(line);
  }

  /** Joined tokens ending in a newline split back into the tokens. */
  lemma SplitLine(tokens: seq<string>)
    requires |tokens| > 0
    requires forall k :: 0 <= k < |tokens| ==> IsToken(tokens[k])
    ensures Split(JoinWithSpaces(tokens) + "\n") == tokens
  {
    SplitAtSpace(JoinWithSpaces(tokens), "\n");
    SplitBlank("\n");
    SplitJoinRoundTrip(tokens);
  }
}
