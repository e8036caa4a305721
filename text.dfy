/**
 * The string operations the pipeline applies to cells: Python's `str.strip()`,
 * `str.split(', ')` and `sep.join(parts)`.
 */
module Text {

  /** The delimiter between the values of a multi-valued field. */
  const Delim: string := ", "

  /** Python's `str.isspace` for one character: the characters `str.strip()` removes. */
  predicate IsSpace(c: char) {
    || ('\t' <= c <= '\r')               // tab, line feed, vertical tab, form feed, carriage return
    || ('\U{1C}' <= c <= '\U{1F}')       // file, group, record and unit separators
    || c == ' ' || c == '\U{85}' || c == '\U{A0}' || c == '\U{1680}'
    || ('\U{2000}' <= c <= '\U{200A}')
    || c == '\U{2028}' || c == '\U{2029}' || c == '\U{202F}' || c == '\U{205F}' || c == '\U{3000}'
  }

  /** Every character of `s` from position `lo` up to (not including) `hi` is whitespace. */
  predicate SpaceRun(s: string, lo: int, hi: int)
    requires 0 <= lo <= hi <= |s|
  {
    forall k :: lo <= k < hi ==> IsSpace(s[k])
  }

  /** Neither the first nor the last character is whitespace. */
  predicate IsTrimmed(s: string) {
    s == [] || (!IsSpace(s[0]) && !IsSpace(s[|s| - 1]))
  }

  /** `str.lstrip()`: the suffix left after dropping the leading whitespace. */
  function TrimLeft(s: string): (r: string)
    ensures |r| <= |s| && r == s[|s| - |r|..]
    ensures SpaceRun(s, 0, |s| - |r|)
    ensures r == [] || !IsSpace(r[0])
  {
    if |s| > 0 && IsSpace(s[0]) then
      var r := TrimLeft(s[1..]);
      assert forall k :: 1 <= k < |s| - |r| ==> s[k] == s[1..][k - 1];
      r
    else s
  }

  /** `str.rstrip()`: the prefix left after dropping the trailing whitespace. */
  function TrimRight(s: string): (r: string)
    ensures |r| <= |s| && r == s[..|r|]
    ensures SpaceRun(s, |r|, |s|)
    ensures r == [] || !IsSpace(r[|r| - 1])
  {
    if |s| > 0 && IsSpace(s[|s| - 1]) then
      var init := s[..|s| - 1];
      var r := TrimRight(init);
      assert forall k :: |r| <= k < |init| ==> s[k] == init[k];
      r
    else s
  }

  /** How many whitespace characters `str.strip()` removes from the front of `s`. */
  function LeadingSpaces(s: string): (n: nat)
    ensures n <= |s| && SpaceRun(s, 0, n)
  {
    |s| - |TrimLeft(s)|
  }

  /**
   * `str.strip()`: the infix of `s` that starts after the leading whitespace and
   * ends before the trailing whitespace. Interior whitespace is kept, everything
   * cut off is whitespace, and the result neither starts nor ends with whitespace.
   */
  function Trim(s: string): (r: string)
    ensures var i := LeadingSpaces(s);
      && i + |r| <= |s| && r == s[i..i + |r|]
      && SpaceRun(s, 0, i) && SpaceRun(s, i + |r|, |s|)
    ensures IsTrimmed(r)
  {
    var l := TrimLeft(s);
    var r := TrimRight(l);
    InfixOfSuffix(s, l, r);
    r
  }

  /** A prefix `r` of a suffix `l` of `s` is an infix of `s`, and what follows `r` in `s` is what follows it in `l`. */
  lemma InfixOfSuffix(s: string, l: string, r: string)
    requires |l| <= |s| && l == s[|s| - |l|..]
    requires |r| <= |l| && r == l[..|r|]
    requires SpaceRun(l, |r|, |l|)
    ensures var i := |s| - |l|;
      && r == s[i..i + |r|]
      && SpaceRun(s, i + |r|, |s|)
  {
    var i := |s| - |l|;
    assert forall j :: i + |r| <= j < |s| ==> s[j] == l[j - i];
  }

  /** A string that is already trimmed is left alone by `Trim`. */
  lemma TrimOfTrimmed(s: string)
    requires IsTrimmed(s)
    ensures Trim(s) == s
  {
  }

  /** Stripping twice is stripping once. */
  lemma TrimIdempotent(s: string)
    ensures Trim(Trim(s)) == Trim(s)
  {
    TrimOfTrimmed(Trim(s));
  }

  /** `s` holds the delimiter `", "` somewhere. */
  ghost predicate HasDelim(s: string) {
    exists i :: DelimAt(s, i)
  }

  /** The delimiter `", "` starts at position `i` of `s`. */
  ghost predicate DelimAt(s: string, i: int) {
    0 <= i < |s| - 1 && s[i] == ',' && s[i + 1] == ' '
  }

  /** Dropping the first character of a delimiter-free string keeps it delimiter-free. */
  lemma TailHasNoDelim(p: string)
    requires |p| > 0 && !HasDelim(p)
    ensures !HasDelim(p[1..])
  {
    assert forall i :: DelimAt(p[1..], i) ==> DelimAt(p, i + 1);
  }

  /**
   * Python's `s.split(', ')`: cut `s` at every occurrence of the delimiter,
   * scanning left to right. Never empty; the empty string splits into `[""]`.
   */
  function Split(s: string): (r: seq<string>)
    ensures |r| >= 1
    ensures r[0] <= s
    decreases |s|
  {
    if |s| < 2 then [s]
    else if s[0] == ',' && s[1] == ' ' then [""] + Split(s[2..])
    else
      var rest := Split(s[1..]);
      [[s[0]] + rest[0]] + rest[1..]
  }

  /** `sep.join(parts)`; the join of no parts is the empty string. */
  function Join(parts: seq<string>, sep: string): string
    decreases |parts|
  {
    if |parts| == 0 then ""
    else if |parts| == 1 then parts[0]
    else parts[0] + sep + Join(parts[1..], sep)
  }

  /** Putting a character in front of the first part puts it in front of the join. */
  lemma JoinConsFirst(c: char, parts: seq<string>, sep: string)
    requires |parts| >= 1
    ensures Join([[c] + parts[0]] + parts[1..], sep) == [c] + Join(parts, sep)
  {
    var ps := [[c] + parts[0]] + parts[1..];
    assert ps[1..] == parts[1..];
  }

  /** No piece of a split contains the delimiter. */
  lemma {:induction false} SplitPiecesHaveNoDelim(s: string)
    ensures forall p :: p in Split(s) ==> !HasDelim(p)
    decreases |s|
  {
    if |s| < 2 {
    } else if s[0] == ',' && s[1] == ' ' {
      SplitPiecesHaveNoDelim(s[2..]);
    } else {
      var rest := Split(s[1..]);
      SplitPiecesHaveNoDelim(s[1..]);
      var first := [s[0]] + rest[0];
      assert rest[0] in rest;
      assert |first| >= 2 ==> first[1] == s[1];
      assert forall i :: DelimAt(first, i) ==> DelimAt(rest[0], i - 1);
      forall p | p in Split(s) ensures !HasDelim(p) {
        if p != first {
          assert p in rest[1..];
        }
      }
    }
  }

  /** Joining the pieces of a split with the delimiter gives back the string. */
  lemma {:induction false} JoinSplit(s: string)
    ensures Join(Split(s), Delim) == s
    decreases |s|
  {
    if |s| < 2 {
    } else if s[0] == ',' && s[1] == ' ' {
      assert Split(s) == [""] + Split(s[2..]);
      JoinSplit(s[2..]);
      JoinConsEmpty(Split(s[2..]), Delim);
      assert s == Delim + s[2..];
    } else {
      var rest := Split(s[1..]);
      assert Split(s) == [[s[0]] + rest[0]] + rest[1..];
      JoinSplit(s[1..]);
      JoinConsFirst(s[0], rest, Delim);
      assert s == [s[0]] + s[1..];
    }
  }

  /** A string without the delimiter is one piece. */
  lemma {:induction false} SplitOfPlain(p: string)
    requires !HasDelim(p)
    ensures Split(p) == [p]
    decreases |p|
  {
    if |p| >= 2 {
      assert !DelimAt(p, 0);
      var t := p[1..];
      TailHasNoDelim(p);
      SplitOfPlain(t);
      assert [p[0]] + t == p;
    }
  }

  /** A delimiter-free piece followed by the delimiter is split off as one piece. */
  lemma {:induction false} SplitOfPieceThenDelim(p: string, t: string)
    requires !HasDelim(p)
    ensures Split(p + Delim + t) == [p] + Split(t)
    decreases |p|
  {
    var s := p + Delim + t;
    if |p| == 0 {
      assert s[2..] == t;
    } else {
      var q := p[1..];
      TailHasNoDelim(p);
      if |q| > 0 {
        assert s[1] == p[1];
      } else {
        assert s[1] == ',';
      }
      assert !DelimAt(p, 0) || |q| == 0;
      assert !(s[0] == ',' && s[1] == ' ');
      assert s[1..] == q + Delim + t;
      SplitOfPieceThenDelim(q, t);
      assert [s[0]] + q == p;
    }
  }

  /**
   * Splitting the join of delimiter-free parts gives back the parts: together
   * with `JoinSplit`, `Split` and `Join(_, Delim)` are inverse to each other.
   */
  lemma {:induction false} SplitJoin(parts: seq<string>)
    requires |parts| >= 1
    requires forall p :: p in parts ==> !HasDelim(p)
    ensures Split(Join(parts, Delim)) == parts
    decreases |parts|
  {
    if |parts| == 1 {
      SplitOfPlain(parts[0]);
    } else {
      assert parts[0] in parts;
      assert forall p :: p in parts[1..] ==> p in parts;
      SplitJoin(parts[1..]);
      SplitOfPieceThenDelim(parts[0], Join(parts[1..], Delim));
      assert parts == [parts[0]] + parts[1..];
    }
  }

  /** `s` with every `", "` (left to right) replaced by a single space. */
  function DelimToSpace(s: string): string
    decreases |s|
  {
    if |s| < 2 then s
    else if s[0] == ',' && s[1] == ' ' then " " + DelimToSpace(s[2..])
    else [s[0]] + DelimToSpace(s[1..])
  }

  /** Space-joining the pieces of a split replaces each delimiter by a space. */
  lemma {:induction false} JoinSpaceOfSplit(s: string)
    ensures Join(Split(s), " ") == DelimToSpace(s)
    decreases |s|
  {
    if |s| < 2 {
    } else if s[0] == ',' && s[1] == ' ' {
      assert Split(s) == [""] + Split(s[2..]);
      assert DelimToSpace(s) == " " + DelimToSpace(s[2..]);
      JoinSpaceOfSplit(s[2..]);
      JoinConsEmpty(Split(s[2..]), " ");
    } else {
      var rest := Split(s[1..]);
      assert Split(s) == [[s[0]] + rest[0]] + rest[1..];
      assert DelimToSpace(s) == [s[0]] + DelimToSpace(s[1..]);
      JoinSpaceOfSplit(s[1..]);
      JoinConsFirst(s[0], rest, " ");
    }
  }

  /** An empty first part leaves just the separator in front of the join of the rest. */
  lemma JoinConsEmpty(parts: seq<string>, sep: string)
    requires |parts| >= 1
    ensures Join([""] + parts, sep) == sep + Join(parts, sep)
  {
    var ps := [""] + parts;
    assert ps[1..] == parts;
  }

  /** Joining two non-empty lists of parts puts one separator between their joins. */
  lemma {:induction false} JoinAppend(a: seq<string>, b: seq<string>, sep: string)
    requires |a| >= 1 && |b| >= 1
    ensures Join(a + b, sep) == Join(a, sep) + sep + Join(b, sep)
    decreases |a|
  {
    if |a| == 1 {
      assert (a + b)[1..] == b;
    } else {
      JoinAppend(a[1..], b, sep);
      assert (a + b)[1..] == a[1..] + b;
    }
  }
}
