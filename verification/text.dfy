/** The string helpers of Go's `strings` package that the transcriber relies on:
    `TrimSpace`, and `Split` on a newline together with its inverse `Join`. */
module Text {

  /** White space as Go's `unicode.IsSpace` defines it. */
  predicate IsSpace(c: char) {
    || c == ' ' || c == '\t' || c == '\n' || c == '\U{0B}' || c == '\U{0C}' || c == '\r'
    || c == '\U{85}' || c == '\U{A0}' || c == '\U{1680}'
    || ('\U{2000}' <= c <= '\U{200A}')
    || c == '\U{2028}' || c == '\U{2029}' || c == '\U{202F}' || c == '\U{205F}' || c == '\U{3000}'
  }

  /** True when `s` has no white space at either end. */
  predicate Trimmed(s: string) {
    |s| == 0 || (!IsSpace(s[0]) && !IsSpace(s[|s| - 1]))
  }

  /** Drops leading white space: the result is the suffix of `s` after the white space prefix. */
  function TrimLeft(s: string): (r: string)
    ensures |r| <= |s| && r == s[|s| - |r|..]
    ensures forall i :: 0 <= i < |s| - |r| ==> IsSpace(s[i])
    ensures |r| > 0 ==> !IsSpace(r[0])
    decreases |s|
  {
    if |s| > 0 && IsSpace(s[0]) then TrimLeft(s[1..]) else s
  }

  /** Drops trailing white space: the result is the prefix of `s` before the white space suffix. */
  function TrimRight(s: string): (r: string)
    ensures |r| <= |s| && r == s[..|r|]
    ensures forall i :: |r| <= i < |s| ==> IsSpace(s[i])
    ensures |r| > 0 ==> !IsSpace(r[|r| - 1])
    decreases |s|
  {
    if |s| > 0 && IsSpace(s[|s| - 1]) then TrimRight(s[..|s| - 1]) else s
  }

  /** Go's `strings.TrimSpace`: drops white space at both ends, leaving a string that is
      empty exactly when `s` is all white space. */
  function TrimSpace(s: string): (r: string)
    ensures Trimmed(r)
    ensures r == [] <==> forall i :: 0 <= i < |s| ==> IsSpace(s[i])
  {
    TrimRight(TrimLeft(s))
  }

  /** `r` sits in `s` at offset `a` with only white space around it. */
  ghost predicate SpaceAround(s: string, r: string, a: int) {
    && 0 <= a <= |s| - |r|
    && r == s[a..a + |r|]
    && (forall i :: 0 <= i < a ==> IsSpace(s[i]))
    && (forall i :: a + |r| <= i < |s| ==> IsSpace(s[i]))
  }

  /** What `TrimSpace` removes is white space only: its result is an infix of `s` with white space around it. */
  lemma TrimSpaceIsInfix(s: string)
    ensures exists a :: SpaceAround(s, TrimSpace(s), a)
  {
    var left := TrimLeft(s);
    var a := |s| - |left|;
    assert left == s[a..];
    var r := TrimSpace(s);
    assert r == TrimRight(left);
    TrimRightOfSuffix(s, a);
    assert SpaceAround(s, r, a);
  }

  /** Right-trimming the suffix of `s` from `a` leaves an infix of `s` followed by white space only. */
  lemma TrimRightOfSuffix(s: string, a: nat)
    requires a <= |s|
    ensures var r := TrimRight(s[a..]);
            && r == s[a..a + |r|]
            && forall i :: a + |r| <= i < |s| ==> IsSpace(s[i])
  {
    var left := s[a..];
    var r := TrimRight(left);
    assert r == left[..|r|];
    forall i | a + |r| <= i < |s|
      ensures IsSpace(s[i])
    {
      assert s[i] == left[i - a];
    }
  }

  /** Trimming a string that is already trimmed changes nothing. */
  lemma TrimSpaceOfTrimmed(s: string)
    requires Trimmed(s)
    ensures TrimSpace(s) == s
  {
    assert TrimLeft(s) == s;
    assert TrimRight(s) == s;
  }

  /** Left trimming is unaffected by a character appended after a non-space character. */
  lemma {:induction false} TrimLeftAppend(s: string, c: char)
    requires exists i :: 0 <= i < |s| && !IsSpace(s[i])
    ensures TrimLeft(s + [c]) == TrimLeft(s) + [c]
    decreases |s|
  {
    if IsSpace(s[0]) {
      var i :| 0 <= i < |s| && !IsSpace(s[i]);
      assert i > 0 && !IsSpace(s[1..][i - 1]);
      assert (s + [c])[1..] == s[1..] + [c];
      TrimLeftAppend(s[1..], c);
    }
  }

  /** One more trailing white space character does not change the trimmed string. */
  lemma TrimSpaceIgnoresTrailingSpace(s: string, c: char)
    requires IsSpace(c)
    ensures TrimSpace(s + [c]) == TrimSpace(s)
  {
    if forall i :: 0 <= i < |s| ==> IsSpace(s[i]) {
      assert forall i :: 0 <= i < |s + [c]| ==> IsSpace((s + [c])[i]);
    } else {
      TrimLeftAppend(s, c);
      var l := TrimLeft(s);
      TrimRightAppendSpace(l, c);
    }
  }

  /** Right trimming drops an appended white space character. */
  lemma TrimRightAppendSpace(s: string, c: char)
    requires IsSpace(c)
    ensures TrimRight(s + [c]) == TrimRight(s)
  {
    assert (s + [c])[..|s|] == s;
  }

  /** Index of the first occurrence of `x` in `s`. */
  function FirstIndex<T(==)>(s: seq<T>, x: T): (i: nat)
    requires x in s
    ensures i < |s| && s[i] == x && x !in s[..i]
  {
    if s[0] == x then 0 else 1 + FirstIndex(s[1..], x)
  }

  /** Go's `strings.Join(parts, string(sep))`. */
  function Join(parts: seq<string>, sep: char): string
  {
    if |parts| == 0 then ""
    else if |parts| == 1 then parts[0]
    else parts[0] + [sep] + Join(parts[1..], sep)
  }

  /** Go's `strings.Split(s, "\n")`: the pieces between newlines, at least one, none holding a newline,
      and joining them back with newlines gives `s` again. */
  function Split(s: string): (parts: seq<string>)
    ensures |parts| >= 1
    ensures forall i :: 0 <= i < |parts| ==> '\n' !in parts[i]
    ensures Join(parts, '\n') == s
    decreases |s|
  {
    if '\n' in s then
      var i := FirstIndex(s, '\n');
      var rest := Split(s[i + 1..]);
      assert ([s[..i]] + rest)[1..] == rest;
      assert s == s[..i] + ['\n'] + s[i + 1..];
      [s[..i]] + rest
    else
      [s]
  }

  /** The other round trip: splitting newline-free pieces joined with newlines gives the pieces back. */
  lemma {:induction false} SplitJoin(parts: seq<string>)
    requires |parts| >= 1
    requires forall i :: 0 <= i < |parts| ==> '\n' !in parts[i]
    ensures Split(Join(parts, '\n')) == parts
  {
    if |parts| > 1 {
      var s := Join(parts, '\n');
      var p := parts[0];
      assert s == p + ['\n'] + Join(parts[1..], '\n');
      assert s[|p|] == '\n' && s[..|p|] == p;
      assert FirstIndex(s, '\n') == |p|;
      assert s[|p| + 1..] == Join(parts[1..], '\n');
      SplitJoin(parts[1..]);
      assert parts == [p] + parts[1..];
    }
  }

  /** The first character of a join is the first character of its first piece. */
  lemma JoinFirst(parts: seq<string>, sep: char)
    requires |parts| >= 1 && |parts[0]| > 0
    ensures |Join(parts, sep)| > 0 && Join(parts, sep)[0] == parts[0][0]
  {
  }

  /** The last character of a join is the last character of its last piece. */
  lemma {:induction false} JoinLast(parts: seq<string>, sep: char)
    requires |parts| >= 1 && |parts[|parts| - 1]| > 0
    ensures var j := Join(parts, sep); |j| > 0 && j[|j| - 1] == parts[|parts| - 1][|parts[|parts| - 1]| - 1]
    decreases |parts|
  {
    if |parts| > 1 {
      JoinLast(parts[1..], sep);
    }
  }
}
